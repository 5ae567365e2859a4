/** The order in which the clusters are merged (scripts/merge_duplicate_persons.py:292, 379-401). */
module PersonMergeOrder {
  import opened Persons
  import opened PersonMerge
  import opened PersonRecovery

  lemma MovedHas(refs: map<RefId, Ref>, source: Id, target: Id, kind: Kind)
    requires source != target
    ensures var b := Moved(refs, refs.Keys, source, target);
            && Ref(source, kind) !in b.Values
            && (Ref(target, kind) in b.Values <==> Ref(source, kind) in refs.Values || Ref(target, kind) in refs.Values)
  {
    var b := Moved(refs, refs.Keys, source, target);
    if Ref(target, kind) in refs.Values {
      var r :| r in refs && refs[r] == Ref(target, kind);
      assert r in b && b[r] == refs[r];
    } else if Ref(source, kind) in refs.Values {
      var r :| r in refs && refs[r] == Ref(source, kind);
      assert r in b && b[r] == Ref(target, kind);
    }
  }

  /** The same merge keeps two databases alike for a person. */
  lemma MergedSame(a: Db, b: Db, source: Id, target: Id, x: Id)
    requires source in a.people && source in b.people && source != target
    requires SameFor(a, b, source) && SameFor(a, b, target) && SameFor(a, b, x)
    ensures SameFor(Merged(a, source, target), Merged(b, source, target), x)
  {
    if x == source || x == target {
      forall kind
        ensures Ref(x, kind) in Merged(a, source, target).refs.Values
           <==> Ref(x, kind) in Merged(b, source, target).refs.Values
      {
        MovedHas(a.refs, source, target, kind);
        MovedHas(b.refs, source, target, kind);
      }
    } else {
      MergedElsewhere(a, source, target, x);
      MergedElsewhere(b, source, target, x);
    }
  }

  /** The counters advance from `t` to `t'` as they do from `u` to `u'`. */
  predicate SameCounts(t: Tally, t': Tally, u: Tally, u': Tally) {
    && t'.merged - t.merged == u'.merged - u.merged
    && t'.skipped - t.skipped == u'.skipped - u.skipped
    && t'.errors - t.errors == u'.errors - u.errors
  }

  /** What a cluster adds to the counters depends on its own people alone. */
  lemma {:induction false} MembersCount(t: Tally, u: Tally, members: seq<Candidate>, survivor: Id, fate: Id -> Fate)
    requires SameFor(t.db, u.db, survivor) && forall m :: m in members ==> SameFor(t.db, u.db, m.id)
    ensures SameCounts(t, RunMembers(t, members, survivor, fate), u, RunMembers(u, members, survivor, fate))
    decreases |members|
  {
    if members != [] {
      var m, rest := members[0].id, members[1..];
      assert members[0] in members;
      hide Merged, Refused;
      if m == survivor {
        MembersCount(t, u, rest, survivor, fate);
      } else if !Mergeable(t.db, m) {
        MembersCount(t.(skipped := t.skipped + 1), u.(skipped := u.skipped + 1), rest, survivor, fate);
      } else {
        SameRefused(t.db, u.db, m, survivor, fate(m));
        if !Refused(t.db, m, survivor, fate(m)) && !fate(m).FailsAfterCommit? {
          var t' := t.(db := Merged(t.db, m, survivor), merged := t.merged + 1);
          var u' := u.(db := Merged(u.db, m, survivor), merged := u.merged + 1);
          hide Mergeable, SameFor;
          MergedSame(t.db, u.db, m, survivor, survivor);
          forall x | x in rest ensures SameFor(t'.db, u'.db, x.id) {
            MergedSame(t.db, u.db, m, survivor, x.id);
          }
          MembersCount(t', u', rest, survivor, fate);
        }
      }
    }
  }

  /** A cluster counts the same after another one with nobody in common. */
  lemma ClusterCount(t: Tally, c: Cluster, d: Cluster, fate: Id -> Fate)
    requires IdsOf(c) !! IdsOf(d)
    ensures var u := RunCluster(t, d, fate); SameCounts(t, RunCluster(t, c, fate), u, RunCluster(u, c, fate))
  {
    var u := RunCluster(t, d, fate);
    if c.survivor.Some? && d.survivor.Some? {
      var s := c.survivor.value.id;
      MembersInIds(c);
      MembersInIds(d);
      RunMembersDb(t, d.members, d.survivor.value.id, fate);
      hide IdsOf, SameFor, RunMembers, After;
      AfterElsewhere(t.db, d.members, d.survivor.value.id, fate, s);
      forall m | m in c.members ensures SameFor(t.db, u.db, m.id) {
        AfterElsewhere(t.db, d.members, d.survivor.value.id, fate, m.id);
      }
      MembersCount(t, u, c.members, s, fate);
    }
  }

  lemma ClustersCommute(t: Tally, c: Cluster, d: Cluster, fate: Id -> Fate)
    requires IdsOf(c) !! IdsOf(d)
    ensures RunCluster(RunCluster(t, c, fate), d, fate) == RunCluster(RunCluster(t, d, fate), c, fate)
  {
    ClusterCount(t, c, d, fate);
    ClusterCount(t, d, c, fate);
    ClusterDb(t, c, fate);
    ClusterDb(t, d, fate);
    ClusterDb(RunCluster(t, c, fate), d, fate);
    ClusterDb(RunCluster(t, d, fate), c, fate);
    MembersInIds(c);
    if c.survivor.Some? {
      AfterCommute(t.db, c.members, c.survivor.value.id, fate, d, fate);
    }
    hide IdsOf, RunCluster, After;
  }

  lemma ClusterDb(t: Tally, c: Cluster, fate: Id -> Fate)
    ensures RunCluster(t, c, fate).db == AfterCluster(t.db, c, fate)
  {
    if c.survivor.Some? {
      RunMembersDb(t, c.members, c.survivor.value.id, fate);
    }
  }

  /** A cluster may be taken before all those with which it has nobody in common. */
  lemma {:induction false} MoveToFront(t: Tally, clusters: seq<Cluster>, i: nat, fate: Id -> Fate)
    requires i < |clusters| && forall k :: 0 <= k < i ==> IdsOf(clusters[k]) !! IdsOf(clusters[i])
    ensures Run(t, clusters, fate) == Run(RunCluster(t, clusters[i], fate), clusters[..i] + clusters[i + 1..], fate)
    decreases i
  {
    hide RunCluster, IdsOf;
    if i == 0 {
      assert clusters[..0] + clusters[1..] == clusters[1..];
    } else {
      var c, d, rest := clusters[i], clusters[0], clusters[1..];
      assert rest[i - 1] == c && forall k :: 0 <= k < i - 1 ==> rest[k] == clusters[k + 1];
      MoveToFront(RunCluster(t, d, fate), rest, i - 1, fate);
      ClustersCommute(t, c, d, fate);
      var others := clusters[..i] + clusters[i + 1..];
      assert others[0] == d && others[1..] == rest[..i - 1] + rest[i..];
    }
  }

  lemma WithoutOne<T>(s: seq<T>, i: nat)
    requires i < |s|
    ensures multiset(s) == multiset{s[i]} + multiset(s[..i] + s[i + 1..])
  {
    assert s == s[..i] + [s[i]] + s[i + 1..];
  }

  lemma Cancel<T>(x: T, a: multiset<T>, b: multiset<T>)
    requires multiset{x} + a == multiset{x} + b
    ensures a == b
  {
    assert a == (multiset{x} + a) - multiset{x} && b == (multiset{x} + b) - multiset{x};
  }

  /** Whatever the order of the clusters, the run leaves the same database and the same counters. */
  lemma {:induction false} OrderIrrelevant(t: Tally, clusters: seq<Cluster>, reordered: seq<Cluster>, fate: Id -> Fate)
    requires Disjoint(clusters) && multiset(clusters) == multiset(reordered)
    ensures Run(t, clusters, fate) == Run(t, reordered, fate)
    decreases |clusters|
  {
    if clusters == [] {
      assert |multiset(reordered)| == 0;
    } else {
      var c, rest := clusters[0], clusters[1..];
      assert clusters == [c] + rest;
      assert c in multiset(reordered);
      var i :| 0 <= i < |reordered| && reordered[i] == c;
      var others := reordered[..i] + reordered[i + 1..];
      WithoutOne(reordered, i);
      Cancel(c, multiset(rest), multiset(others));
      DisjointTail(clusters);
      hide IdsOf, Disjoint, RunCluster;
      forall k | 0 <= k < i ensures IdsOf(reordered[k]) !! IdsOf(c) {
        assert reordered[k] == others[k] && others[k] in multiset(others) && others[k] in rest;
      }
      MoveToFront(t, reordered, i, fate);
      OrderIrrelevant(RunCluster(t, c, fate), rest, others, fate);
    }
  }
}

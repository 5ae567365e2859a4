/** What the three counters of `apply_merges` count, told from the people before and after
    the run (scripts/merge_duplicate_persons.py:373-402). */
module PersonCounters {
  import opened Options
  import opened Persons
  import opened PersonMerge
  import opened PersonRecovery

  /** Line 390, read the other way round: there, active, and not archived. */
  predicate Live(db: Db, x: Id) {
    x in db.people && db.people[x].isActive && db.people[x].status != Archived
  }

  /** Merged away between `a` and `b`, by a merge that did not raise afterwards. */
  function MergedQuietly(a: Db, b: Db, fate: Id -> Fate): set<Id> {
    set x | x in a.people && Live(a, x) && !Live(b, x) && !fate(x).FailsAfterCommit?
  }

  // -------------------------------------------------------------------- merged

  lemma StillPeople(t: Tally, members: seq<Candidate>, survivor: Id, fate: Id -> Fate)
    ensures var u := RunMembers(t, members, survivor, fate);
            u.db.people.Keys == t.db.people.Keys && forall x :: Live(u.db, x) ==> Live(t.db, x)
  {
    RunMembersDb(t, members, survivor, fate);
    AfterPeople(t.db, members, survivor, fate);
    hide After, RunMembers;
    assert forall x :: Live(t.db, x) <==> Mergeable(t.db, x);
    assert forall x :: Live(After(t.db, members, survivor, fate), x)
                       <==> Mergeable(After(t.db, members, survivor, fate), x);
  }

  /** One merge archives its source and nobody else. */
  lemma MergeArchives(db: Db, source: Id, target: Id)
    requires source in db.people
    ensures var b := Merged(db, source, target);
            && b.people.Keys == db.people.Keys && !Live(b, source)
            && forall x :: x != source ==> (Live(b, x) <==> Live(db, x))
  {
  }

  lemma QuietStep(a: Db, b: Db, c: Db, m: Id, fate: Id -> Fate)
    requires Live(a, m) && !Live(b, m) && a.people.Keys == b.people.Keys
    requires forall x :: x != m ==> (Live(b, x) <==> Live(a, x))
    requires forall x :: Live(c, x) ==> Live(b, x)
    ensures |MergedQuietly(a, c, fate)| == |MergedQuietly(b, c, fate)| + if fate(m).FailsAfterCommit? then 0 else 1
  {
    assert m in a.people;
    hide Live;
    var quiet := MergedQuietly(b, c, fate);
    assert m !in quiet;
    assert MergedQuietly(a, c, fate) == quiet + if fate(m).FailsAfterCommit? then {} else {m};
  }

  lemma {:induction false} MembersMerged(t: Tally, members: seq<Candidate>, survivor: Id, fate: Id -> Fate)
    ensures var u := RunMembers(t, members, survivor, fate); u.merged == t.merged + |MergedQuietly(t.db, u.db, fate)|
    decreases |members|, 0
  {
    if members == [] {
      NobodyMerged(t.db, fate);
    } else {
      var m, rest := members[0].id, members[1..];
      hide MergedQuietly, Merged, Refused;
      if m == survivor {
        MembersMerged(t, rest, survivor, fate);
      } else if !Mergeable(t.db, m) {
        MembersMerged(t.(skipped := t.skipped + 1), rest, survivor, fate);
      } else if Refused(t.db, m, survivor, fate(m)) {
        NobodyMerged(t.db, fate);
      } else {
        MergeCounted(t, m, rest, survivor, fate);
      }
    }
  }

  lemma NobodyMerged(db: Db, fate: Id -> Fate)
    ensures MergedQuietly(db, db, fate) == {}
  {
  }

  /** The member is merged, and the run goes on unless the merge raises afterwards. */
  lemma MergeCounted(t: Tally, m: Id, rest: seq<Candidate>, survivor: Id, fate: Id -> Fate)
    requires Live(t.db, m) && !Refused(t.db, m, survivor, fate(m))
    ensures var next := Merged(t.db, m, survivor);
            var u := RunMembers(t.(db := next, merged := t.merged + 1), rest, survivor, fate);
            if fate(m).FailsAfterCommit? then |MergedQuietly(t.db, next, fate)| == 0
            else u.merged == t.merged + |MergedQuietly(t.db, u.db, fate)|
    decreases |rest|, 1
  {
    var next := Merged(t.db, m, survivor);
    MergeArchives(t.db, m, survivor);
    hide MergedQuietly, Merged, Refused, Live, RunMembers;
    if fate(m).FailsAfterCommit? {
      QuietStep(t.db, next, next, m, fate);
      NobodyMerged(next, fate);
    } else {
      var v := t.(db := next, merged := t.merged + 1);
      MembersMerged(v, rest, survivor, fate);
      StillPeople(v, rest, survivor, fate);
      QuietStep(t.db, next, RunMembers(v, rest, survivor, fate).db, m, fate);
    }
  }

  /** Of two stretches of a run. */
  lemma QuietTogether(a: Db, b: Db, c: Db, fate: Id -> Fate)
    requires a.people.Keys == b.people.Keys
    requires (forall x :: Live(b, x) ==> Live(a, x)) && forall x :: Live(c, x) ==> Live(b, x)
    ensures |MergedQuietly(a, c, fate)| == |MergedQuietly(a, b, fate)| + |MergedQuietly(b, c, fate)|
  {
    hide Live;
    var p, q := MergedQuietly(a, b, fate), MergedQuietly(b, c, fate);
    assert p !! q && MergedQuietly(a, c, fate) == p + q;
  }

  lemma ClusterPeople(t: Tally, c: Cluster, fate: Id -> Fate)
    ensures var u := RunCluster(t, c, fate);
            && u.db.people.Keys == t.db.people.Keys && (forall x :: Live(u.db, x) ==> Live(t.db, x))
            && u.merged == t.merged + |MergedQuietly(t.db, u.db, fate)|
  {
    hide RunMembers, MergedQuietly;
    if c.survivor.Some? {
      StillPeople(t, c.members, c.survivor.value.id, fate);
      MembersMerged(t, c.members, c.survivor.value.id, fate);
    } else {
      NobodyMerged(t.db, fate);
    }
  }

  lemma {:induction false} RunMerged(t: Tally, clusters: seq<Cluster>, fate: Id -> Fate)
    ensures var u := Run(t, clusters, fate);
            && u.db.people.Keys == t.db.people.Keys && (forall x :: Live(u.db, x) ==> Live(t.db, x))
            && u.merged == t.merged + |MergedQuietly(t.db, u.db, fate)|
    decreases |clusters|
  {
    if clusters == [] {
      NobodyMerged(t.db, fate);
    } else {
      hide RunCluster, MergedQuietly, Live;
      var mid := RunCluster(t, clusters[0], fate);
      ClusterPeople(t, clusters[0], fate);
      RunMerged(mid, clusters[1..], fate);
      QuietTogether(t.db, mid.db, Run(mid, clusters[1..], fate).db, fate);
    }
  }

  // -------------------------------------------------------------------- errors

  /** A merge in the cluster raised: somebody to be merged was not, or was by a merge that raised afterwards. */
  predicate RaisedIn(a: Db, b: Db, c: Cluster, fate: Id -> Fate) {
    c.survivor.Some? && exists m :: m in c.members && RaisedFor(a, b, m.id, c.survivor.value.id, fate)
  }

  predicate RaisedFor(a: Db, b: Db, m: Id, survivor: Id, fate: Id -> Fate) {
    m != survivor && Live(a, m) && (Live(b, m) || fate(m).FailsAfterCommit?)
  }

  function CountRaised(a: Db, b: Db, clusters: seq<Cluster>, fate: Id -> Fate): nat {
    if clusters == [] then 0
    else (if RaisedIn(a, b, clusters[0], fate) then 1 else 0) + CountRaised(a, b, clusters[1..], fate)
  }

  predicate RaisedAmong(a: Db, b: Db, members: seq<Candidate>, survivor: Id, fate: Id -> Fate) {
    exists m :: m in members && RaisedFor(a, b, m.id, survivor, fate)
  }

  /** The run over the members raises once or not at all. */
  lemma {:induction false} MembersRaised(t: Tally, members: seq<Candidate>, survivor: Id, fate: Id -> Fate)
    ensures var u := RunMembers(t, members, survivor, fate);
            u.errors == t.errors + if RaisedAmong(t.db, u.db, members, survivor, fate) then 1 else 0
    decreases |members|, 0
  {
    if members != [] {
      var m, rest := members[0].id, members[1..];
      var u := RunMembers(t, members, survivor, fate);
      assert members == [members[0]] + rest && members[0] in members;
      assert forall d :: d in members <==> d == members[0] || d in rest;
      hide Merged, Refused;
      if m == survivor {
        MembersRaised(t, rest, survivor, fate);
      } else if !Mergeable(t.db, m) {
        MembersRaised(t.(skipped := t.skipped + 1), rest, survivor, fate);
      } else if Refused(t.db, m, survivor, fate(m)) {
        assert RaisedFor(t.db, u.db, m, survivor, fate);
      } else {
        MergeArchives(t.db, m, survivor);
        if fate(m).FailsAfterCommit? {
          assert RaisedFor(t.db, u.db, m, survivor, fate);
        } else {
          MergeRaised(t, members, survivor, fate);
        }
      }
    }
  }

  lemma MergeRaised(t: Tally, members: seq<Candidate>, survivor: Id, fate: Id -> Fate)
    requires members != [] && members[0].id != survivor && Live(t.db, members[0].id)
    requires !fate(members[0].id).FailsAfterCommit? && !Refused(t.db, members[0].id, survivor, fate(members[0].id))
    ensures var v := t.(db := Merged(t.db, members[0].id, survivor), merged := t.merged + 1);
            var u := RunMembers(v, members[1..], survivor, fate);
            u.errors == t.errors + if RaisedAmong(t.db, u.db, members, survivor, fate) then 1 else 0
    decreases |members| - 1, 1
  {
    var m, rest := members[0].id, members[1..];
    var v := t.(db := Merged(t.db, m, survivor), merged := t.merged + 1);
    MergeArchives(t.db, m, survivor);
    hide Merged, Refused, RunMembers, Live;
    StillPeople(v, rest, survivor, fate);
    MembersRaised(v, rest, survivor, fate);
    var u := RunMembers(v, rest, survivor, fate);
    assert !RaisedFor(t.db, u.db, m, survivor, fate) && !RaisedFor(v.db, u.db, m, survivor, fate);
    assert members == [members[0]] + rest;
    assert forall d :: d in members <==> d == members[0] || d in rest;
    forall d | d in rest
      ensures RaisedFor(t.db, u.db, d.id, survivor, fate) <==> RaisedFor(v.db, u.db, d.id, survivor, fate)
    {
      assert d.id == m || (Live(v.db, d.id) <==> Live(t.db, d.id));
    }
  }

  lemma SameRaised(a: Db, b: Db, a': Db, b': Db, c: Cluster, fate: Id -> Fate)
    requires forall x :: x in IdsOf(c) ==> (Live(a, x) <==> Live(a', x)) && (Live(b, x) <==> Live(b', x))
    ensures RaisedIn(a, b, c, fate) <==> RaisedIn(a', b', c, fate)
  {
    MembersInIds(c);
    hide Live, IdsOf;
  }

  lemma {:induction false} SameCount(a: Db, a': Db, b: Db, clusters: seq<Cluster>, fate: Id -> Fate)
    requires forall c :: c in clusters ==> forall x :: x in IdsOf(c) ==> (Live(a, x) <==> Live(a', x))
    ensures CountRaised(a, b, clusters, fate) == CountRaised(a', b, clusters, fate)
  {
    hide Live, IdsOf, RaisedIn;
    if clusters != [] {
      assert clusters[0] in clusters;
      SameRaised(a, b, a', b, clusters[0], fate);
      SameCount(a, a', b, clusters[1..], fate);
    }
  }

  lemma {:induction false} RunRaised(t: Tally, clusters: seq<Cluster>, fate: Id -> Fate)
    requires Disjoint(clusters)
    ensures var u := Run(t, clusters, fate); u.errors == t.errors + CountRaised(t.db, u.db, clusters, fate)
    decreases |clusters|
  {
    if clusters != [] {
      var c, rest := clusters[0], clusters[1..];
      var mid := RunCluster(t, c, fate);
      var u := Run(mid, rest, fate);
      ClusterRaised(t, c, fate);
      DisjointTail(clusters);
      hide RunCluster, RaisedIn, IdsOf, Live, Disjoint;
      RunRaised(mid, rest, fate);
      ClusterElsewhere(t, c, rest, fate);
      RestElsewhere(mid, c, rest, fate);
      SameCount(t.db, mid.db, u.db, rest, fate);
      SameRaised(t.db, mid.db, t.db, u.db, c, fate);
    }
  }

  lemma ClusterRaised(t: Tally, c: Cluster, fate: Id -> Fate)
    ensures var u := RunCluster(t, c, fate); u.errors == t.errors + if RaisedIn(t.db, u.db, c, fate) then 1 else 0
  {
    hide RunMembers;
    if c.survivor.Some? {
      MembersRaised(t, c.members, c.survivor.value.id, fate);
    }
  }

  /** The cluster leaves the people of the others alone. */
  lemma ClusterElsewhere(t: Tally, c: Cluster, rest: seq<Cluster>, fate: Id -> Fate)
    requires forall d :: d in rest ==> IdsOf(d) !! IdsOf(c)
    ensures forall d :: d in rest ==>
              forall x :: x in IdsOf(d) ==> (Live(t.db, x) <==> Live(RunCluster(t, c, fate).db, x))
  {
    forall d, x | d in rest && x in IdsOf(d) ensures Live(t.db, x) <==> Live(RunCluster(t, c, fate).db, x) {
      if c.survivor.Some? {
        MembersInIds(c);
        RunMembersDb(t, c.members, c.survivor.value.id, fate);
        AfterElsewhere(t.db, c.members, c.survivor.value.id, fate, x);
      }
    }
  }

  lemma RestElsewhere(t: Tally, c: Cluster, rest: seq<Cluster>, fate: Id -> Fate)
    requires forall d :: d in rest ==> IdsOf(d) !! IdsOf(c)
    ensures forall x :: x in IdsOf(c) ==> (Live(t.db, x) <==> Live(Run(t, rest, fate).db, x))
  {
    RunDb(t, rest, fate);
    hide IdsOf;
    forall x | x in IdsOf(c) ensures Live(t.db, x) <==> Live(Run(t, rest, fate).db, x) {
      AfterAllElsewhere(t.db, rest, fate, x);
    }
  }

  // ------------------------------------------------------------------- skipped

  /** The members to be merged, in all clusters that have a survivor. */
  function ToMerge(clusters: seq<Cluster>): nat {
    if clusters == [] then 0
    else (if clusters[0].survivor.Some? then Others(clusters[0].members, clusters[0].survivor.value.id) else 0)
         + ToMerge(clusters[1..])
  }

  function Others(members: seq<Candidate>, survivor: Id): nat {
    if members == [] then 0 else (if members[0].id == survivor then 0 else 1) + Others(members[1..], survivor)
  }

  lemma {:induction false} MembersCounted(t: Tally, members: seq<Candidate>, survivor: Id, fate: Id -> Fate)
    ensures var u := RunMembers(t, members, survivor, fate);
            && u.skipped >= t.skipped && u.errors >= t.errors
            && u.merged + u.skipped + u.errors <= t.merged + t.skipped + t.errors + Others(members, survivor)
            && (u.errors == t.errors ==> u.merged + u.skipped == t.merged + t.skipped + Others(members, survivor))
    decreases |members|
  {
    hide Merged, Refused, Mergeable;
    if members != [] {
      var m, rest := members[0].id, members[1..];
      if m == survivor {
        MembersCounted(t, rest, survivor, fate);
      } else if !Mergeable(t.db, m) {
        MembersCounted(t.(skipped := t.skipped + 1), rest, survivor, fate);
      } else {
        var (next, error) := Attempt(t.db, m, survivor, fate(m));
        if !error {
          MembersCounted(t.(db := next, merged := t.merged + 1), rest, survivor, fate);
        }
      }
    }
  }

  lemma {:induction false} RunCounted(t: Tally, clusters: seq<Cluster>, fate: Id -> Fate)
    ensures var u := Run(t, clusters, fate);
            && u.skipped >= t.skipped && u.errors >= t.errors
            && u.merged + u.skipped + u.errors <= t.merged + t.skipped + t.errors + ToMerge(clusters)
            && (u.errors == t.errors ==> u.merged + u.skipped == t.merged + t.skipped + ToMerge(clusters))
    decreases |clusters|
  {
    hide RunMembers;
    if clusters != [] {
      var c := clusters[0];
      if c.survivor.Some? {
        MembersCounted(t, c.members, c.survivor.value.id, fate);
      }
      RunCounted(RunCluster(t, c, fate), clusters[1..], fate);
    }
  }

  // ---------------------------------------------------------------- all together

  /** Over disjoint clusters `merged` counts the people who were merged away by a merge
      that raised nothing, and `errors` the clusters in which a merge raised. */
  lemma CountersMean(db: Db, clusters: seq<Cluster>, fate: Id -> Fate)
    requires Disjoint(clusters)
    ensures var u := Run(Start(db), clusters, fate);
            && u.merged == |MergedQuietly(db, u.db, fate)|
            && u.errors == CountRaised(db, u.db, clusters, fate)
            && u.merged + u.skipped + u.errors <= ToMerge(clusters)
  {
    RunMerged(Start(db), clusters, fate);
    RunRaised(Start(db), clusters, fate);
    RunCounted(Start(db), clusters, fate);
  }

  /** If none raised, `skipped` counts all the others that were to be merged: those who
      were not there, inactive or archived when their turn came. */
  lemma SkippedMeans(db: Db, clusters: seq<Cluster>, fate: Id -> Fate)
    requires Run(Start(db), clusters, fate).errors == 0
    ensures var u := Run(Start(db), clusters, fate);
            && u.skipped == ToMerge(clusters) - |MergedQuietly(db, u.db, fate)|
            && forall c, m :: c in clusters && c.survivor.Some? && m in c.members && m.id != c.survivor.value.id ==>
                 !Live(u.db, m.id)
  {
    RunMerged(Start(db), clusters, fate);
    RunCounted(Start(db), clusters, fate);
    RunFinishes(Start(db), clusters, fate);
    var u := Run(Start(db), clusters, fate);
    forall c, m | c in clusters && c.survivor.Some? && m in c.members && m.id != c.survivor.value.id
      ensures !Live(u.db, m.id)
    {
      assert Finished(u.db, c);
    }
  }

  /** For example: the survivor, somebody to merge and somebody inactive, in one cluster. */
  lemma CountersOfThree(db: Db, s: Candidate, x: Candidate, y: Candidate)
    requires s.id != x.id && s.id != y.id && x.id != y.id && s.id in db.people && db.refs == map[]
    requires Live(db, x.id) && !Live(db, y.id)
    ensures var u := Run(Start(db), [Cluster(TierA, s.base, [s, x, y], Some(s))], NEVER_FAILS);
            u.merged == 1 && u.skipped == 1 && u.errors == 0 && !Live(u.db, x.id)
  {
    var c := Cluster(TierA, s.base, [s, x, y], Some(s));
    MergeArchives(db, x.id, s.id);
    var v := Tally(Merged(db, x.id, s.id), 1, 0, 0);
    assert [s, x, y][1..] == [x, y] && [x, y][1..] == [y] && [y][1..] == [] && [c][1..] == [];
    assert !Refused(db, x.id, s.id, Succeeds);
    assert RunMembers(v, [y], s.id, NEVER_FAILS) == v.(skipped := 1);
    assert RunMembers(Start(db), [x, y], s.id, NEVER_FAILS) == RunMembers(v, [y], s.id, NEVER_FAILS);
    assert RunMembers(Start(db), [s, x, y], s.id, NEVER_FAILS) == RunMembers(Start(db), [x, y], s.id, NEVER_FAILS);
  }
}

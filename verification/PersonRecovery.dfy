/** Running the merges again: what a later run makes of an interrupted one, and of merges
    that the database refuses (scripts/merge_duplicate_persons.py:373-402). */
module PersonRecovery {
  import opened Options
  import opened Persons
  import opened PersonMerge

  // ------------------------------------------------------ recovery from failures

  /** The database after a run over the members. */
  function After(db: Db, members: seq<Candidate>, survivor: Id, fate: Id -> Fate): Db
    decreases |members|
  {
    if members == [] then db
    else
      var m := members[0].id;
      if m == survivor || !Mergeable(db, m) then After(db, members[1..], survivor, fate)
      else
        var (next, error) := Attempt(db, m, survivor, fate(m));
        if error then next else After(next, members[1..], survivor, fate)
  }

  function AfterCluster(db: Db, c: Cluster, fate: Id -> Fate): Db {
    if c.survivor.None? then db else After(db, c.members, c.survivor.value.id, fate)
  }

  function AfterAll(db: Db, clusters: seq<Cluster>, fate: Id -> Fate): Db
    decreases |clusters|
  {
    if clusters == [] then db else AfterAll(AfterCluster(db, clusters[0], fate), clusters[1..], fate)
  }

  lemma {:induction false} RunMembersDb(t: Tally, members: seq<Candidate>, survivor: Id, fate: Id -> Fate)
    ensures RunMembers(t, members, survivor, fate).db == After(t.db, members, survivor, fate)
    decreases |members|
  {
    hide Attempt, Mergeable;
    if members != [] {
      var m := members[0].id;
      if m == survivor {
        RunMembersDb(t, members[1..], survivor, fate);
      } else if !Mergeable(t.db, m) {
        RunMembersDb(t.(skipped := t.skipped + 1), members[1..], survivor, fate);
      } else {
        RunMembersDb(t.(db := Attempt(t.db, m, survivor, fate(m)).0, merged := t.merged + 1),
                     members[1..], survivor, fate);
      }
    }
  }

  lemma {:induction false} RunDb(t: Tally, clusters: seq<Cluster>, fate: Id -> Fate)
    ensures Run(t, clusters, fate).db == AfterAll(t.db, clusters, fate)
    decreases |clusters|
  {
    if clusters != [] {
      var c := clusters[0];
      if c.survivor.Some? {
        RunMembersDb(t, c.members, c.survivor.value.id, fate);
      }
      RunDb(RunCluster(t, c, fate), clusters[1..], fate);
    }
  }

  /** Nobody comes back from the archive, and nobody outside the cluster is touched. */
  lemma {:induction false} AfterPeople(db: Db, members: seq<Candidate>, survivor: Id, fate: Id -> Fate)
    ensures var b := After(db, members, survivor, fate);
            && b.people.Keys == db.people.Keys
            && (forall x :: Mergeable(b, x) ==> Mergeable(db, x))
            && (forall x :: x in db.people && (forall m :: m in members ==> m.id != x) ==> b.people[x] == db.people[x])
    decreases |members|
  {
    if members != [] {
      var m := members[0].id;
      if m == survivor || !Mergeable(db, m) {
        AfterPeople(db, members[1..], survivor, fate);
      } else {
        AfterPeople(Attempt(db, m, survivor, fate(m)).0, members[1..], survivor, fate);
      }
    }
  }

  /** Finishing an interrupted cluster is doing it in one go. */
  lemma {:induction false} ResumeMembers(db: Db, members: seq<Candidate>, survivor: Id, fate: Id -> Fate)
    ensures After(After(db, members, survivor, fate), members, survivor, NEVER_FAILS)
         == After(db, members, survivor, NEVER_FAILS)
    decreases |members|
  {
    hide Merged;
    if members != [] {
      var m, rest := members[0].id, members[1..];
      if m == survivor || !Mergeable(db, m) {
        AfterPeople(db, rest, survivor, fate);
        ResumeMembers(db, rest, survivor, fate);
      } else {
        var (next, error) := Attempt(db, m, survivor, fate(m));
        if !Refused(db, m, survivor, fate(m)) {
          ArchivesSource(db, m, survivor, fate(m));
          if !error {
            AfterPeople(next, rest, survivor, fate);
            ResumeMembers(next, rest, survivor, fate);
          }
        }
      }
    }
  }

  lemma ArchivesSource(db: Db, source: Id, target: Id, fate: Fate)
    requires !Refused(db, source, target, fate)
    ensures var next := Attempt(db, source, target, fate).0;
            next == Merged(db, source, target) && next.people.Keys == db.people.Keys && !Mergeable(next, source)
  {
  }

  // --------------------------------------------------------- clusters commute

  lemma HasElsewhere(refs: map<RefId, Ref>, source: Id, target: Id, x: Id, kind: Kind)
    requires x != source && x != target
    ensures Ref(x, kind) in Moved(refs, refs.Keys, source, target).Values <==> Ref(x, kind) in refs.Values
  {
    var b := Moved(refs, refs.Keys, source, target);
    if Ref(x, kind) in refs.Values {
      var r :| r in refs && refs[r] == Ref(x, kind);
      assert r in b && b[r] == refs[r];
    }
    if Ref(x, kind) in b.Values {
      var r :| r in b && b[r] == Ref(x, kind);
      assert r in refs && refs[r] == Ref(x, kind);
    }
  }

  lemma MovedCommute(refs: map<RefId, Ref>, s: Id, t: Id, u: Id, v: Id)
    requires s != t && u != v && {s, t} !! {u, v}
    ensures var a, b := Moved(refs, refs.Keys, s, t), Moved(refs, refs.Keys, u, v);
            Moved(a, a.Keys, u, v) == Moved(b, b.Keys, s, t)
  {
    var a, b := Moved(refs, refs.Keys, s, t), Moved(refs, refs.Keys, u, v);
    var ab, ba := Moved(a, a.Keys, u, v), Moved(b, b.Keys, s, t);
    forall r | r in refs
      ensures (r in ab <==> r in ba) && (r in ab ==> ab[r] == ba[r])
    {
      HasElsewhere(refs, s, t, v, refs[r].kind);
      HasElsewhere(refs, u, v, t, refs[r].kind);
    }
    assert ab.Keys == ba.Keys;
  }

  lemma MergedCommute(db: Db, s: Id, t: Id, u: Id, v: Id)
    requires s in db.people && u in db.people && s != t && u != v && {s, t} !! {u, v}
    ensures Merged(Merged(db, s, t), u, v) == Merged(Merged(db, u, v), s, t)
  {
    MovedCommute(db.refs, s, t, u, v);
    assert Merged(Merged(db, s, t), u, v).people == Merged(Merged(db, u, v), s, t).people;
  }

  /** Nothing that decides about merging `x` differs. */
  ghost predicate SameFor(a: Db, b: Db, x: Id) {
    && (x in a.people <==> x in b.people) && (Mergeable(a, x) <==> Mergeable(b, x))
    && forall kind :: Ref(x, kind) in a.refs.Values <==> Ref(x, kind) in b.refs.Values
  }

  lemma SameRefused(a: Db, b: Db, source: Id, target: Id, fate: Fate)
    requires SameFor(a, b, source) && SameFor(a, b, target)
    ensures Refused(a, source, target, fate) <==> Refused(b, source, target, fate)
  {
    hide Mergeable;
    if Blocked(a.refs, source, target) {
      BlockedSame(a, b, source, target);
    }
    if Blocked(b.refs, source, target) {
      BlockedSame(b, a, source, target);
    }
  }

  lemma BlockedSame(a: Db, b: Db, source: Id, target: Id)
    requires SameFor(a, b, source) && SameFor(a, b, target) && Blocked(a.refs, source, target)
    ensures Blocked(b.refs, source, target)
  {
  }

  lemma MergedElsewhere(db: Db, source: Id, target: Id, x: Id)
    requires source in db.people && x != source && x != target
    ensures SameFor(db, Merged(db, source, target), x)
  {
    forall kind ensures Ref(x, kind) in db.refs.Values <==> Ref(x, kind) in Merged(db, source, target).refs.Values {
      HasElsewhere(db.refs, source, target, x, kind);
    }
  }

  predicate Apart(members: seq<Candidate>, survivor: Id, x: Id) {
    x != survivor && forall m :: m in members ==> m.id != x
  }

  lemma {:induction false} AfterElsewhere(db: Db, members: seq<Candidate>, survivor: Id, fate: Id -> Fate, x: Id)
    requires Apart(members, survivor, x)
    ensures SameFor(db, After(db, members, survivor, fate), x)
    decreases |members|
  {
    if members != [] {
      var m := members[0].id;
      assert members[0] in members;
      hide Merged, Refused;
      if m == survivor || !Mergeable(db, m) {
        AfterElsewhere(db, members[1..], survivor, fate, x);
      } else {
        AttemptElsewhere(db, m, survivor, fate(m), x);
        AfterElsewhere(Attempt(db, m, survivor, fate(m)).0, members[1..], survivor, fate, x);
      }
    }
  }

  lemma AttemptElsewhere(db: Db, source: Id, target: Id, fate: Fate, x: Id)
    requires x != source && x != target
    ensures SameFor(db, Attempt(db, source, target, fate).0, x)
  {
    if !Refused(db, source, target, fate) {
      MergedElsewhere(db, source, target, x);
    }
  }

  lemma {:induction false} AfterCommutesWithMerge(db: Db, members: seq<Candidate>, survivor: Id, fate: Id -> Fate,
                                                  x: Id, y: Id)
    requires x in db.people && x != y && Apart(members, survivor, x) && Apart(members, survivor, y)
    ensures x in After(db, members, survivor, fate).people
    ensures After(Merged(db, x, y), members, survivor, fate) == Merged(After(db, members, survivor, fate), x, y)
    decreases |members|
  {
    if members != [] {
      var m, rest := members[0].id, members[1..];
      assert members[0] in members && Apart(rest, survivor, x) && Apart(rest, survivor, y);
      var b := Merged(db, x, y);
      MergedElsewhere(db, x, y, m);
      hide Moved, Blocked;
      if m == survivor || !Mergeable(db, m) {
        AfterCommutesWithMerge(db, rest, survivor, fate, x, y);
      } else {
        var (next, error) := Attempt(db, m, survivor, fate(m));
        MergedElsewhere(db, x, y, survivor);
        SameRefused(db, b, m, survivor, fate(m));
        MergedCommute(db, x, y, m, survivor);
        assert Attempt(b, m, survivor, fate(m)) == (Merged(next, x, y), error);
        if !error {
          AfterCommutesWithMerge(next, rest, survivor, fate, x, y);
        }
      }
    }
  }

  /** Two runs over people that have nobody in common can be exchanged. */
  lemma {:induction false} AfterCommute(db: Db, members: seq<Candidate>, survivor: Id, fate: Id -> Fate, c: Cluster,
                                        other: Id -> Fate)
    requires survivor !in IdsOf(c) && forall m :: m in members ==> m.id !in IdsOf(c)
    ensures AfterCluster(After(db, members, survivor, fate), c, other)
         == After(AfterCluster(db, c, other), members, survivor, fate)
    decreases |members|
  {
    if c.survivor.Some? && members != [] {
      var m, rest, s := members[0].id, members[1..], c.survivor.value.id;
      assert members[0] in members;
      assert Apart(c.members, s, m) && Apart(c.members, s, survivor);
      AfterElsewhere(db, c.members, s, other, m);
      AfterElsewhere(db, c.members, s, other, survivor);
      var b := After(db, c.members, s, other);
      hide Merged, Mergeable, Blocked;
      SameRefused(db, b, m, survivor, fate(m));
      if m == survivor || !Mergeable(db, m) {
        AfterCommute(db, rest, survivor, fate, c, other);
      } else {
        var (next, error) := Attempt(db, m, survivor, fate(m));
        if next != db {
          AfterCommutesWithMerge(db, c.members, s, other, m, survivor);
        }
        assert Attempt(b, m, survivor, fate(m)) == (After(next, c.members, s, other), error);
        if !error {
          AfterCommute(next, rest, survivor, fate, c, other);
        }
      }
    }
  }

  lemma {:induction false} AfterAllCommute(db: Db, c: Cluster, fate: Id -> Fate, clusters: seq<Cluster>,
                                           other: Id -> Fate)
    requires forall d :: d in clusters ==> IdsOf(d) !! IdsOf(c)
    ensures AfterCluster(AfterAll(db, clusters, other), c, fate) == AfterAll(AfterCluster(db, c, fate), clusters, other)
    decreases |clusters|
  {
    hide IdsOf, After;
    if clusters != [] {
      var d := clusters[0];
      assert d in clusters;
      AfterAllCommute(AfterCluster(db, d, other), c, fate, clusters[1..], other);
      if d.survivor.Some? {
        MembersInIds(d);
        AfterCommute(db, d.members, d.survivor.value.id, other, c, fate);
      }
    }
  }

  lemma MembersInIds(c: Cluster)
    ensures forall m :: m in c.members ==> m.id in IdsOf(c)
    ensures c.survivor.Some? ==> c.survivor.value.id in IdsOf(c)
  {
  }

  lemma {:induction false} ResumeAll(db: Db, clusters: seq<Cluster>, fate: Id -> Fate)
    requires Disjoint(clusters)
    ensures AfterAll(AfterAll(db, clusters, fate), clusters, NEVER_FAILS) == AfterAll(db, clusters, NEVER_FAILS)
    decreases |clusters|
  {
    if clusters != [] {
      var c, rest := clusters[0], clusters[1..];
      DisjointTail(clusters);
      hide IdsOf, Disjoint, After, NEVER_FAILS;
      var b := AfterCluster(db, c, fate);
      AfterAllCommute(b, c, NEVER_FAILS, rest, fate);
      if c.survivor.Some? {
        ResumeMembers(db, c.members, c.survivor.value.id, fate);
      }
      ResumeAll(AfterCluster(db, c, NEVER_FAILS), rest, fate);
    }
  }

  lemma DisjointTail(clusters: seq<Cluster>)
    requires Disjoint(clusters) && clusters != []
    ensures Disjoint(clusters[1..]) && forall d :: d in clusters[1..] ==> IdsOf(d) !! IdsOf(clusters[0])
  {
  }

  /** Whatever failed before, a run without failures ends where a first run without failures would have. */
  lemma Recovery(db: Db, clusters: seq<Cluster>, fate: Id -> Fate)
    requires Disjoint(clusters)
    ensures Run(Start(Run(Start(db), clusters, fate).db), clusters, NEVER_FAILS).db
         == Run(Start(db), clusters, NEVER_FAILS).db
  {
    RunDb(Start(db), clusters, fate);
    RunDb(Start(Run(Start(db), clusters, fate).db), clusters, NEVER_FAILS);
    RunDb(Start(db), clusters, NEVER_FAILS);
    ResumeAll(db, clusters, fate);
  }

  // ------------------------------------------------------- nothing left to merge

  /** Nobody among the members is merged: all are archived, up to one whose merge is
      refused whatever happens, or up to the end. */
  predicate Stuck(db: Db, members: seq<Candidate>, survivor: Id)
    decreases |members|
  {
    || members == []
    || (var m := members[0].id;
        if m == survivor || !Mergeable(db, m) then Stuck(db, members[1..], survivor)
        else Refused(db, m, survivor, Succeeds))
  }

  predicate StuckCluster(db: Db, c: Cluster) {
    c.survivor.Some? ==> Stuck(db, c.members, c.survivor.value.id)
  }

  /** The members other than the survivor are all archived. */
  predicate AllArchived(db: Db, members: seq<Candidate>, survivor: Id) {
    forall m :: m in members && m.id != survivor ==> !Mergeable(db, m.id)
  }

  predicate Finished(db: Db, c: Cluster) {
    c.survivor.Some? ==> AllArchived(db, c.members, c.survivor.value.id)
  }

  lemma {:induction false} SettleMembers(db: Db, members: seq<Candidate>, survivor: Id)
    ensures Stuck(After(db, members, survivor, NEVER_FAILS), members, survivor)
    decreases |members|
  {
    hide Merged, Blocked;
    if members != [] {
      var m, rest := members[0].id, members[1..];
      if m == survivor || !Mergeable(db, m) {
        AfterPeople(db, rest, survivor, NEVER_FAILS);
        SettleMembers(db, rest, survivor);
      } else if !Refused(db, m, survivor, Succeeds) {
        ArchivesSource(db, m, survivor, Succeeds);
        var next := Merged(db, m, survivor);
        AfterPeople(next, rest, survivor, NEVER_FAILS);
        SettleMembers(next, rest, survivor);
      }
    }
  }

  lemma {:induction false} StuckSame(a: Db, b: Db, members: seq<Candidate>, survivor: Id)
    requires Stuck(a, members, survivor) && SameFor(a, b, survivor) && forall m :: m in members ==> SameFor(a, b, m.id)
    ensures Stuck(b, members, survivor)
    decreases |members|
  {
    if members != [] {
      var m := members[0].id;
      assert members[0] in members;
      hide Refused;
      if m == survivor || !Mergeable(a, m) {
        StuckSame(a, b, members[1..], survivor);
      } else {
        SameRefused(a, b, m, survivor, Succeeds);
      }
    }
  }

  lemma {:induction false} AfterAllElsewhere(db: Db, clusters: seq<Cluster>, fate: Id -> Fate, x: Id)
    requires forall c :: c in clusters ==> x !in IdsOf(c)
    ensures SameFor(db, AfterAll(db, clusters, fate), x)
    decreases |clusters|
  {
    if clusters != [] {
      var c := clusters[0];
      assert c in clusters;
      MembersInIds(c);
      hide IdsOf, After, Mergeable;
      if c.survivor.Some? {
        AfterElsewhere(db, c.members, c.survivor.value.id, fate, x);
      }
      AfterAllElsewhere(AfterCluster(db, c, fate), clusters[1..], fate, x);
    }
  }

  lemma {:induction false} SettleAll(db: Db, clusters: seq<Cluster>)
    requires Disjoint(clusters)
    ensures forall c :: c in clusters ==> StuckCluster(AfterAll(db, clusters, NEVER_FAILS), c)
    decreases |clusters|
  {
    if clusters != [] {
      var c, rest := clusters[0], clusters[1..];
      DisjointTail(clusters);
      var b := AfterCluster(db, c, NEVER_FAILS);
      SettleAll(b, rest);
      if c.survivor.Some? {
        var s, after := c.survivor.value.id, AfterAll(b, rest, NEVER_FAILS);
        SettleMembers(db, c.members, s);
        MembersInIds(c);
        hide IdsOf, Disjoint, After, SameFor, Stuck;
        AfterAllElsewhere(b, rest, NEVER_FAILS, s);
        forall m | m in c.members ensures SameFor(b, after, m.id) {
          AfterAllElsewhere(b, rest, NEVER_FAILS, m.id);
        }
        StuckSame(b, after, c.members, s);
      }
    }
  }

  /** A run over such a cluster changes nothing, and meets an exception unless everybody is archived. */
  lemma {:induction false} RunStuckMembers(t: Tally, members: seq<Candidate>, survivor: Id, fate: Id -> Fate)
    requires Stuck(t.db, members, survivor)
    ensures var u := RunMembers(t, members, survivor, fate);
            && u.db == t.db && u.merged == t.merged && u.errors >= t.errors
            && (u.errors == t.errors <==> AllArchived(t.db, members, survivor))
    decreases |members|
  {
    if members != [] {
      var m, rest := members[0].id, members[1..];
      assert members == [members[0]] + rest;
      hide Mergeable, Blocked;
      if m == survivor {
        RunStuckMembers(t, rest, survivor, fate);
      } else if !Mergeable(t.db, m) {
        RunStuckMembers(t.(skipped := t.skipped + 1), rest, survivor, fate);
      } else {
        assert members[0] in members;
      }
    }
  }

  lemma {:induction false} RunStuck(t: Tally, clusters: seq<Cluster>, fate: Id -> Fate)
    requires forall c :: c in clusters ==> StuckCluster(t.db, c)
    ensures var u := Run(t, clusters, fate);
            && u.db == t.db && u.merged == t.merged && u.errors >= t.errors
            && (u.errors == t.errors <==> forall c :: c in clusters ==> Finished(t.db, c))
    decreases |clusters|
  {
    if clusters != [] {
      var c, rest := clusters[0], clusters[1..];
      assert c in clusters && clusters == [c] + rest;
      if c.survivor.Some? {
        RunStuckMembers(t, c.members, c.survivor.value.id, fate);
      }
      hide Stuck, AllArchived, RunMembers;
      RunStuck(RunCluster(t, c, fate), rest, fate);
    }
  }

  lemma {:induction false} MembersFinish(t: Tally, members: seq<Candidate>, survivor: Id, fate: Id -> Fate)
    ensures var u := RunMembers(t, members, survivor, fate);
            u.errors >= t.errors && (u.errors == t.errors ==> AllArchived(u.db, members, survivor))
    decreases |members|, 0
  {
    if members != [] {
      var m, rest := members[0].id, members[1..];
      assert members == [members[0]] + rest;
      hide Merged, Blocked;
      if m == survivor {
        MembersFinish(t, rest, survivor, fate);
      } else if !Mergeable(t.db, m) {
        FinishRest(t.(skipped := t.skipped + 1), rest, survivor, fate, m);
      } else if !Refused(t.db, m, survivor, fate(m)) {
        ArchivesSource(t.db, m, survivor, fate(m));
        FinishRest(t.(db := Merged(t.db, m, survivor), merged := t.merged + 1), rest, survivor, fate, m);
      }
    }
  }

  /** Whoever is archived stays so. */
  lemma FinishRest(t: Tally, members: seq<Candidate>, survivor: Id, fate: Id -> Fate, x: Id)
    requires !Mergeable(t.db, x)
    ensures var u := RunMembers(t, members, survivor, fate);
            && !Mergeable(u.db, x) && u.errors >= t.errors
            && (u.errors == t.errors ==> AllArchived(u.db, members, survivor))
    decreases |members|, 1
  {
    MembersFinish(t, members, survivor, fate);
    RunMembersDb(t, members, survivor, fate);
    AfterPeople(t.db, members, survivor, fate);
  }

  /** A run that meets no exception merges everybody. */
  lemma {:induction false} RunFinishes(t: Tally, clusters: seq<Cluster>, fate: Id -> Fate)
    ensures var u := Run(t, clusters, fate);
            && u.errors >= t.errors && (forall x :: Mergeable(u.db, x) ==> Mergeable(t.db, x))
            && (u.errors == t.errors ==> forall c :: c in clusters ==> Finished(u.db, c))
    decreases |clusters|
  {
    if clusters != [] {
      var c, rest := clusters[0], clusters[1..];
      assert clusters == [c] + rest;
      var u := RunCluster(t, c, fate);
      if c.survivor.Some? {
        var s := c.survivor.value.id;
        MembersFinish(t, c.members, s, fate);
        RunMembersDb(t, c.members, s, fate);
        AfterPeople(t.db, c.members, s, fate);
      }
      hide After, RunMembers, Mergeable;
      RunFinishes(u, rest, fate);
    }
  }

  /** It is then a run in which nothing fails. */
  lemma {:induction false} UnfailingRun(t: Tally, clusters: seq<Cluster>, fate: Id -> Fate)
    requires Run(t, clusters, fate).errors == t.errors
    ensures Run(t, clusters, NEVER_FAILS) == Run(t, clusters, fate)
    decreases |clusters|
  {
    if clusters != [] {
      var c, rest := clusters[0], clusters[1..];
      var u := RunCluster(t, c, fate);
      RunFinishes(u, rest, fate);
      if c.survivor.Some? {
        MembersFinish(t, c.members, c.survivor.value.id, fate);
        UnfailingMembers(t, c.members, c.survivor.value.id, fate);
      }
      UnfailingRun(u, rest, fate);
    }
  }

  lemma {:induction false} UnfailingMembers(t: Tally, members: seq<Candidate>, survivor: Id, fate: Id -> Fate)
    requires RunMembers(t, members, survivor, fate).errors == t.errors
    ensures RunMembers(t, members, survivor, NEVER_FAILS) == RunMembers(t, members, survivor, fate)
    decreases |members|
  {
    if members != [] {
      var m, rest := members[0].id, members[1..];
      hide Merged, Blocked, Mergeable;
      if m == survivor {
        UnfailingMembers(t, rest, survivor, fate);
      } else if !Mergeable(t.db, m) {
        UnfailingMembers(t.(skipped := t.skipped + 1), rest, survivor, fate);
      } else {
        UnfailingMembers(t.(db := Merged(t.db, m, survivor), merged := t.merged + 1), rest, survivor, fate);
      }
    }
  }

  // -------------------------------------------------- merges that cannot commit

  /** A merge is refused by the database exactly if the rows it wants would break a unique constraint. */
  lemma BlockedExactly(refs: map<RefId, Ref>, source: Id, target: Id)
    requires KeysUnique(refs) && source != target
    ensures Blocked(refs, source, target) <==> !KeysUnique(Moved(refs, refs.Keys, source, target))
  {
    var b := Moved(refs, refs.Keys, source, target);
    if r :| r in refs && refs[r].owner == source && refs[r].kind.Blocking()
            && Ref(target, refs[r].kind) in refs.Values
    {
      var q :| q in refs && refs[q] == Ref(target, refs[r].kind);
      assert r in b && q in b && b[r] == b[q];
    }
  }

  /** No two people about to be merged into one are recipients of one campaign step or were both referred. */
  predicate NoneBlocked(db: Db, home: map<Id, Id>) {
    forall q, r :: q in db.refs && r in db.refs && q != r && db.refs[q].kind.Blocking()
                   && db.refs[q].kind == db.refs[r].kind
      ==> !Joined(db, home, db.refs[q].owner, db.refs[r].owner)
  }

  lemma NoneBlockedKept(a: Db, b: Db, home: map<Id, Id>)
    requires Homing(home) && Confined(a, b, home) && NoneBlocked(a, home)
    ensures NoneBlocked(b, home)
  {
    forall q, r | q in b.refs && r in b.refs && q != r && b.refs[q].kind.Blocking() && b.refs[q].kind == b.refs[r].kind
      ensures !Joined(b, home, b.refs[q].owner, b.refs[r].owner)
    {
      RowOfJoined(a, b, home, q);
      RowOfJoined(a, b, home, r);
    }
  }

  /** Whose row it is now, that person joins whose row it was. */
  lemma RowOfJoined(a: Db, b: Db, home: map<Id, Id>, r: RefId)
    requires Homing(home) && Confined(a, b, home) && r in b.refs
    ensures r in a.refs && a.refs[r].kind == b.refs[r].kind
    ensures var x, y := a.refs[r].owner, b.refs[r].owner;
            y in home && (y == home[y] || Mergeable(b, y)) ==>
                x in home && home[x] == home[y] && (x == home[x] || Mergeable(a, x))
  {
    assert RefKept(a, b, home, r);
  }

  lemma NotBlocked(db: Db, home: map<Id, Id>, source: Id, target: Id)
    requires NoneBlocked(db, home) && Mergeable(db, source) && source != target
    requires source in home && home[source] == target && target in home && home[target] == target
    ensures !Blocked(db.refs, source, target)
  {
  }

  lemma {:induction false} MembersCommit(t: Tally, members: seq<Candidate>, survivor: Id, home: map<Id, Id>)
    requires Homing(home) && NoneBlocked(t.db, home) && survivor in t.db.people && survivor in home
          && home[survivor] == survivor
    requires forall m :: m in members ==> m.id in home && home[m.id] == survivor
    ensures RunMembers(t, members, survivor, NEVER_FAILS).errors == t.errors
    decreases |members|
  {
    if members != [] {
      var m, rest := members[0].id, members[1..];
      assert members[0] in members;
      hide Homing, Confined, Merged, Blocked, NoneBlocked;
      if m == survivor {
        MembersCommit(t, rest, survivor, home);
      } else if !Mergeable(t.db, m) {
        MembersCommit(t.(skipped := t.skipped + 1), rest, survivor, home);
      } else {
        NotBlocked(t.db, home, m, survivor);
        ArchivesSource(t.db, m, survivor, Succeeds);
        MergedConfined(t.db, m, survivor, home);
        NoneBlockedKept(t.db, Merged(t.db, m, survivor), home);
        MembersCommit(t.(db := Merged(t.db, m, survivor), merged := t.merged + 1), rest, survivor, home);
      }
    }
  }

  lemma {:induction false} RunCommits(t: Tally, clusters: seq<Cluster>, home: map<Id, Id>)
    requires Homing(home) && NoneBlocked(t.db, home) && forall c :: c in clusters ==> Follows(c, home)
    requires forall c :: c in clusters && c.survivor.Some? ==> c.survivor.value.id in t.db.people
    ensures Run(t, clusters, NEVER_FAILS).errors == t.errors
    decreases |clusters|
  {
    if clusters != [] {
      var c := clusters[0];
      assert c in clusters && Follows(c, home) && [c][1..] == [];
      MembersInIds(c);
      hide Homing, Confined, NoneBlocked, IdsOf;
      var u := RunCluster(t, c, NEVER_FAILS);
      if c.survivor.Some? {
        MembersCommit(t, c.members, c.survivor.value.id, home);
        MembersConfined(t, c.members, c.survivor.value.id, NEVER_FAILS, home);
        NoneBlockedKept(t.db, u.db, home);
        SamePeople(t.db, u.db, home);
      }
      RunCommits(u, clusters[1..], home);
    }
  }

  lemma SamePeople(a: Db, b: Db, home: map<Id, Id>)
    requires Confined(a, b, home)
    ensures b.people.Keys == a.people.Keys
  {
  }

  /** Once everybody is archived, every row left of a joined person names the survivor. */
  lemma ComesHome(a: Db, b: Db, clusters: seq<Cluster>, r: RefId)
    requires Disjoint(clusters) && Confined(a, b, Homes(clusters)) && forall c :: c in clusters ==> Finished(b, c)
    requires r in a.refs && r in b.refs
    requires var x, home := a.refs[r].owner, Homes(clusters); x in home && (x == home[x] || Mergeable(a, x))
    ensures b.refs[r] == Ref(Homes(clusters)[a.refs[r].owner], a.refs[r].kind)
  {
    var home, x := Homes(clusters), a.refs[r].owner;
    assert RefKept(a, b, home, r);
    if x != home[x] {
      var c := ClusterOf(clusters, x);
      assert Finished(b, c);
      assert b.people.Keys == a.people.Keys && !Mergeable(b, x);
    }
  }

  /** So nobody can have been blocked then. */
  lemma FinishedMeansNoneBlocked(a: Db, b: Db, clusters: seq<Cluster>)
    requires Disjoint(clusters) && Confined(a, b, Homes(clusters)) && KeysUnique(b.refs)
    requires forall c :: c in clusters ==> Finished(b, c)
    ensures NoneBlocked(a, Homes(clusters))
  {
    var home := Homes(clusters);
    hide Finished, Disjoint;
    forall q, r | q in a.refs && r in a.refs && q != r && a.refs[q].kind.Blocking() && a.refs[q].kind == a.refs[r].kind
      ensures !Joined(a, home, a.refs[q].owner, a.refs[r].owner)
    {
      if Joined(a, home, a.refs[q].owner, a.refs[r].owner) {
        BlockingStays(a, b, home, q);
        BlockingStays(a, b, home, r);
        ComesHome(a, b, clusters, q);
        ComesHome(a, b, clusters, r);
      }
    }
  }

  lemma BlockingStays(a: Db, b: Db, home: map<Id, Id>, r: RefId)
    requires Confined(a, b, home) && r in a.refs && a.refs[r].kind.Blocking()
    ensures r in b.refs
  {
    assert RefKept(a, b, home, r);
  }

  /** A run in which nothing else fails meets no exception exactly if nobody is blocked. */
  lemma CommitsExactly(db: Db, clusters: seq<Cluster>)
    requires Disjoint(clusters) && KeysUnique(db.refs)
    requires forall c :: c in clusters && c.survivor.Some? ==> c.survivor.value.id in db.people
    ensures Run(Start(db), clusters, NEVER_FAILS).errors == 0 <==> NoneBlocked(db, Homes(clusters))
  {
    var t := Run(Start(db), clusters, NEVER_FAILS);
    HomesOfDisjoint(clusters);
    if t.errors == 0 {
      RunFinishes(Start(db), clusters, NEVER_FAILS);
      RunConfined(Start(db), clusters, NEVER_FAILS, Homes(clusters));
      RunKeepsUnique(db, clusters, NEVER_FAILS);
      FinishedMeansNoneBlocked(db, t.db, clusters);
    }
    if NoneBlocked(db, Homes(clusters)) {
      RunCommits(Start(db), clusters, Homes(clusters));
    }
  }

  /** After any failures and then a run without any, a further run merges nothing and changes
      nothing; and it meets no exception exactly if nobody was blocked from the start. */
  lemma QuietAfterRecovery(db: Db, clusters: seq<Cluster>, fate: Id -> Fate, later: Id -> Fate)
    requires Disjoint(clusters) && KeysUnique(db.refs)
    requires forall c :: c in clusters && c.survivor.Some? ==> c.survivor.value.id in db.people
    ensures var settled := Run(Start(Run(Start(db), clusters, fate).db), clusters, NEVER_FAILS).db;
            var t := Run(Start(settled), clusters, later);
            t.db == settled && t.merged == 0 && (t.errors == 0 <==> NoneBlocked(db, Homes(clusters)))
  {
    Recovery(db, clusters, fate);
    var t := Run(Start(db), clusters, NEVER_FAILS);
    RunDb(Start(db), clusters, NEVER_FAILS);
    SettleAll(db, clusters);
    hide Disjoint, Stuck, NEVER_FAILS, KeysUnique, AfterAll, Run;
    RunStuck(Start(t.db), clusters, later);
    HomesOfDisjoint(clusters);
    RunConfined(Start(db), clusters, NEVER_FAILS, Homes(clusters));
    RunKeepsUnique(db, clusters, NEVER_FAILS);
    CommitsExactly(db, clusters);
    RunFinishes(Start(db), clusters, NEVER_FAILS);
    if forall c :: c in clusters ==> Finished(t.db, c) {
      FinishedMeansNoneBlocked(db, t.db, clusters);
    }
  }

  /** Whoever shares such a row with the survivor is never merged away, by no run and
      whatever else fails or succeeds. */
  lemma NeverMerged(db: Db, clusters: seq<Cluster>, fate: Id -> Fate, x: Id, s: Id, kind: Kind)
    requires Disjoint(clusters) && KeysUnique(db.refs) && kind.Blocking()
    requires x in Homes(clusters) && Homes(clusters)[x] == s != x
    requires Ref(s, kind) in db.refs.Values && Ref(x, kind) in db.refs.Values
    ensures Mergeable(Run(Start(db), clusters, fate).db, x) <==> Mergeable(db, x)
  {
    var home, after := Homes(clusters), Run(Start(db), clusters, fate).db;
    HomesOfDisjoint(clusters);
    RunConfined(Start(db), clusters, fate, home);
    RunKeepsUnique(db, clusters, fate);
    hide Run, Disjoint, Homes;
    RowOfEach(db, after, home, x, s, kind);
  }

  lemma RowOfEach(a: Db, b: Db, home: map<Id, Id>, x: Id, s: Id, kind: Kind)
    requires Homing(home) && Confined(a, b, home) && KeysUnique(b.refs) && kind.Blocking()
    requires x in home && home[x] == s != x && Ref(s, kind) in a.refs.Values && Ref(x, kind) in a.refs.Values
    ensures Mergeable(b, x) <==> Mergeable(a, x)
  {
    var q :| q in a.refs && a.refs[q] == Ref(s, kind);
    var r :| r in a.refs && a.refs[r] == Ref(x, kind);
    assert RefKept(a, b, home, q) && RefKept(a, b, home, r);
    assert b.people.Keys == a.people.Keys;
  }

  /** So two people who were both sent a campaign, or were both referred, stay two. */
  lemma SharedCampaignBlocks(db: Db, s: Candidate, x: Candidate, kind: Kind, fate: Id -> Fate)
    requires s.id != x.id && Mergeable(db, x.id) && (kind.CampaignRecipient? || kind.ActiveReferral?)
    requires db.refs == map[0 := Ref(s.id, kind), 1 := Ref(x.id, kind)]
    ensures Run(Start(db), [Cluster(TierA, s.base, [s, x], Some(s))], fate) == Tally(db, 0, 0, 1)
  {
    var c := Cluster(TierA, s.base, [s, x], Some(s));
    assert db.refs[0] in db.refs.Values;
    assert db.refs[1].owner == x.id && Blocked(db.refs, x.id, s.id);
    assert [s, x][1..] == [x] && [c][1..] == [];
    assert RunMembers(Start(db), [s, x], s.id, fate) == RunMembers(Start(db), [x], s.id, fate);
  }

  // ---------------------------------------------------------- the unique keys

  lemma MergedKeepsUnique(db: Db, source: Id, target: Id)
    requires KeysUnique(db.refs) && source in db.people && source != target && !Blocked(db.refs, source, target)
    ensures KeysUnique(Merged(db, source, target).refs)
  {
  }

  lemma {:induction false} AfterKeepsUnique(db: Db, members: seq<Candidate>, survivor: Id, fate: Id -> Fate)
    requires KeysUnique(db.refs)
    ensures KeysUnique(After(db, members, survivor, fate).refs)
    decreases |members|
  {
    if members != [] {
      var m := members[0].id;
      hide KeysUnique, Merged, Blocked;
      if m == survivor || !Mergeable(db, m) {
        AfterKeepsUnique(db, members[1..], survivor, fate);
      } else {
        if !Refused(db, m, survivor, fate(m)) {
          MergedKeepsUnique(db, m, survivor);
        }
        AfterKeepsUnique(Attempt(db, m, survivor, fate(m)).0, members[1..], survivor, fate);
      }
    }
  }

  lemma {:induction false} AfterAllKeepsUnique(db: Db, clusters: seq<Cluster>, fate: Id -> Fate)
    requires KeysUnique(db.refs)
    ensures KeysUnique(AfterAll(db, clusters, fate).refs)
    decreases |clusters|
  {
    if clusters != [] {
      var c := clusters[0];
      if c.survivor.Some? {
        AfterKeepsUnique(db, c.members, c.survivor.value.id, fate);
      }
      AfterAllKeepsUnique(AfterCluster(db, c, fate), clusters[1..], fate);
    }
  }

  /** The run never breaks the unique constraints. */
  lemma RunKeepsUnique(db: Db, clusters: seq<Cluster>, fate: Id -> Fate)
    requires KeysUnique(db.refs)
    ensures KeysUnique(Run(Start(db), clusters, fate).db.refs)
  {
    RunDb(Start(db), clusters, fate);
    AfterAllKeepsUnique(db, clusters, fate);
  }

  /** `x` is a survivor, or was merged away between `a` and `b`. */
  predicate Came(a: Db, b: Db, home: map<Id, Id>, x: Id) {
    x in home && (home[x] == x || (Mergeable(a, x) && !Mergeable(b, x)))
  }

  /** Two rows with the same key, whoever's they are. */
  predicate Twins(db: Db, q: RefId, r: RefId) {
    q in db.refs && r in db.refs && q != r && db.refs[q].kind.Keyed() && db.refs[q].kind == db.refs[r].kind
  }

  /** No two people who became one between `a` and `b` had the same channel or membership. */
  ghost predicate NoTwins(a: Db, b: Db, home: map<Id, Id>) {
    forall q, r :: Twins(a, q, r) ==>
      !(Came(a, b, home, a.refs[q].owner) && Came(a, b, home, a.refs[r].owner)
        && home[a.refs[q].owner] == home[a.refs[r].owner])
  }

  /** Any run, whatever fails, keeps the number of rows exactly when nobody it merged away
      shared a key with the survivor or with another one merged into the same. */
  lemma RowsKeptExactly(db: Db, clusters: seq<Cluster>, fate: Id -> Fate)
    requires Disjoint(clusters) && KeysUnique(db.refs)
    ensures var after := Run(Start(db), clusters, fate).db;
            |after.refs| == |db.refs| <==> NoTwins(db, after, Homes(clusters))
  {
    var home, after := Homes(clusters), Run(Start(db), clusters, fate).db;
    HomesOfDisjoint(clusters);
    RunConfined(Start(db), clusters, fate, home);
    RunKeepsUnique(db, clusters, fate);
    hide Run, Homes, Disjoint;
    TwinsLost(db, after, home);
    hide Confined, Homing, KeysUnique, NoTwins;
    SubsetOfSameSize(after.refs.Keys, db.refs.Keys);
    assert |after.refs.Keys| == |after.refs| && |db.refs.Keys| == |db.refs|;
  }

  lemma TwinsLost(a: Db, b: Db, home: map<Id, Id>)
    requires Homing(home) && Confined(a, b, home) && KeysUnique(b.refs)
    ensures b.refs.Keys <= a.refs.Keys && (b.refs.Keys == a.refs.Keys <==> NoTwins(a, b, home))
  {
    if b.refs.Keys == a.refs.Keys {
      forall q, r | Twins(a, q, r)
        ensures !(Came(a, b, home, a.refs[q].owner) && Came(a, b, home, a.refs[r].owner)
                  && home[a.refs[q].owner] == home[a.refs[r].owner])
      {
        NotBoth(a, b, home, q, r);
      }
    } else {
      var r :| r in a.refs && r !in b.refs;
      var q := TwinOf(a, b, home, r);
    }
  }

  lemma NotBoth(a: Db, b: Db, home: map<Id, Id>, q: RefId, r: RefId)
    requires Homing(home) && Confined(a, b, home) && KeysUnique(b.refs) && b.refs.Keys == a.refs.Keys
    requires Twins(a, q, r)
    ensures !(Came(a, b, home, a.refs[q].owner) && Came(a, b, home, a.refs[r].owner)
              && home[a.refs[q].owner] == home[a.refs[r].owner])
  {
    assert RefKept(a, b, home, q) && RefKept(a, b, home, r);
  }

  lemma TwinOf(a: Db, b: Db, home: map<Id, Id>, r: RefId) returns (q: RefId)
    requires Homing(home) && Confined(a, b, home) && r in a.refs && r !in b.refs
    ensures Twins(a, q, r)
    ensures Came(a, b, home, a.refs[q].owner) && Came(a, b, home, a.refs[r].owner)
    ensures home[a.refs[q].owner] == home[a.refs[r].owner]
  {
    assert RefKept(a, b, home, r);
    q :| q in b.refs && b.refs[q] == Ref(home[a.refs[r].owner], a.refs[r].kind);
    assert RefKept(a, b, home, q);
  }

  /** So a run that meets no exception keeps it exactly when the people it joins share no key. */
  lemma TotalConservedExactly(db: Db, clusters: seq<Cluster>, fate: Id -> Fate)
    requires Disjoint(clusters) && KeysUnique(db.refs) && Run(Start(db), clusters, fate).errors == 0
    ensures |Run(Start(db), clusters, fate).db.refs| == |db.refs| <==> NoSharedKeys(db, Homes(clusters))
  {
    var home, after := Homes(clusters), Run(Start(db), clusters, fate).db;
    hide NoTwins, NoSharedKeys;
    RowsKeptExactly(db, clusters, fate);
    RunFinishes(Start(db), clusters, fate);
    HomesOfDisjoint(clusters);
    RunConfined(Start(db), clusters, fate, home);
    hide Run, Disjoint, Finished, KeysUnique;
    forall x | x in home ensures Came(db, after, home, x) <==> x == home[x] || Mergeable(db, x) {
      AllCame(db, after, clusters, x);
    }
    hide Confined, Homing, Mergeable, Came, Homes;
    TwinsAreShared(db, after, home);
  }

  lemma TwinsAreShared(a: Db, b: Db, home: map<Id, Id>)
    requires forall x :: x in home ==> (Came(a, b, home, x) <==> x == home[x] || Mergeable(a, x))
    ensures NoTwins(a, b, home) <==> NoSharedKeys(a, home)
  {
    forall x, y ensures Joined(a, home, x, y) <==> x in home && y in home && home[x] == home[y]
                                                   && Came(a, b, home, x) && Came(a, b, home, y)
    {
      assert Came(a, b, home, x) ==> x in home;
    }
    assert forall x :: Came(a, b, home, x) ==> x in home;
    hide Came, Joined, Mergeable;
    if NoTwins(a, b, home) {
      forall q, r | Twins(a, q, r) ensures !Joined(a, home, a.refs[q].owner, a.refs[r].owner) {
      }
    }
    if NoSharedKeys(a, home) {
      forall q, r | Twins(a, q, r)
        ensures !(Came(a, b, home, a.refs[q].owner) && Came(a, b, home, a.refs[r].owner)
                  && home[a.refs[q].owner] == home[a.refs[r].owner])
      {
        assert !Joined(a, home, a.refs[q].owner, a.refs[r].owner);
      }
    }
  }

  lemma AllCame(a: Db, b: Db, clusters: seq<Cluster>, x: Id)
    requires Confined(a, b, Homes(clusters)) && x in Homes(clusters) && forall c :: c in clusters ==> Finished(b, c)
    ensures Came(a, b, Homes(clusters), x) <==> x == Homes(clusters)[x] || Mergeable(a, x)
  {
    var c := ClusterOf(clusters, x);
    assert Finished(b, c);
  }

  /** So the number of rows is not always kept: two people with the same membership, or
      the same channel, become one with one. */
  lemma SharedMembershipIsLost(db: Db, s: Candidate, x: Candidate, kind: Kind)
    requires s.id != x.id && s.id in db.people && Mergeable(db, x.id) && (kind.Membership? || kind.Channel?)
    requires db.refs == map[0 := Ref(s.id, kind), 1 := Ref(x.id, kind)]
    ensures |Run(Start(db), [Cluster(TierA, s.base, [s, x], Some(s))], NEVER_FAILS).db.refs| < |db.refs|
  {
    var c := Cluster(TierA, s.base, [s, x], Some(s));
    var home := Homes([c]);
    assert s in c.members && x in c.members && [c][1..] == [];
    assert s.id in IdsOf(c) && x.id in IdsOf(c);
    assert home[s.id] == s.id && home[x.id] == s.id;
    assert Joined(db, home, db.refs[0].owner, db.refs[1].owner);
    hide Run, IdsOf, Homes;
    CommitsExactly(db, [c]);
    TotalConservedExactly(db, [c], NEVER_FAILS);
    HomesOfDisjoint([c]);
    RunConfined(Start(db), [c], NEVER_FAILS, home);
    SubsetOfSameSize(Run(Start(db), [c], NEVER_FAILS).db.refs.Keys, db.refs.Keys);
    assert |db.refs.Keys| == |db.refs|;
    var after := Run(Start(db), [c], NEVER_FAILS).db;
    assert |after.refs.Keys| == |after.refs|;
  }
}

/** Merging duplicate people: `People.merge` (app/services/person.py:376-550) and
    `apply_merges` (scripts/merge_duplicate_persons.py:373-402). */
module PersonMerge {
  import opened Persons

  // ---------------------------------------------------------------- one merge

  /** A duplicate key: the target already has the source's channel or membership. */
  predicate Dropped(refs: map<RefId, Ref>, r: RefId, source: Id, target: Id)
    requires r in refs
  {
    refs[r].owner == source && refs[r].kind.Keyed() && Ref(target, refs[r].kind) in refs.Values
  }

  /** The rows when those of the source in `done` have been handled. */
  function Moved(refs: map<RefId, Ref>, done: set<RefId>, source: Id, target: Id): map<RefId, Ref> {
    map r | r in refs && !(r in done && Dropped(refs, r, source, target))
      :: if r in done && refs[r].owner == source then refs[r].(owner := target) else refs[r]
  }

  function Archive(p: Person): Person {
    p.(isActive := false, status := Archived)
  }

  function Merged(db: Db, source: Id, target: Id): Db
    requires source in db.people
  {
    Db(db.people[source := Archive(db.people[source])], Moved(db.refs, db.refs.Keys, source, target))
  }

  /** Re-pointing the rows of the source would break a unique constraint: both people
      are recipients of one campaign step, or both were referred. */
  predicate Blocked(refs: map<RefId, Ref>, source: Id, target: Id) {
    exists r :: r in refs && refs[r].owner == source && refs[r].kind.Blocking()
                && Ref(target, refs[r].kind) in refs.Values
  }

  /** What else happens to a call: it may fail before its commit, or revoking the source's
      login sessions may fail when the merge is already committed. */
  datatype Fate = Succeeds | FailsBefore | FailsAfterCommit

  /** The call raises before anything is committed. */
  predicate Refused(db: Db, source: Id, target: Id, fate: Fate) {
    || source !in db.people || target !in db.people || source == target
    || Blocked(db.refs, source, target) || fate.FailsBefore?
  }

  /** The new database, and whether an exception was raised. */
  function Attempt(db: Db, source: Id, target: Id, fate: Fate): (Db, bool) {
    if Refused(db, source, target, fate) then (db, true) else (Merged(db, source, target), fate.FailsAfterCommit?)
  }

  // ---------------------------------------------------------- all the clusters

  /** The check of line 390, negated. */
  predicate Mergeable(db: Db, id: Id) {
    id in db.people && db.people[id].isActive && db.people[id].status != Archived
  }

  /** The database and the three counters. */
  datatype Tally = Tally(db: Db, merged: nat, skipped: nat, errors: nat)

  function RunMembers(t: Tally, members: seq<Candidate>, survivor: Id, fate: Id -> Fate): Tally
    decreases |members|
  {
    if members == [] then t
    else
      var m := members[0].id;
      if m == survivor then RunMembers(t, members[1..], survivor, fate)
      else if !Mergeable(t.db, m) then RunMembers(t.(skipped := t.skipped + 1), members[1..], survivor, fate)
      else
        var (next, error) := Attempt(t.db, m, survivor, fate(m));
        if error then t.(db := next, errors := t.errors + 1)
        else RunMembers(t.(db := next, merged := t.merged + 1), members[1..], survivor, fate)
  }

  function RunCluster(t: Tally, c: Cluster, fate: Id -> Fate): Tally {
    if c.survivor.None? then t else RunMembers(t, c.members, c.survivor.value.id, fate)
  }

  function Run(t: Tally, clusters: seq<Cluster>, fate: Id -> Fate): Tally
    decreases |clusters|
  {
    if clusters == [] then t else Run(RunCluster(t, clusters[0], fate), clusters[1..], fate)
  }

  function Start(db: Db): Tally {
    Tally(db, 0, 0, 0)
  }

  const NEVER_FAILS: Id -> Fate := (id: Id) => Succeeds

  // ------------------------------------------------------------- the methods

  /** The database that a session of the script writes to. */
  class PersonDb {
    var people: map<Id, Person>
    var refs: map<RefId, Ref>

    function State(): Db
      reads this
    {
      Db(people, refs)
    }

    /** `People.merge`. */
    method Merge(source: Id, target: Id, fate: Fate) returns (error: bool)
      modifies this
      ensures (State(), error) == Attempt(old(State()), source, target, fate)
    {
      if source !in people || target !in people || source == target {
        return true;
      }
      var staged := MoveRefs(refs, source, target);
      if fate.FailsBefore? || Blocked(refs, source, target) {
        return true;
      }
      refs := staged;
      people := people[source := people[source].(isActive := false, status := Archived)];
      error := fate.FailsAfterCommit?;
    }

    /** Lines 384-397: the counters go in and come out. */
    method ApplyCluster(c: Cluster, survivor: Id, fate: Id -> Fate, before: (nat, nat, nat))
      returns (after: (nat, nat, nat))
      modifies this
      ensures Tally(State(), after.0, after.1, after.2)
           == RunMembers(Tally(old(State()), before.0, before.1, before.2), c.members, survivor, fate)
    {
      hide Attempt;
      var merged, skipped, errors := before.0, before.1, before.2;
      assert c.members[0..] == c.members;
      for i := 0 to |c.members|
        invariant RunMembers(Tally(State(), merged, skipped, errors), c.members[i..], survivor, fate)
               == RunMembers(Tally(old(State()), before.0, before.1, before.2), c.members, survivor, fate)
      {
        var source := c.members[i].id;
        assert c.members[i..][0] == c.members[i] && c.members[i..][1..] == c.members[i + 1..];
        if source == survivor {
          continue;
        }
        var mergeable := source in people && people[source].isActive && people[source].status != Archived;
        if !mergeable {
          skipped := skipped + 1;
          continue;
        }
        var error := Merge(source, survivor, fate(source));
        if error {
          return (merged, skipped, errors + 1);
        }
        merged := merged + 1;
      }
      after := (merged, skipped, errors);
    }

    /** `apply_merges`. */
    method ApplyMerges(clusters: seq<Cluster>, fate: Id -> Fate) returns (merged: nat, skipped: nat, errors: nat)
      modifies this
      ensures Tally(State(), merged, skipped, errors) == Run(Start(old(State())), clusters, fate)
    {
      hide RunMembers;
      var counters: (nat, nat, nat) := (0, 0, 0);
      assert clusters[0..] == clusters;
      for i := 0 to |clusters|
        invariant Run(Tally(State(), counters.0, counters.1, counters.2), clusters[i..], fate)
               == Run(Start(old(State())), clusters, fate)
      {
        assert clusters[i..][0] == clusters[i] && clusters[i..][1..] == clusters[i + 1..];
        var survivor := clusters[i].survivor;
        if survivor.None? {
          continue;
        }
        counters := ApplyCluster(clusters[i], survivor.value.id, fate, counters);
      }
      return counters.0, counters.1, counters.2;
    }
  }

  /** Lines 409-529. The rows are changed in the session (`staged`), where
      queries do not see them (`autoflush` is off), and written by the commit. */
  method MoveRefs(refs: map<RefId, Ref>, source: Id, target: Id) returns (staged: map<RefId, Ref>)
    requires source != target
    ensures staged == Moved(refs, refs.Keys, source, target)
  {
    hide Dropped;
    assert Moved(refs, {}, source, target) == refs;
    var channels := set r | r in refs && refs[r].owner == source && refs[r].kind.Channel?;
    staged := MoveKeyed(refs, channels, refs, {}, source, target);

    ghost var plain := set r | r in refs && refs[r].owner == source && !refs[r].kind.Keyed();
    staged := MovePlain(refs, staged, channels, plain, source, target);

    var memberships := set r | r in refs && refs[r].owner == source && refs[r].kind.Membership?;
    staged := MoveKeyed(refs, memberships, staged, channels + plain, source, target);
    assert Moved(refs, channels + plain + memberships, source, target) == Moved(refs, refs.Keys, source, target) by {
      AllDone(refs, channels + plain + memberships, source, target);
    }
  }

  lemma AllDone(refs: map<RefId, Ref>, done: set<RefId>, source: Id, target: Id)
    requires forall r :: r in refs && refs[r].owner == source ==> r in done
    ensures Moved(refs, done, source, target) == Moved(refs, refs.Keys, source, target)
  {
  }

  /** The bulk updates of the tables without a key. */
  method MovePlain(refs: map<RefId, Ref>, staged: map<RefId, Ref>, ghost done: set<RefId>, ghost plain: set<RefId>,
                   source: Id, target: Id)
    returns (after: map<RefId, Ref>)
    requires source != target && staged == Moved(refs, done, source, target)
    requires plain == set r | r in refs && refs[r].owner == source && !refs[r].kind.Keyed()
    ensures after == Moved(refs, done + plain, source, target)
  {
    after := map r | r in staged
      :: if staged[r].owner == source && !staged[r].kind.Keyed() then staged[r].(owner := target) else staged[r];
  }

  /** The loops over the channels and over the memberships of the source, in any order. */
  method MoveKeyed(refs: map<RefId, Ref>, rows: set<RefId>, staged: map<RefId, Ref>, ghost done: set<RefId>,
                   source: Id, target: Id)
    returns (after: map<RefId, Ref>)
    requires source != target && staged == Moved(refs, done, source, target) && rows !! done
    requires forall r :: r in rows ==> r in refs && refs[r].owner == source && refs[r].kind.Keyed()
    ensures after == Moved(refs, done + rows, source, target)
  {
    after := staged;
    var todo := rows;
    while todo != {}
      invariant todo <= rows && after == Moved(refs, done + (rows - todo), source, target)
    {
      var r :| r in todo;
      after := MoveOrDrop(refs, after, done + (rows - todo), r, source, target);
      assert done + (rows - todo) + {r} == done + (rows - (todo - {r}));
      todo := todo - {r};
    }
    assert done + (rows - todo) == done + rows;
  }

  /** One channel or membership: re-pointed, or deleted when the target already has it. */
  method MoveOrDrop(refs: map<RefId, Ref>, staged: map<RefId, Ref>, ghost done: set<RefId>, r: RefId, source: Id,
                    target: Id)
    returns (after: map<RefId, Ref>)
    requires staged == Moved(refs, done, source, target) && source != target
    requires r in refs && r !in done && refs[r].owner == source && refs[r].kind.Keyed()
    ensures after == Moved(refs, done + {r}, source, target)
  {
    if Ref(target, refs[r].kind) in refs.Values {
      after := staged - {r};
    } else {
      after := staged[r := staged[r].(owner := target)];
    }
  }

  // --------------------------------------------------- what any run preserves

  function IdsOf(c: Cluster): set<Id> {
    (set m | m in c.members :: m.id) + if c.survivor.Some? then {c.survivor.value.id} else {}
  }

  predicate Disjoint(clusters: seq<Cluster>) {
    forall i, k :: 0 <= i < k < |clusters| ==> IdsOf(clusters[i]) !! IdsOf(clusters[k])
  }

  /** The survivor of each person in a cluster that has one. */
  function Homes(clusters: seq<Cluster>): map<Id, Id> {
    if clusters == [] then map[]
    else
      var c := clusters[0];
      if c.survivor.None? then Homes(clusters[1..])
      else Homes(clusters[1..]) + map x | x in IdsOf(c) :: c.survivor.value.id
  }

  /** A survivor is its own home. */
  predicate Homing(home: map<Id, Id>) {
    forall x :: x in home ==> home[x] in home && home[home[x]] == home[x]
  }

  predicate Follows(c: Cluster, home: map<Id, Id>) {
    c.survivor.Some? ==> forall x :: x in IdsOf(c) ==> x in home && home[x] == c.survivor.value.id
  }

  /** Disjoint clusters leave no doubt about who survives whom. */
  lemma HomesOfDisjoint(clusters: seq<Cluster>)
    requires Disjoint(clusters)
    ensures Homing(Homes(clusters)) && forall c :: c in clusters ==> Follows(c, Homes(clusters))
  {
    FollowHomes(clusters);
    var home := Homes(clusters);
    forall x | x in home ensures home[x] in home && home[home[x]] == home[x] {
      var c := ClusterOf(clusters, x);
      assert Follows(c, home) && c.survivor.value.id in IdsOf(c);
    }
  }

  lemma {:induction false} ClusterOf(clusters: seq<Cluster>, x: Id) returns (c: Cluster)
    requires x in Homes(clusters)
    ensures c in clusters && c.survivor.Some? && x in IdsOf(c) && Homes(clusters)[x] == c.survivor.value.id
    decreases |clusters|
  {
    c := clusters[0];
    if c.survivor.None? || x !in IdsOf(c) {
      c := ClusterOf(clusters[1..], x);
    }
  }

  lemma {:induction false} FollowHomes(clusters: seq<Cluster>)
    requires Disjoint(clusters)
    ensures forall c :: c in clusters ==> Follows(c, Homes(clusters))
    decreases |clusters|
  {
    if clusters != [] {
      var c, rest := clusters[0], clusters[1..];
      forall i, k | 0 <= i < k < |rest| ensures IdsOf(rest[i]) !! IdsOf(rest[k]) {
        assert rest[i] == clusters[i + 1] && rest[k] == clusters[k + 1];
      }
      FollowHomes(rest);
      hide IdsOf;
      forall d | d in clusters ensures Follows(d, Homes(clusters)) {
        var i :| 0 <= i < |clusters| && clusters[i] == d;
        if i > 0 {
          assert IdsOf(c) !! IdsOf(d) && d == rest[i - 1] && Follows(d, Homes(rest));
        }
      }
    }
  }

  /** A person is untouched, or a member that is no survivor, was mergeable, and is archived now. */
  predicate PersonKept(a: Db, b: Db, home: map<Id, Id>, p: Id)
    requires p in a.people && p in b.people
  {
    b.people[p] == a.people[p]
    || (p in home && home[p] != p && Mergeable(a, p) && b.people[p] == Archive(a.people[p]))
  }

  /** A row is untouched unless its person was merged away: then it names that person's
      survivor, or it was a duplicate of a keyed row that the survivor has. */
  predicate RefKept(a: Db, b: Db, home: map<Id, Id>, r: RefId)
    requires r in a.refs
  {
    var (x, kind) := (a.refs[r].owner, a.refs[r].kind);
    || (r in b.refs && b.refs[r] == a.refs[r])
    || (&& x in home && home[x] != x && Mergeable(a, x) && !Mergeable(b, x)
        && if r in b.refs then b.refs[r] == Ref(home[x], kind)
           else kind.Keyed() && Ref(home[x], kind) in b.refs.Values)
  }

  /** How a database may differ after some merges inside the clusters. */
  predicate Confined(a: Db, b: Db, home: map<Id, Id>) {
    && b.people.Keys == a.people.Keys && b.refs.Keys <= a.refs.Keys
    && (forall p :: p in a.people ==> PersonKept(a, b, home, p))
    && (forall r :: r in a.refs ==> RefKept(a, b, home, r))
    && (forall r :: r in b.refs ==> !(Mergeable(a, b.refs[r].owner) && !Mergeable(b, b.refs[r].owner)))
  }

  lemma ConfinedTrans(a: Db, b: Db, c: Db, home: map<Id, Id>)
    requires Homing(home) && Confined(a, b, home) && Confined(b, c, home)
    ensures Confined(a, c, home)
  {
    forall r | r in a.refs ensures RefKept(a, c, home, r) {
      RefKeptTrans(a, b, c, home, r);
    }
    forall r | r in c.refs ensures !(Mergeable(a, c.refs[r].owner) && !Mergeable(c, c.refs[r].owner)) {
      assert RefKept(b, c, home, r);
    }
  }

  lemma RefKeptTrans(a: Db, b: Db, c: Db, home: map<Id, Id>, r: RefId)
    requires Homing(home) && Confined(a, b, home) && Confined(b, c, home) && r in a.refs
    ensures RefKept(a, c, home, r)
  {
    var x := a.refs[r].owner;
    assert RefKept(a, b, home, r);
    if r in b.refs {
      assert RefKept(b, c, home, r);
    } else {
      var q :| q in b.refs && b.refs[q] == Ref(home[x], a.refs[r].kind);
      assert RefKept(b, c, home, q);
      assert q in c.refs && c.refs[q] in c.refs.Values;
    }
  }

  lemma MergedConfined(db: Db, source: Id, target: Id, home: map<Id, Id>)
    requires Mergeable(db, source) && source in home && home[source] == target != source
    ensures Confined(db, Merged(db, source, target), home)
  {
    var b := Merged(db, source, target);
    forall r | r in db.refs ensures RefKept(db, b, home, r) {
      if Dropped(db.refs, r, source, target) {
        var q :| q in db.refs && db.refs[q] == Ref(target, db.refs[r].kind);
        assert q in b.refs && b.refs[q] == db.refs[q];
      }
    }
  }

  /** One attempt moves on inside the clusters, whatever happens to it. */
  lemma AttemptConfined(db: Db, source: Id, target: Id, fate: Fate, home: map<Id, Id>)
    requires Mergeable(db, source) && source in home && home[source] == target != source
    ensures Confined(db, Attempt(db, source, target, fate).0, home)
  {
    MergedConfined(db, source, target, home);
  }

  lemma {:induction false} MembersConfined(t: Tally, members: seq<Candidate>, survivor: Id, fate: Id -> Fate,
                                           home: map<Id, Id>)
    requires Homing(home) && forall m :: m in members ==> m.id in home && home[m.id] == survivor
    ensures Confined(t.db, RunMembers(t, members, survivor, fate).db, home)
    decreases |members|
  {
    hide Confined, Homing, Attempt, Mergeable;
    if members == [] {
      ConfinedRefl(t.db, home);
    } else {
      var m := members[0].id;
      assert members[0] in members;
      if m == survivor {
        MembersConfined(t, members[1..], survivor, fate, home);
      } else if !Mergeable(t.db, m) {
        MembersConfined(t.(skipped := t.skipped + 1), members[1..], survivor, fate, home);
      } else {
        AttemptConfined(t.db, m, survivor, fate(m), home);
        var (next, error) := Attempt(t.db, m, survivor, fate(m));
        if !error {
          var u := t.(db := next, merged := t.merged + 1);
          MembersConfined(u, members[1..], survivor, fate, home);
          ConfinedTrans(t.db, next, RunMembers(u, members[1..], survivor, fate).db, home);
        }
      }
    }
  }

  lemma ConfinedRefl(db: Db, home: map<Id, Id>)
    ensures Confined(db, db, home)
  {
  }

  lemma {:induction false} RunConfined(t: Tally, clusters: seq<Cluster>, fate: Id -> Fate, home: map<Id, Id>)
    requires Homing(home) && forall c :: c in clusters ==> Follows(c, home)
    ensures Confined(t.db, Run(t, clusters, fate).db, home)
    decreases |clusters|
  {
    if clusters == [] {
      ConfinedRefl(t.db, home);
    } else {
      var c := clusters[0];
      assert c in clusters && Follows(c, home);
      var u := RunCluster(t, c, fate);
      if c.survivor.Some? {
        MembersConfined(t, c.members, c.survivor.value.id, fate, home);
      } else {
        ConfinedRefl(t.db, home);
      }
      RunConfined(u, clusters[1..], fate, home);
      ConfinedTrans(t.db, u.db, Run(u, clusters[1..], fate).db, home);
    }
  }

  // ------------------------------------------------- what that means for a run

  predicate MergedAway(clusters: seq<Cluster>, p: Id) {
    exists c :: c in clusters && c.survivor.Some? && p in IdsOf(c) && p != c.survivor.value.id
  }

  /** No survivor is archived, nor is any person outside the clusters; nothing else about anyone changes. */
  lemma PeopleKept(db: Db, clusters: seq<Cluster>, fate: Id -> Fate, p: Id)
    requires Disjoint(clusters) && p in db.people
    ensures p in Run(Start(db), clusters, fate).db.people
    ensures var now := Run(Start(db), clusters, fate).db.people[p];
            || now == db.people[p]
            || (&& MergedAway(clusters, p) && db.people[p].isActive && db.people[p].status != Archived
                && now == db.people[p].(isActive := false, status := Archived))
  {
    var home := Homes(clusters);
    HomesOfDisjoint(clusters);
    RunConfined(Start(db), clusters, fate, home);
    assert PersonKept(db, Run(Start(db), clusters, fate).db, home, p);
    if p in home {
      var c := ClusterOf(clusters, p);
    }
  }

  /** Every row stays, or moves to the survivor of its person's cluster, or was a
      duplicate key there; no other row is lost and none appears. */
  lemma RefsKept(db: Db, clusters: seq<Cluster>, fate: Id -> Fate, r: RefId)
    requires Disjoint(clusters) && r in db.refs
    ensures var after := Run(Start(db), clusters, fate).db;
            after.refs.Keys <= db.refs.Keys && RefKept(db, after, Homes(clusters), r)
  {
    HomesOfDisjoint(clusters);
    RunConfined(Start(db), clusters, fate, Homes(clusters));
  }

  /** The rows of which a merge drops no duplicates: every one of them is there before and after. */
  function PlainRows(db: Db): set<RefId> {
    set r | r in db.refs && !db.refs[r].kind.Keyed()
  }

  lemma PlainRowsConserved(db: Db, clusters: seq<Cluster>, fate: Id -> Fate)
    requires Disjoint(clusters)
    ensures PlainRows(Run(Start(db), clusters, fate).db) == PlainRows(db)
  {
    var after := Run(Start(db), clusters, fate).db;
    forall r | r in db.refs ensures RefKept(db, after, Homes(clusters), r) && after.refs.Keys <= db.refs.Keys {
      RefsKept(db, clusters, fate, r);
    }
    if db.refs == map[] {
      HomesOfDisjoint(clusters);
      RunConfined(Start(db), clusters, fate, Homes(clusters));
    }
  }

  /** Some person whose survivor is `s` has a row of this kind. */
  predicate ClusterHas(db: Db, home: map<Id, Id>, s: Id, kind: Kind) {
    exists r :: r in db.refs && db.refs[r].kind == kind && db.refs[r].owner in home && home[db.refs[r].owner] == s
  }

  lemma ClusterKeeps(a: Db, b: Db, home: map<Id, Id>, s: Id, kind: Kind)
    requires Homing(home) && Confined(a, b, home) && ClusterHas(a, home, s, kind)
    ensures ClusterHas(b, home, s, kind)
  {
    var r :| r in a.refs && a.refs[r].kind == kind && a.refs[r].owner in home && home[a.refs[r].owner] == s;
    assert RefKept(a, b, home, r);
    if r !in b.refs {
      var q :| q in b.refs && b.refs[q] == Ref(s, kind);
    }
  }

  lemma ClusterGainsNothing(a: Db, b: Db, home: map<Id, Id>, s: Id, kind: Kind)
    requires Homing(home) && Confined(a, b, home) && ClusterHas(b, home, s, kind)
    ensures ClusterHas(a, home, s, kind)
  {
    var r :| r in b.refs && b.refs[r].kind == kind && b.refs[r].owner in home && home[b.refs[r].owner] == s;
    assert RefKept(a, b, home, r);
  }

  /** A cluster has the same channels and memberships before and after. */
  lemma KeysConserved(db: Db, clusters: seq<Cluster>, fate: Id -> Fate, s: Id, kind: Kind)
    requires Disjoint(clusters)
    ensures var home := Homes(clusters);
            ClusterHas(Run(Start(db), clusters, fate).db, home, s, kind) <==> ClusterHas(db, home, s, kind)
  {
    var home, after := Homes(clusters), Run(Start(db), clusters, fate).db;
    HomesOfDisjoint(clusters);
    RunConfined(Start(db), clusters, fate, home);
    hide Confined, Homing, ClusterHas;
    if ClusterHas(db, home, s, kind) {
      ClusterKeeps(db, after, home, s, kind);
    }
    if ClusterHas(after, home, s, kind) {
      ClusterGainsNothing(db, after, home, s, kind);
    }
  }

  /** No two people about to be merged into one have the same channel or membership. */
  predicate NoSharedKeys(db: Db, home: map<Id, Id>) {
    forall q, r :: q in db.refs && r in db.refs && q != r && db.refs[q].kind.Keyed()
                   && db.refs[q].kind == db.refs[r].kind
      ==> !Joined(db, home, db.refs[q].owner, db.refs[r].owner)
  }

  predicate Joined(db: Db, home: map<Id, Id>, x: Id, y: Id) {
    && x in home && y in home && home[x] == home[y]
    && (x == home[x] || Mergeable(db, x)) && (y == home[y] || Mergeable(db, y))
  }

  lemma SubsetOfSameSize<T>(a: set<T>, b: set<T>)
    requires a <= b
    ensures |a| <= |b| && (|a| == |b| <==> a == b)
  {
    assert b == a + (b - a);
  }

  /** A row is only lost to a twin. */
  lemma LostToTwin(a: Db, b: Db, home: map<Id, Id>, r: RefId) returns (q: RefId)
    requires Homing(home) && Confined(a, b, home) && r in a.refs && r !in b.refs
    ensures q in a.refs && q != r && a.refs[q].kind == a.refs[r].kind && a.refs[r].kind.Keyed()
    ensures Joined(a, home, a.refs[q].owner, a.refs[r].owner)
  {
    assert RefKept(a, b, home, r);
    q :| q in b.refs && b.refs[q] == Ref(home[a.refs[r].owner], a.refs[r].kind);
    assert RefKept(a, b, home, q);
  }

  /** Without shared keys no run loses a row, whatever fails. */
  lemma TotalConserved(db: Db, clusters: seq<Cluster>, fate: Id -> Fate)
    requires Disjoint(clusters) && NoSharedKeys(db, Homes(clusters))
    ensures |Run(Start(db), clusters, fate).db.refs| == |db.refs|
  {
    var home, after := Homes(clusters), Run(Start(db), clusters, fate).db;
    HomesOfDisjoint(clusters);
    RunConfined(Start(db), clusters, fate, home);
    if r :| r in db.refs && r !in after.refs {
      var q := LostToTwin(db, after, home, r);
      assert false;
    }
    assert after.refs.Keys == db.refs.Keys && |after.refs.Keys| == |after.refs| && |db.refs.Keys| == |db.refs|;
  }
}

/** Finding the duplicates: survivor choice and clustering
    (scripts/merge_duplicate_persons.py:164-293). */
module PersonClusters {
  import opened Options
  import opened Persons
  import opened PersonMerge

  // ------------------------------------------------------------- the survivor

  /** `count_person_refs`. */
  function Footprint(db: Db, id: Id): nat {
    |RefsOf(db, id)|
  }

  /** Membership in `_subscriber_linked_ids`. */
  predicate Linked(db: Db, id: Id) {
    exists r :: r in db.refs && db.refs[r] == Ref(id, Subscriber)
  }

  /** The tuple that `_select_survivor` minimizes. */
  datatype Rank = Rank(linked: int, suffixed: int, suffix: int, refs: int, createdAt: int, id: Id)

  function RankOf(db: Db, c: Candidate): Rank {
    Rank(if Linked(db, c.id) then 0 else 1, if c.suffix.None? then 0 else 1,
         if c.suffix.Some? then c.suffix.value else -1, 0 - Footprint(db, c.id), c.createdAt, c.id)
  }

  /** The lexicographic order of Python's tuples. */
  predicate Less(a: Rank, b: Rank) {
    a.linked < b.linked || (a.linked == b.linked &&
      (a.suffixed < b.suffixed || (a.suffixed == b.suffixed &&
        (a.suffix < b.suffix || (a.suffix == b.suffix &&
          (a.refs < b.refs || (a.refs == b.refs &&
            (a.createdAt < b.createdAt || (a.createdAt == b.createdAt && a.id < b.id)))))))))
  }

  /** `min(members, key=key)`: the first of the least. */
  function SelectSurvivor(db: Db, members: seq<Candidate>): Candidate
    requires members != []
  {
    var last := members[|members| - 1];
    if |members| == 1 then last
    else
      var best := SelectSurvivor(db, members[..|members| - 1]);
      if Less(RankOf(db, last), RankOf(db, best)) then last else best
  }

  predicate DistinctIds(members: seq<Candidate>) {
    forall i, k :: 0 <= i < k < |members| ==> members[i].id != members[k].id
  }

  lemma {:induction false} SurvivorIsLeast(db: Db, members: seq<Candidate>)
    requires members != [] && DistinctIds(members)
    ensures var s := SelectSurvivor(db, members);
            s in members && forall m :: m in members && m != s ==> Less(RankOf(db, s), RankOf(db, m))
    decreases |members|
  {
    var n := |members| - 1;
    var last := members[n];
    if n > 0 {
      var init := members[..n];
      SurvivorIsLeast(db, init);
      var best := SelectSurvivor(db, init);
      hide RankOf, SelectSurvivor;
      assert members == init + [last] && best.id != last.id by {
        var i :| 0 <= i < n && init[i] == best;
        assert members[i] == best;
      }
      FirstOfTwo(db, members, init, best, last);
    }
  }

  /** The last of the members takes over exactly if it ranks before the best so far. */
  lemma FirstOfTwo(db: Db, members: seq<Candidate>, init: seq<Candidate>, best: Candidate, last: Candidate)
    requires init != [] && members == init + [last] && best == SelectSurvivor(db, init) && best.id != last.id
    requires best in init && forall m :: m in init && m != best ==> Less(RankOf(db, best), RankOf(db, m))
    ensures var s := SelectSurvivor(db, members);
            s in members && forall m :: m in members && m != s ==> Less(RankOf(db, s), RankOf(db, m))
  {
    assert members[..|members| - 1] == init && members[|members| - 1] == last;
    var s := SelectSurvivor(db, members);
    assert s == if Less(RankOf(db, last), RankOf(db, best)) then last else best;
    hide RankOf, SelectSurvivor;
    LessIsTotal(RankOf(db, best), RankOf(db, last));
    forall m | m in members && m != s ensures Less(RankOf(db, s), RankOf(db, m)) {
      if s == last && m != best {
        LessTrans(RankOf(db, last), RankOf(db, best), RankOf(db, m));
      }
    }
  }

  lemma LessTrans(p: Rank, q: Rank, r: Rank)
    requires (p == q || Less(p, q)) && Less(q, r)
    ensures Less(p, r)
  {
  }

  lemma LessIsTotal(a: Rank, b: Rank)
    requires a.id != b.id
    ensures Less(a, b) <==> !Less(b, a)
  {
  }

  // -------------------------------------------------------------- the clusters

  function AllPhones(members: seq<Candidate>): set<string> {
    if members == [] then {} else members[0].phones + AllPhones(members[1..])
  }

  function WithPhone(members: seq<Candidate>): seq<Candidate> {
    if members == [] then []
    else (if members[0].phones != {} then [members[0]] else []) + WithPhone(members[1..])
  }

  predicate HasSuffix(members: seq<Candidate>) {
    exists m :: m in members && m.suffix.Some?
  }

  /** Lines 247-290, for one base name. */
  function Decide(db: Db, members: seq<Candidate>, includeTierB: bool): Cluster
    requires |members| >= 2
  {
    var base := members[0].base;
    var phones := AllPhones(members);
    var allHavePhone := forall m :: m in members ==> m.phones != {};
    if HasSuffix(members) then
      if allHavePhone && |phones| == 1
      then Cluster(TierA, base, members, Some(SelectSurvivor(db, members)))
      else Cluster(Review, base, members, None)
    else if |phones| == 1 && |WithPhone(members)| >= 2 then
      var sharers := WithPhone(members);
      Cluster(TierB, base, sharers, if includeTierB then Some(SelectSurvivor(db, sharers)) else None)
    else Cluster(TierC, base, members, None)
  }

  /** The candidates with a base name, in order. */
  function OfBase(candidates: seq<Candidate>, base: string): seq<Candidate> {
    if candidates == [] then []
    else
      var last := candidates[|candidates| - 1];
      OfBase(candidates[..|candidates| - 1], base) + if last.base == base then [last] else []
  }

  /** The dictionary `by_base`: its keys in order of insertion, and its lists. */
  ghost predicate Grouped(candidates: seq<Candidate>, bases: seq<string>, byBase: map<string, seq<Candidate>>) {
    && (forall i, k :: 0 <= i < k < |bases| ==> bases[i] != bases[k])
    && (forall b :: b in byBase <==> b in bases)
    && (forall b :: b in byBase ==> byBase[b] == OfBase(candidates, b))
    && (forall c :: c in candidates ==> c.base in byBase)
  }

  /** Lines 238-240. */
  method GroupByBase(candidates: seq<Candidate>) returns (bases: seq<string>, byBase: map<string, seq<Candidate>>)
    ensures Grouped(candidates, bases, byBase)
  {
    bases, byBase := [], map[];
    for i := 0 to |candidates|
      invariant Grouped(candidates[..i], bases, byBase)
    {
      hide Grouped;
      var c := candidates[i];
      assert candidates[..i + 1] == candidates[..i] + [c];
      GroupedStep(candidates[..i], bases, byBase, c);
      if c.base in byBase {
        byBase := byBase[c.base := byBase[c.base] + [c]];
      } else {
        bases := bases + [c.base];
        byBase := byBase[c.base := [c]];
      }
    }
    assert candidates[..|candidates|] == candidates;
  }

  lemma GroupedStep(candidates: seq<Candidate>, bases: seq<string>, byBase: map<string, seq<Candidate>>, c: Candidate)
    requires Grouped(candidates, bases, byBase)
    ensures if c.base in byBase
            then Grouped(candidates + [c], bases, byBase[c.base := byBase[c.base] + [c]])
            else Grouped(candidates + [c], bases + [c.base], byBase[c.base := [c]])
  {
    forall b ensures OfBase(candidates + [c], b) == OfBase(candidates, b) + if c.base == b then [c] else [] {
      assert (candidates + [c])[..|candidates|] == candidates;
    }
    if c.base !in byBase {
      NoneOfBase(candidates, c.base);
    }
    hide OfBase;
  }

  lemma NoneOfBase(candidates: seq<Candidate>, base: string)
    requires forall c :: c in candidates ==> c.base != base
    ensures OfBase(candidates, base) == []
  {
    OfBaseMembers(candidates, base);
    if OfBase(candidates, base) != [] {
      assert OfBase(candidates, base)[0] in OfBase(candidates, base);
    }
  }

  /** The cluster is what the candidates of its base name call for. */
  predicate IsDecided(db: Db, candidates: seq<Candidate>, includeTierB: bool, c: Cluster) {
    var members := OfBase(candidates, c.base);
    |members| >= 2 && c == Decide(db, members, includeTierB)
  }

  predicate HasBase(clusters: seq<Cluster>, base: string) {
    exists c :: c in clusters && c.base == base
  }

  predicate DistinctBases(clusters: seq<Cluster>) {
    forall i, k :: 0 <= i < k < |clusters| ==> clusters[i].base != clusters[k].base
  }

  /** One cluster for each base name that two candidates or more have. */
  ghost predicate Decided(db: Db, candidates: seq<Candidate>, includeTierB: bool, clusters: seq<Cluster>) {
    && DistinctBases(clusters)
    && (forall c :: c in clusters ==> IsDecided(db, candidates, includeTierB, c))
    && (forall b :: |OfBase(candidates, b)| >= 2 ==> HasBase(clusters, b))
  }

  /** The same for the base names that were looked at. */
  ghost predicate DecidedFor(db: Db, candidates: seq<Candidate>, includeTierB: bool, bases: seq<string>,
                             clusters: seq<Cluster>) {
    && DistinctBases(clusters)
    && (forall c :: c in clusters ==> c.base in bases && IsDecided(db, candidates, includeTierB, c))
    && (forall b :: b in bases && |OfBase(candidates, b)| >= 2 ==> HasBase(clusters, b))
  }

  /** `build_clusters` up to the final sort. */
  method BuildClusters(db: Db, candidates: seq<Candidate>, includeTierB: bool) returns (clusters: seq<Cluster>)
    ensures Decided(db, candidates, includeTierB, clusters)
  {
    var bases, byBase := GroupByBase(candidates);
    clusters := [];
    for i := 0 to |bases|
      invariant DecidedFor(db, candidates, includeTierB, bases[..i], clusters)
    {
      hide Decide, OfBase, DecidedFor;
      var members := byBase[bases[i]];
      assert bases[..i + 1] == bases[..i] + [bases[i]] && bases[i] !in bases[..i];
      DecidedStep(db, candidates, includeTierB, bases[..i], clusters, bases[i]);
      if |members| >= 2 {
        clusters := clusters + [Decide(db, members, includeTierB)];
      }
    }
    forall b | |OfBase(candidates, b)| >= 2 ensures b in bases {
      OfBaseMembers(candidates, b);
      assert OfBase(candidates, b)[0] in OfBase(candidates, b);
    }
  }

  lemma DecidedStep(db: Db, candidates: seq<Candidate>, includeTierB: bool, bases: seq<string>, clusters: seq<Cluster>,
                    base: string)
    requires DecidedFor(db, candidates, includeTierB, bases, clusters) && base !in bases
    ensures var members := OfBase(candidates, base);
            DecidedFor(db, candidates, includeTierB, bases + [base],
                       if |members| >= 2 then clusters + [Decide(db, members, includeTierB)] else clusters)
  {
    var members := OfBase(candidates, base);
    if |members| >= 2 {
      DecideBase(db, candidates, base, includeTierB);
      hide OfBase, Decide, DecidedFor;
      DecidedAppend(db, candidates, includeTierB, bases, clusters, Decide(db, members, includeTierB));
    } else {
      hide OfBase, Decide, HasBase, DistinctBases, IsDecided;
    }
  }

  lemma DecidedAppend(db: Db, candidates: seq<Candidate>, includeTierB: bool, bases: seq<string>,
                      clusters: seq<Cluster>, c: Cluster)
    requires DecidedFor(db, candidates, includeTierB, bases, clusters)
    requires c.base !in bases && IsDecided(db, candidates, includeTierB, c)
    ensures DecidedFor(db, candidates, includeTierB, bases + [c.base], clusters + [c])
  {
    hide OfBase, IsDecided, HasBase, DistinctBases;
    DistinctBasesAppend(clusters, c);
    forall b | b in bases + [c.base] && |OfBase(candidates, b)| >= 2 ensures HasBase(clusters + [c], b) {
      HasBaseAppend(clusters, c, b);
    }
  }

  lemma DistinctBasesAppend(clusters: seq<Cluster>, c: Cluster)
    requires DistinctBases(clusters) && forall d :: d in clusters ==> d.base != c.base
    ensures DistinctBases(clusters + [c])
  {
    assert forall i :: 0 <= i < |clusters| ==> clusters[i] in clusters;
  }

  lemma HasBaseAppend(clusters: seq<Cluster>, c: Cluster, base: string)
    requires HasBase(clusters, base) || c.base == base
    ensures HasBase(clusters + [c], base)
  {
    if c.base == base {
      assert c in clusters + [c];
    } else {
      var d :| d in clusters && d.base == base;
      assert d in clusters + [c];
    }
  }

  lemma DecideBase(db: Db, candidates: seq<Candidate>, base: string, includeTierB: bool)
    requires |OfBase(candidates, base)| >= 2
    ensures Decide(db, OfBase(candidates, base), includeTierB).base == base
  {
    OfBaseMembers(candidates, base);
  }

  lemma {:induction false} OfBaseMembers(candidates: seq<Candidate>, base: string)
    ensures forall c :: c in OfBase(candidates, base) <==> c in candidates && c.base == base
    decreases |candidates|
  {
    if candidates != [] {
      var n := |candidates| - 1;
      OfBaseMembers(candidates[..n], base);
      assert candidates == candidates[..n] + [candidates[n]];
    }
  }

  lemma {:induction false} OfBaseDistinct(candidates: seq<Candidate>, base: string)
    requires DistinctIds(candidates)
    ensures DistinctIds(OfBase(candidates, base))
    decreases |candidates|
  {
    if candidates != [] {
      var n := |candidates| - 1;
      var init, g := candidates[..n], OfBase(candidates[..n], base);
      OfBaseDistinct(init, base);
      OfBaseMembers(init, base);
      forall i | 0 <= i < |g| ensures g[i].id != candidates[n].id {
        assert g[i] in g && g[i] in init;
        var k :| 0 <= k < n && init[k] == g[i];
        assert candidates[k].id != candidates[n].id;
      }
    }
  }

  // ------------------------------------- what is planned, in terms of the people

  function BaseOf(db: Db, id: Id): string
    requires id in db.people
  {
    SplitSuffix(db.people[id].name).0
  }

  function SuffixOf(db: Db, id: Id): Option<nat>
    requires id in db.people
  {
    SplitSuffix(db.people[id].name).1
  }

  function RankAt(db: Db, id: Id): Rank
    requires id in db.people
  {
    RankOf(db, CandidateOf(db, id))
  }

  /** Everybody to be considered under a base name. */
  function Group(db: Db, base: string): set<Id> {
    set id | id in db.people && Loadable(db, id) && BaseOf(db, id) == base
  }

  function Sharers(db: Db, g: set<Id>): set<Id>
    requires g <= db.people.Keys
  {
    set x | x in g && Phones(db, x) != {}
  }

  predicate AllHaveOnly(db: Db, g: set<Id>, phone: string)
    requires g <= db.people.Keys
  {
    forall x :: x in g ==> Phones(db, x) == {phone}
  }

  ghost predicate OnePhone(db: Db, g: set<Id>)
    requires g <= db.people.Keys
  {
    g != {} && exists phone :: AllHaveOnly(db, g, phone)
  }

  predicate Suffixed(db: Db, g: set<Id>)
    requires g <= db.people.Keys
  {
    exists x :: x in g && SuffixOf(db, x).Some?
  }

  /** The people of a base name who are to become one: those with a phone, if they all
      have the same single phone, are at least two, and either somebody's name is
      numbered and nobody lacks a phone, or unnumbered names are included. */
  ghost function Selected(db: Db, base: string, includeTierB: bool): set<Id> {
    var g := Group(db, base);
    var sharers := Sharers(db, g);
    if |sharers| >= 2 && OnePhone(db, sharers) && (if Suffixed(db, g) then sharers == g else includeTierB)
    then sharers
    else {}
  }

  ghost predicate Best(db: Db, s: Id, g: set<Id>)
    requires g <= db.people.Keys
  {
    s in g && forall x :: x in g && x != s ==> Less(RankAt(db, s), RankAt(db, x))
  }

  /** `x` is to be merged into `s`, or is `s` and to survive. */
  ghost predicate Assigned(db: Db, includeTierB: bool, x: Id, s: Id) {
    x in db.people
    && var g := Selected(db, BaseOf(db, x), includeTierB);
       x in g && Best(db, s, g)
  }

  ghost predicate InCluster(clusters: seq<Cluster>, x: Id, s: Id) {
    exists c :: c in clusters && c.survivor.Some? && c.survivor.value.id == s && x in IdsOf(c)
  }

  // ------------------------------------------ the clusters are what is planned

  function Ids(members: seq<Candidate>): set<Id> {
    set m | m in members :: m.id
  }

  /** `members` are the people of `g`, each once, in some order. */
  predicate Lists(db: Db, members: seq<Candidate>, g: set<Id>) {
    && DistinctIds(members) && Ids(members) == g
    && forall m :: m in members ==> m.id in db.people && m == CandidateOf(db, m.id)
  }

  /** What `load_candidates` returns, in any order. */
  predicate Listing(db: Db, candidates: seq<Candidate>) {
    Lists(db, candidates, set id | id in db.people && Loadable(db, id))
  }

  lemma {:induction false} IdsCount(members: seq<Candidate>)
    requires DistinctIds(members)
    ensures |Ids(members)| == |members|
    decreases |members|
  {
    if members != [] {
      var n := |members| - 1;
      IdsCount(members[..n]);
      assert members == members[..n] + [members[n]];
      assert Ids(members) == Ids(members[..n]) + {members[n].id};
      assert members[n].id !in Ids(members[..n]);
    }
  }

  lemma {:induction false} WithPhoneMembers(members: seq<Candidate>)
    ensures forall m :: m in WithPhone(members) <==> m in members && m.phones != {}
    ensures DistinctIds(members) ==> DistinctIds(WithPhone(members))
    decreases |members|
  {
    if members != [] {
      var rest := members[1..];
      WithPhoneMembers(rest);
      assert members == [members[0]] + rest;
      if DistinctIds(members) {
        forall i | 0 <= i < |WithPhone(rest)| ensures WithPhone(rest)[i].id != members[0].id {
          assert WithPhone(rest)[i] in rest;
        }
      }
    }
  }

  lemma WithPhoneLists(db: Db, members: seq<Candidate>, g: set<Id>)
    requires Lists(db, members, g)
    ensures g <= db.people.Keys && Lists(db, WithPhone(members), Sharers(db, g))
  {
    WithPhoneMembers(members);
    hide DistinctIds, Phones, WithPhone;
    forall x | x in Sharers(db, g) ensures x in Ids(WithPhone(members)) {
      var m :| m in members && m.id == x;
    }
    forall x | x in Ids(WithPhone(members)) ensures x in Sharers(db, g) {
      var m :| m in WithPhone(members) && m.id == x;
    }
  }

  lemma {:induction false} AllPhonesMembers(members: seq<Candidate>, phone: string)
    ensures phone in AllPhones(members) <==> exists m :: m in members && phone in m.phones
    decreases |members|
  {
    if members != [] {
      AllPhonesMembers(members[1..], phone);
      assert members == [members[0]] + members[1..];
    }
  }

  /** What `Lists` says about phones. */
  lemma ListedPhones(db: Db, members: seq<Candidate>, g: set<Id>)
    requires Lists(db, members, g) && g <= db.people.Keys
    ensures forall m :: m in members ==> m.id in g && m.phones == Phones(db, m.id)
    ensures forall x :: x in g ==> exists m :: m in members && m.id == x
  {
    hide Phones;
  }

  /** One number in all is one number for everybody who has any. */
  lemma AllPhonesOne(db: Db, members: seq<Candidate>, g: set<Id>)
    requires Lists(db, members, g) && g <= db.people.Keys
    ensures |AllPhones(members)| == 1 <==> OnePhone(db, Sharers(db, g))
  {
    forall phone ensures phone in AllPhones(members) <==> exists m :: m in members && phone in m.phones {
      AllPhonesMembers(members, phone);
    }
    ListedPhones(db, members, g);
    hide Phones, Lists, AllPhones;
    if |AllPhones(members)| == 1 {
      OneInAll(db, members, g);
    }
    if OnePhone(db, Sharers(db, g)) {
      OneForEach(db, members, g);
    }
  }

  lemma OneInAll(db: Db, members: seq<Candidate>, g: set<Id>)
    requires |AllPhones(members)| == 1 && g <= db.people.Keys
    requires forall phone :: phone in AllPhones(members) <==> exists m :: m in members && phone in m.phones
    requires forall m :: m in members ==> m.id in g && m.phones == Phones(db, m.id)
    requires forall x :: x in g ==> exists m :: m in members && m.id == x
    ensures OnePhone(db, Sharers(db, g))
  {
    hide Phones, AllPhones;
    var all, sharers := AllPhones(members), Sharers(db, g);
    var phone :| phone in all;
    OnlyElement(all, phone);
    forall x | x in sharers ensures Phones(db, x) == {phone} {
      var m :| m in members && m.id == x;
      assert forall q :: q in m.phones ==> q in all;
      assert exists q :: q in m.phones;
    }
    assert AllHaveOnly(db, sharers, phone);
    var m :| m in members && phone in m.phones;
    assert m.id in sharers;
  }

  lemma OneForEach(db: Db, members: seq<Candidate>, g: set<Id>)
    requires g <= db.people.Keys && OnePhone(db, Sharers(db, g))
    requires forall phone :: phone in AllPhones(members) <==> exists m :: m in members && phone in m.phones
    requires forall m :: m in members ==> m.id in g && m.phones == Phones(db, m.id)
    requires forall x :: x in g ==> exists m :: m in members && m.id == x
    ensures |AllPhones(members)| == 1
  {
    hide Phones, AllPhones;
    var all, sharers := AllPhones(members), Sharers(db, g);
    var phone :| AllHaveOnly(db, sharers, phone);
    forall q | q in all ensures q == phone {
      var m :| m in members && q in m.phones;
      assert m.id in sharers;
    }
    var x :| x in sharers;
    var m :| m in members && m.id == x;
    assert phone in m.phones;
    assert all == {phone};
  }

  lemma OnlyElement<T>(s: set<T>, x: T)
    requires |s| == 1 && x in s
    ensures s == {x}
  {
    assert |s - {x}| == 0;
  }

  /** The decision on the list of a group, whatever its order, is the plan for the group. */
  lemma DecideSelects(db: Db, members: seq<Candidate>, base: string, includeTierB: bool)
    requires |members| >= 2 && Lists(db, members, Group(db, base))
    ensures var c, g := Decide(db, members, includeTierB), Selected(db, base, includeTierB);
            && Ids(c.members) <= Group(db, base)
            && (c.survivor.None? <==> g == {})
            && (c.survivor.Some? ==>
                Ids(c.members) == g && c.survivor.value in c.members && Best(db, c.survivor.value.id, g))
  {
    var g := Group(db, base);
    WithPhoneLists(db, members, g);
    SurvivorSelects(db, members, base, includeTierB);
    hide AllPhones, Phones, Loadable, WithPhone, HasSuffix, Suffixed, OnePhone, Selected, Group, Sharers;
    var c := Decide(db, members, includeTierB);
    if c.survivor.Some? {
      LeastIsBest(db, c.members, Selected(db, base, includeTierB));
    }
  }

  lemma SurvivorSelects(db: Db, members: seq<Candidate>, base: string, includeTierB: bool)
    requires |members| >= 2 && Lists(db, members, Group(db, base))
    ensures var c, g := Decide(db, members, includeTierB), Selected(db, base, includeTierB);
            && Ids(c.members) <= Group(db, base)
            && (c.survivor.None? <==> g == {})
            && (c.survivor.Some? ==>
                c.members != [] && c.survivor.value == SelectSurvivor(db, c.members) && Lists(db, c.members, g))
  {
    var g := Group(db, base);
    WithPhoneLists(db, members, g);
    AllPhonesOne(db, members, g);
    SuffixedLists(db, members, g);
    AllWithPhone(db, members, g);
    WithPhoneSize(db, members, g);
    hide AllPhones, Phones, Loadable, WithPhone, HasSuffix, Suffixed, OnePhone, SelectSurvivor, DistinctIds;
    hide CandidateOf;
  }

  lemma WithPhoneSize(db: Db, members: seq<Candidate>, g: set<Id>)
    requires Lists(db, members, g) && g <= db.people.Keys
    ensures |WithPhone(members)| == |Sharers(db, g)| && Ids(WithPhone(members)) <= g
    ensures (exists x :: x in g) <==> members != []
  {
    WithPhoneLists(db, members, g);
    IdsCount(WithPhone(members));
    hide WithPhone, Phones, DistinctIds, CandidateOf;
    if members != [] {
      assert members[0] in members;
      assert members[0].id in g;
    }
  }

  lemma SuffixedLists(db: Db, members: seq<Candidate>, g: set<Id>)
    requires Lists(db, members, g) && g <= db.people.Keys
    ensures HasSuffix(members) <==> Suffixed(db, g)
  {
    hide Phones;
    if x :| x in g && SuffixOf(db, x).Some? {
      var m :| m in members && m.id == x;
    }
    if m :| m in members && m.suffix.Some? {
      assert m.id in g;
    }
  }

  lemma AllWithPhone(db: Db, members: seq<Candidate>, g: set<Id>)
    requires Lists(db, members, g) && g <= db.people.Keys
    ensures (forall m :: m in members ==> m.phones != {}) <==> Sharers(db, g) == g
  {
    hide Phones;
    if forall m :: m in members ==> m.phones != {} {
      forall x | x in g ensures x in Sharers(db, g) {
        var m :| m in members && m.id == x;
      }
    } else {
      var m :| m in members && m.phones == {};
      assert m.id in g && m.id !in Sharers(db, g);
    }
  }

  lemma LeastIsBest(db: Db, members: seq<Candidate>, g: set<Id>)
    requires members != [] && Lists(db, members, g) && g <= db.people.Keys
    ensures SelectSurvivor(db, members) in members && Best(db, SelectSurvivor(db, members).id, g)
  {
    SurvivorIsLeast(db, members);
    var s := SelectSurvivor(db, members);
    hide SelectSurvivor, Less, Phones, RankOf;
    forall x | x in g && x != s.id ensures Less(RankAt(db, s.id), RankAt(db, x)) {
      var m :| m in members && m.id == x;
    }
  }

  lemma OfBaseLists(db: Db, candidates: seq<Candidate>, base: string)
    requires Listing(db, candidates)
    ensures Lists(db, OfBase(candidates, base), Group(db, base))
    ensures |OfBase(candidates, base)| == |Group(db, base)|
  {
    OfBaseMembers(candidates, base);
    OfBaseDistinct(candidates, base);
    var g := OfBase(candidates, base);
    IdsCount(g);
    assert forall m :: m in g ==> m.id in db.people && m == CandidateOf(db, m.id);
    hide OfBase, CandidateOf, DistinctIds, Loadable, Group, Ids;
    assert Ids(g) == Group(db, base) by {
      forall x ensures x in Ids(g) <==> x in Group(db, base) {
        IdOfBase(db, candidates, base, x);
      }
    }
  }

  lemma IdOfBase(db: Db, candidates: seq<Candidate>, base: string, x: Id)
    requires Listing(db, candidates)
    requires forall c :: c in OfBase(candidates, base) <==> c in candidates && c.base == base
    ensures x in Ids(OfBase(candidates, base)) <==> x in Group(db, base)
  {
    hide OfBase, Phones, DistinctIds, Loadable;
    var g := OfBase(candidates, base);
    if x in Ids(g) {
      var c :| c in g && c.id == x;
      assert c.id in Ids(candidates);
    }
    if x in Group(db, base) {
      assert x in Ids(candidates);
      var c :| c in candidates && c.id == x;
      assert c in g;
    }
  }

  lemma OneCluster(db: Db, candidates: seq<Candidate>, includeTierB: bool, clusters: seq<Cluster>, c: Cluster)
    requires Listing(db, candidates) && Decided(db, candidates, includeTierB, clusters) && c in clusters
    ensures var g := Selected(db, c.base, includeTierB);
            && IdsOf(c) <= Group(db, c.base)
            && (c.survivor.None? <==> g == {})
            && (c.survivor.Some? ==> IdsOf(c) == g && Ids(c.members) == g && Best(db, c.survivor.value.id, g))
  {
    hide OfBase, Decide, Lists, Listing, Selected, Group, Best, IdsOf, Ids;
    assert IsDecided(db, candidates, includeTierB, c);
    OfBaseLists(db, candidates, c.base);
    DecideSelects(db, OfBase(candidates, c.base), c.base, includeTierB);
    IdsOfMembers(c);
  }

  lemma IdsOfMembers(c: Cluster)
    requires c.survivor.Some? ==> c.survivor.value in c.members
    ensures IdsOf(c) == Ids(c.members)
  {
  }

  /** People of different base names are different. */
  lemma ClustersDisjoint(db: Db, candidates: seq<Candidate>, includeTierB: bool, clusters: seq<Cluster>)
    requires Listing(db, candidates) && Decided(db, candidates, includeTierB, clusters)
    ensures Disjoint(clusters)
    ensures forall c :: c in clusters && c.survivor.Some? ==> c.survivor.value.id in db.people
  {
    hide IdsOf, Listing, Loadable, Selected, OfBase, Decide;
    forall i, k | 0 <= i < k < |clusters| ensures IdsOf(clusters[i]) !! IdsOf(clusters[k]) {
      OneCluster(db, candidates, includeTierB, clusters, clusters[i]);
      OneCluster(db, candidates, includeTierB, clusters, clusters[k]);
    }
    forall c | c in clusters && c.survivor.Some? ensures c.survivor.value.id in db.people {
      OneCluster(db, candidates, includeTierB, clusters, c);
    }
  }

  /** The clusters plan exactly what the people themselves determine, in whatever order they were loaded. */
  lemma ClustersAssign(db: Db, candidates: seq<Candidate>, includeTierB: bool, clusters: seq<Cluster>, x: Id, s: Id)
    requires Listing(db, candidates) && Decided(db, candidates, includeTierB, clusters)
    ensures InCluster(clusters, x, s) <==> Assigned(db, includeTierB, x, s)
  {
    hide IdsOf, Listing, Loadable, OfBase, Decide, Less, RankAt;
    if InCluster(clusters, x, s) {
      var c :| c in clusters && c.survivor.Some? && c.survivor.value.id == s && x in IdsOf(c);
      OneCluster(db, candidates, includeTierB, clusters, c);
    }
    if Assigned(db, includeTierB, x, s) {
      var base := BaseOf(db, x);
      SelectedFromGroup(db, base, includeTierB);
      OfBaseLists(db, candidates, base);
      var c :| c in clusters && c.base == base;
      OneCluster(db, candidates, includeTierB, clusters, c);
      BestUnique(db, Selected(db, base, includeTierB), s, c.survivor.value.id);
      assert InCluster(clusters, x, s);
    }
  }

  lemma SelectedFromGroup(db: Db, base: string, includeTierB: bool)
    ensures var g := Selected(db, base, includeTierB); g <= Group(db, base) && (g != {} ==> |Group(db, base)| >= 2)
  {
    hide Loadable, Phones;
    SubsetOfSameSize(Sharers(db, Group(db, base)), Group(db, base));
  }

  lemma BestUnique(db: Db, g: set<Id>, s: Id, t: Id)
    requires g <= db.people.Keys && Best(db, s, g) && Best(db, t, g)
    ensures s == t
  {
    var a, b := RankAt(db, s), RankAt(db, t);
    hide RankOf, RankAt;
    assert s == t || (Less(a, b) && Less(b, a));
  }

  /** The plan is the same for every order in which the people were loaded. */
  lemma LoadOrderIrrelevant(db: Db, includeTierB: bool, candidates: seq<Candidate>, clusters: seq<Cluster>,
                            candidates': seq<Candidate>, clusters': seq<Cluster>, x: Id, s: Id)
    requires Listing(db, candidates) && Decided(db, candidates, includeTierB, clusters)
    requires Listing(db, candidates') && Decided(db, candidates', includeTierB, clusters')
    ensures InCluster(clusters, x, s) <==> InCluster(clusters', x, s)
  {
    ClustersAssign(db, candidates, includeTierB, clusters, x, s);
    ClustersAssign(db, candidates', includeTierB, clusters', x, s);
  }

  /** A cluster with a survivor has two members or more, all with the same single phone
      and the same base name, and the survivor ranks strictly first. */
  lemma ClusterShape(db: Db, candidates: seq<Candidate>, includeTierB: bool, clusters: seq<Cluster>, c: Cluster)
    requires Listing(db, candidates) && Decided(db, candidates, includeTierB, clusters) && c in clusters
          && c.survivor.Some?
    ensures IdsOf(c) <= db.people.Keys && |IdsOf(c)| >= 2 && Best(db, c.survivor.value.id, IdsOf(c))
    ensures exists phone :: AllHaveOnly(db, IdsOf(c), phone)
    ensures forall x :: x in IdsOf(c) ==> Loadable(db, x) && BaseOf(db, x) == c.base
  {
    OneCluster(db, candidates, includeTierB, clusters, c);
    SelectedFromGroup(db, c.base, includeTierB);
    hide IdsOf, Listing, Loadable, OfBase, Decide, Less, RankAt, Phones, Best;
  }
}

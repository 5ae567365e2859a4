/** Detecting again after some of the planned merges were applied: a partial run does
    not change anybody's mind about who survives. */
module PersonRedetection {
  import opened Options
  import opened Persons
  import opened PersonMerge
  import opened PersonRecovery
  import opened PersonClusters
  import opened PersonNumbers

  /** `home` is the plan made for the database `a`. */
  ghost predicate PlanOf(a: Db, includeTierB: bool, home: map<Id, Id>) {
    Homing(home)
    && forall x, s :: (x in home && home[x] == s) <==> Assigned(a, includeTierB, x, s)
  }

  /** The merge of `x` has been applied. */
  predicate Gone(a: Db, b: Db, x: Id) {
    Mergeable(a, x) && !Mergeable(b, x)
  }

  // ----------------------------------------------------- what a person still is

  lemma StillThere(a: Db, b: Db, home: map<Id, Id>, x: Id)
    requires Confined(a, b, home) && x in a.people
    ensures x in b.people && BaseOf(b, x) == BaseOf(a, x) && SuffixOf(b, x) == SuffixOf(a, x)
    ensures b.people[x].createdAt == a.people[x].createdAt && b.people[x].phone == a.people[x].phone
    ensures Loadable(b, x) <==> Loadable(a, x) && !Gone(a, b, x)
    ensures Gone(a, b, x) ==> x in home && home[x] != x
  {
  }

  /** Somebody who is no survivor and was not merged away has the same rows. */
  lemma SameRefs(a: Db, b: Db, home: map<Id, Id>, x: Id)
    requires Homing(home) && Confined(a, b, home) && x in a.people && !Gone(a, b, x)
    requires x in home ==> home[x] != x
    ensures RefsOf(b, x) == RefsOf(a, x) && forall r :: r in RefsOf(a, x) ==> b.refs[r] == a.refs[r]
  {
  }

  lemma SamePerson(a: Db, b: Db, home: map<Id, Id>, x: Id)
    requires Homing(home) && Confined(a, b, home) && x in a.people && !Gone(a, b, x)
    requires x in home ==> home[x] != x
    ensures x in b.people && Phones(b, x) == Phones(a, x) && RankAt(b, x) == RankAt(a, x)
  {
    StillThere(a, b, home, x);
    SameRefs(a, b, home, x);
    hide Confined, Homing, RefsOf, Phones, SplitSuffix;
    SamePhones(a, b, x);
    SameLink(a, b, x);
  }

  lemma SamePhones(a: Db, b: Db, x: Id)
    requires x in a.people && x in b.people && b.people[x].phone == a.people[x].phone
    requires RefsOf(b, x) == RefsOf(a, x) && forall r :: r in RefsOf(a, x) ==> b.refs[r] == a.refs[r]
    ensures Phones(b, x) == Phones(a, x)
  {
  }

  lemma SameLink(a: Db, b: Db, x: Id)
    requires RefsOf(b, x) == RefsOf(a, x) && forall r :: r in RefsOf(a, x) ==> b.refs[r] == a.refs[r]
    ensures Linked(b, x) == Linked(a, x)
  {
    if r :| r in a.refs && a.refs[r] == Ref(x, Subscriber) {
      assert r in RefsOf(a, x) && b.refs[r] == Ref(x, Subscriber);
    }
    if r :| r in b.refs && b.refs[r] == Ref(x, Subscriber) {
      assert r in RefsOf(b, x) && a.refs[r] == Ref(x, Subscriber);
    }
  }

  /** A survivor keeps its rows; what it gains came from its cluster. */
  lemma SurvivorRefs(a: Db, b: Db, home: map<Id, Id>, s: Id)
    requires Homing(home) && Confined(a, b, home) && s in home && home[s] == s
    ensures forall r :: r in RefsOf(a, s) ==> r in RefsOf(b, s) && b.refs[r] == a.refs[r]
    ensures forall r :: r in RefsOf(b, s) ==>
              r in a.refs && a.refs[r].kind == b.refs[r].kind && a.refs[r].owner in home && home[a.refs[r].owner] == s
  {
  }

  /** A survivor's rank can only improve. */
  lemma SurvivorRank(a: Db, b: Db, home: map<Id, Id>, s: Id)
    requires Homing(home) && Confined(a, b, home) && s in a.people && s in home && home[s] == s
    ensures s in b.people && (RankAt(b, s) == RankAt(a, s) || Less(RankAt(b, s), RankAt(a, s)))
  {
    StillThere(a, b, home, s);
    SurvivorRefs(a, b, home, s);
    hide SplitSuffix, Confined, Phones, Homing;
    assert Linked(a, s) ==> Linked(b, s) by {
      if r :| r in a.refs && a.refs[r] == Ref(s, Subscriber) {
        assert r in RefsOf(a, s) && b.refs[r] == Ref(s, Subscriber);
      }
    }
    SubsetOfSameSize(RefsOf(a, s), RefsOf(b, s));
  }

  /** A survivor whose whole cluster has one phone keeps having just that. */
  lemma SurvivorPhones(a: Db, b: Db, home: map<Id, Id>, s: Id, phone: string)
    requires Homing(home) && Confined(a, b, home) && s in a.people && s in home && home[s] == s
    requires forall x :: x in home && home[x] == s ==> x in a.people && Phones(a, x) == {phone}
    ensures s in b.people && Phones(b, s) == {phone}
  {
  }

  // --------------------------------------------------------- what a group still is

  /** Everybody planned to be merged into `s`, and `s`, is selected under the base name of `s`. */
  lemma SelectedTogether(a: Db, includeTierB: bool, x: Id, s: Id)
    requires Assigned(a, includeTierB, x, s)
    ensures s in a.people && BaseOf(a, s) == BaseOf(a, x) && x in Group(a, BaseOf(a, x))
    ensures var g := Selected(a, BaseOf(a, s), includeTierB);
            g == Sharers(a, Group(a, BaseOf(a, s))) && x in g && s in g && Best(a, s, g)
  {
  }

  lemma PhonesKept(a: Db, b: Db, includeTierB: bool, home: map<Id, Id>, x: Id)
    requires PlanOf(a, includeTierB, home) && Confined(a, b, home) && x in a.people && !Gone(a, b, x)
    ensures x in b.people && Phones(b, x) == Phones(a, x)
  {
    hide Phones, Less, RankAt, Confined, Assigned, BaseOf;
    if x in home && home[x] == x {
      SelectedTogether(a, includeTierB, x, x);
      var g := Selected(a, BaseOf(a, x), includeTierB);
      var phone :| AllHaveOnly(a, g, phone);
      forall y | y in home && home[y] == x ensures y in a.people && Phones(a, y) == {phone} {
        SelectedTogether(a, includeTierB, y, x);
      }
      SurvivorPhones(a, b, home, x, phone);
    } else {
      SamePerson(a, b, home, x);
    }
  }

  /** The group without those who were merged away. */
  function Left(a: Db, b: Db, g: set<Id>): set<Id> {
    set x | x in g && !Gone(a, b, x)
  }

  lemma StillGrouped(a: Db, b: Db, includeTierB: bool, home: map<Id, Id>, x: Id)
    requires PlanOf(a, includeTierB, home) && Confined(a, b, home) && x in a.people
    ensures x in b.people && BaseOf(b, x) == BaseOf(a, x) && SuffixOf(b, x) == SuffixOf(a, x)
    ensures Loadable(b, x) <==> Loadable(a, x) && !Gone(a, b, x)
    ensures !Gone(a, b, x) ==> Phones(b, x) == Phones(a, x)
  {
    hide Phones, Confined, Loadable, Gone, PlanOf, BaseOf, SuffixOf;
    StillThere(a, b, home, x);
    if !Gone(a, b, x) {
      PhonesKept(a, b, includeTierB, home, x);
    }
  }

  lemma GroupLeft(a: Db, b: Db, includeTierB: bool, home: map<Id, Id>, base: string)
    requires PlanOf(a, includeTierB, home) && Confined(a, b, home)
    ensures var g, h := Group(a, base), Group(b, base);
            h == Left(a, b, g) && h <= a.people.Keys && Sharers(b, h) == Left(a, b, Sharers(a, g))
    ensures forall x :: x in Group(b, base) ==> SuffixOf(b, x) == SuffixOf(a, x) && Phones(b, x) == Phones(a, x)
  {
    assert b.people.Keys == a.people.Keys;
    hide Phones, Confined, Loadable, Gone, PlanOf, BaseOf, SuffixOf;
    forall x | x in a.people
      ensures x in b.people && BaseOf(b, x) == BaseOf(a, x) && SuffixOf(b, x) == SuffixOf(a, x)
      ensures Loadable(b, x) <==> Loadable(a, x) && !Gone(a, b, x)
      ensures !Gone(a, b, x) ==> Phones(b, x) == Phones(a, x)
    {
      StillGrouped(a, b, includeTierB, home, x);
    }
    GroupStays(a, b, base);
    hide Group;
    SharersStay(a, b, Group(a, base), Group(b, base));
  }

  lemma GroupStays(a: Db, b: Db, base: string)
    requires b.people.Keys == a.people.Keys
    requires forall x :: x in a.people ==>
               BaseOf(b, x) == BaseOf(a, x) && (Loadable(b, x) <==> Loadable(a, x) && !Gone(a, b, x))
    ensures Group(b, base) == Left(a, b, Group(a, base)) && Group(b, base) <= a.people.Keys
         && Group(a, base) <= a.people.Keys
    ensures forall x :: x in Group(b, base) ==> !Gone(a, b, x)
  {
    hide BaseOf, Loadable, Gone;
  }

  lemma SharersStay(a: Db, b: Db, g: set<Id>, h: set<Id>)
    requires b.people.Keys == a.people.Keys && g <= a.people.Keys && h <= a.people.Keys && h == Left(a, b, g)
    requires forall x :: x in h ==> Phones(b, x) == Phones(a, x)
    ensures Sharers(b, h) == Left(a, b, Sharers(a, g))
  {
    hide Phones, Gone;
  }

  /** A group that is planned: what is left of it is planned again, for the same
      survivor, if two are left and either tier B is included or somebody left is numbered. */
  lemma PlannedGroup(a: Db, b: Db, includeTierB: bool, home: map<Id, Id>, again: bool, base: string, s: Id)
    requires PlanOf(a, includeTierB, home) && Confined(a, b, home)
    requires var g := Selected(a, base, includeTierB); s in g && Best(a, s, g)
    ensures var left := Left(a, b, Selected(a, base, includeTierB));
            && s in left && left <= b.people.Keys && Best(b, s, left)
            && Selected(b, base, again) == if |left| >= 2 && (again || Suffixed(a, left)) then left else {}
  {
    GroupLeft(a, b, includeTierB, home, base);
    BestStays(a, b, includeTierB, home, base, s);
    hide Confined, PlanOf, Best, Selected;
    SelectedLeft(a, b, includeTierB, again, base);
  }

  lemma SelectedLeft(a: Db, b: Db, includeTierB: bool, again: bool, base: string)
    requires var g, h := Group(a, base), Group(b, base);
             h == Left(a, b, g) && h <= a.people.Keys && Sharers(b, h) == Left(a, b, Sharers(a, g))
    requires forall x :: x in Group(b, base) ==> SuffixOf(b, x) == SuffixOf(a, x) && Phones(b, x) == Phones(a, x)
    requires Left(a, b, Selected(a, base, includeTierB)) != {}
    ensures var left := Left(a, b, Selected(a, base, includeTierB));
            Selected(b, base, again) == if |left| >= 2 && (again || Suffixed(a, left)) then left else {}
  {
    var g, h, sel := Group(a, base), Group(b, base), Selected(a, base, includeTierB);
    var left := Left(a, b, sel);
    assert sel == Sharers(a, g) && left == Sharers(b, h);
    hide Phones, Loadable, Gone, BaseOf, SuffixOf;
    assert OnePhone(b, left) by {
      var phone :| AllHaveOnly(a, sel, phone);
      assert AllHaveOnly(b, left, phone);
    }
    assert Suffixed(b, h) <==> Suffixed(a, left) by {
      if Suffixed(b, h) {
        var x :| x in h && SuffixOf(b, x).Some?;
        assert x in g && SuffixOf(a, x).Some? && sel == g && x in left;
      }
      if Suffixed(a, left) {
        var x :| x in left && SuffixOf(a, x).Some?;
        assert x in h && SuffixOf(b, x).Some?;
      }
    }
    assert Suffixed(b, h) ==> left == h by {
      if Suffixed(a, left) {
        var x :| x in left && SuffixOf(a, x).Some?;
        assert x in g && sel == g;
      }
    }
    hide Suffixed, OnePhone, Sharers, Left, Group;
  }

  lemma BestStays(a: Db, b: Db, includeTierB: bool, home: map<Id, Id>, base: string, s: Id)
    requires PlanOf(a, includeTierB, home) && Confined(a, b, home)
    requires var g := Selected(a, base, includeTierB); s in g && Best(a, s, g)
    ensures var left := Left(a, b, Selected(a, base, includeTierB));
            s in left && left <= b.people.Keys && Best(b, s, left)
  {
    var g := Selected(a, base, includeTierB);
    hide Less, RankAt, Selected, Phones;
    assert BaseOf(a, s) == base by {
      SelectedFromGroup(a, base, includeTierB);
    }
    assert Assigned(a, includeTierB, s, s);
    assert s in home && home[s] == s;
    StillThere(a, b, home, s);
    SurvivorRank(a, b, home, s);
    forall x | x in Left(a, b, g) && x != s ensures x in b.people && Less(RankAt(b, s), RankAt(b, x)) {
      assert Assigned(a, includeTierB, x, s) by {
        SelectedFromGroup(a, base, includeTierB);
      }
      SamePerson(a, b, home, x);
      LessTrans(RankAt(b, s), RankAt(a, s), RankAt(a, x));
    }
  }

  /** A group that is not planned is left exactly as it was. */
  lemma UnplannedGroup(a: Db, b: Db, includeTierB: bool, home: map<Id, Id>, base: string)
    requires PlanOf(a, includeTierB, home) && Confined(a, b, home) && Selected(a, base, includeTierB) == {}
    ensures Selected(b, base, includeTierB) == {}
  {
    var g, h := Group(a, base), Group(b, base);
    GroupLeft(a, b, includeTierB, home, base);
    forall x | x in g ensures !Gone(a, b, x) {
      StillThere(a, b, home, x);
      assert x in home ==> Assigned(a, includeTierB, x, home[x]);
    }
    hide Phones, Confined, Loadable, Gone, PlanOf, Best, BaseOf, SuffixOf, Assigned;
    assert h == g && Sharers(b, h) == Sharers(a, g);
    var sharers := Sharers(a, g);
    if OnePhone(b, sharers) {
      var phone :| AllHaveOnly(b, sharers, phone);
      assert AllHaveOnly(a, sharers, phone);
    }
    assert Suffixed(b, h) <==> Suffixed(a, g);
  }

  // ------------------------------------------------------------ over whole runs

  /** The clusters built for a database plan what the database says. */
  lemma PlanIsHomes(db: Db, candidates: seq<Candidate>, includeTierB: bool, clusters: seq<Cluster>)
    requires Listing(db, candidates) && Decided(db, candidates, includeTierB, clusters)
    ensures Disjoint(clusters) && PlanOf(db, includeTierB, Homes(clusters))
  {
    ClustersDisjoint(db, candidates, includeTierB, clusters);
    HomesOfDisjoint(clusters);
    var home := Homes(clusters);
    hide Listing, Decided, Assigned, IdsOf, Disjoint;
    forall x, s ensures (x in home && home[x] == s) <==> Assigned(db, includeTierB, x, s) {
      ClustersAssign(db, candidates, includeTierB, clusters, x, s);
      if x in home && home[x] == s {
        var c := ClusterOf(clusters, x);
      }
      if InCluster(clusters, x, s) {
        var c :| c in clusters && c.survivor.Some? && c.survivor.value.id == s && x in IdsOf(c);
        assert Follows(c, home);
      }
    }
  }

  /** Detecting again after a run in which anything failed. A member of a cluster is
      planned again exactly if it was not merged away, at least two are left, and
      tier B is included or a numbered name is left; and always for the same survivor. */
  lemma RedetectedExactly(db: Db, candidates: seq<Candidate>, includeTierB: bool, clusters: seq<Cluster>,
                          fate: Id -> Fate, again: bool, x: Id, s: Id)
    requires Listing(db, candidates) && Decided(db, candidates, includeTierB, clusters)
    requires InCluster(clusters, x, s)
    ensures x in db.people && Selected(db, BaseOf(db, x), includeTierB) <= db.people.Keys
    ensures var after := Run(Start(db), clusters, fate).db;
            var left := Left(db, after, Selected(db, BaseOf(db, x), includeTierB));
            && (Assigned(after, again, x, s) <==> x in left && |left| >= 2 && (again || Suffixed(db, left)))
            && (forall t :: Assigned(after, again, x, t) ==> t == s)
  {
    var after, home := Run(Start(db), clusters, fate).db, Homes(clusters);
    PlanIsHomes(db, candidates, includeTierB, clusters);
    ClustersAssign(db, candidates, includeTierB, clusters, x, s);
    HomesOfDisjoint(clusters);
    RunConfined(Start(db), clusters, fate, home);
    SelectedTogether(db, includeTierB, x, s);
    PlannedGroup(db, after, includeTierB, home, again, BaseOf(db, x), s);
    StillThere(db, after, home, x);
    hide Selected, Listing, Decided, InCluster, Confined, PlanOf, Best, Left, Suffixed, Loadable, Group, Sharers;
    var base := BaseOf(db, x);
    forall t | Assigned(after, again, x, t) ensures t == s {
      BestUnique(after, Selected(after, base, again), s, t);
    }
  }

  /** With tier B included every merge still to be done is planned again, into the same survivor. */
  lemma RedetectionKeepsSurvivor(db: Db, candidates: seq<Candidate>, includeTierB: bool, clusters: seq<Cluster>,
                                 fate: Id -> Fate, x: Id, s: Id)
    requires Listing(db, candidates) && Decided(db, candidates, includeTierB, clusters)
    requires InCluster(clusters, x, s) && x != s
    ensures var after := Run(Start(db), clusters, fate).db;
            Assigned(after, true, x, s) <==> Mergeable(after, x)
  {
    hide Selected, Run, Mergeable, Assigned, InCluster, Listing, Decided, Suffixed, BaseOf, SuffixOf, Phones, Loadable;
    var after := Run(Start(db), clusters, fate).db;
    RedetectedExactly(db, candidates, includeTierB, clusters, fate, true, x, s);
    SurvivorLeft(db, candidates, includeTierB, clusters, fate, x, s);
    var left := Left(db, after, Selected(db, BaseOf(db, x), includeTierB));
    assert x in left <==> Mergeable(after, x);
    if x in left {
      assert {x, s} <= left;
      SubsetOfSameSize({x, s}, left);
    }
  }

  lemma SurvivorLeft(db: Db, candidates: seq<Candidate>, includeTierB: bool, clusters: seq<Cluster>, fate: Id -> Fate,
                     x: Id, s: Id)
    requires Listing(db, candidates) && Decided(db, candidates, includeTierB, clusters) && InCluster(clusters, x, s)
    ensures Mergeable(db, x) && x in Selected(db, BaseOf(db, x), includeTierB)
    ensures s in Left(db, Run(Start(db), clusters, fate).db, Selected(db, BaseOf(db, x), includeTierB))
  {
    var after, home := Run(Start(db), clusters, fate).db, Homes(clusters);
    PlanIsHomes(db, candidates, includeTierB, clusters);
    ClustersAssign(db, candidates, includeTierB, clusters, x, s);
    HomesOfDisjoint(clusters);
    RunConfined(Start(db), clusters, fate, home);
    SelectedTogether(db, includeTierB, x, s);
    BestStays(db, after, includeTierB, home, BaseOf(db, x), s);
    hide Confined, PlanOf, Listing, Decided, Best, Run, Phones;
    assert Loadable(db, x);
  }

  /** Nobody outside the clusters is planned by the next detection. */
  lemma NothingNewPlanned(db: Db, candidates: seq<Candidate>, includeTierB: bool, clusters: seq<Cluster>,
                          fate: Id -> Fate, x: Id, s: Id)
    requires Listing(db, candidates) && Decided(db, candidates, includeTierB, clusters)
    requires Assigned(Run(Start(db), clusters, fate).db, includeTierB, x, s)
    ensures InCluster(clusters, x, s)
  {
    var after, home := Run(Start(db), clusters, fate).db, Homes(clusters);
    PlanIsHomes(db, candidates, includeTierB, clusters);
    HomesOfDisjoint(clusters);
    RunConfined(Start(db), clusters, fate, home);
    assert x in db.people;
    StillThere(db, after, home, x);
    var base := BaseOf(db, x);
    ClustersAssign(db, candidates, includeTierB, clusters, x, s);
    hide Listing, Decided, InCluster, Confined, PlanOf, Selected, Loadable;
    if Selected(db, base, includeTierB) == {} {
      UnplannedGroup(db, after, includeTierB, home, base);
    } else {
      var t := BestOfPlanned(db, candidates, includeTierB, clusters, base);
      PlannedGroup(db, after, includeTierB, home, includeTierB, base, t);
      BestUnique(after, Selected(after, base, includeTierB), s, t);
    }
  }

  lemma BestOfPlanned(db: Db, candidates: seq<Candidate>, includeTierB: bool, clusters: seq<Cluster>, base: string)
    returns (s: Id)
    requires Listing(db, candidates) && Decided(db, candidates, includeTierB, clusters)
    requires Selected(db, base, includeTierB) != {}
    ensures var g := Selected(db, base, includeTierB); g <= db.people.Keys && s in g && Best(db, s, g)
  {
    SelectedFromGroup(db, base, includeTierB);
    OfBaseLists(db, candidates, base);
    DecideSelects(db, OfBase(candidates, base), base, includeTierB);
    s := Decide(db, OfBase(candidates, base), includeTierB).survivor.value.id;
  }

  /** When a run after any others meets no exception, so that everything is applied, nothing is planned any more. */
  lemma NothingLeftToPlan(db: Db, candidates: seq<Candidate>, includeTierB: bool, clusters: seq<Cluster>,
                          fate: Id -> Fate, later: Id -> Fate, x: Id, s: Id)
    requires Listing(db, candidates) && Decided(db, candidates, includeTierB, clusters)
    requires Run(Start(Run(Start(db), clusters, fate).db), clusters, later).errors == 0
    ensures !Assigned(Run(Start(Run(Start(db), clusters, fate).db), clusters, later).db, includeTierB, x, s)
  {
    ClustersDisjoint(db, candidates, includeTierB, clusters);
    var between := Run(Start(db), clusters, fate).db;
    UnfailingRun(Start(between), clusters, later);
    Recovery(db, clusters, fate);
    RunFinishes(Start(between), clusters, later);
    var after := Run(Start(db), clusters, NEVER_FAILS).db;
    hide Finished, Disjoint, Listing, Decided, Run;
    if Assigned(after, includeTierB, x, s) {
      NothingNewPlanned(db, candidates, includeTierB, clusters, NEVER_FAILS, x, s);
      RedetectedExactly(db, candidates, includeTierB, clusters, NEVER_FAILS, includeTierB, x, s);
      OnlySurvivorLeft(db, candidates, includeTierB, clusters, x, s);
      assert false;
    }
  }

  lemma OnlySurvivorLeft(db: Db, candidates: seq<Candidate>, includeTierB: bool, clusters: seq<Cluster>, x: Id, s: Id)
    requires Listing(db, candidates) && Decided(db, candidates, includeTierB, clusters) && InCluster(clusters, x, s)
    requires forall c :: c in clusters ==> Finished(Run(Start(db), clusters, NEVER_FAILS).db, c)
    ensures x in db.people
    ensures |Left(db, Run(Start(db), clusters, NEVER_FAILS).db, Selected(db, BaseOf(db, x), includeTierB))| <= 1
  {
    var after := Run(Start(db), clusters, NEVER_FAILS).db;
    ClustersDisjoint(db, candidates, includeTierB, clusters);
    ClustersAssign(db, candidates, includeTierB, clusters, x, s);
    SelectedTogether(db, includeTierB, x, s);
    var g := Selected(db, BaseOf(db, x), includeTierB);
    hide Finished, Run;
    forall y | y in Left(db, after, g) ensures y == s {
      SelectedFromGroup(db, BaseOf(db, x), includeTierB);
      assert Assigned(db, includeTierB, y, s);
      if y != s {
        ClustersAssign(db, candidates, includeTierB, clusters, y, s);
        MergedByRun(db, candidates, includeTierB, clusters, y, s);
      }
    }
    SubsetOfSameSize(Left(db, after, g), {s});
  }

  lemma MergedByRun(db: Db, candidates: seq<Candidate>, includeTierB: bool, clusters: seq<Cluster>, x: Id, s: Id)
    requires Listing(db, candidates) && Decided(db, candidates, includeTierB, clusters)
    requires InCluster(clusters, x, s) && x != s
    requires forall c :: c in clusters ==> Finished(Run(Start(db), clusters, NEVER_FAILS).db, c)
    ensures Gone(db, Run(Start(db), clusters, NEVER_FAILS).db, x)
  {
    SurvivorLeft(db, candidates, includeTierB, clusters, NEVER_FAILS, x, s);
    hide Listing, Decided, Selected, Mergeable, Run, AfterAll;
    var c :| c in clusters && c.survivor.Some? && c.survivor.value.id == s && x in IdsOf(c);
    assert Finished(Run(Start(db), clusters, NEVER_FAILS).db, c);
  }

  // ------------------------------------------------- a run of tier A that forgets

  const PHONE := "8012345678"
  const FROM_ABROAD := Person("jo", Some("+234 " + PHONE), 0, true, Active)
  const AT_HOME := Person("jo", Some("0" + PHONE), 0, true, Active)
  const NUMBERED := Person("jo 2", Some(PHONE), 0, true, Active)
  const TRIO := Db(map[0 := FROM_ABROAD, 1 := AT_HOME, 2 := NUMBERED], map[])

  function Same(id: Id): Candidate {
    Candidate(id, "jo", if id == 2 then Some(2) else None, {PHONE}, 0)
  }

  const LOADED := [Same(2), Same(0), Same(1)]
  const PLANNED := Cluster(TierA, "jo", LOADED, Some(Same(0)))

  lemma TrioCandidates(id: Id)
    requires id in TRIO.people
    ensures CandidateOf(TRIO, id) == Same(id) && Loadable(TRIO, id)
    ensures BaseOf(TRIO, id) == "jo" && SuffixOf(TRIO, id) == Same(id).suffix
  {
    hide Phones, SplitSuffix, GENERIC_NAMES;
    TrioPhones(id);
    TrioNames();
  }

  lemma TrioPhones(id: Id)
    requires id in TRIO.people
    ensures Phones(TRIO, id) == {PHONE}
  {
    hide NormalizePhone;
    assert AllDigits(PHONE);
    forall c | c in PHONE ensures IsDigitChar(c) {
      SameDigit(c);
    }
    LastTenDigits("+234 ", PHONE);
    LastTenDigits("0", PHONE);
    LastTenDigits("", PHONE);
    assert "" + PHONE == PHONE;
    assert RefsOf(TRIO, id) == {};
  }

  lemma TrioNames()
    ensures SplitSuffix("jo") == ("jo", None) && SplitSuffix("jo 2") == ("jo", Some(2))
    ensures "jo" !in GENERIC_NAMES && "jo 2" !in GENERIC_NAMES
  {
    LastWordIs("", "jo");
    assert "" + "jo" == "jo" && "jo" + " " + "2" == "jo 2";
    assert Value("2") == 2 by {
      assert "2"[..0] == "";
    }
    hide LastWord, Value;
    SuffixedIsSplit("jo", "2");
  }

  lemma TrioListed()
    ensures Listing(TRIO, LOADED)
  {
    hide CandidateOf, Loadable;
    forall id | id in TRIO.people ensures CandidateOf(TRIO, id) == Same(id) && Loadable(TRIO, id) {
      TrioCandidates(id);
    }
    assert forall m :: m in LOADED ==> m.id in TRIO.people && m == CandidateOf(TRIO, m.id);
    assert Same(0) in LOADED && Same(1) in LOADED && Same(2) in LOADED;
    assert Ids(LOADED) == {0, 1, 2} == TRIO.people.Keys;
  }

  /** All the candidates have one base name. */
  lemma DecidedAlone(db: Db, candidates: seq<Candidate>, includeTierB: bool, c: Cluster)
    requires |candidates| >= 2 && forall m :: m in candidates ==> m.base == c.base
    requires c == Decide(db, candidates, includeTierB)
    ensures Decided(db, candidates, includeTierB, [c])
  {
    OfBaseAll(candidates, c.base);
    assert IsDecided(db, candidates, includeTierB, c);
    hide OfBase, Decide, IsDecided, HasBase;
    forall b | |OfBase(candidates, b)| >= 2 ensures HasBase([c], b) {
      OnlyBase(candidates, c, b);
    }
  }

  lemma OnlyBase(candidates: seq<Candidate>, c: Cluster, base: string)
    requires OfBase(candidates, base) != [] && forall m :: m in candidates ==> m.base == c.base
    ensures HasBase([c], base)
  {
    OfBaseMembers(candidates, base);
    hide OfBase;
    assert OfBase(candidates, base)[0] in OfBase(candidates, base) && c in [c];
  }

  lemma {:induction false} OfBaseAll(candidates: seq<Candidate>, base: string)
    requires forall m :: m in candidates ==> m.base == base
    ensures OfBase(candidates, base) == candidates
    decreases |candidates|
  {
    if candidates != [] {
      var n := |candidates| - 1;
      assert candidates == candidates[..n] + [candidates[n]];
      OfBaseAll(candidates[..n], base);
    }
  }

  lemma TrioDecided()
    ensures Decide(TRIO, LOADED, false) == PLANNED
  {
    assert HasSuffix(LOADED) by {
      assert Same(2) in LOADED;
    }
    assert LOADED[1..] == [Same(0), Same(1)] && LOADED[1..][1..] == [Same(1)] && LOADED[1..][1..][1..] == [];
    assert AllPhones(LOADED) == {PHONE};
    assert LOADED[..2] == [Same(2), Same(0)] && LOADED[..2][..1] == [Same(2)];
    hide Linked, Footprint, AllPhones;
    assert forall id :: RefsOf(TRIO, id) == {} && !Linked(TRIO, id);
    assert SelectSurvivor(TRIO, [Same(2)]) == Same(2);
    assert SelectSurvivor(TRIO, [Same(2), Same(0)]) == Same(0);
    assert SelectSurvivor(TRIO, LOADED) == Same(0);
  }

  /** Three people of one phone, written in three ways, and one of them numbered, are a cluster of tier A. If the run
      merges the numbered one and then fails, detecting again for tier A plans nobody. */
  lemma PartialRunForgets(fate: Id -> Fate, s: Id)
    requires fate(2) == Succeeds && fate(1) == FailsBefore
    ensures Listing(TRIO, LOADED) && Decided(TRIO, LOADED, false, [PLANNED]) && InCluster([PLANNED], 1, 0)
    ensures var after := Run(Start(TRIO), [PLANNED], fate).db;
            Mergeable(after, 1) && !Assigned(after, false, 1, s) && Assigned(after, true, 1, 0)
  {
    hide Run, Listing, Decided, Decide, Selected, Assigned, Loadable, CandidateOf, IdsOf, InCluster, SuffixOf, BaseOf;
    hide Mergeable, Phones;
    TrioListed();
    TrioDecided();
    TrioMembers();
    TrioRun(fate);
    TrioCandidates(0);
    TrioCandidates(1);
    DecidedAlone(TRIO, LOADED, false, PLANNED);
    RedetectedExactly(TRIO, LOADED, false, [PLANNED], fate, false, 1, 0);
    RedetectionKeepsSurvivor(TRIO, LOADED, false, [PLANNED], fate, 1, 0);
    OneCluster(TRIO, LOADED, false, [PLANNED], PLANNED);
    assert !Suffixed(TRIO, Left(TRIO, Run(Start(TRIO), [PLANNED], fate).db, Selected(TRIO, BaseOf(TRIO, 1), false)));
  }

  lemma TrioMembers()
    ensures IdsOf(PLANNED) == {0, 1, 2} && InCluster([PLANNED], 1, 0) && BaseOf(TRIO, 1) == "jo"
  {
    hide CandidateOf, Loadable, BaseOf, SuffixOf;
    TrioCandidates(1);
    assert Same(0) in LOADED && Same(1) in LOADED && Same(2) in LOADED && PLANNED in [PLANNED];
  }

  lemma TrioRun(fate: Id -> Fate)
    requires fate(2) == Succeeds && fate(1) == FailsBefore
    ensures var after := Run(Start(TRIO), [PLANNED], fate).db;
            Mergeable(TRIO, 2) && !Mergeable(after, 2) && Mergeable(after, 1)
  {
    var t := Start(TRIO);
    var u := Tally(Merged(TRIO, 2, 0), 1, 0, 0);
    assert [PLANNED][1..] == [] && LOADED[1..] == [Same(0), Same(1)] && LOADED[1..][1..] == [Same(1)];
    assert RunMembers(u, [Same(1)], 0, fate).db == u.db;
    assert RunMembers(u, [Same(0), Same(1)], 0, fate).db == u.db;
    assert RunMembers(t, LOADED, 0, fate).db == u.db;
  }
}

/** The merged import: geographic filter, deduplication, classification into
    buckets and the importers' counts (scripts/import_fiber_kmz.py:80-146, 406-411,
    682-976, 984-1094). */
module MergedImport {
  import opened Options
  import opened Placemarks
  import opened PyText
  import Centroid
  import SegmentImport

  datatype EntityType = Segment | Cabinet | Closure | AccessPoint | Olt | Building | Skip

  /** Library behaviour this model does not look into: `strip` and `lower`, rounding
      to five decimals, and the compiled name patterns of lines 61-68. */
  datatype Patterns = Patterns(strip: string -> string, lower: string -> string, round5: real -> real,
                               junk: string -> bool, infrastructure: string -> bool,
                               cabinet: string -> bool, closure: string -> bool,
                               accessPoint: string -> bool, oltBts: string -> bool)

  /** `_is_in_abuja`. */
  predicate InAbuja(pm: Placemark) {
    pm.coordinates != []
    && 8.8 <= pm.coordinates[0].lat <= 9.2 && 7.1 <= pm.coordinates[0].lon <= 7.6
  }

  /** `_classify_placemark`. */
  function Classify(pm: Placemark, p: Patterns): EntityType {
    var n := p.strip(pm.name);
    var nl := p.lower(n);
    var line := pm.geometry == "LineString";
    if n == "" || p.junk(nl) then
      if line && nl in {"path measure", "line measure"} then Segment else Skip
    else if p.infrastructure(nl) then
      if Contains(nl, "manhole") then Closure else if line then Segment else Building
    else if p.cabinet(nl) then if line then Segment else Cabinet
    else if p.closure(nl) then if line then Segment else Closure
    else if p.accessPoint(nl) then if line then Segment else AccessPoint
    else if p.oltBts(nl) then if line then Segment else Olt
    else if line then Segment
    else Building
  }

  function Distance(a: real, b: real): real {
    if a < b then b - a else a - b
  }

  /** In words: the first coordinate is at most 0.2 degrees of latitude and 0.25 degrees
      of longitude away from 9.0 degrees north, 7.35 degrees east. */
  lemma InAbujaMeans(pm: Placemark)
    ensures InAbuja(pm)
       <==> pm.coordinates != []
            && Distance(pm.coordinates[0].lat, 9.0) <= 0.2 && Distance(pm.coordinates[0].lon, 7.35) <= 0.25
  {
  }

  /** The rule of lines 103-105: whatever its geometry, a manhole is a closure. */
  predicate ManholeRule(pm: Placemark, p: Patterns) {
    var n := p.strip(pm.name);
    var nl := p.lower(n);
    n != "" && !p.junk(nl) && p.infrastructure(nl) && Contains(nl, "manhole")
  }

  /** No name to go by. */
  predicate Ignored(pm: Placemark, p: Patterns) {
    p.strip(pm.name) == "" || p.junk(p.lower(p.strip(pm.name)))
  }

  /** Each class in turn: which placemarks are in it. The patterns are tried in the order
      infrastructure, cabinet, closure, access point, device, and a line that is neither
      a manhole nor ignored is a segment whatever it matches. */
  lemma ClassesAre(pm: Placemark, p: Patterns)
    ensures var nl, line := p.lower(p.strip(pm.name)), pm.geometry == "LineString";
            var e, named := Classify(pm, p), !Ignored(pm, p);
            var measured := nl == "path measure" || nl == "line measure";
            var manhole := p.infrastructure(nl) && Contains(nl, "manhole");
            && (e == Skip <==> !named && !(line && measured))
            && (e == Segment <==> line && if named then !manhole else measured)
            && (e == Cabinet <==> named && !line && !p.infrastructure(nl) && p.cabinet(nl))
            && (e == Closure <==>
                named && (manhole || (!line && !p.infrastructure(nl) && !p.cabinet(nl) && p.closure(nl))))
            && (e == AccessPoint <==>
                named && !line && !p.infrastructure(nl) && !p.cabinet(nl) && !p.closure(nl) && p.accessPoint(nl))
            && (e == Olt <==>
                named && !line && !p.infrastructure(nl) && !p.cabinet(nl) && !p.closure(nl) && !p.accessPoint(nl)
                && p.oltBts(nl))
  {
    hide Contains;
  }

  datatype Key = Key(name: string, geometry: string, startLon: real, startLat: real, endLon: real, endLat: real)

  /** `_dedup_key`. */
  function DedupKey(pm: Placemark, p: Patterns): Key
    requires pm.coordinates != []
  {
    var start, end := pm.coordinates[0], pm.coordinates[|pm.coordinates| - 1];
    Key(p.strip(p.lower(pm.name)), pm.geometry,
        p.round5(start.lon), p.round5(start.lat), p.round5(end.lon), p.round5(end.lat))
  }

  predicate SamePlace(a: Coord, b: Coord, p: Patterns) {
    p.round5(a.lon) == p.round5(b.lon) && p.round5(a.lat) == p.round5(b.lat)
  }

  /** Two placemarks repeat each other if their names are the same but for case and the
      white space around them, they are of one geometry, and their first and last
      coordinates are the same to five decimals. */
  lemma SameKey(a: Placemark, b: Placemark, p: Patterns)
    requires Parsed(a) && Parsed(b)
    ensures DedupKey(a, p) == DedupKey(b, p)
       <==> && p.strip(p.lower(a.name)) == p.strip(p.lower(b.name)) && a.geometry == b.geometry
            && SamePlace(a.coordinates[0], b.coordinates[0], p)
            && SamePlace(a.coordinates[|a.coordinates| - 1], b.coordinates[|b.coordinates| - 1], p)
  {
  }

  function AsPoints(coords: seq<Coord>): seq<Centroid.Point> {
    seq(|coords|, i requires 0 <= i < |coords| => Centroid.Point(coords[i].lon, coords[i].lat))
  }

  /** `_extract_point`. */
  function ExtractPoint(pm: Placemark): Option<Coord>
    requires pm.coordinates != []
  {
    if pm.geometry == "Point" then Some(pm.coordinates[0])
    else if pm.geometry == "Polygon" then
      var c := Centroid.Centroid(AsPoints(pm.coordinates));
      Some(Coord(c.x, c.y))
    else None
  }

  // ------------------------------------------------------ filter, deduplicate

  function InBounds(pms: seq<Placemark>): seq<Placemark> {
    if pms == [] then []
    else
      var rest := InBounds(pms[..|pms| - 1]);
      if InAbuja(pms[|pms| - 1]) then rest + [pms[|pms| - 1]] else rest
  }

  ghost function Keys(pms: seq<Placemark>, p: Patterns): set<Key>
    requires AllParsed(pms)
  {
    set pm | pm in pms :: DedupKey(pm, p)
  }

  /** Placemark `i` is in bounds and no earlier one in bounds has its key. */
  predicate Kept(pms: seq<Placemark>, i: nat, p: Patterns)
    requires AllParsed(pms) && i < |pms|
  {
    InAbuja(pms[i]) && forall j :: 0 <= j < i && InAbuja(pms[j]) ==> DedupKey(pms[j], p) != DedupKey(pms[i], p)
  }

  /** The kept placemarks, in order. */
  function KeptOf(pms: seq<Placemark>, p: Patterns): seq<Placemark>
    requires AllParsed(pms)
  {
    if pms == [] then []
    else
      var n := |pms| - 1;
      var rest := KeptOf(pms[..n], p);
      if Kept(pms, n, p) then rest + [pms[n]] else rest
  }

  lemma {:induction false} KeptKeys(pms: seq<Placemark>, p: Patterns)
    requires AllParsed(pms)
    ensures AllParsed(KeptOf(pms, p)) && AllParsed(InBounds(pms))
    ensures Keys(KeptOf(pms, p), p) == Keys(InBounds(pms), p)
    ensures forall k :: k in Keys(InBounds(pms), p) <==>
              exists j :: 0 <= j < |pms| && InAbuja(pms[j]) && DedupKey(pms[j], p) == k
  {
    if pms != [] {
      var n := |pms| - 1;
      KeptKeys(pms[..n], p);
      assert pms[n] in pms;
      KeptStep(pms, p);
      hide DedupKey, InAbuja, Kept;
      forall k | k in Keys(InBounds(pms), p)
        ensures exists j :: 0 <= j < |pms| && InAbuja(pms[j]) && DedupKey(pms[j], p) == k
      {
        if k in Keys(InBounds(pms[..n]), p) {
          var j :| 0 <= j < n && InAbuja(pms[..n][j]) && DedupKey(pms[..n][j], p) == k;
          assert pms[j] == pms[..n][j];
        }
      }
    }
  }

  /** What the last placemark adds to the lists and their keys. */
  lemma KeptStep(pms: seq<Placemark>, p: Patterns)
    requires AllParsed(pms) && pms != []
    requires var init := pms[..|pms| - 1];
             AllParsed(init) && AllParsed(InBounds(init)) && AllParsed(KeptOf(init, p))
    ensures var init, last := pms[..|pms| - 1], pms[|pms| - 1];
            && AllParsed(InBounds(pms)) && AllParsed(KeptOf(pms, p))
            && Keys(InBounds(pms), p) == Keys(InBounds(init), p) + (if InAbuja(last) then {DedupKey(last, p)} else {})
            && Keys(KeptOf(pms, p), p)
               == Keys(KeptOf(init, p), p) + (if Kept(pms, |pms| - 1, p) then {DedupKey(last, p)} else {})
  {
    var init, last := pms[..|pms| - 1], pms[|pms| - 1];
    assert last in pms;
    KeysAppend(InBounds(init), last, p);
    KeysAppend(KeptOf(init, p), last, p);
    hide Keys, DedupKey, Kept, InAbuja;
  }

  lemma KeysAppend(pms: seq<Placemark>, pm: Placemark, p: Patterns)
    requires AllParsed(pms) && Parsed(pm)
    ensures AllParsed(pms + [pm]) && Keys(pms + [pm], p) == Keys(pms, p) + {DedupKey(pm, p)}
  {
    assert pm in pms + [pm];
    forall k | k in Keys(pms, p) ensures k in Keys(pms + [pm], p) {
      var q :| q in pms && DedupKey(q, p) == k;
      assert q in pms + [pm];
    }
  }

  /** A placemark in bounds that was not kept repeats the key of an earlier kept one. */
  lemma {:induction false} DuplicateOfKept(pms: seq<Placemark>, i: nat, p: Patterns) returns (j: nat)
    requires AllParsed(pms) && i < |pms| && InAbuja(pms[i]) && !Kept(pms, i, p)
    ensures j < i && Kept(pms, j, p) && DedupKey(pms[j], p) == DedupKey(pms[i], p)
  {
    j :| 0 <= j < i && InAbuja(pms[j]) && DedupKey(pms[j], p) == DedupKey(pms[i], p);
    if !Kept(pms, j, p) {
      j := DuplicateOfKept(pms, j, p);
    }
  }

  /** Lines 1011 and 1016-1022, in one pass each. */
  method Deduplicate(pms: seq<Placemark>, p: Patterns) returns (unique: seq<Placemark>, filteredOut: nat)
    requires AllParsed(pms)
    ensures unique == KeptOf(pms, p)
    ensures filteredOut == |pms| - |InBounds(pms)|
  {
    var inAbuja: seq<Placemark> := [];
    var seen: set<Key> := {};
    unique := [];
    for i := 0 to |pms|
      invariant inAbuja == InBounds(pms[..i]) && |inAbuja| <= i
      invariant unique == KeptOf(pms[..i], p)
      invariant AllParsed(inAbuja) && seen == Keys(inAbuja, p)
    {
      assert pms[..i + 1][..i] == pms[..i];
      assert AllParsed(pms[..i]) && pms[i] in pms;
      if InAbuja(pms[i]) {
        KeptKeys(pms[..i], p);
        KeysAppend(inAbuja, pms[i], p);
        KeptInPrefix(pms, i, p);
        inAbuja := inAbuja + [pms[i]];
        var key := DedupKey(pms[i], p);
        if key !in seen {
          unique := unique + [pms[i]];
        }
        seen := seen + {key};
      }
    }
    assert pms[..|pms|] == pms;
    filteredOut := |pms| - |inAbuja|;
  }

  /** The kept test of the next placemark is the test against the keys seen so far. */
  lemma KeptInPrefix(pms: seq<Placemark>, i: nat, p: Patterns)
    requires AllParsed(pms) && i < |pms| && InAbuja(pms[i])
    requires AllParsed(InBounds(pms[..i]))
    requires forall k :: k in Keys(InBounds(pms[..i]), p) <==>
               exists j :: 0 <= j < i && InAbuja(pms[..i][j]) && DedupKey(pms[..i][j], p) == k
    ensures Kept(pms[..i + 1], i, p) <==> DedupKey(pms[i], p) !in Keys(InBounds(pms[..i]), p)
  {
    assert pms[..i + 1][i] == pms[i];
    assert forall j :: 0 <= j < i ==> pms[..i + 1][j] == pms[j] && pms[..i][j] == pms[j];
  }

  // ------------------------------------------------------------------ buckets

  function OfType(pms: seq<Placemark>, e: EntityType, p: Patterns): seq<Placemark> {
    if pms == [] then []
    else
      var rest := OfType(pms[..|pms| - 1], e, p);
      if Classify(pms[|pms| - 1], p) == e then rest + [pms[|pms| - 1]] else rest
  }

  /** The dictionary of lines 1027-1035: one list per entity type. */
  datatype Buckets = Buckets(segments: seq<Placemark>, cabinets: seq<Placemark>, closures: seq<Placemark>,
                             accessPoints: seq<Placemark>, olts: seq<Placemark>,
                             buildings: seq<Placemark>, skipped: seq<Placemark>)
  {
    function At(e: EntityType): seq<Placemark> {
      match e
      case Segment => segments
      case Cabinet => cabinets
      case Closure => closures
      case AccessPoint => accessPoints
      case Olt => olts
      case Building => buildings
      case Skip => skipped
    }

    function With(e: EntityType, pms: seq<Placemark>): Buckets {
      match e
      case Segment => this.(segments := pms)
      case Cabinet => this.(cabinets := pms)
      case Closure => this.(closures := pms)
      case AccessPoint => this.(accessPoints := pms)
      case Olt => this.(olts := pms)
      case Building => this.(buildings := pms)
      case Skip => this.(skipped := pms)
    }
  }

  /** Lines 1027-1038. */
  method Bucket(unique: seq<Placemark>, p: Patterns) returns (buckets: Buckets)
    ensures forall e: EntityType :: buckets.At(e) == OfType(unique, e, p)
  {
    buckets := Buckets([], [], [], [], [], [], []);
    for i := 0 to |unique|
      invariant forall e: EntityType :: buckets.At(e) == OfType(unique[..i], e, p)
    {
      assert unique[..i + 1][..i] == unique[..i];
      var e := Classify(unique[i], p);
      buckets := buckets.With(e, buckets.At(e) + [unique[i]]);
    }
    assert unique[..|unique|] == unique;
  }

  /** How often a placemark is in a bucket: as often as in the list, or never. */
  lemma {:induction false} OfTypeCount(unique: seq<Placemark>, e: EntityType, p: Patterns, pm: Placemark)
    ensures multiset(OfType(unique, e, p))[pm] == if Classify(pm, p) == e then multiset(unique)[pm] else 0
  {
    hide Classify;
    if unique != [] {
      var init, last := unique[..|unique| - 1], unique[|unique| - 1];
      OfTypeCount(init, e, p, pm);
      assert unique == init + [last];
    }
  }

  /** All buckets together, as a multiset. */
  function InBuckets(unique: seq<Placemark>, p: Patterns): multiset<Placemark> {
    multiset(OfType(unique, Segment, p)) + multiset(OfType(unique, Cabinet, p)) + multiset(OfType(unique, Closure, p))
    + multiset(OfType(unique, AccessPoint, p)) + multiset(OfType(unique, Olt, p))
    + multiset(OfType(unique, Building, p)) + multiset(OfType(unique, Skip, p))
  }

  /** The buckets together hold every unique placemark once. */
  lemma BucketsPartition(unique: seq<Placemark>, p: Patterns)
    ensures InBuckets(unique, p) == multiset(unique)
    ensures |OfType(unique, Segment, p)| + |OfType(unique, Cabinet, p)| + |OfType(unique, Closure, p)|
            + |OfType(unique, AccessPoint, p)| + |OfType(unique, Olt, p)| + |OfType(unique, Building, p)|
            + |OfType(unique, Skip, p)| == |unique|
  {
    hide Classify, OfType;
    forall pm ensures InBuckets(unique, p)[pm] == multiset(unique)[pm] {
      OfTypeCount(unique, Segment, p, pm);
      OfTypeCount(unique, Cabinet, p, pm);
      OfTypeCount(unique, Closure, p, pm);
      OfTypeCount(unique, AccessPoint, p, pm);
      OfTypeCount(unique, Olt, p, pm);
      OfTypeCount(unique, Building, p, pm);
      OfTypeCount(unique, Skip, p, pm);
    }
    assert InBuckets(unique, p) == multiset(unique);
    assert |InBuckets(unique, p)| == |multiset(unique)| == |unique|;
  }

  /** Every parsed placemark has exactly one of three fates: out of bounds, the
      repetition of an earlier kept one, or kept, and then it is in the bucket of
      its class and in no other. */
  lemma EveryPlacemarkAccounted(pms: seq<Placemark>, i: nat, p: Patterns, e: EntityType)
    requires AllParsed(pms) && i < |pms|
    ensures !InAbuja(pms[i]) ==> !Kept(pms, i, p)
    ensures InAbuja(pms[i]) && !Kept(pms, i, p) ==>
              exists j :: 0 <= j < i && Kept(pms, j, p) && DedupKey(pms[j], p) == DedupKey(pms[i], p)
    ensures Kept(pms, i, p) ==> (pms[i] in OfType(KeptOf(pms, p), e, p) <==> e == Classify(pms[i], p))
  {
    if InAbuja(pms[i]) && !Kept(pms, i, p) {
      var j := DuplicateOfKept(pms, i, p);
    }
    if Kept(pms, i, p) {
      KeptIsListed(pms, i, p);
      OfTypeHas(KeptOf(pms, p), e, p, pms[i]);
    }
  }

  lemma {:induction false} KeptIsListed(pms: seq<Placemark>, i: nat, p: Patterns)
    requires AllParsed(pms) && i < |pms| && Kept(pms, i, p)
    ensures pms[i] in KeptOf(pms, p)
    decreases |pms|
  {
    var n := |pms| - 1;
    if i < n {
      assert pms[..n][i] == pms[i];
      assert Kept(pms[..n], i, p);
      KeptIsListed(pms[..n], i, p);
    }
  }

  lemma {:induction false} OfTypeHas(pms: seq<Placemark>, e: EntityType, p: Patterns, pm: Placemark)
    ensures pm in OfType(pms, e, p) <==> pm in pms && Classify(pm, p) == e
  {
    if pms != [] {
      OfTypeHas(pms[..|pms| - 1], e, p, pm);
      assert pms == pms[..|pms| - 1] + [pms[|pms| - 1]];
    }
  }

  // ------------------------------------------------------------------- counts

  function LineStrings(pms: seq<Placemark>): nat {
    if pms == [] then 0
    else LineStrings(pms[..|pms| - 1]) + if pms[|pms| - 1].geometry == "LineString" then 1 else 0
  }

  lemma {:induction false} LineStringsBound(pms: seq<Placemark>)
    ensures LineStrings(pms) <= |pms|
  {
    if pms != [] {
      LineStringsBound(pms[..|pms| - 1]);
    }
  }

  /** Those of the first `n` items that are not lines and whose queries find a row, or find none. */
  function Hits(pms: seq<Placemark>, found: seq<bool>, n: nat, hit: bool): set<nat>
    requires n <= |pms| == |found|
  {
    set i: nat | i < n && pms[i].geometry != "LineString" && found[i] == hit
  }

  lemma HitsStep(pms: seq<Placemark>, found: seq<bool>, n: nat, hit: bool)
    requires n < |pms| == |found|
    ensures |Hits(pms, found, n + 1, hit)|
         == |Hits(pms, found, n, hit)| + if pms[n].geometry != "LineString" && found[n] == hit then 1 else 0
  {
    var one := if pms[n].geometry != "LineString" && found[n] == hit then {n} else {};
    assert Hits(pms, found, n + 1, hit) == Hits(pms, found, n, hit) + one;
  }

  lemma NoHits(pms: seq<Placemark>, found: seq<bool>, hit: bool)
    requires |pms| == |found|
    ensures |Hits(pms, found, 0, hit)| == 0
  {
    assert Hits(pms, found, 0, hit) == {};
  }

  lemma PointUnlessLine(pm: Placemark)
    requires Parsed(pm)
    ensures ExtractPoint(pm).None? <==> pm.geometry == "LineString"
  {
    hide Centroid.Centroid, AsPoints;
  }

  /** Every item that is no line is found or not. */
  lemma {:induction false} HitsSplit(pms: seq<Placemark>, found: seq<bool>, n: nat)
    requires n <= |pms| == |found|
    ensures |Hits(pms, found, n, true)| + |Hits(pms, found, n, false)| == n - LineStrings(pms[..n])
  {
    if n > 0 {
      assert pms[..n][..n - 1] == pms[..n - 1];
      HitsSplit(pms, found, n - 1);
      HitsStep(pms, found, n - 1, true);
      HitsStep(pms, found, n - 1, false);
    }
  }

  /** A batch importer of point entities, of which only the counting is modelled;
      `found` says, item by item, whether its queries find an existing row. */
  method ImportPointsBatch(pms: seq<Placemark>, found: seq<bool>, upsert: bool)
    returns (created: nat, updated: nat, skipped: nat)
    requires AllParsed(pms) && |found| == |pms|
    ensures created == |Hits(pms, found, |pms|, false)|
    ensures updated == if upsert then |Hits(pms, found, |pms|, true)| else 0
    ensures skipped == if upsert then 0 else |Hits(pms, found, |pms|, true)|
    ensures created + updated + skipped == |pms| - LineStrings(pms)
  {
    hide Hits, ExtractPoint;
    created, updated, skipped := 0, 0, 0;
    NoHits(pms, found, true);
    NoHits(pms, found, false);
    for i := 0 to |pms|
      invariant created == |Hits(pms, found, i, false)|
      invariant updated == if upsert then |Hits(pms, found, i, true)| else 0
      invariant skipped == if upsert then 0 else |Hits(pms, found, i, true)|
    {
      HitsStep(pms, found, i, true);
      HitsStep(pms, found, i, false);
      assert pms[i] in pms && Parsed(pms[i]);
      PointUnlessLine(pms[i]);
      if ExtractPoint(pms[i]).None? {
        continue;
      }
      if found[i] {
        if !upsert {
          skipped := skipped + 1;
          continue;
        }
        updated := updated + 1;
      } else {
        created := created + 1;
      }
    }
    assert pms[..|pms|] == pms;
    HitsSplit(pms, found, |pms|);
  }

  lemma {:induction false} LinesPerLineString(pms: seq<Placemark>, config: SegmentImport.Config)
    requires AllParsed(pms)
    ensures |SegmentImport.Lines(pms, config).0| == LineStrings(pms)
  {
    if pms != [] {
      LinesPerLineString(pms[..|pms| - 1], config);
    }
  }

  /** `s[:n]`, which cuts from the end when `n` is negative. */
  function Head<T>(s: seq<T>, n: int): seq<T> {
    if n >= |s| then s else if n >= 0 then s[..n] else if |s| + n >= 0 then s[..|s| + n] else []
  }

  /** A slice is a prefix: of length `n`, if there are so many; or, for a negative `n`,
      without the last `-n`, if there are so many. */
  lemma HeadIs<T>(s: seq<T>, n: int)
    ensures Head(s, n) <= s
    ensures n >= 0 ==> |Head(s, n)| <= n && (|Head(s, n)| == n || Head(s, n) == s)
    ensures n < 0 ==> |s| + n <= |Head(s, n)| && (|Head(s, n)| == |s| + n || Head(s, n) == [])
  {
  }

  /** A bucket after the limit of lines 1041-1044. */
  function Limited(s: seq<Placemark>, limit: Option<int>): seq<Placemark> {
    if limit.Some? then Head(s, limit.value) else s
  }

  /** How many items of a bucket its importer counts: line strings for segments, the others for points. */
  function Counted(s: seq<Placemark>, e: EntityType): int {
    if e == Segment then LineStrings(s) else |s| - LineStrings(s)
  }

  /** What all importers together count. */
  function CountedIn(buckets: Buckets): int {
    Counted(buckets.At(Segment), Segment) + Counted(buckets.At(Cabinet), Cabinet)
    + Counted(buckets.At(Closure), Closure) + Counted(buckets.At(AccessPoint), AccessPoint)
    + Counted(buckets.At(Olt), Olt) + Counted(buckets.At(Building), Building)
  }

  /** Only lines become segments, and the only lines that become anything else
      importable are the manholes. */
  lemma LineClasses(pm: Placemark, p: Patterns)
    ensures Classify(pm, p) == Segment ==> pm.geometry == "LineString"
    ensures pm.geometry == "LineString" ==> Classify(pm, p) in {Segment, Closure, Skip}
    ensures pm.geometry == "LineString" ==> (Classify(pm, p) == Closure <==> ManholeRule(pm, p))
  {
  }

  lemma {:induction false} LinesInBucket(unique: seq<Placemark>, e: EntityType, p: Patterns)
    ensures e == Segment ==> LineStrings(OfType(unique, e, p)) == |OfType(unique, e, p)|
    ensures e !in {Segment, Closure, Skip} ==> LineStrings(OfType(unique, e, p)) == 0
    ensures e == Closure ==> LineStrings(OfType(unique, e, p)) == ManholeLines(unique, p)
  {
    if unique != [] {
      var init, pm := unique[..|unique| - 1], unique[|unique| - 1];
      LinesInBucket(init, e, p);
      LineClasses(pm, p);
      var bucket := OfType(init, e, p);
      assert (bucket + [pm])[..|bucket|] == bucket;
    }
  }

  /** The line strings that the manhole rule makes closures. */
  function ManholeLines(unique: seq<Placemark>, p: Patterns): nat {
    if unique == [] then 0
    else
      var pm := unique[|unique| - 1];
      ManholeLines(unique[..|unique| - 1], p) + if pm.geometry == "LineString" && ManholeRule(pm, p) then 1 else 0
  }

  /** Without a limit the importers count every unique placemark except those
      skipped by class and the manholes drawn as lines. */
  lemma CountedWithoutLimit(unique: seq<Placemark>, buckets: Buckets, p: Patterns)
    requires forall e: EntityType :: buckets.At(e) == OfType(unique, e, p)
    ensures CountedIn(buckets) == |unique| - |buckets.At(Skip)| - ManholeLines(unique, p)
  {
    BucketsPartition(unique, p);
    LinesInBucket(unique, Segment, p);
    LinesInBucket(unique, Cabinet, p);
    LinesInBucket(unique, Closure, p);
    LinesInBucket(unique, AccessPoint, p);
    LinesInBucket(unique, Olt, p);
    LinesInBucket(unique, Building, p);
  }

  const IMPORTED: seq<EntityType> := [Segment, Cabinet, Closure, AccessPoint, Olt, Building]

  lemma AllButSkip(e: EntityType)
    ensures e in IMPORTED <==> e != Skip
  {
    match e
    case Segment => assert IMPORTED[0] == e;
    case Cabinet => assert IMPORTED[1] == e;
    case Closure => assert IMPORTED[2] == e;
    case AccessPoint => assert IMPORTED[3] == e;
    case Olt => assert IMPORTED[4] == e;
    case Building => assert IMPORTED[5] == e;
    case Skip =>
  }

  /** The loop of lines 1042-1044. */
  method CutBuckets(buckets: Buckets, todo: seq<EntityType>, limit: int) returns (cut: Buckets)
    requires forall i, j :: 0 <= i < j < |todo| ==> todo[i] != todo[j]
    ensures forall e: EntityType :: cut.At(e) == if e in todo then Head(buckets.At(e), limit) else buckets.At(e)
  {
    cut := buckets;
    for k := 0 to |todo|
      invariant forall e: EntityType ::
                  cut.At(e) == if e in todo[..k] then Head(buckets.At(e), limit) else buckets.At(e)
    {
      hide Buckets.At, Buckets.With, Head;
      assert todo[..k + 1] == todo[..k] + [todo[k]] && todo[k] !in todo[..k];
      var shorter := Head(cut.At(todo[k]), limit);
      WithAt(cut, todo[k], shorter);
      cut := cut.With(todo[k], shorter);
    }
    assert todo[..|todo|] == todo;
  }

  lemma WithAt(buckets: Buckets, e: EntityType, pms: seq<Placemark>)
    ensures forall f: EntityType :: buckets.With(e, pms).At(f) == if f == e then pms else buckets.At(f)
  {
  }

  /** Lines 1041-1044. */
  method ApplyLimit(buckets: Buckets, limit: Option<int>) returns (cut: Buckets)
    ensures forall e: EntityType :: cut.At(e) == if e == Skip then buckets.At(e) else Limited(buckets.At(e), limit)
  {
    cut := buckets;
    if limit.Some? {
      cut := CutBuckets(buckets, IMPORTED, limit.value);
      forall e: EntityType ensures e in IMPORTED <==> e != Skip {
        AllButSkip(e);
      }
    }
  }

  const POINTS: seq<EntityType> := [Cabinet, Closure, AccessPoint, Olt, Building]

  /** The answers of one importer's queries. */
  function Answers(buckets: Buckets, e: EntityType, found: (EntityType, nat) -> bool): seq<bool> {
    seq(|buckets.At(e)|, i requires 0 <= i < |buckets.At(e)| => found(e, i))
  }

  /** How many items of these buckets, lines aside, are found, or are not. */
  function PointHits(buckets: Buckets, types: seq<EntityType>, found: (EntityType, nat) -> bool, hit: bool): nat {
    if types == [] then 0
    else
      var e := types[|types| - 1];
      PointHits(buckets, types[..|types| - 1], found, hit)
      + |Hits(buckets.At(e), Answers(buckets, e, found), |buckets.At(e)|, hit)|
  }

  /** Lines 1053-1090: every importer on its bucket; `found` stands for the queries
      of the point importers. */
  method ImportBuckets(session: SegmentImport.SegmentSession, buckets: Buckets,
                       config: SegmentImport.Config, upsert: bool, found: (EntityType, nat) -> bool)
    returns (created: nat, updated: nat, skipped: nat)
    requires session.pending == [] && forall e: EntityType :: AllParsed(buckets.At(e))
    modifies session
    ensures created + updated + skipped == CountedIn(buckets)
    ensures var lines := SegmentImport.Lines(buckets.At(Segment), config).0;
            var b := SegmentImport.Import(old(session.rows), lines, upsert);
            && session.rows == b.rows && session.pending == b.pending
            && created == b.created + PointHits(buckets, POINTS, found, false)
            && updated == b.updated + (if upsert then PointHits(buckets, POINTS, found, true) else 0)
            && skipped == b.skipped + (if upsert then 0 else PointHits(buckets, POINTS, found, true))
  {
    ghost var lines := SegmentImport.Lines(buckets.At(Segment), config).0;
    SegmentImport.CountsAndKept(session.rows, lines, upsert);
    LinesPerLineString(buckets.At(Segment), config);
    created, updated, skipped := session.ImportSegmentsBatch(buckets.At(Segment), config, upsert);
    var c, u, s := ImportPointBuckets(buckets, POINTS, upsert, found);
    PointsCountedAll(buckets);
    created, updated, skipped := created + c, updated + u, skipped + s;
  }

  method ImportPointBuckets(buckets: Buckets, todo: seq<EntityType>, upsert: bool,
                            found: (EntityType, nat) -> bool)
    returns (created: nat, updated: nat, skipped: nat)
    requires forall e: EntityType :: AllParsed(buckets.At(e))
    ensures created == PointHits(buckets, todo, found, false)
    ensures updated == if upsert then PointHits(buckets, todo, found, true) else 0
    ensures skipped == if upsert then 0 else PointHits(buckets, todo, found, true)
    ensures created + updated + skipped == PointsCounted(buckets, todo)
  {
    created, updated, skipped := 0, 0, 0;
    for k := 0 to |todo|
      invariant created == PointHits(buckets, todo[..k], found, false)
      invariant updated == if upsert then PointHits(buckets, todo[..k], found, true) else 0
      invariant skipped == if upsert then 0 else PointHits(buckets, todo[..k], found, true)
      invariant created + updated + skipped == PointsCounted(buckets, todo[..k])
    {
      hide Hits, Buckets.At, LineStrings;
      assert todo[..k + 1][..k] == todo[..k];
      var bucket := buckets.At(todo[k]);
      var c, u, s := ImportPointsBatch(bucket, Answers(buckets, todo[k], found), upsert);
      created, updated, skipped := created + c, updated + u, skipped + s;
    }
    assert todo[..|todo|] == todo;
  }

  /** `import_merged` up to its summary. */
  method ImportMerged(session: SegmentImport.SegmentSession, pms: seq<Placemark>, p: Patterns,
                      config: SegmentImport.Config, upsert: bool, limit: Option<int>,
                      found: (EntityType, nat) -> bool)
    returns (unique: seq<Placemark>, buckets: Buckets, created: nat, updated: nat, skipped: nat)
    requires AllParsed(pms) && session.pending == []
    modifies session
    ensures unique == KeptOf(pms, p)
    ensures forall e: EntityType ::
              buckets.At(e) == if e == Skip then OfType(unique, e, p) else Limited(OfType(unique, e, p), limit)
    ensures created + updated + skipped == CountedIn(buckets)
    ensures limit == None ==> created + updated + skipped == |unique| - |buckets.At(Skip)| - ManholeLines(unique, p)
    ensures forall e: EntityType :: AllParsed(buckets.At(e))
    ensures var lines := SegmentImport.Lines(buckets.At(Segment), config).0;
            var b := SegmentImport.Import(old(session.rows), lines, upsert);
            && session.rows == b.rows && session.pending == b.pending
            && created == b.created + PointHits(buckets, POINTS, found, false)
            && updated == b.updated + (if upsert then PointHits(buckets, POINTS, found, true) else 0)
            && skipped == b.skipped + (if upsert then 0 else PointHits(buckets, POINTS, found, true))
  {
    var filteredOut;
    unique, filteredOut := Deduplicate(pms, p);
    KeptKeys(pms, p);
    buckets := Bucket(unique, p);
    buckets := ApplyLimit(buckets, limit);
    forall e: EntityType ensures AllParsed(buckets.At(e)) {
      BucketParsed(unique, e, p, limit);
    }
    created, updated, skipped := ImportBuckets(session, buckets, config, upsert, found);
    if limit == None {
      CountedWithoutLimit(unique, buckets, p);
    }
  }

  function PointsCounted(buckets: Buckets, types: seq<EntityType>): int {
    if types == [] then 0
    else PointsCounted(buckets, types[..|types| - 1])
         + |buckets.At(types[|types| - 1])| - LineStrings(buckets.At(types[|types| - 1]))
  }

  lemma PointsCountedAll(buckets: Buckets)
    ensures PointsCounted(buckets, POINTS)
         == Counted(buckets.At(Cabinet), Cabinet) + Counted(buckets.At(Closure), Closure)
            + Counted(buckets.At(AccessPoint), AccessPoint) + Counted(buckets.At(Olt), Olt)
            + Counted(buckets.At(Building), Building)
  {
    var t := POINTS;
    assert t[..4] == [Cabinet, Closure, AccessPoint, Olt] && t[..4][..3] == t[..3] && t[..3][..2] == t[..2]
           && t[..2][..1] == t[..1] && t[..1][..0] == [];
    assert PointsCounted(buckets, t[..1]) == Counted(buckets.At(Cabinet), Cabinet);
    assert PointsCounted(buckets, t[..2]) == PointsCounted(buckets, t[..1]) + Counted(buckets.At(Closure), Closure);
    assert PointsCounted(buckets, t[..3])
        == PointsCounted(buckets, t[..2]) + Counted(buckets.At(AccessPoint), AccessPoint);
    assert PointsCounted(buckets, t[..4]) == PointsCounted(buckets, t[..3]) + Counted(buckets.At(Olt), Olt);
  }

  lemma BucketParsed(unique: seq<Placemark>, e: EntityType, p: Patterns, limit: Option<int>)
    requires AllParsed(unique)
    ensures AllParsed(OfType(unique, e, p)) && AllParsed(Limited(OfType(unique, e, p), limit))
  {
    forall pm | pm in OfType(unique, e, p) ensures Parsed(pm) {
      OfTypeHas(unique, e, p, pm);
    }
  }
}

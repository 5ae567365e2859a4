/** The fiber-segment batch importer: `_make_segment_name`
    (scripts/import_fiber_kmz.py:149-183) and `_import_segments_batch` (682-732). */
module SegmentImport {
  import opened Options
  import opened Placemarks

  /** Library behaviour this model does not look into: `name.lower().strip()`, the
      four-decimal rendering of a coordinate, `_line_length_m` and `_make_notes`. */
  datatype Library = Library(fold: string -> string, fixed4: real -> string,
                             length: seq<Coord> -> real,
                             notes: map<string, Option<string>> -> Option<string>)

  /** The columns of a `FiberSegment` that the importer writes. */
  datatype Row = Row(segmentType: string, cableType: Option<string>, route: seq<Coord>,
                     lengthM: Option<real>, notes: Option<string>)

  /** The options of one run, with the library they run on. */
  datatype Config = Config(segmentType: string, cableType: Option<string>, lib: Library)

  const GENERIC_SEGMENT_NAMES: set<string> := {
    "path measure", "line measure", "route", "proposed route", "untitled path", "new route", "",
    "trenching", "drainage", "duct route", "new duct route", "trenching route", "new trenching",
    "trenching part", "interlock and trenching", "interlock & trenching"
  }

  // ---------------------------------------------------------- decimal numerals

  function Digit(d: nat): char
    requires d < 10
  {
    "0123456789"[d]
  }

  /** `f"{n}"` of a natural number. */
  function Decimal(n: nat): string {
    if n < 10 then [Digit(n)] else Decimal(n / 10) + [Digit(n % 10)]
  }

  lemma DigitInjective(a: nat, b: nat)
    requires a < 10 && b < 10 && Digit(a) == Digit(b)
    ensures a == b
  {
  }

  lemma {:induction false} DecimalInjective(m: nat, n: nat)
    requires Decimal(m) == Decimal(n)
    ensures m == n
  {
    var s := Decimal(m);
    DecimalLength(m);
    DecimalLength(n);
    assert s[|s| - 1] == Digit(m % 10) && s[|s| - 1] == Digit(n % 10);
    DigitInjective(m % 10, n % 10);
    if m >= 10 {
      assert s[..|s| - 1] == Decimal(m / 10) == Decimal(n / 10);
      DecimalInjective(m / 10, n / 10);
    }
  }

  lemma {:induction false} DecimalLength(n: nat)
    ensures |Decimal(n)| >= 1 && (|Decimal(n)| == 1 <==> n < 10)
    ensures Decimal(n)[|Decimal(n)| - 1] == Digit(n % 10)
  {
  }

  // ------------------------------------------------------------- unique suffix

  /** The names tried one after the other by lines 700-704. */
  function Candidate(base: string, k: nat): string {
    if k == 0 then base else base + "-" + Decimal(k)
  }

  lemma CandidateInjective(base: string, j: nat, k: nat)
    requires Candidate(base, j) == Candidate(base, k)
    ensures j == k
  {
    var stem := base + "-";
    if j > 0 && k > 0 {
      assert Candidate(base, j)[|stem|..] == Decimal(j) && Candidate(base, k)[|stem|..] == Decimal(k);
      DecimalInjective(j, k);
    }
  }

  /** The first `k` candidates, as a set. */
  function Tried(base: string, k: nat): set<string> {
    set j | 0 <= j < k :: Candidate(base, j)
  }

  lemma {:induction false} TriedSize(base: string, k: nat)
    ensures |Tried(base, k)| == k
  {
    hide Candidate;
    if k > 0 {
      TriedSize(base, k - 1);
      assert Tried(base, k) == Tried(base, k - 1) + {Candidate(base, k - 1)};
      if Candidate(base, k - 1) in Tried(base, k - 1) {
        var j :| 0 <= j < k - 1 && Candidate(base, j) == Candidate(base, k - 1);
        CandidateInjective(base, j, k - 1);
      }
    } else {
      assert Tried(base, 0) == {};
    }
  }

  /** As the candidates never repeat, at most |used| of them can be taken. */
  lemma Pigeonhole(base: string, k: nat, used: set<string>)
    requires forall j :: 0 <= j < k ==> Candidate(base, j) in used
    ensures k <= |used|
  {
    TriedSize(base, k);
    SubsetSize(Tried(base, k), used);
  }

  lemma {:induction false} SubsetSize<T>(a: set<T>, b: set<T>)
    requires a <= b
    ensures |a| <= |b|
  {
    if a != {} {
      var x :| x in a;
      SubsetSize(a - {x}, b - {x});
    }
  }

  /** The least index from `k` on whose candidate is free. */
  function FirstFree(base: string, used: set<string>, k: nat): (r: nat)
    requires forall j :: 0 <= j < k ==> Candidate(base, j) in used
    ensures k <= r <= |used| && Candidate(base, r) !in used
    ensures forall j :: 0 <= j < r ==> Candidate(base, j) in used
    decreases |used| - k
  {
    Pigeonhole(base, k, used);
    if Candidate(base, k) !in used then k
    else
      Pigeonhole(base, k + 1, used);
      FirstFree(base, used, k + 1)
  }

  function FreeName(base: string, used: set<string>): string {
    Candidate(base, FirstFree(base, used, 0))
  }

  /** Lines 700-704.  The loop ends, within |used| + 1 candidates. */
  method MakeFree(base: string, used: set<string>) returns (name: string, suffix: nat)
    ensures name == FreeName(base, used) && name !in used
    ensures 1 <= suffix <= |used| + 1 && name == Candidate(base, suffix - 1)
  {
    name, suffix := base, 1;
    while name in used
      invariant suffix >= 1 && name == Candidate(base, suffix - 1)
      invariant forall j :: 0 <= j < suffix - 1 ==> Candidate(base, j) in used
      invariant suffix <= |used| + 1
      decreases |used| + 1 - suffix
    {
      Pigeonhole(base, suffix, used);
      name := base + "-" + Decimal(suffix);
      suffix := suffix + 1;
    }
    assert suffix - 1 == FirstFree(base, used, 0);
  }

  // ------------------------------------------------------------- segment names

  /** Line 176. */
  function CoordName(coords: seq<Coord>, lib: Library): string
    requires coords != []
  {
    var start, end := coords[0], coords[|coords| - 1];
    "PM-" + lib.fixed4(start.lat) + "-" + lib.fixed4(start.lon)
    + "-" + lib.fixed4(end.lat) + "-" + lib.fixed4(end.lon)
  }

  /** `_make_segment_name`: the name, and the counter afterwards. */
  function SegmentName(name: string, coords: seq<Coord>, lib: Library, counter: map<string, nat>)
    : (string, map<string, nat>)
    requires coords != []
  {
    if lib.fold(name) !in GENERIC_SEGMENT_NAMES then (name, counter)
    else
      var base := CoordName(coords, lib);
      if base in counter then (base + "-" + Decimal(counter[base] + 1), counter[base := counter[base] + 1])
      else (base, counter[base := 0])
  }

  predicate IsDigit(c: char) {
    '0' <= c <= '9'
  }

  /** A point and four digits, as the format `.4f` ends for every finite number. */
  predicate EndsInDecimals(s: string) {
    |s| >= 5 && s[|s| - 5] == '.' && forall k :: |s| - 4 <= k < |s| ==> IsDigit(s[k])
  }

  /** What is assumed of the rendering of coordinates. */
  ghost predicate FourDecimals(lib: Library) {
    forall x: real :: EndsInDecimals(lib.fixed4(x))
  }

  /** The keys of the counter are names made of coordinates. */
  ghost predicate CoordKeys(counter: map<string, nat>) {
    forall base :: base in counter ==> EndsInDecimals(base)
  }

  /** The names generated so far, as the counter tells them. */
  ghost predicate Issued(counter: map<string, nat>, name: string) {
    exists base, k: nat :: IssuedAs(counter, name, base, k)
  }

  predicate IssuedAs(counter: map<string, nat>, name: string, base: string, k: nat) {
    base in counter && k <= counter[base] && name == Candidate(base, k)
  }

  lemma {:induction false} DecimalDigits(n: nat)
    ensures forall c :: c in Decimal(n) ==> IsDigit(c)
  {
    if n >= 10 {
      DecimalDigits(n / 10);
    }
  }

  /** A suffixed name does not look like coordinates. */
  lemma SuffixedIsNoKey(base: string, k: nat)
    requires k > 0
    ensures !EndsInDecimals(Candidate(base, k))
  {
    var s, d := Candidate(base, k), Decimal(k);
    DecimalLength(k);
    DecimalDigits(k);
    var dash := |s| - 1 - |d|;
    assert s[dash] == '-' && s[dash + 1..] == d;
    if |d| >= 5 {
      assert s[|s| - 5] == d[|d| - 5] && d[|d| - 5] in d;
    } else {
      assert |s| - 5 <= dash < |s|;
    }
  }

  /** The last dash tells base and number apart. */
  lemma SuffixSplits(a: string, j: nat, b: string, k: nat)
    requires a + "-" + Decimal(j) == b + "-" + Decimal(k)
    ensures a == b && j == k
  {
    DecimalDigits(j);
    DecimalDigits(k);
    if |Decimal(j)| == |Decimal(k)| {
      assert (a + "-" + Decimal(j))[|a| + 1..] == Decimal(j) && (b + "-" + Decimal(k))[|b| + 1..] == Decimal(k);
      DecimalInjective(j, k);
      assert (a + "-" + Decimal(j))[..|a|] == a && (b + "-" + Decimal(k))[..|b|] == b;
    } else if |Decimal(j)| < |Decimal(k)| {
      DashInDigits(a, Decimal(j), b, Decimal(k));
    } else {
      DashInDigits(b, Decimal(k), a, Decimal(j));
    }
  }

  lemma DashInDigits(a: string, d: string, b: string, e: string)
    requires |d| < |e| && forall c :: c in e ==> IsDigit(c)
    ensures a + "-" + d != b + "-" + e
  {
    var s, t := a + "-" + d, b + "-" + e;
    if |s| == |t| {
      assert s[|a|] == '-';
      assert t[|a|] == e[|a| - |b| - 1] && e[|a| - |b| - 1] in e;
    }
  }

  /** Generated names of different coordinates, or with different numbers, differ. */
  lemma CandidatesDiffer(a: string, j: nat, b: string, k: nat)
    requires EndsInDecimals(a) && EndsInDecimals(b) && Candidate(a, j) == Candidate(b, k)
    ensures a == b && j == k
  {
    if j > 0 && k > 0 {
      SuffixSplits(a, j, b, k);
    } else if j > 0 {
      SuffixedIsNoKey(a, j);
    } else if k > 0 {
      SuffixedIsNoKey(b, k);
    }
  }

  lemma CoordNameEnds(coords: seq<Coord>, lib: Library)
    requires coords != [] && FourDecimals(lib)
    ensures EndsInDecimals(CoordName(coords, lib))
  {
    var last := lib.fixed4(coords[|coords| - 1].lon);
    var s := CoordName(coords, lib);
    assert EndsInDecimals(last) && s[|s| - |last|..] == last;
    assert forall k :: |s| - 5 <= k < |s| ==> s[k] == last[k - (|s| - |last|)];
  }

  /** A generated name is none of those generated before, and is remembered. */
  lemma GeneratedIsNew(name: string, coords: seq<Coord>, lib: Library, counter: map<string, nat>)
    requires coords != [] && FourDecimals(lib) && CoordKeys(counter) && lib.fold(name) in GENERIC_SEGMENT_NAMES
    ensures var (unique, counter') := SegmentName(name, coords, lib, counter);
            && CoordKeys(counter') && !Issued(counter, unique)
            && forall n :: Issued(counter', n) <==> Issued(counter, n) || n == unique
  {
    var base := CoordName(coords, lib);
    CoordNameEnds(coords, lib);
    var number := if base in counter then counter[base] + 1 else 0;
    hide EndsInDecimals, Candidate, CoordName;
    if b, k: nat :| IssuedAs(counter, Candidate(base, number), b, k) {
      CandidatesDiffer(base, number, b, k);
    }
    var counter' := counter[base := number];
    assert SegmentName(name, coords, lib, counter) == (Candidate(base, number), counter') by {
      CandidateText(base, number);
    }
    forall n ensures Issued(counter', n) <==> Issued(counter, n) || n == Candidate(base, number) {
      NumberAdded(counter, base, number, n);
    }
  }

  lemma CandidateText(base: string, k: nat)
    ensures Candidate(base, k) == if k == 0 then base else base + "-" + Decimal(k)
  {
  }

  lemma NumberAdded(counter: map<string, nat>, base: string, number: nat, n: string)
    requires number == if base in counter then counter[base] + 1 else 0
    ensures Issued(counter[base := number], n) <==> Issued(counter, n) || n == Candidate(base, number)
  {
    hide Candidate;
    var counter' := counter[base := number];
    if b, k: nat :| IssuedAs(counter', n, b, k) {
      assert (b == base && k == number) || IssuedAs(counter, n, b, k);
    }
    if b, k: nat :| IssuedAs(counter, n, b, k) {
      assert IssuedAs(counter', n, b, k);
    }
    assert IssuedAs(counter', Candidate(base, number), base, number);
  }

  /** The dictionary `seg_name_counter` with the function that updates it. */
  class SegmentNamer {
    var counter: map<string, nat>

    constructor ()
      ensures counter == map[]
    {
      counter := map[];
    }

    /** A meaningful name is kept. Otherwise a name is generated that this namer has not
        generated before, and that it will not generate again. */
    method Make(name: string, coords: seq<Coord>, lib: Library) returns (unique: string)
      requires coords != []
      modifies this
      ensures lib.fold(name) !in GENERIC_SEGMENT_NAMES ==> unique == name && counter == old(counter)
      ensures FourDecimals(lib) && CoordKeys(old(counter)) && lib.fold(name) in GENERIC_SEGMENT_NAMES ==>
                && CoordKeys(counter) && !Issued(old(counter), unique)
                && forall n :: Issued(counter, n) <==> Issued(old(counter), n) || n == unique
      ensures (unique, counter) == SegmentName(name, coords, lib, old(counter))
    {
      if lib.fold(name) !in GENERIC_SEGMENT_NAMES {
        return name;
      }
      if FourDecimals(lib) && CoordKeys(counter) {
        GeneratedIsNew(name, coords, lib, counter);
      }
      var base := CoordName(coords, lib);
      if base in counter {
        counter := counter[base := counter[base] + 1];
        return base + "-" + Decimal(counter[base]);
      }
      counter := counter[base := 0];
      return base;
    }
  }

  // ------------------------------------------------------------ the batch loop

  /** `pm.name or pm.properties.get("spanid") or "unnamed-segment"` (line 695). */
  function GivenName(pm: Placemark): string {
    if pm.name != "" then pm.name
    else if "spanid" in pm.properties && pm.properties["spanid"].Some? && pm.properties["spanid"].value != ""
    then pm.properties["spanid"].value
    else "unnamed-segment"
  }

  /** The columns a placemark fills, whether its row is updated or created. */
  function RowOf(pm: Placemark, config: Config): Row {
    Row(config.segmentType, if config.cableType == Some("") then None else config.cableType, pm.coordinates,
        if |pm.coordinates| > 1 then Some(config.lib.length(pm.coordinates)) else None,
        config.lib.notes(pm.properties))
  }

  /** A line to import: the name it asks for and its columns. */
  datatype Line = Line(base: string, row: Row)

  /** The lines of a batch in order, which do not depend on any table, with the name counter after them. */
  function Lines(pms: seq<Placemark>, config: Config): (seq<Line>, map<string, nat>)
    requires AllParsed(pms)
  {
    if pms == [] then ([], map[])
    else
      var pm := pms[|pms| - 1];
      assert Parsed(pm);
      var (lines, counter) := Lines(pms[..|pms| - 1], config);
      if pm.geometry != "LineString" then (lines, counter)
      else
        var (base, counter') := SegmentName(GivenName(pm), pm.coordinates, config.lib, counter);
        (lines + [Line(base, RowOf(pm, config))], counter')
  }

  /** The session in the middle of a batch: `rows` are visible to queries, `pending`
      are the inserts added but not flushed, `used` their names. */
  datatype Batch = Batch(rows: map<string, Row>, pending: seq<(string, Row)>, used: set<string>,
                         created: nat, updated: nat, skipped: nat)

  /** Lines 700-731 for one line. */
  function Process(b: Batch, line: Line, upsert: bool): Batch {
    var name := FreeName(line.base, b.used);
    if name in b.rows then
      if upsert then b.(rows := b.rows[name := line.row], updated := b.updated + 1)
      else b.(skipped := b.skipped + 1)
    else b.(pending := b.pending + [(name, line.row)], used := b.used + {name}, created := b.created + 1)
  }

  function Import(rows: map<string, Row>, lines: seq<Line>, upsert: bool): Batch {
    if lines == [] then Batch(rows, [], {}, 0, 0, 0)
    else Process(Import(rows, lines[..|lines| - 1], upsert), lines[|lines| - 1], upsert)
  }

  lemma NoLines(rows: map<string, Row>, config: Config, upsert: bool)
    ensures Lines([], config) == ([], map[]) && Import(rows, [], upsert) == Batch(rows, [], {}, 0, 0, 0)
  {
  }

  lemma LinesStep(pms: seq<Placemark>, i: nat, config: Config)
    requires AllParsed(pms) && i < |pms|
    ensures AllParsed(pms[..i]) && AllParsed(pms[..i + 1]) && Parsed(pms[i])
    ensures var (lines, counter) := Lines(pms[..i], config);
            Lines(pms[..i + 1], config)
            == if pms[i].geometry != "LineString" then (lines, counter)
               else
                 var (base, counter') := SegmentName(GivenName(pms[i]), pms[i].coordinates, config.lib, counter);
                 (lines + [Line(base, RowOf(pms[i], config))], counter')
  {
    assert pms[i] in pms && pms[..i + 1][..i] == pms[..i];
  }

  lemma ImportStep(rows: map<string, Row>, lines: seq<Line>, line: Line, upsert: bool)
    ensures Import(rows, lines + [line], upsert) == Process(Import(rows, lines, upsert), line, upsert)
  {
  }

  /** The table once the pending inserts are flushed. */
  function Flushed(rows: map<string, Row>, pending: seq<(string, Row)>): map<string, Row> {
    if pending == [] then rows
    else Flushed(rows, pending[..|pending| - 1])[pending[|pending| - 1].0 := pending[|pending| - 1].1]
  }

  function Committed(b: Batch): map<string, Row> {
    Flushed(b.rows, b.pending)
  }

  /** A database session without autoflush: `pending` rows are invisible to queries. */
  class SegmentSession {
    var rows: map<string, Row>
    var pending: seq<(string, Row)>

    constructor (rows: map<string, Row>)
      ensures this.rows == rows && pending == []
    {
      this.rows, pending := rows, [];
    }

    /** `_import_segments_batch`. */
    method ImportSegmentsBatch(pms: seq<Placemark>, config: Config, upsert: bool)
      returns (created: nat, updated: nat, skipped: nat)
      requires AllParsed(pms) && pending == []
      modifies this
      ensures var b := Import(old(rows), Lines(pms, config).0, upsert);
              rows == b.rows && pending == b.pending
              && created == b.created && updated == b.updated && skipped == b.skipped
    {
      hide Lines, Import, SegmentName, RowOf, GivenName;
      created, updated, skipped := 0, 0, 0;
      var namer := new SegmentNamer();
      NoLines(old(rows), config, upsert);
      assert pms[..0] == [];
      var batchNames: set<string> := {};
      ghost var lines: seq<Line> := [];
      for i := 0 to |pms|
        invariant fresh(namer) && AllParsed(pms[..i])
        invariant (lines, namer.counter) == Lines(pms[..i], config)
        invariant Batch(rows, pending, batchNames, created, updated, skipped) == Import(old(rows), lines, upsert)
      {
        var pm := pms[i];
        LinesStep(pms, i, config);
        if pm.geometry != "LineString" {
          continue;
        }
        var baseName := namer.Make(GivenName(pm), pm.coordinates, config.lib);
        ghost var line := Line(baseName, RowOf(pm, config));
        ImportStep(old(rows), lines, line, upsert);
        lines := lines + [line];
        var name, _ := MakeFree(baseName, batchNames);
        if name in rows {
          if !upsert {
            skipped := skipped + 1;
            continue;
          }
          rows := rows[name := RowOf(pm, config)];
          updated := updated + 1;
        } else {
          pending := pending + [(name, RowOf(pm, config))];
          batchNames := batchNames + {name};
          created := created + 1;
        }
      }
      assert pms[..|pms|] == pms;
    }
  }

  // ------------------------------------------------------------- unique names

  function Names(pending: seq<(string, Row)>): set<string> {
    set p | p in pending :: p.0
  }

  /** What every batch keeps: the pending names are the used ones, pairwise
      distinct, and none is taken in the table; the table's names do not change. */
  ghost predicate NamesOk(rows: map<string, Row>, b: Batch) {
    && b.used == Names(b.pending) && b.rows.Keys == rows.Keys && b.used !! rows.Keys
    && forall i, j :: 0 <= i < j < |b.pending| ==> b.pending[i].0 != b.pending[j].0
  }

  /** Whatever the table and the batch, flushing the inserts cannot violate the
      unique constraint, although they were invisible to the importer's queries. */
  lemma {:induction false} UniqueNames(rows: map<string, Row>, lines: seq<Line>, upsert: bool)
    ensures NamesOk(rows, Import(rows, lines, upsert))
  {
    if lines != [] {
      var init, line := lines[..|lines| - 1], lines[|lines| - 1];
      UniqueNames(rows, init, upsert);
      var b := Import(rows, init, upsert);
      var name := FreeName(line.base, b.used);
      assert name !in b.used;
      forall i | 0 <= i < |b.pending| ensures b.pending[i].0 != name {
        assert b.pending[i] in b.pending && b.pending[i].0 in Names(b.pending);
      }
      NamesAppend(b.pending, (name, line.row));
    }
  }

  lemma NamesAppend(pending: seq<(string, Row)>, p: (string, Row))
    ensures Names(pending + [p]) == Names(pending) + {p.0}
  {
  }

  lemma {:induction false} FlushedKeys(rows: map<string, Row>, pending: seq<(string, Row)>)
    ensures Flushed(rows, pending).Keys == rows.Keys + Names(pending)
    ensures forall k :: k in rows && k !in Names(pending) ==> Flushed(rows, pending)[k] == rows[k]
  {
    if pending != [] {
      var init, p := pending[..|pending| - 1], pending[|pending| - 1];
      FlushedKeys(rows, init);
      assert pending == init + [p];
      NamesAppend(init, p);
    }
  }

  /** Every line is counted exactly once; nothing of the table is lost, and
      without upsert nothing of it changes. */
  lemma {:induction false} CountsAndKept(rows: map<string, Row>, lines: seq<Line>, upsert: bool)
    ensures var b := Import(rows, lines, upsert);
            && b.created + b.updated + b.skipped == |lines|
            && b.created == |b.pending|
            && (!upsert ==> b.rows == rows && b.updated == 0)
            && (upsert ==> b.skipped == 0)
            && rows.Keys <= Committed(b).Keys
  {
    var b := Import(rows, lines, upsert);
    UniqueNames(rows, lines, upsert);
    FlushedKeys(b.rows, b.pending);
    if lines != [] {
      CountsAndKept(rows, lines[..|lines| - 1], upsert);
    }
  }

  // ---------------------------------------------------------------- one line alone

  /** A line goes by its name; without one by its span identifier; without that it has a fixed name. */
  predicate GoesBy(pm: Placemark, name: string) {
    var span := if "spanid" in pm.properties then pm.properties["spanid"] else None;
    if pm.name != "" then name == pm.name
    else if span.Some? && span.value != "" then name == span.value
    else name == "unnamed-segment"
  }

  /** The name of the row for a line that is imported alone: its own, or if that says
      nothing, the latitude and longitude of its first and of its last point. */
  predicate NamedAlone(pm: Placemark, given: string, lib: Library, name: string)
    requires Parsed(pm)
  {
    var path := pm.coordinates;
    name == if lib.fold(given) !in GENERIC_SEGMENT_NAMES then given
            else "PM-" + lib.fixed4(path[0].lat) + "-" + lib.fixed4(path[0].lon)
                 + "-" + lib.fixed4(path[|path| - 1].lat) + "-" + lib.fixed4(path[|path| - 1].lon)
  }

  /** What one line does to the table: a row of that name is created if there is none, and
      otherwise overwritten or left alone. It has the type and the cable of the run, the
      line's own path and notes, and a length if the path has two points or more. */
  lemma OneLine(rows: map<string, Row>, pm: Placemark, config: Config, upsert: bool, given: string, name: string)
    requires Parsed(pm) && pm.geometry == "LineString"
    requires GoesBy(pm, given) && NamedAlone(pm, given, config.lib, name)
    ensures var b := Import(rows, Lines([pm], config).0, upsert);
            name in Committed(b)
            && var row := Committed(b)[name];
            && (name in rows ==> b.pending == [] && b.rows.Keys == rows.Keys)
            && (name !in rows ==> b.rows == rows && b.pending == [(name, row)] && b.created == 1)
            && (name in rows && upsert ==> b.rows == rows[name := row] && b.updated == 1)
            && (name in rows && !upsert ==> b.rows == rows && b.skipped == 1)
            && b.created + b.updated + b.skipped == 1
            && (name !in rows || upsert ==>
                && row.segmentType == config.segmentType && row.route == pm.coordinates
                && row.cableType == (if config.cableType == Some("") then None else config.cableType)
                && row.notes == config.lib.notes(pm.properties)
                && (row.lengthM == None <==> |pm.coordinates| == 1)
                && (row.lengthM.Some? ==> row.lengthM.value == config.lib.length(pm.coordinates)))
  {
    hide Lines, Import, SegmentName, FreeName, Flushed, CoordName, GoesBy, NamedAlone;
    var line := Line(name, RowOf(pm, config));
    LineAlone(pm, config, given, name);
    NoLines(rows, config, upsert);
    assert [] + [line] == [line] && [] + [(name, line.row)] == [(name, line.row)];
    ImportStep(rows, [], line, upsert);
    FreeBase(name, {});
    FlushedOne(rows, name, line.row);
    FlushedNone(rows);
    FlushedNone(rows[name := line.row]);
  }

  lemma LineAlone(pm: Placemark, config: Config, given: string, name: string)
    requires Parsed(pm) && pm.geometry == "LineString"
    requires GoesBy(pm, given) && NamedAlone(pm, given, config.lib, name)
    ensures Lines([pm], config).0 == [Line(name, RowOf(pm, config))]
  {
    assert [pm][..0] == [] && [pm][..1] == [pm];
    LinesStep([pm], 0, config);
    assert Lines([], config) == ([], map[]);
    hide Lines, GENERIC_SEGMENT_NAMES;
    assert GivenName(pm) == given;
    assert SegmentName(given, pm.coordinates, config.lib, map[]).0 == name;
  }

  lemma FlushedNone(rows: map<string, Row>)
    ensures Flushed(rows, []) == rows
  {
  }

  lemma FlushedOne(rows: map<string, Row>, name: string, row: Row)
    ensures Flushed(rows, [(name, row)]) == rows[name := row]
  {
    assert [(name, row)][..0] == [];
  }

  // ------------------------------------------------------------------- reruns

  predicate BasesIn(lines: seq<Line>, names: set<string>) {
    forall line :: line in lines ==> line.base in names
  }

  /** After a batch every name that a line asked for exists, in the table or among the inserts. */
  lemma {:induction false} BasesExist(rows: map<string, Row>, lines: seq<Line>, upsert: bool)
    ensures var b := Import(rows, lines, upsert); BasesIn(lines, rows.Keys + b.used)
  {
    if lines != [] {
      var init, line := lines[..|lines| - 1], lines[|lines| - 1];
      BasesExist(rows, init, upsert);
      UniqueNames(rows, init, upsert);
      var b := Import(rows, init, upsert);
      if line.base !in b.used {
        FreeBase(line.base, b.used);
      }
      ProcessKeepsNames(b, line, upsert);
      assert Import(rows, lines, upsert) == Process(b, line, upsert) && b.rows.Keys == rows.Keys;
      assert BasesIn(init, rows.Keys + b.used);
      hide Import, Process, FreeName, NamesOk;
      forall l | l in lines ensures l.base in rows.Keys + Import(rows, lines, upsert).used {
        assert l in init || l == line;
      }
    }
  }

  lemma ProcessKeepsNames(b: Batch, line: Line, upsert: bool)
    ensures var b' := Process(b, line, upsert);
            && b.used <= b'.used && b.rows.Keys <= b'.rows.Keys
            && FreeName(line.base, b.used) in b.rows.Keys + b'.used
  {
  }

  lemma FreeBase(base: string, used: set<string>)
    requires base !in used
    ensures FreeName(base, used) == base
  {
  }

  /** The table after each line in turn has overwritten the row of its name. */
  function Overwritten(rows: map<string, Row>, lines: seq<Line>): map<string, Row> {
    if lines == [] then rows
    else Overwritten(rows, lines[..|lines| - 1])[lines[|lines| - 1].base := lines[|lines| - 1].row]
  }

  /** A batch all of whose names exist creates nothing; it only overwrites or skips. */
  lemma {:induction false} ImportExisting(rows: map<string, Row>, lines: seq<Line>, upsert: bool)
    requires BasesIn(lines, rows.Keys)
    ensures Import(rows, lines, upsert)
         == (if upsert then Batch(Overwritten(rows, lines), [], {}, 0, |lines|, 0)
             else Batch(rows, [], {}, 0, 0, |lines|))
  {
    if lines != [] {
      var init, line := lines[..|lines| - 1], lines[|lines| - 1];
      ImportExisting(rows, init, upsert);
      UniqueNames(rows, init, upsert);
      FreeBase(line.base, {});
    }
  }

  /** The columns the last line named `k` brings. */
  function LastRow(lines: seq<Line>, k: string): Option<Row> {
    if lines == [] then None
    else if lines[|lines| - 1].base == k then Some(lines[|lines| - 1].row)
    else LastRow(lines[..|lines| - 1], k)
  }

  lemma {:induction false} OverwrittenAt(rows: map<string, Row>, lines: seq<Line>)
    ensures forall k :: k in Overwritten(rows, lines) <==> k in rows || LastRow(lines, k).Some?
    ensures forall k :: k in Overwritten(rows, lines) ==>
              Overwritten(rows, lines)[k] == if LastRow(lines, k).Some? then LastRow(lines, k).value else rows[k]
  {
    if lines != [] {
      OverwrittenAt(rows, lines[..|lines| - 1]);
    }
  }

  lemma OverwrittenTwice(rows: map<string, Row>, lines: seq<Line>)
    ensures Overwritten(Overwritten(rows, lines), lines) == Overwritten(rows, lines)
  {
    OverwrittenAt(rows, lines);
    OverwrittenAt(Overwritten(rows, lines), lines);
  }

  /** The table after one committed run. */
  function After(rows: map<string, Row>, lines: seq<Line>, upsert: bool): map<string, Row> {
    Committed(Import(rows, lines, upsert))
  }

  lemma BasesAfter(rows: map<string, Row>, lines: seq<Line>, upsert: bool)
    ensures BasesIn(lines, After(rows, lines, upsert).Keys)
  {
    var b := Import(rows, lines, upsert);
    BasesExist(rows, lines, upsert);
    UniqueNames(rows, lines, upsert);
    FlushedKeys(b.rows, b.pending);
  }

  /** Importing the same batch again without upsert creates and updates nothing,
      skips every line and leaves the table as it is. */
  lemma RerunSkips(rows: map<string, Row>, lines: seq<Line>, upsert: bool)
    ensures var t := After(rows, lines, upsert);
            Import(t, lines, false) == Batch(t, [], {}, 0, 0, |lines|) && After(t, lines, false) == t
  {
    BasesAfter(rows, lines, upsert);
    ImportExisting(After(rows, lines, upsert), lines, false);
  }

  /** Importing it again with upsert creates nothing, and the table it leaves is a
      fixed point of every later run of the batch, with or without upsert. */
  lemma RerunUpsertSettles(rows: map<string, Row>, lines: seq<Line>, upsert: bool, later: bool)
    ensures var t := After(rows, lines, upsert);
            var again := Import(t, lines, true);
            && again.created == 0 && again.pending == [] && again.updated == |lines|
            && After(After(t, lines, true), lines, later) == After(t, lines, true)
  {
    var t := After(rows, lines, upsert);
    BasesAfter(rows, lines, upsert);
    ImportExisting(t, lines, true);
    BasesAfter(t, lines, true);
    ImportExisting(After(t, lines, true), lines, later);
    OverwrittenTwice(t, lines);
  }

  /** The first run's own result need not be a fixed point: two lines that share a
      new name and differ in a column are told apart by a suffix the first time,
      but fight over one row the second time. */
  lemma FirstRunNotSettled(base: string, first: Row, second: Row)
    requires first != second
    ensures var lines := [Line(base, first), Line(base, second)];
            var t := After(map[], lines, true);
            && t == map[base := first, base + "-1" := second]
            && After(t, lines, true) == map[base := second, base + "-1" := second]
            && After(t, lines, true) != t
  {
    var lines := [Line(base, first), Line(base, second)];
    var t := After(map[], lines, true);
    FirstRunSplits(base, first, second);
    BasesAfter(map[], lines, true);
    ImportExisting(t, lines, true);
    assert lines[..1] == [Line(base, first)] && [Line(base, first)][..0] == [];
    assert Overwritten(t, lines) == Overwritten(t, lines[..1])[base := second];
    assert Overwritten(t, lines[..1]) == Overwritten(t, [])[base := first];
    assert t[base] == first && Overwritten(t, lines)[base] == second;
  }

  lemma FirstRunSplits(base: string, first: Row, second: Row)
    ensures After(map[], [Line(base, first), Line(base, second)], true)
         == map[base := first, base + "-1" := second]
  {
    var one, two := Line(base, first), Line(base, second);
    var empty: map<string, Row> := map[];
    assert [one][..0] == [] && [one, two][..1] == [one];
    FreeBase(base, {});
    var b1 := Import(empty, [one], true);
    assert b1 == Process(Import(empty, [], true), one, true);
    assert b1 == Batch(empty, [(base, first)], {base}, 1, 0, 0);
    assert Decimal(1) == "1" && Candidate(base, 1) == base + "-1" && Candidate(base, 0) == base;
    assert FirstFree(base, {base}, 0) == 1;
    var b2 := Import(empty, [one, two], true);
    assert b2 == Process(b1, two, true);
    var p1, p2 := (base, first), (base + "-1", second);
    assert b2.pending == [p1, p2] && b2.rows == empty;
    assert [p1][..0] == [] && [p1, p2][..1] == [p1];
    assert Flushed(empty, [p1]) == Flushed(empty, [])[base := first];
    assert Flushed(empty, [p1, p2]) == Flushed(empty, [p1])[base + "-1" := second];
  }

  /** With pairwise distinct names the first upsert run settles already. */
  lemma DistinctNamesSettle(rows: map<string, Row>, lines: seq<Line>)
    requires forall i, j :: 0 <= i < j < |lines| ==> lines[i].base != lines[j].base
    ensures After(After(rows, lines, true), lines, true) == After(rows, lines, true)
    ensures After(rows, lines, true) == Overwritten(rows, lines)
  {
    DistinctImport(rows, lines);
    BasesAfter(rows, lines, true);
    ImportExisting(After(rows, lines, true), lines, true);
    OverwrittenTwice(rows, lines);
  }

  lemma {:induction false} DistinctImport(rows: map<string, Row>, lines: seq<Line>)
    requires forall i, j :: 0 <= i < j < |lines| ==> lines[i].base != lines[j].base
    ensures After(rows, lines, true) == Overwritten(rows, lines)
    ensures forall n :: n in Import(rows, lines, true).used ==> exists i :: 0 <= i < |lines| && lines[i].base == n
  {
    if lines != [] {
      var init, line := lines[..|lines| - 1], lines[|lines| - 1];
      DistinctImport(rows, init);
      UniqueNames(rows, init, true);
      var b := Import(rows, init, true);
      assert line.base !in b.used;
      FreeBase(line.base, b.used);
      if line.base in b.rows {
        FlushedUpdate(b.rows, b.pending, line.base, line.row);
      } else {
        var p := (line.base, line.row);
        assert (b.pending + [p])[..|b.pending|] == b.pending;
      }
    }
  }

  lemma {:induction false} FlushedUpdate(rows: map<string, Row>, pending: seq<(string, Row)>, k: string, row: Row)
    requires k !in Names(pending)
    ensures Flushed(rows[k := row], pending) == Flushed(rows, pending)[k := row]
  {
    if pending != [] {
      var init, p := pending[..|pending| - 1], pending[|pending| - 1];
      assert pending == init + [p];
      NamesAppend(init, p);
      FlushedUpdate(rows, init, k, row);
    }
  }
}

/** When the first upsert run of the segment importer settles: exactly which batches
    leave a table that the same batch leaves alone the second time
    (scripts/import_fiber_kmz.py:149-183, 690-731). */
module SegmentSettling {
  import opened Options
  import opened Placemarks
  import opened SegmentImport

  // ------------------------------------------------ the first run, by final names

  /** The lines with the names they end up with in a first run on `rows`. */
  function Renamed(rows: map<string, Row>, lines: seq<Line>): seq<Line> {
    if lines == [] then []
    else
      var init, line := lines[..|lines| - 1], lines[|lines| - 1];
      Renamed(rows, init) + [Line(FreeName(line.base, Import(rows, init, true).used), line.row)]
  }

  lemma OverwrittenStep(rows: map<string, Row>, lines: seq<Line>, line: Line)
    ensures Overwritten(rows, lines + [line]) == Overwritten(rows, lines)[line.base := line.row]
  {
    assert (lines + [line])[..|lines|] == lines;
  }

  /** The first run writes each line's columns under its final name. */
  lemma {:induction false} FirstRunOverwrites(rows: map<string, Row>, lines: seq<Line>)
    ensures After(rows, lines, true) == Overwritten(rows, Renamed(rows, lines))
  {
    if lines != [] {
      var init, line := lines[..|lines| - 1], lines[|lines| - 1];
      FirstRunOverwrites(rows, init);
      UniqueNames(rows, init, true);
      var b := Import(rows, init, true);
      var name := FreeName(line.base, b.used);
      assert Renamed(rows, lines) == Renamed(rows, init) + [Line(name, line.row)];
      assert Import(rows, lines, true) == Process(b, line, true);
      hide FreeName, Overwritten, Renamed, Import, Process, Committed;
      OverwrittenStep(rows, Renamed(rows, init), Line(name, line.row));
      LastLine(rows, b, line, name);
    }
  }

  lemma LastLine(rows: map<string, Row>, b: Batch, line: Line, name: string)
    requires NamesOk(rows, b) && name == FreeName(line.base, b.used)
    ensures Committed(Process(b, line, true)) == Committed(b)[name := line.row]
  {
    hide FreeName, Names;
    if name in b.rows {
      FlushedUpdate(b.rows, b.pending, name, line.row);
    } else {
      var p := (name, line.row);
      assert (b.pending + [p])[..|b.pending|] == b.pending;
    }
  }

  // ------------------------------------------------------------ fixed points

  /** Every used name is some line's final name. */
  lemma {:induction false} UsedIsNamed(rows: map<string, Row>, lines: seq<Line>, k: string)
    requires k in Import(rows, lines, true).used
    ensures LastRow(Renamed(rows, lines), k).Some?
  {
    var init, line := lines[..|lines| - 1], lines[|lines| - 1];
    var b := Import(rows, init, true);
    var name := FreeName(line.base, b.used);
    LastRowStep(Renamed(rows, init), Line(name, line.row), k);
    hide FreeName;
    if k in b.used {
      UsedIsNamed(rows, init, k);
    }
  }

  lemma LastRowStep(lines: seq<Line>, line: Line, k: string)
    ensures LastRow(lines + [line], k) == if line.base == k then Some(line.row) else LastRow(lines, k)
  {
    assert (lines + [line])[..|lines|] == lines;
  }

  /** Every name asked for is some line's final name. */
  lemma {:induction false} AskedIsNamed(rows: map<string, Row>, lines: seq<Line>, k: string)
    requires LastRow(lines, k).Some?
    ensures LastRow(Renamed(rows, lines), k).Some?
  {
    var init, line := lines[..|lines| - 1], lines[|lines| - 1];
    var b := Import(rows, init, true);
    LastRowStep(Renamed(rows, init), Line(FreeName(line.base, b.used), line.row), k);
    if line.base == k {
      if k in b.used {
        UsedIsNamed(rows, init, k);
      } else {
        FreeBase(k, b.used);
      }
    } else {
      AskedIsNamed(rows, init, k);
    }
  }

  /** The first upsert run settles exactly if, for every name asked for, the last line
      that ends up under it and the last line that asks for it carry the same columns. */
  lemma SettlesByNames(rows: map<string, Row>, lines: seq<Line>)
    ensures After(After(rows, lines, true), lines, true) == After(rows, lines, true)
       <==> forall k :: LastRow(lines, k).Some? ==> LastRow(Renamed(rows, lines), k) == LastRow(lines, k)
  {
    var renamed, t := Renamed(rows, lines), After(rows, lines, true);
    FirstRunOverwrites(rows, lines);
    BasesAfter(rows, lines, true);
    ImportExisting(t, lines, true);
    NothingPending(t, lines);
    hide After, Renamed, Overwritten;
    OverwrittenAt(rows, renamed);
    OverwritesNothing(t, lines);
    forall k | LastRow(lines, k).Some?
      ensures k in t && (t[k] == LastRow(lines, k).value <==> LastRow(renamed, k) == LastRow(lines, k))
    {
      AskedIsNamed(rows, lines, k);
    }
  }

  lemma OverwritesNothing(t: map<string, Row>, lines: seq<Line>)
    ensures Overwritten(t, lines) == t
       <==> forall k :: LastRow(lines, k).Some? ==> k in t && t[k] == LastRow(lines, k).value
  {
    OverwrittenAt(t, lines);
    hide Overwritten, LastRow;
    var u := Overwritten(t, lines);
    if forall k :: LastRow(lines, k).Some? ==> k in t && t[k] == LastRow(lines, k).value {
      assert u.Keys == t.Keys;
      assert forall k :: k in t ==> u[k] == t[k];
    }
  }

  lemma NothingPending(t: map<string, Row>, lines: seq<Line>)
    requires Import(t, lines, true) == Batch(Overwritten(t, lines), [], {}, 0, |lines|, 0)
    ensures After(t, lines, true) == Overwritten(t, lines)
  {
  }

  // ------------------------------------------------- without clashing suffixes

  /** The columns the first line named `k` brings. */
  function FirstRow(lines: seq<Line>, k: string): Option<Row> {
    if lines == [] then None
    else
      var earlier := FirstRow(lines[..|lines| - 1], k);
      if earlier.Some? then earlier
      else if lines[|lines| - 1].base == k then Some(lines[|lines| - 1].row)
      else None
  }

  /** `k` is no suffixed form of a name asked for. */
  ghost predicate Unsuffixed(lines: seq<Line>, k: string) {
    forall l, j: nat :: l in lines && j > 0 ==> Candidate(l.base, j) != k
  }

  /** No line asks for a suffixed form of another line's name. */
  ghost predicate NoSuffixAsked(lines: seq<Line>) {
    forall l :: l in lines ==> Unsuffixed(lines, l.base)
  }

  /** Then a new name goes to the first line that asks for it, and an existing one to all. */
  lemma {:induction false} NamedAsAsked(rows: map<string, Row>, lines: seq<Line>, k: string)
    requires Unsuffixed(lines, k)
    ensures k in Import(rows, lines, true).used <==> k !in rows && FirstRow(lines, k).Some?
    ensures LastRow(Renamed(rows, lines), k) == if k in rows then LastRow(lines, k) else FirstRow(lines, k)
  {
    if lines != [] {
      var init, line := lines[..|lines| - 1], lines[|lines| - 1];
      assert lines == init + [line] && line in lines;
      assert Unsuffixed(init, k);
      NamedAsAsked(rows, init, k);
      UniqueNames(rows, init, true);
      var b := Import(rows, init, true);
      var name := FreeName(line.base, b.used);
      LastRowStep(Renamed(rows, init), Line(name, line.row), k);
      FinalNameIs(line.base, b.used, k);
      assert (k in rows ==> k !in b.used) && (k in b.rows <==> k in rows);
      hide FreeName, NamesOk, Unsuffixed, Candidate, Names;
    }
  }

  lemma FinalNameIs(base: string, used: set<string>, k: string)
    requires forall j: nat :: j > 0 ==> Candidate(base, j) != k
    ensures FreeName(base, used) == k <==> base == k && k !in used
  {
    assert Candidate(base, 0) == base;
  }

  /** Exactly then: every new name has lines with the same columns first and last. */
  lemma SettlesExactly(rows: map<string, Row>, lines: seq<Line>)
    requires NoSuffixAsked(lines)
    ensures After(After(rows, lines, true), lines, true) == After(rows, lines, true)
       <==> forall k :: k !in rows && LastRow(lines, k).Some? ==> FirstRow(lines, k) == LastRow(lines, k)
  {
    SettlesByNames(rows, lines);
    hide After, Renamed, Unsuffixed;
    forall k | LastRow(lines, k).Some?
      ensures LastRow(Renamed(rows, lines), k) == if k in rows then LastRow(lines, k) else FirstRow(lines, k)
    {
      var l := AskedByLine(lines, k);
      NamedAsAsked(rows, lines, k);
    }
    hide LastRow, FirstRow;
  }

  lemma {:induction false} AskedByLine(lines: seq<Line>, k: string) returns (l: Line)
    requires LastRow(lines, k).Some?
    ensures l in lines && l.base == k
  {
    l := lines[|lines| - 1];
    if l.base != k {
      l := AskedByLine(lines[..|lines| - 1], k);
    }
  }

  // ----------------------------------------------- batches of generated names

  /** The names that `_make_segment_name` generates for a batch, in order. */
  function Generated(pms: seq<Placemark>, config: Config): seq<string>
    requires AllParsed(pms)
  {
    if pms == [] then []
    else
      var init, pm := pms[..|pms| - 1], pms[|pms| - 1];
      assert Parsed(pm);
      if pm.geometry != "LineString" || config.lib.fold(GivenName(pm)) !in GENERIC_SEGMENT_NAMES
      then Generated(init, config)
      else Generated(init, config) + [SegmentName(GivenName(pm), pm.coordinates, config.lib, Lines(init, config).1).0]
  }

  /** The names generated for a batch are pairwise distinct, and the counter knows them all. */
  lemma {:induction false} GeneratedDistinct(pms: seq<Placemark>, config: Config)
    requires AllParsed(pms) && FourDecimals(config.lib)
    ensures forall i, j :: 0 <= i < j < |Generated(pms, config)| ==>
              Generated(pms, config)[i] != Generated(pms, config)[j]
    ensures CoordKeys(Lines(pms, config).1)
    ensures forall n :: Issued(Lines(pms, config).1, n) <==> n in Generated(pms, config)
  {
    if pms != [] {
      var init, pm := pms[..|pms| - 1], pms[|pms| - 1];
      assert Parsed(pm);
      GeneratedDistinct(init, config);
      if pm.geometry == "LineString" && config.lib.fold(GivenName(pm)) in GENERIC_SEGMENT_NAMES {
        GeneratedIsNew(GivenName(pm), pm.coordinates, config.lib, Lines(init, config).1);
      }
      hide Issued, CoordKeys, SegmentName, GivenName, RowOf;
    }
  }

  /** All lines have generic names. */
  predicate AllGeneric(pms: seq<Placemark>, config: Config) {
    forall pm :: pm in pms && pm.geometry == "LineString" ==> config.lib.fold(GivenName(pm)) in GENERIC_SEGMENT_NAMES
  }

  lemma {:induction false} GenericLines(pms: seq<Placemark>, config: Config)
    requires AllParsed(pms) && AllGeneric(pms, config)
    ensures var lines, names := Lines(pms, config).0, Generated(pms, config);
            |lines| == |names| && forall i :: 0 <= i < |lines| ==> lines[i].base == names[i]
  {
    if pms != [] {
      assert pms[|pms| - 1] in pms;
      hide SegmentName, GivenName, RowOf;
      GenericLines(pms[..|pms| - 1], config);
    }
  }

  /** So a batch of generic names settles in its first run. */
  lemma GenericBatchSettles(rows: map<string, Row>, pms: seq<Placemark>, config: Config)
    requires AllParsed(pms) && AllGeneric(pms, config) && FourDecimals(config.lib)
    ensures var lines := Lines(pms, config).0;
            After(After(rows, lines, true), lines, true) == After(rows, lines, true)
  {
    GeneratedDistinct(pms, config);
    GenericLines(pms, config);
    DistinctNamesSettle(rows, Lines(pms, config).0);
  }
}

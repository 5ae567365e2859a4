/** The tables of the weekly report: the printer `_table` and the parser in
    `markdown_to_html` (scripts/weekly_sales_inbound_report.py:782-789, 1164-1179). */
module ReportTable {
  import opened PyText

  // ------------------------------------------------------------------ printing

  /** `s.replace("|", "\\|")`. */
  function Escape(s: string): string {
    if s == [] then [] else (if s[0] == '|' then "\\|" else [s[0]]) + Escape(s[1..])
  }

  /** `s.replace("\n", " ")`. */
  function Flat(s: string): string {
    if s == [] then [] else [if s[0] == '\n' then ' ' else s[0]] + Flat(s[1..])
  }

  /** `clean`, on a value already turned into text. */
  function Clean(value: string): string {
    Strip(Flat(Escape(value)))
  }

  function CleanAll(values: seq<string>): seq<string> {
    seq(|values|, i requires 0 <= i < |values| => Clean(values[i]))
  }

  /** `sep.join(parts)`. */
  function Join(sep: string, parts: seq<string>): string {
    if parts == [] then []
    else if |parts| == 1 then parts[0]
    else parts[0] + sep + Join(sep, parts[1..])
  }

  function Line(cells: seq<string>): string {
    "| " + Join(" | ", cells) + " |"
  }

  function Dashes(n: nat): seq<string> {
    seq(n, _ => "---")
  }

  /** The lines of `_table`. */
  function TableLines(headers: seq<string>, rows: seq<seq<string>>): seq<string> {
    [Line(CleanAll(headers)), Line(Dashes(|headers|))] + BodyLines(rows)
  }

  function BodyLines(rows: seq<seq<string>>): seq<string> {
    seq(|rows|, i requires 0 <= i < |rows| => Line(CleanAll(rows[i])))
  }

  /** `_table`. */
  function Table(headers: seq<string>, rows: seq<seq<string>>): string {
    Join("\n", TableLines(headers, rows))
  }

  // ------------------------------------------------------------------- parsing

  /** The characters at which `str.splitlines` breaks. */
  predicate IsLineBreak(c: char) {
    c in "\n\r\U{b}\U{c}\U{1c}\U{1d}\U{1e}\U{85}\U{2028}\U{2029}"
  }

  /** `text.splitlines()`, with `line` the part of the current line read so far. */
  function SplitLinesFrom(line: string, text: string): seq<string>
    decreases |text|
  {
    if text == [] then (if line == [] then [] else [line])
    else if !IsLineBreak(text[0]) then SplitLinesFrom(line + [text[0]], text[1..])
    else if "\r\n" <= text then [line] + SplitLinesFrom([], text[2..])
    else [line] + SplitLinesFrom([], text[1..])
  }

  function SplitLines(text: string): seq<string> {
    SplitLinesFrom([], text)
  }

  function StripPipesLeft(s: string): string {
    if s != [] && s[0] == '|' then StripPipesLeft(s[1..]) else s
  }

  function StripPipesRight(s: string): string {
    if s != [] && s[|s| - 1] == '|' then StripPipesRight(s[..|s| - 1]) else s
  }

  /** `s.split("|")`. */
  function Split(s: string): seq<string> {
    if s == [] then [[]]
    else
      var rest := Split(s[1..]);
      if s[0] == '|' then [[]] + rest
      else if rest == [] then [[s[0]]]
      else [[s[0]] + rest[0]] + rest[1..]
  }

  /** `s.replace("\\|", "|")`. */
  function Unescape(s: string): string {
    if s == [] then []
    else if "\\|" <= s then "|" + Unescape(s[2..])
    else [s[0]] + Unescape(s[1..])
  }

  /** One row of line 1169. */
  function ParseRow(line: string): seq<string> {
    var cells := Split(StripPipesRight(StripPipesLeft(line)));
    seq(|cells|, i requires 0 <= i < |cells| => Unescape(Strip(cells[i])))
  }

  function ParseRows(lines: seq<string>): seq<seq<string>> {
    seq(|lines|, i requires 0 <= i < |lines| => ParseRow(lines[i]))
  }

  predicate Piped(line: string) {
    "|" <= line
  }

  /** The table branch of `markdown_to_html`, entered at a line that starts with a
      bar: the headers, the body rows and the index of the first line after the table. */
  method ParseTable(lines: seq<string>, start: nat)
    returns (headers: seq<string>, body: seq<seq<string>>, next: nat)
    requires start < |lines| && Piped(lines[start])
    ensures start < next <= |lines| && (next < |lines| ==> !Piped(lines[next]))
    ensures forall k :: start <= k < next ==> Piped(lines[k])
    ensures headers == ParseRow(lines[start])
    ensures body == ParseRows(lines[if start + 2 < next then start + 2 else next..next])
  {
    var tableLines: seq<string> := [];
    next := start;
    while next < |lines| && Piped(lines[next])
      invariant start <= next <= |lines|
      invariant tableLines == lines[start..next]
      invariant forall k :: start <= k < next ==> Piped(lines[k])
    {
      tableLines := tableLines + [lines[next]];
      next := next + 1;
    }
    var rows := ParseRows(tableLines);
    headers := rows[0];
    body := if |rows| < 2 then [] else rows[2..];
  }

  // ---------------------------------------------------------------- round trip

  /** No bar anywhere in the cell. */
  predicate Plain(s: string) {
    '|' !in s
  }

  function Bars(s: string): nat {
    if s == [] then 0 else (if s[0] == '|' then 1 else 0) + Bars(s[1..])
  }

  lemma {:induction false} BarsAppend(s: string, t: string)
    ensures Bars(s + t) == Bars(s) + Bars(t)
  {
    if s == [] {
      assert s + t == t;
    } else {
      assert (s + t)[1..] == s[1..] + t;
      BarsAppend(s[1..], t);
    }
  }

  lemma {:induction false} PlainBars(s: string)
    ensures Plain(s) <==> Bars(s) == 0
  {
    if s != [] {
      PlainBars(s[1..]);
      assert s == [s[0]] + s[1..];
    }
  }

  /** A split has one part more than the text has bars. */
  lemma {:induction false} SplitLength(s: string)
    ensures |Split(s)| == 1 + Bars(s)
  {
    if s != [] {
      SplitLength(s[1..]);
    }
  }

  lemma {:induction false} SplitPlain(s: string, t: string)
    requires Plain(s)
    ensures Split(s) == [s]
    ensures Split(s + "|" + t) == [s] + Split(t)
  {
    SplitLength(t);
    if s == [] {
      assert s + "|" + t == "|" + t;
    } else {
      SplitPlain(s[1..], t);
      assert (s + "|" + t)[1..] == s[1..] + "|" + t;
      assert [s[0]] + s[1..] == s;
    }
  }

  lemma {:induction false} SplitJoin(parts: seq<string>)
    requires parts != [] && forall p :: p in parts ==> Plain(p)
    ensures Split(Join("|", parts)) == parts
  {
    var first, rest := parts[0], parts[1..];
    assert first in parts && (forall p :: p in rest ==> p in parts) && parts == [first] + rest;
    hide Plain, Split;
    if |parts| == 1 {
      SplitPlain(first, []);
    } else {
      SplitJoin(rest);
      SplitPlain(first, Join("|", rest));
    }
  }

  function Padded(cells: seq<string>): seq<string> {
    seq(|cells|, i requires 0 <= i < |cells| => " " + cells[i] + " ")
  }

  /** The line without its outer bars. */
  function Inner(cells: seq<string>): string {
    " " + Join(" | ", cells) + " "
  }

  lemma {:induction false} InnerIsJoin(cells: seq<string>)
    requires cells != []
    ensures Inner(cells) == Join("|", Padded(cells))
  {
    if |cells| > 1 {
      InnerIsJoin(cells[1..]);
      assert Padded(cells)[1..] == Padded(cells[1..]);
      assert Inner(cells) == " " + cells[0] + " " + "|" + Inner(cells[1..]);
    }
  }

  lemma StripOuterBars(s: string)
    requires s != [] && s[0] != '|' && s[|s| - 1] != '|'
    ensures StripPipesRight(StripPipesLeft("|" + s + "|")) == s
  {
  }

  lemma ParsedCells(cells: seq<string>)
    ensures ParseRow(Line(cells))
         == seq(|Split(Inner(cells))|,
                i requires 0 <= i < |Split(Inner(cells))| => Unescape(Strip(Split(Inner(cells))[i])))
  {
    assert Line(cells) == "|" + Inner(cells) + "|";
    StripOuterBars(Inner(cells));
  }

  lemma {:induction false} UnescapePlain(s: string)
    requires Plain(s)
    ensures Unescape(s) == s
  {
    if s != [] {
      assert s[0] in s && forall c :: c in s[1..] ==> c in s;
      UnescapePlain(s[1..]);
      assert |s| > 1 ==> s[1] in s;
    }
  }

  lemma StripPadded(s: string)
    requires Stripped(s)
    ensures Strip(" " + s + " ") == s
  {
    var padded := " " + s + " ";
    assert IsSpace(' ') && padded[1..] == s + " ";
    hide IsSpace;
    assert StripLeft(padded) == StripLeft(s + " ");
    if s == [] {
      assert " "[1..] == [] && s + " " == " ";
      assert StripLeft(" ") == StripLeft([]);
    } else {
      assert StripLeft(s + " ") == s + " ";
      assert (s + " ")[..|s|] == s && (s + " ")[|s|] == ' ';
      assert StripRight(s + " ") == StripRight(s);
    }
  }

  /** A printed row parses to its cells exactly when it has a cell and none contains a bar. */
  lemma RowRoundTrip(cells: seq<string>)
    requires forall c :: c in cells ==> Stripped(c)
    ensures ParseRow(Line(cells)) == cells <==> cells != [] && forall c :: c in cells ==> Plain(c)
  {
    ParsedCells(cells);
    SplitLength(Inner(cells));
    if cells == [] {
    } else {
      InnerIsJoin(cells);
      var padded := Padded(cells);
      JoinBars(padded);
      if forall c :: c in cells ==> Plain(c) {
        forall p | p in padded ensures Plain(p) {
          var i :| 0 <= i < |cells| && padded[i] == p;
          assert cells[i] in cells;
        }
        SplitJoin(padded);
        forall i | 0 <= i < |cells| ensures ParseRow(Line(cells))[i] == cells[i] {
          assert cells[i] in cells;
          StripPadded(cells[i]);
          UnescapePlain(cells[i]);
        }
      } else {
        var c :| c in cells && !Plain(c);
        var i :| 0 <= i < |cells| && cells[i] == c;
        PaddedBars(cells, i);
      }
    }
  }

  /** The bars of a joined text are those of its parts and the separators. */
  lemma {:induction false} JoinBars(parts: seq<string>)
    requires parts != []
    ensures Bars(Join("|", parts)) == |parts| - 1 + TotalBars(parts)
  {
    if |parts| > 1 {
      JoinBars(parts[1..]);
      BarsAppend(parts[0] + "|", Join("|", parts[1..]));
      BarsAppend(parts[0], "|");
    } else {
      assert parts[1..] == [];
    }
  }

  function TotalBars(parts: seq<string>): nat {
    if parts == [] then 0 else Bars(parts[0]) + TotalBars(parts[1..])
  }

  lemma {:induction false} TotalBarsAtLeast(parts: seq<string>, i: nat)
    requires i < |parts|
    ensures TotalBars(parts) >= Bars(parts[i])
  {
    if i > 0 {
      TotalBarsAtLeast(parts[1..], i - 1);
    }
  }

  lemma PaddedBars(cells: seq<string>, i: nat)
    requires i < |cells| && !Plain(cells[i])
    ensures TotalBars(Padded(cells)) > 0
  {
    var p := Padded(cells)[i];
    PlainBars(cells[i]);
    BarsAppend(" " + cells[i], " ");
    BarsAppend(" ", cells[i]);
    TotalBarsAtLeast(Padded(cells), i);
  }

  // ------------------------------------------------------------ cleaned cells

  lemma {:induction false} StripLeftFacts(s: string)
    ensures var t := StripLeft(s);
            (t == [] || !IsSpace(t[0])) && (Bars(t) == Bars(s)) && (forall c :: c in t ==> c in s)
            && (t != [] ==> s != [] && t[|t| - 1] == s[|s| - 1])
  {
    assert !IsSpace('|');
    hide IsSpace;
    if s != [] && IsSpace(s[0]) {
      StripLeftFacts(s[1..]);
    }
  }

  lemma {:induction false} StripRightFacts(s: string)
    requires s == [] || !IsSpace(s[0])
    ensures var t := StripRight(s);
            Stripped(t) && Bars(t) == Bars(s) && (forall c :: c in t ==> c in s)
  {
    assert !IsSpace('|');
    hide IsSpace, Bars;
    if s != [] && IsSpace(s[|s| - 1]) {
      var init := s[..|s| - 1];
      StripRightFacts(init);
      BarsLast(s);
      assert forall c :: c in init ==> c in s;
    }
  }

  lemma BarsLast(s: string)
    requires s != []
    ensures Bars(s) == Bars(s[..|s| - 1]) + if s[|s| - 1] == '|' then 1 else 0
  {
    var init, last := s[..|s| - 1], s[|s| - 1];
    BarsAppend(init, [last]);
    assert s == init + [last] && [last][1..] == [];
    assert Bars([last]) == (if last == '|' then 1 else 0) + Bars([]);
  }

  lemma {:induction false} EscapeFacts(s: string)
    ensures Bars(Escape(s)) == Bars(s)
    ensures forall c :: c in Escape(s) ==> c in s || c == '\\'
  {
    if s != [] {
      EscapeFacts(s[1..]);
      BarsAppend(if s[0] == '|' then "\\|" else [s[0]], Escape(s[1..]));
      assert Bars("\\|") == Bars("|") == 1 by { assert "\\|"[1..] == "|" && "|"[1..] == []; }
      assert forall c :: c in s[1..] ==> c in s;
    }
  }

  lemma {:induction false} FlatFacts(s: string)
    ensures Bars(Flat(s)) == Bars(s)
    ensures forall c :: c in Flat(s) ==> (c in s && c != '\n') || c == ' '
  {
    if s != [] {
      FlatFacts(s[1..]);
      assert Flat(s)[1..] == Flat(s[1..]);
      assert forall c :: c in s[1..] ==> c in s;
    }
  }

  /** No line break except the newlines that `clean` turns into spaces. */
  predicate NoOtherBreaks(value: string) {
    forall c :: c in value && IsLineBreak(c) ==> c == '\n'
  }

  predicate NoBreaks(s: string) {
    forall c :: c in s ==> !IsLineBreak(c)
  }

  lemma StripFacts(s: string)
    ensures Stripped(Strip(s)) && Bars(Strip(s)) == Bars(s)
    ensures NoBreaks(s) ==> NoBreaks(Strip(s))
  {
    StripLeftFacts(s);
    StripRightFacts(StripLeft(s));
  }

  lemma FlatBreaks(s: string)
    requires forall c :: c in s && IsLineBreak(c) ==> c == '\n'
    ensures NoBreaks(Flat(s))
  {
  }

  lemma CleanFacts(value: string)
    ensures Stripped(Clean(value)) && (Plain(Clean(value)) <==> Plain(value))
    ensures NoOtherBreaks(value) ==> NoBreaks(Clean(value))
  {
    hide Escape, Flat, Strip, Stripped, Plain, NoBreaks, IsLineBreak, IsSpace;
    EscapeFacts(value);
    FlatFacts(Escape(value));
    if NoOtherBreaks(value) {
      EscapeBreaks(value);
      FlatBreaks(Escape(value));
    }
    StripFacts(Flat(Escape(value)));
    PlainBars(value);
    PlainBars(Clean(value));
  }

  lemma EscapeBreaks(s: string)
    requires NoOtherBreaks(s)
    ensures NoOtherBreaks(Escape(s))
  {
  }

  lemma CleanRowRoundTrip(values: seq<string>)
    ensures ParseRow(Line(CleanAll(values))) == CleanAll(values)
       <==> values != [] && forall v :: v in values ==> Plain(v)
  {
    var cells := CleanAll(values);
    forall c | c in cells ensures Stripped(c) {
      var i :| 0 <= i < |cells| && cells[i] == c;
      CleanFacts(values[i]);
    }
    RowRoundTrip(cells);
    forall i | 0 <= i < |values| ensures Plain(cells[i]) <==> Plain(values[i]) {
      CleanFacts(values[i]);
    }
    assert (forall c :: c in cells ==> Plain(c)) <==> (forall v :: v in values ==> Plain(v)) by {
      assert forall i :: 0 <= i < |values| ==> cells[i] in cells && values[i] in values;
    }
  }

  // ------------------------------------------------------------------- tables

  /** What the parser should give back: the cleaned header and the cleaned rows. */
  function CleanRows(rows: seq<seq<string>>): seq<seq<string>> {
    seq(|rows|, i requires 0 <= i < |rows| => CleanAll(rows[i]))
  }

  predicate Faithful(values: seq<string>) {
    values != [] && forall v :: v in values ==> Plain(v)
  }

  /** Parsing the printed lines gives the cleaned table back, cell for cell, exactly
      when every row, the header included, has a cell and no cell contains a bar.
      The unescaping comes too late: the split has already cut at the escaped bar,
      and a row without cells prints like a row with one empty cell. */
  lemma TableRoundTrip(headers: seq<string>, rows: seq<seq<string>>)
    ensures var lines := TableLines(headers, rows);
            (ParseRow(lines[0]) == CleanAll(headers) && ParseRows(lines[2..]) == CleanRows(rows))
            <==> (Faithful(headers) && forall row :: row in rows ==> Faithful(row))
  {
    var lines := TableLines(headers, rows);
    CleanRowRoundTrip(headers);
    assert lines[2..] == BodyLines(rows);
    forall i | 0 <= i < |rows|
      ensures ParseRows(lines[2..])[i] == CleanRows(rows)[i] <==> Faithful(rows[i])
    {
      CleanRowRoundTrip(rows[i]);
    }
    if ParseRows(lines[2..]) == CleanRows(rows) {
      forall row | row in rows ensures Faithful(row) {
        var i :| 0 <= i < |rows| && rows[i] == row;
        assert ParseRows(lines[2..])[i] == CleanRows(rows)[i];
      }
    }
    if forall row :: row in rows ==> Faithful(row) {
      forall i | 0 <= i < |rows| ensures ParseRows(lines[2..])[i] == CleanRows(rows)[i] {
        assert rows[i] in rows;
      }
    }
  }

  /** A bar in a cell: the reader sees two cells, the first with a stray backslash. */
  lemma BarSplitsCell()
    ensures CleanAll(["a|b"]) == ["a\\|b"]
    ensures ParseRow(Line(CleanAll(["a|b"]))) == ["a\\", "b"]
  {
    hide Clean, ParseRow, Split, Strip, Unescape, Line;
    CleanBar();
    assert CleanAll(["a|b"])[0] == "a\\|b";
    var cells := ["a\\|b"];
    ParsedCells(cells);
    assert Inner(cells) == " a\\" + "|" + "b ";
    SplitPlain(" a\\", "b ");
    SplitPlain("b ", "");
    StripBarParts();
    UnescapePlain("a\\");
    UnescapePlain("b");
    assert Split(Inner(cells)) == [" a\\", "b "];
  }

  lemma CleanBar()
    ensures Clean("a|b") == "a\\|b"
  {
    EscapeBar();
    assert Stripped("a\\|b") && '\n' !in "a\\|b";
    hide Clean, Escape, Stripped;
    CleanIs("a|b", "a\\|b");
  }

  lemma CleanIs(value: string, escaped: string)
    requires Escape(value) == escaped && '\n' !in escaped && Stripped(escaped)
    ensures Clean(value) == escaped
  {
    FlatPlain(escaped);
    AlreadyStripped(escaped);
  }

  lemma EscapeBar()
    ensures Escape("a|b") == "a\\|b"
  {
    assert "a|b"[1..] == "|b" && "|b"[1..] == "b" && "b"[1..] == "";
    assert Escape("b") == "b";
    assert Escape("|b") == "\\|b";
  }

  lemma {:induction false} FlatPlain(s: string)
    requires '\n' !in s
    ensures Flat(s) == s
  {
    if s != [] {
      assert s[0] in s && forall c :: c in s[1..] ==> c in s;
      FlatPlain(s[1..]);
    }
  }

  lemma AlreadyStripped(s: string)
    requires Stripped(s)
    ensures Strip(s) == s && StripLeft(s) == s && StripRight(s) == s
  {
    hide IsSpace;
  }

  lemma StripBarParts()
    ensures Strip(" a\\") == "a\\" && Strip("b ") == "b"
  {
    assert !IsSpace('a') && !IsSpace('b') && !IsSpace('\\') && IsSpace(' ');
    hide IsSpace;
    AlreadyStripped("a\\");
    AlreadyStripped("b");
    assert " a\\"[1..] == "a\\" && "b "[..1] == "b";
    assert StripLeft(" a\\") == StripLeft("a\\");
    assert StripLeft("b ") == "b " && StripRight("b ") == StripRight("b");
  }

  lemma {:induction false} SplitLinesRun(line: string, text: string, rest: string)
    requires NoBreaks(text)
    ensures SplitLinesFrom(line, text + rest) == SplitLinesFrom(line + text, rest)
    decreases |text|
  {
    if text == [] {
      assert text + rest == rest && line + text == line;
    } else {
      assert (text + rest)[1..] == text[1..] + rest;
      assert text[0] in text;
      SplitLinesRun(line + [text[0]], text[1..], rest);
      assert line + [text[0]] + text[1..] == line + text;
    }
  }

  /** Splitting joined lines gives them back. */
  lemma {:induction false} SplitJoinedLines(lines: seq<string>)
    requires forall l :: l in lines ==> NoBreaks(l) && l != []
    ensures SplitLines(Join("\n", lines)) == lines
  {
    if lines != [] {
      assert lines[0] in lines;
      if |lines| == 1 {
        SplitLinesRun([], lines[0], []);
        assert lines[0] + [] == lines[0] && [] + lines[0] == lines[0];
      } else {
        var rest := Join("\n", lines[1..]);
        SplitJoinedLines(lines[1..]);
        SplitLinesRun([], lines[0], "\n" + rest);
        assert lines[0] + "\n" + rest == lines[0] + ("\n" + rest);
        assert [] + lines[0] == lines[0];
        assert ("\n" + rest)[1..] == rest;
      }
    }
  }

  lemma {:induction false} JoinNoBreaks(cells: seq<string>)
    requires forall c :: c in cells ==> NoBreaks(c)
    ensures NoBreaks(Join(" | ", cells))
  {
    if |cells| > 1 {
      JoinNoBreaks(cells[1..]);
      assert cells[0] in cells;
    } else if |cells| == 1 {
      assert cells[0] in cells;
    }
  }

  lemma LineNoBreaks(cells: seq<string>)
    requires forall c :: c in cells ==> NoBreaks(c)
    ensures NoBreaks(Line(cells)) && Piped(Line(cells))
  {
    JoinNoBreaks(cells);
    assert Line(cells)[..1] == "|";
  }

  predicate Printable(values: seq<string>) {
    forall v :: v in values ==> NoOtherBreaks(v)
  }

  lemma CleanLineNoBreaks(values: seq<string>)
    requires Printable(values)
    ensures NoBreaks(Line(CleanAll(values))) && Piped(Line(CleanAll(values)))
  {
    forall c | c in CleanAll(values) ensures NoBreaks(c) {
      var i :| 0 <= i < |values| && CleanAll(values)[i] == c;
      assert values[i] in values;
      CleanFacts(values[i]);
    }
    LineNoBreaks(CleanAll(values));
  }

  lemma BodyLineNoBreaks(rows: seq<seq<string>>, i: nat)
    requires i < |rows| && forall row :: row in rows ==> Printable(row)
    ensures NoBreaks(BodyLines(rows)[i]) && Piped(BodyLines(rows)[i])
  {
    assert rows[i] in rows;
    CleanLineNoBreaks(rows[i]);
  }

  lemma TableLineNoBreaks(headers: seq<string>, rows: seq<seq<string>>, i: nat)
    requires Printable(headers) && i < |TableLines(headers, rows)| && forall row :: row in rows ==> Printable(row)
    ensures NoBreaks(TableLines(headers, rows)[i]) && Piped(TableLines(headers, rows)[i])
  {
    TableLineIs(headers, rows, i);
    hide *;
    if i == 0 {
      CleanLineNoBreaks(headers);
    } else if i == 1 {
      DashesNoBreaks(|headers|);
    } else {
      BodyLineNoBreaks(rows, i - 2);
    }
  }

  lemma TableLineIs(headers: seq<string>, rows: seq<seq<string>>, i: nat)
    requires i < |TableLines(headers, rows)|
    ensures |BodyLines(rows)| == |rows| && |TableLines(headers, rows)| == |rows| + 2
    ensures TableLines(headers, rows)[i]
         == if i == 0 then Line(CleanAll(headers))
            else if i == 1 then Line(Dashes(|headers|))
            else BodyLines(rows)[i - 2]
  {
    hide Line, CleanAll, Dashes;
  }

  lemma DashesNoBreaks(n: nat)
    ensures NoBreaks(Line(Dashes(n))) && Piped(Line(Dashes(n)))
  {
    LineNoBreaks(Dashes(n));
  }

  /** The printed text splits back into the printed lines, all of which the parser takes for table lines. */
  lemma TableSplits(headers: seq<string>, rows: seq<seq<string>>)
    requires Printable(headers) && forall row :: row in rows ==> Printable(row)
    ensures SplitLines(Table(headers, rows)) == TableLines(headers, rows)
    ensures forall l :: l in TableLines(headers, rows) ==> Piped(l)
  {
    hide TableLines, NoBreaks, SplitLines, Join, Printable;
    var lines := TableLines(headers, rows);
    forall i | 0 <= i < |lines| ensures NoBreaks(lines[i]) && Piped(lines[i]) && lines[i] != [] {
      TableLineNoBreaks(headers, rows, i);
    }
    assert forall l :: l in lines ==> NoBreaks(l) && Piped(l) && l != [];
    SplitJoinedLines(lines);
  }

  /** Printer and parser together: `_table`, embedded between other lines of a
      document, is read by the table branch as one table, and the result is the
      cleaned table exactly when the table is faithful. */
  method ReadBack(before: seq<string>, headers: seq<string>, rows: seq<seq<string>>, after: seq<string>)
    returns (parsedHeaders: seq<string>, parsedRows: seq<seq<string>>, next: nat)
    requires Printable(headers) && forall row :: row in rows ==> Printable(row)
    requires after != [] ==> !Piped(after[0])
    ensures next == |before| + |rows| + 2
    ensures (parsedHeaders == CleanAll(headers) && parsedRows == CleanRows(rows))
       <==> (Faithful(headers) && forall row :: row in rows ==> Faithful(row))
  {
    TableSplits(headers, rows);
    var table := SplitLines(Table(headers, rows));
    var lines := before + table + after;
    forall k | |before| <= k < |before| + |table| ensures Piped(lines[k]) {
      assert lines[k] == table[k - |before|] && table[k - |before|] in table;
    }
    parsedHeaders, parsedRows, next := ParseTable(lines, |before|);
    assert after != [] ==> lines[|before| + |table|] == after[0];
    assert lines[|before| + 2..next] == table[2..];
    TableRoundTrip(headers, rows);
  }
}

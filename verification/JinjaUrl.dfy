/** The URL compiler `convert_jinja_url` (scripts/migrate_confirm_buttons.py:92-131),
    which turns a URL template into an expression that concatenates its parts with `~`. */
module JinjaUrl {
  import opened Options
  import opened PyText

  // ------------------------------------------------- lexical structure of Jinja

  /** Where a reader stands inside an expression: how many brackets are open, and
      in which string literal, if any; `Broken` after a bracket closed too early. */
  datatype Lex = Lex(depth: nat, quote: Option<char>) | Broken

  const TOP := Lex(0, None)

  function Step(l: Lex, c: char): Lex {
    match l
    case Broken => Broken
    case Lex(depth, Some(q)) => if c == q then Lex(depth, None) else l
    case Lex(depth, None) =>
      if c == '\'' || c == '"' then Lex(depth, Some(c))
      else if c in "([{" then Lex(depth + 1, None)
      else if c in ")]}" then if depth == 0 then Broken else Lex(depth - 1, None)
      else l
  }

  function Scan(l: Lex, s: string): Lex
    decreases |s|
  {
    if s == [] then l else Scan(Step(l, s[0]), s[1..])
  }

  /** Brackets and quotes match. */
  predicate Balanced(s: string) {
    Scan(TOP, s) == TOP
  }

  /** The pieces of `s` between the tildes outside brackets and strings. */
  function Operands(l: Lex, s: string): (r: seq<string>)
    ensures |r| >= 1
    ensures forall i :: 0 <= i < |r| ==> |r[i]| <= |s|
    decreases |s|
  {
    if s == [] then [[]]
    else
      var rest := Operands(Step(l, s[0]), s[1..]);
      if l == TOP && s[0] == '~' then [[]] + rest
      else [[s[0]] + rest[0]] + rest[1..]
  }

  /** The same without the white space around them. */
  function OperandsOf(s: string): (r: seq<string>)
    ensures |r| >= 1 && forall o :: o in r ==> |o| <= |s|
  {
    StripAll(Operands(TOP, s))
  }

  /** A double-quoted literal without escapes. */
  predicate IsLiteral(s: string) {
    |s| >= 2 && s[0] == '"' && s[|s| - 1] == '"' && Unquoted(s[1..|s| - 1])
  }

  predicate Unquoted(s: string) {
    '"' !in s && '\\' !in s
  }

  /** One pair of parentheses around everything. */
  predicate IsWrapped(s: string) {
    |s| >= 2 && s[0] == '(' && s[|s| - 1] == ')' && Balanced(s)
    && forall k {:trigger s[..k]} :: 0 < k < |s| ==> Scan(TOP, s[..k]) != TOP
  }

  // ------------------------------------------------------------------- meaning

  /** An environment: the rendered value of each expression that is neither a
      literal, nor parenthesized, nor a concatenation; and which of them bind
      tighter than `~`, so that they can stand as its operands unparenthesized. */
  datatype Jinja = Jinja(value: string -> string, tight: string -> bool)

  predicate IsOperand(s: string, tight: string -> bool) {
    IsLiteral(s) || IsWrapped(s) || tight(s)
  }

  /** The rendered value of an expression. */
  function Meaning(text: string, j: Jinja): string
    decreases |text|, 2, 0
  {
    StripShortens(text);
    var t := Strip(text);
    var operands := OperandsOf(t);
    if |operands| >= 2 && forall o :: o in operands ==> IsOperand(o, j.tight)
    then Concatenation(operands, |t|, j)
    else AtomMeaning(t, j)
  }

  function Concatenation(operands: seq<string>, bound: nat, j: Jinja): string
    requires forall o :: o in operands ==> |o| <= bound
    decreases bound, 1, |operands|
  {
    if operands == [] then [] else AtomMeaning(operands[0], j) + Concatenation(operands[1..], bound, j)
  }

  function AtomMeaning(s: string, j: Jinja): string
    decreases |s|, 0, 0
  {
    if IsLiteral(s) then s[1..|s| - 1]
    else if IsWrapped(s) then Meaning(s[1..|s| - 1], j)
    else j.value(s)
  }

  function StripAll(ss: seq<string>): (r: seq<string>)
    ensures |r| == |ss| && forall i :: 0 <= i < |r| ==> r[i] == Strip(ss[i]) && |r[i]| <= |ss[i]|
  {
    if ss == [] then []
    else
      StripShortens(ss[0]);
      [Strip(ss[0])] + StripAll(ss[1..])
  }

  lemma {:induction false} StripShortens(s: string)
    ensures |Strip(s)| <= |s|
  {
    StripLeftShortens(s);
    StripRightShortens(StripLeft(s));
  }

  lemma {:induction false} StripLeftShortens(s: string)
    ensures |StripLeft(s)| <= |s|
  {
    if s != [] && IsSpace(s[0]) {
      StripLeftShortens(s[1..]);
    }
  }

  lemma {:induction false} StripRightShortens(s: string)
    ensures |StripRight(s)| <= |s|
  {
    if s != [] && IsSpace(s[|s| - 1]) {
      StripRightShortens(s[..|s| - 1]);
    }
  }

  predicate PairAt(s: string, pair: string, i: nat) {
    i + 2 <= |s| && s[i..i + 2] == pair
  }

  /** The first place from `i` on where `s` reads `pair`, or the end of `s`. */
  function Find(s: string, pair: string, i: nat): (r: nat)
    requires i <= |s|
    ensures i <= r <= |s| && (r < |s| ==> PairAt(s, pair, r))
    ensures forall k: nat :: i <= k < r ==> !PairAt(s, pair, k)
    decreases |s| - i
  {
    if i == |s| then i
    else if PairAt(s, pair, i) then i
    else Find(s, pair, i + 1)
  }

  /** Rendering a template from `i` on: text is copied, `{{ e }}` becomes the value of `e`. */
  function Render(url: string, i: nat, j: Jinja): string
    requires i <= |url|
    decreases |url| - i
  {
    var open := Find(url, "{{", i);
    if open == |url| then url[i..]
    else
      var close := Find(url, "}}", open + 2);
      if close == |url| then url[i..]
      else url[i..open] + Meaning(url[open + 2..close], j) + Render(url, close + 2, j)
  }

  /** The templates in scope: no double quotes, backslashes, block tags or comments;
      every `{{` is closed; every expression is there, without whitespace control, with
      matching brackets, and not with two braces in a row if it is broken into lines. */
  predicate WellFormed(url: string) {
    Unquoted(url) && Find(url, "{%", 0) == |url| && Find(url, "{#", 0) == |url| && ExpressionsOk(url, 0)
  }

  predicate ExpressionsOk(url: string, i: nat)
    requires i <= |url|
    decreases |url| - i
  {
    var open := Find(url, "{{", i);
    open == |url|
    || var close := Find(url, "}}", open + 2);
       close < |url| && ExpressionOk(url[open + 2..close]) && ExpressionsOk(url, close + 2)
  }

  predicate ExpressionOk(body: string) {
    var e := Strip(body);
    && e != [] && Balanced(e)
    && body[0] !in "-+" && body[|body| - 1] !in "-+"
    && (LineBroken(body) ==> body[0] != '{' && Find(body, "{{", 0) == |body|)
  }

  /** There is a line break within the expression. */
  predicate LineBroken(body: string) {
    '\n' in Strip(body)
  }

  /** No expression has a line break within. */
  predicate OneLine(url: string, i: nat)
    requires i <= |url|
    decreases |url| - i
  {
    var open := Find(url, "{{", i);
    open == |url|
    || var close := Find(url, "}}", open + 2);
       close == |url| || (!LineBroken(url[open + 2..close]) && OneLine(url, close + 2))
  }

  // ------------------------------------------------------------- the compiler

  /** One match of `\{\{\s*(.+?)\s*\}\}`: where it starts, its group, and where it ends. */
  datatype Match = Match(start: nat, group: string, end: nat)

  /** The end of the white space that starts at `p`. */
  function SpaceEnd(s: string, p: nat): (r: nat)
    requires p <= |s|
    ensures p <= r <= |s| && (forall k :: p <= k < r ==> IsSpace(s[k])) && (r < |s| ==> !IsSpace(s[r]))
    decreases |s| - p
  {
    if p < |s| && IsSpace(s[p]) then SpaceEnd(s, p + 1) else p
  }

  /** The lazy group from `a`: the least end `b` or later such that the group has no
      newline and is followed by white space and `}}`. */
  function LazyEnd(s: string, a: nat, b: nat): (r: Option<nat>)
    requires a < b <= |s|
    ensures r.Some? ==> b <= r.value <= |s| && PairAt(s, "}}", SpaceEnd(s, r.value))
    decreases |s| - b
  {
    if s[b - 1] == '\n' then None
    else if PairAt(s, "}}", SpaceEnd(s, b)) then Some(b)
    else if b < |s| then LazyEnd(s, a, b + 1)
    else None
  }

  /** The group may start at `a` after the greedy white space, or, backtracking, earlier but not before `p`. */
  function GroupAt(s: string, i: nat, p: nat, a: nat): (r: Option<Match>)
    requires i < p <= a <= |s|
    ensures r.Some? ==> r.value.start == i < r.value.end <= |s|
    decreases a
  {
    var b := if a < |s| then LazyEnd(s, a, a + 1) else None;
    if b.Some? then Some(Match(i, s[a..b.value], SpaceEnd(s, b.value) + 2))
    else if a > p then GroupAt(s, i, p, a - 1)
    else None
  }

  /** The pattern matched at `i`. */
  function MatchAt(s: string, i: nat): (r: Option<Match>)
    ensures r.Some? ==> r.value.start == i < r.value.end <= |s| && PairAt(s, "{{", i)
  {
    if PairAt(s, "{{", i) then GroupAt(s, i, i + 2, SpaceEnd(s, i + 2)) else None
  }

  /** The leftmost match from `i` on. */
  function NextMatch(s: string, i: nat): (r: Option<Match>)
    requires i <= |s|
    ensures r.Some? ==> i <= r.value.start < r.value.end <= |s|
    decreases |s| - i
  {
    if MatchAt(s, i).Some? then MatchAt(s, i)
    else if i < |s| then NextMatch(s, i + 1)
    else None
  }

  /** `finditer` from `i` on. */
  function Matches(s: string, i: nat): seq<Match>
    requires i <= |s|
    decreases |s| - i
  {
    var m := NextMatch(s, i);
    if m.None? then [] else [m.value] + Matches(s, m.value.end)
  }

  function Literal(s: string): string {
    "\"" + s + "\""
  }

  /** Lines 113-114 and 127-129. */
  function StaticPart(s: string): seq<string> {
    if s == "" then [] else [Literal(s)]
  }

  /** Lines 117-122. */
  function ExpressionPart(group: string): string {
    var e := Strip(group);
    if ' ' in e then "(" + e + ")" else e
  }

  /** The matches lie one after the other in `url[lastEnd..]`. */
  predicate InOrder(url: string, lastEnd: nat, matches: seq<Match>)
    decreases |matches|
  {
    if matches == [] then lastEnd <= |url|
    else lastEnd <= matches[0].start < matches[0].end && InOrder(url, matches[0].end, matches[1..])
  }

  lemma {:induction false} InOrderBound(url: string, lastEnd: nat, matches: seq<Match>)
    requires InOrder(url, lastEnd, matches)
    ensures lastEnd <= |url| && (matches != [] ==> matches[0].end <= |url|)
    decreases |matches|
  {
    if matches != [] {
      InOrderBound(url, matches[0].end, matches[1..]);
    }
  }

  lemma {:induction false} MatchesInOrder(url: string, i: nat)
    requires i <= |url|
    ensures InOrder(url, i, Matches(url, i))
    decreases |url| - i
  {
    var m := NextMatch(url, i);
    if m.Some? {
      MatchesInOrder(url, m.value.end);
    }
  }

  /** The parts that the loop of lines 110-124 and the rest after it append. */
  function Parts(url: string, lastEnd: nat, matches: seq<Match>): seq<string>
    requires InOrder(url, lastEnd, matches)
    decreases |matches|
  {
    InOrderBound(url, lastEnd, matches);
    if matches == [] then StaticPart(url[lastEnd..])
    else StaticPart(url[lastEnd..matches[0].start]) + [ExpressionPart(matches[0].group)]
         + Parts(url, matches[0].end, matches[1..])
  }

  function Join(sep: string, parts: seq<string>): string {
    if parts == [] then []
    else if |parts| == 1 then parts[0]
    else parts[0] + sep + Join(sep, parts[1..])
  }

  /** `convert_jinja_url`. */
  function Convert(url: string): string {
    MatchesInOrder(url, 0);
    if Matches(url, 0) == [] then Literal(url) else Join(" ~ ", Parts(url, 0, Matches(url, 0)))
  }

  lemma PartsStep(url: string, lastEnd: nat, matches: seq<Match>, k: nat)
    requires k < |matches| && InOrder(url, lastEnd, matches[k..])
    ensures lastEnd <= matches[k].start < matches[k].end <= |url| && InOrder(url, matches[k].end, matches[k + 1..])
    ensures Parts(url, lastEnd, matches[k..])
         == StaticPart(url[lastEnd..matches[k].start]) + [ExpressionPart(matches[k].group)]
            + Parts(url, matches[k].end, matches[k + 1..])
  {
    InOrderBound(url, lastEnd, matches[k..]);
    assert matches[k..][0] == matches[k] && matches[k..][1..] == matches[k + 1..];
  }

  /** The loop itself. */
  method ConvertJinjaUrl(url: string) returns (expression: string)
    ensures expression == Convert(url)
  {
    var matches := Matches(url, 0);
    if matches == [] {
      return "\"" + url + "\"";
    }
    MatchesInOrder(url, 0);
    var parts: seq<string> := [];
    var lastEnd: nat := 0;
    assert matches[0..] == matches;
    assert matches != [] ==> Convert(url) == Join(" ~ ", Parts(url, 0, matches));
    hide Matches, InOrder, Parts, Join, Strip, Convert;
    for k := 0 to |matches|
      invariant InOrder(url, lastEnd, matches[k..])
      invariant parts + Parts(url, lastEnd, matches[k..]) == Parts(url, 0, matches)
    {
      var m := matches[k];
      PartsStep(url, lastEnd, matches, k);
      var staticBefore := url[lastEnd..m.start];
      ghost var rest := Parts(url, m.end, matches[k + 1..]);
      assert parts + (StaticPart(staticBefore) + [ExpressionPart(m.group)] + rest)
          == parts + StaticPart(staticBefore) + [ExpressionPart(m.group)] + rest;
      parts := AppendStatic(parts, staticBefore);
      var expr := Strip(m.group);
      if ' ' in expr {
        parts := parts + ["(" + expr + ")"];
      } else {
        parts := parts + [expr];
      }
      lastEnd := m.end;
    }
    assert matches[|matches|..] == [];
    PartsEnd(url, lastEnd);
    parts := AppendStatic(parts, url[lastEnd..]);
    expression := Join(" ~ ", parts);
  }

  /** Lines 113-114 and 128-129. */
  method AppendStatic(parts: seq<string>, text: string) returns (longer: seq<string>)
    ensures longer == parts + StaticPart(text)
  {
    longer := parts;
    if text != "" {
      longer := longer + ["\"" + text + "\""];
    }
  }

  lemma PartsEnd(url: string, lastEnd: nat)
    requires InOrder(url, lastEnd, [])
    ensures lastEnd <= |url| && Parts(url, lastEnd, []) == StaticPart(url[lastEnd..])
  {
  }

  /** The text of a match in the template is its group with what surrounds it, so
      the static slices and the matches cover the whole URL. */
  function Covered(url: string, lastEnd: nat, matches: seq<Match>): string
    requires InOrder(url, lastEnd, matches)
    decreases |matches|
  {
    InOrderBound(url, lastEnd, matches);
    if matches == [] then url[lastEnd..]
    else url[lastEnd..matches[0].start] + url[matches[0].start..matches[0].end]
         + Covered(url, matches[0].end, matches[1..])
  }

  lemma {:induction false} SlicesCover(url: string, lastEnd: nat, matches: seq<Match>)
    requires InOrder(url, lastEnd, matches)
    ensures lastEnd <= |url| && Covered(url, lastEnd, matches) == url[lastEnd..]
    decreases |matches|
  {
    InOrderBound(url, lastEnd, matches);
    if matches != [] {
      SlicesCover(url, matches[0].end, matches[1..]);
      ThreeSlices(url, lastEnd, matches[0].start, matches[0].end);
    }
  }

  lemma ThreeSlices(s: string, a: nat, b: nat, c: nat)
    requires a <= b <= c <= |s|
    ensures s[a..b] + s[b..c] + s[c..] == s[a..]
  {
  }
}

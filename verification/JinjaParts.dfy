/** Reading a compiled URL back: what its joined parts are operands of, and what they
    mean (scripts/migrate_confirm_buttons.py:109-131). */
module JinjaParts {
  import opened Options
  import opened PyText
  import opened JinjaUrl

  // --------------------------------------------------- reading the parts back

  /** No tilde outside brackets and strings. */
  predicate NoTopTilde(l: Lex, s: string)
    decreases |s|
  {
    s == [] || (!(l == TOP && s[0] == '~') && NoTopTilde(Step(l, s[0]), s[1..]))
  }

  lemma {:induction false} ScanAppend(l: Lex, s: string, t: string)
    ensures Scan(l, s + t) == Scan(Scan(l, s), t)
    decreases |s|
  {
    if s == [] {
      assert s + t == t;
    } else {
      assert (s + t)[1..] == s[1..] + t;
      ScanAppend(Step(l, s[0]), s[1..], t);
    }
  }

  lemma {:induction false} NoTopTildeAppend(l: Lex, s: string, t: string)
    ensures NoTopTilde(l, s + t) <==> NoTopTilde(l, s) && NoTopTilde(Scan(l, s), t)
    decreases |s|
  {
    if s == [] {
      assert s + t == t;
    } else {
      assert (s + t)[1..] == s[1..] + t;
      NoTopTildeAppend(Step(l, s[0]), s[1..], t);
    }
  }

  lemma {:induction false} OperandsCount(l: Lex, s: string)
    ensures |Operands(l, s)| == 1 <==> NoTopTilde(l, s)
    ensures NoTopTilde(l, s) ==> Operands(l, s) == [s]
    decreases |s|
  {
    if s != [] {
      OperandsCount(Step(l, s[0]), s[1..]);
      assert [s[0]] + s[1..] == s;
    }
  }

  lemma {:induction false} OperandsSplit(l: Lex, s: string, t: string)
    requires Scan(l, s) == TOP
    ensures Operands(l, s + "~" + t) == Operands(l, s) + Operands(TOP, t)
    decreases |s|
  {
    if s == [] {
      assert (s + "~" + t)[1..] == t;
    } else {
      assert (s + "~" + t)[1..] == s[1..] + "~" + t;
      hide Step;
      OperandsSplit(Step(l, s[0]), s[1..], t);
      BehindFirst(s[0], Operands(Step(l, s[0]), s[1..]), Operands(TOP, t));
    }
  }

  lemma BehindFirst(c: char, r: seq<string>, t: seq<string>)
    requires r != []
    ensures [[]] + (r + t) == ([[]] + r) + t
    ensures [[c] + (r + t)[0]] + (r + t)[1..] == ([[c] + r[0]] + r[1..]) + t
  {
  }

  lemma {:induction false} OperandsTrail(l: Lex, s: string)
    requires Scan(l, s) == TOP
    ensures var r, n := Operands(l, s), |Operands(l, s)| - 1; Operands(l, s + " ") == r[..n] + [r[n] + " "]
    decreases |s|
  {
    if s == [] {
      assert s == "";
      OneSpace(l);
    } else {
      assert (s + " ")[1..] == s[1..] + " ";
      OperandsTrail(Step(l, s[0]), s[1..]);
      TrailBehind(s[0], Operands(Step(l, s[0]), s[1..]), Operands(Step(l, s[0]), s[1..] + " "));
    }
  }

  lemma OneSpace(l: Lex)
    ensures var r := Operands(l, ""); |r| == 1 && Operands(l, "" + " ") == r[..0] + [r[0] + " "]
  {
    assert "" + " " == " " && " "[1..] == "";
    assert Operands(Step(l, ' '), "") == [""];
    assert [' '] + "" == " " && "" + " " == " " && [""][1..] == [] && [""][..0] == [];
  }

  lemma TrailBehind(c: char, r: seq<string>, r': seq<string>)
    requires r != [] && r' == r[..|r| - 1] + [r[|r| - 1] + " "]
    ensures var q, q' := [[]] + r, [[]] + r'; q' == q[..|q| - 1] + [q[|q| - 1] + " "]
    ensures var q, q' := [[c] + r[0]] + r[1..], [[c] + r'[0]] + r'[1..]; q' == q[..|q| - 1] + [q[|q| - 1] + " "]
  {
    if |r| == 1 {
      assert [c] + (r[0] + " ") == ([c] + r[0]) + " ";
    }
  }

  lemma {:induction false} StripTrail(s: string)
    ensures Strip(s + " ") == Strip(s)
  {
    assert IsSpace(' ');
    hide IsSpace;
    if s == [] {
      assert s + " " == " " && StripLeft(" ") == StripLeft(" "[1..]);
    } else if IsSpace(s[0]) {
      assert (s + " ")[1..] == s[1..] + " ";
      StripTrail(s[1..]);
    } else {
      assert (s + " ")[..|s|] == s;
    }
  }

  lemma StripLead(s: string)
    ensures Strip(" " + s) == Strip(s)
  {
    assert IsSpace(' ') && (" " + s)[1..] == s;
    hide IsSpace;
    assert StripLeft(" " + s) == StripLeft(s);
  }

  lemma {:induction false} StripAllAppend(a: seq<string>, b: seq<string>)
    ensures StripAll(a + b) == StripAll(a) + StripAll(b)
  {
    hide Strip;
    if a == [] {
      assert a + b == b;
    } else {
      assert (a + b)[1..] == a[1..] + b;
      StripAllAppend(a[1..], b);
    }
  }

  /** A text that can be a part: whole, and without white space around it. */
  predicate PartOk(s: string) {
    s != [] && Balanced(s) && !IsSpace(s[0]) && !IsSpace(s[|s| - 1])
  }

  lemma StripPart(lead: string, s: string, trail: string)
    requires s != [] && !IsSpace(s[0]) && !IsSpace(s[|s| - 1])
    requires lead in {"", " "} && trail in {"", " "}
    ensures Strip(lead + s + trail) == s
  {
    var t := lead + s + trail;
    if lead == "" {
      assert t == s + trail;
    } else {
      assert t[1..] == s + trail;
      assert StripLeft(t) == StripLeft(t[1..]);
    }
    assert StripLeft(t) == s + trail;
    assert StripRight(s) == s;
    if trail == "" {
      assert s + trail == s;
    } else {
      assert (s + trail)[..|s|] == s && IsSpace((s + trail)[|s|]);
      assert StripRight(s + trail) == StripRight(s);
    }
  }

  lemma LeadingSpace(p: string)
    ensures Scan(TOP, " " + p) == Scan(TOP, p) && OperandsOf(" " + p) == OperandsOf(p)
  {
    var r := Operands(TOP, p);
    assert (" " + p)[1..] == p && Step(TOP, ' ') == TOP;
    assert Operands(TOP, " " + p) == [" " + r[0]] + r[1..];
    assert r == [r[0]] + r[1..];
    hide Operands, Strip;
    StripAllAppend([" " + r[0]], r[1..]);
    StripAllAppend([r[0]], r[1..]);
    StripLead(r[0]);
    assert StripAll([r[0]]) == StripAll([" " + r[0]]) by {
      assert StripAll([r[0]])[0] == StripAll([" " + r[0]])[0];
    }
  }

  lemma TrailingSpace(p: string)
    requires Balanced(p)
    ensures Balanced(p + " ") && OperandsOf(p + " ") == OperandsOf(p)
  {
    var r, n := Operands(TOP, p), |Operands(TOP, p)| - 1;
    ScanAppend(TOP, p, " ");
    assert " "[1..] == "" && Step(TOP, ' ') == TOP && Scan(TOP, " ") == Scan(TOP, "");
    OperandsTrail(TOP, p);
    assert r == r[..n] + [r[n]];
    hide Operands, Strip;
    StripAllAppend(r[..n], [r[n] + " "]);
    StripAllAppend(r[..n], [r[n]]);
    StripTrail(r[n]);
    assert StripAll([r[n]]) == StripAll([r[n] + " "]) by {
      assert StripAll([r[n]])[0] == StripAll([r[n] + " "])[0];
    }
  }

  /** The operands of the parts, one part after the other. */
  function Flat(parts: seq<string>): seq<string> {
    if parts == [] then [] else OperandsOf(parts[0]) + Flat(parts[1..])
  }

  /** Splitting the joined parts at the tildes gives their operands back. */
  lemma {:induction false} OperandsOfJoin(parts: seq<string>)
    requires parts != [] && forall p :: p in parts ==> PartOk(p)
    ensures OperandsOf(Join(" ~ ", parts)) == Flat(parts)
    decreases |parts|
  {
    hide PartOk, Operands, Scan, OperandsOf;
    var p, rest := parts[0], parts[1..];
    assert p in parts;
    if |parts| == 1 {
      assert Flat(rest) == [];
    } else {
      OperandsOfJoin(rest);
      var tail := Join(" ~ ", rest);
      assert Join(" ~ ", parts) == (p + " ") + "~" + (" " + tail);
      assert Balanced(p) by {
        PartBalanced(p);
      }
      TrailingSpace(p);
      LeadingSpace(tail);
      SplitOperands(p + " ", " " + tail);
    }
  }

  lemma PartBalanced(p: string)
    requires PartOk(p)
    ensures Balanced(p)
  {
  }

  lemma SplitOperands(s: string, t: string)
    requires Balanced(s)
    ensures OperandsOf(s + "~" + t) == OperandsOf(s) + OperandsOf(t)
  {
    OperandsSplit(TOP, s, t);
    StripAllAppend(Operands(TOP, s), Operands(TOP, t));
  }

  lemma {:induction false} JoinEnds(parts: seq<string>)
    requires parts != [] && forall p :: p in parts ==> PartOk(p)
    ensures var s := Join(" ~ ", parts); s != [] && !IsSpace(s[0]) && !IsSpace(s[|s| - 1])
  {
    assert parts[0] in parts;
    if |parts| > 1 {
      JoinEnds(parts[1..]);
    }
  }

  /** Everything between the tildes of `p` can stand there. */
  predicate OnlyOperands(p: string, tight: string -> bool) {
    forall o :: o in OperandsOf(p) ==> IsOperand(o, tight)
  }

  /** The concatenation of what the parts mean. */
  function Meanings(parts: seq<string>, j: Jinja): string {
    if parts == [] then [] else Meaning(parts[0], j) + Meanings(parts[1..], j)
  }

  function AtomMeanings(operands: seq<string>, j: Jinja): string {
    if operands == [] then [] else AtomMeaning(operands[0], j) + AtomMeanings(operands[1..], j)
  }

  lemma {:induction false} ConcatenationIs(operands: seq<string>, bound: nat, j: Jinja)
    requires forall o :: o in operands ==> |o| <= bound
    ensures Concatenation(operands, bound, j) == AtomMeanings(operands, j)
    decreases |operands|
  {
    hide AtomMeaning;
    if operands != [] {
      ConcatenationIs(operands[1..], bound, j);
    }
  }

  lemma {:induction false} AtomMeaningsAppend(a: seq<string>, b: seq<string>, j: Jinja)
    ensures AtomMeanings(a + b, j) == AtomMeanings(a, j) + AtomMeanings(b, j)
  {
    hide AtomMeaning;
    if a == [] {
      assert a + b == b;
    } else {
      assert (a + b)[1..] == a[1..] + b;
      AtomMeaningsAppend(a[1..], b, j);
    }
  }

  lemma {:induction false} MeaningsAppend(a: seq<string>, b: seq<string>, j: Jinja)
    ensures Meanings(a + b, j) == Meanings(a, j) + Meanings(b, j)
  {
    hide Meaning;
    if a == [] {
      assert a + b == b;
    } else {
      assert (a + b)[1..] == a[1..] + b;
      MeaningsAppend(a[1..], b, j);
    }
  }

  lemma StripOk(p: string)
    requires p != [] && !IsSpace(p[0]) && !IsSpace(p[|p| - 1])
    ensures Strip(p) == p
  {
    StripPart("", p, "");
    assert "" + p + "" == p && "" + p == p;
  }

  /** What a text without white space around it means, in terms of its operands. */
  lemma MeaningIs(p: string, j: Jinja)
    requires p != [] && !IsSpace(p[0]) && !IsSpace(p[|p| - 1])
    ensures Meaning(p, j) == if |OperandsOf(p)| >= 2 && OnlyOperands(p, j.tight)
                             then AtomMeanings(OperandsOf(p), j)
                             else AtomMeaning(p, j)
    ensures |OperandsOf(p)| == 1 ==> OperandsOf(p) == [p]
  {
    StripOk(p);
    OperandsCount(TOP, p);
    assert |OperandsOf(p)| == 1 ==> StripAll([p])[0] == p;
    hide Operands, Strip, AtomMeaning, IsOperand;
    ConcatenationIs(OperandsOf(p), |p|, j);
  }

  lemma OperandsMean(p: string, j: Jinja)
    requires PartOk(p) && OnlyOperands(p, j.tight)
    ensures Meaning(p, j) == AtomMeanings(OperandsOf(p), j)
  {
    MeaningIs(p, j);
    hide Meaning, AtomMeaning, OnlyOperands, OperandsOf;
    if |OperandsOf(p)| == 1 {
      assert [p][1..] == [] && AtomMeanings([p], j) == AtomMeaning(p, j) + AtomMeanings([], j);
    }
  }

  lemma {:induction false} FlatMeans(parts: seq<string>, j: Jinja)
    requires forall p :: p in parts ==> PartOk(p) && OnlyOperands(p, j.tight)
    ensures AtomMeanings(Flat(parts), j) == Meanings(parts, j)
  {
    hide Meaning, AtomMeaning, OnlyOperands, OperandsOf, PartOk;
    if parts != [] {
      OperandsMean(parts[0], j);
      AtomMeaningsAppend(OperandsOf(parts[0]), Flat(parts[1..]), j);
      FlatMeans(parts[1..], j);
    }
  }

  lemma {:induction false} FlatMembers(parts: seq<string>, o: string)
    ensures |Flat(parts)| >= |parts|
    ensures o in Flat(parts) <==> exists p :: p in parts && o in OperandsOf(p)
  {
    hide OperandsOf;
    if parts != [] {
      FlatMembers(parts[1..], o);
      assert parts == [parts[0]] + parts[1..];
      assert parts[0] in parts && forall p :: p in parts[1..] ==> p in parts;
      if p :| p in parts && o in OperandsOf(p) {
        assert p == parts[0] || p in parts[1..];
      }
    }
  }

  lemma JoinOperands(parts: seq<string>, tight: string -> bool)
    requires |parts| >= 2 && forall p :: p in parts ==> PartOk(p)
    ensures |OperandsOf(Join(" ~ ", parts))| >= 2
    ensures OnlyOperands(Join(" ~ ", parts), tight) <==> forall p :: p in parts ==> OnlyOperands(p, tight)
  {
    OperandsOfJoin(parts);
    FlatMembers(parts, "");
    hide OperandsOf, IsOperand, PartOk;
    forall o ensures o in Flat(parts) <==> exists p :: p in parts && o in OperandsOf(p) {
      FlatMembers(parts, o);
    }
  }

  /** The meaning of the joined parts is the concatenation of their meanings, if they are operands. */
  lemma MeaningOfJoin(parts: seq<string>, j: Jinja)
    requires parts != [] && forall p :: p in parts ==> PartOk(p)
    requires |parts| == 1 || forall p :: p in parts ==> OnlyOperands(p, j.tight)
    ensures Meaning(Join(" ~ ", parts), j) == Meanings(parts, j)
  {
    hide Meaning, AtomMeaning, OnlyOperands, OperandsOf, PartOk, IsSpace;
    if |parts| == 1 {
      assert parts == [parts[0]] && Meanings(parts[1..], j) == [];
    } else {
      JoinEnds(parts);
      MeaningIs(Join(" ~ ", parts), j);
      JoinOperands(parts, j.tight);
      OperandsOfJoin(parts);
      FlatMeans(parts, j);
    }
  }

  /** With a part that is no operand the whole text is one expression of unknown value. */
  lemma JoinIsAtom(parts: seq<string>, j: Jinja, loose: string)
    requires |parts| >= 2 && (forall p :: p in parts ==> PartOk(p)) && loose in parts && !OnlyOperands(loose, j.tight)
    ensures Meaning(Join(" ~ ", parts), j) == j.value(Join(" ~ ", parts))
  {
    var t := Join(" ~ ", parts);
    JoinEnds(parts);
    hide Meaning, OnlyOperands, IsLiteral, IsWrapped, PartOk, IsSpace, Join;
    MeaningIs(t, j);
    JoinOperands(parts, j.tight);
    assert |Operands(TOP, t)| >= 2;
    hide OperandsOf, Operands;
    ManyOperandsNotClosed(t);
  }

  lemma TildeNotWrapped(t: string)
    requires !NoTopTilde(TOP, t)
    ensures !IsWrapped(t)
  {
    var i := TopTilde(TOP, t);
    assert i == 0 || Scan(TOP, t[..i]) == TOP;
  }

  /** Neither a literal nor a text in one pair of parentheses has a tilde outside. */
  lemma ManyOperandsNotClosed(t: string)
    requires |Operands(TOP, t)| >= 2
    ensures !IsLiteral(t) && !IsWrapped(t)
  {
    OperandsCount(TOP, t);
    hide Operands, IsWrapped, IsLiteral, NoTopTilde;
    TildeNotWrapped(t);
    if IsLiteral(t) {
      LiteralHasNoTilde(t);
    }
  }

  lemma LiteralHasNoTilde(t: string)
    requires IsLiteral(t)
    ensures NoTopTilde(TOP, t)
  {
    hide NoTopTilde;
    LiteralShape(t[1..|t| - 1]);
    assert t == Literal(t[1..|t| - 1]);
  }

  lemma {:induction false} TopTilde(l: Lex, s: string) returns (i: nat)
    requires !NoTopTilde(l, s)
    ensures i < |s| && s[i] == '~' && Scan(l, s[..i]) == TOP
    decreases |s|
  {
    if l == TOP && s[0] == '~' {
      i := 0;
    } else {
      i := TopTilde(Step(l, s[0]), s[1..]);
      i := i + 1;
      assert s[..i][1..] == s[1..][..i - 1];
    }
  }

  // ------------------------------------------------------ the three kinds of part

  lemma {:induction false} InsideQuotes(depth: nat, s: string)
    requires '"' !in s
    ensures var l := Lex(depth, Some('"')); Scan(l, s) == l && NoTopTilde(l, s)
  {
    if s != [] {
      assert s[0] in s && forall c :: c in s[1..] ==> c in s;
      InsideQuotes(depth, s[1..]);
    }
  }

  lemma LiteralShape(s: string)
    requires Unquoted(s)
    ensures var p := Literal(s); p[1..|p| - 1] == s && IsLiteral(p) && PartOk(p) && NoTopTilde(TOP, p)
  {
    var p, inside := Literal(s), Lex(0, Some('"'));
    assert p[1..] == s + "\"" && p[1..|p| - 1] == s && !IsSpace('"');
    hide IsSpace, Unquoted;
    InsideQuotes(0, s);
    ScanAppend(inside, s, "\"");
    NoTopTildeAppend(inside, s, "\"");
    assert Step(TOP, '"') == inside && Step(inside, '"') == TOP;
    assert "\""[1..] == "";
    assert Scan(inside, "\"") == Scan(TOP, "") && NoTopTilde(inside, "\"");
  }

  lemma LiteralPart(s: string, j: Jinja)
    requires Unquoted(s)
    ensures PartOk(Literal(s)) && OnlyOperands(Literal(s), j.tight) && Meaning(Literal(s), j) == s
  {
    hide PartOk, NoTopTilde, OperandsOf, Meaning, IsLiteral;
    LiteralShape(s);
    OneOperandMeans(Literal(s), j);
  }

  /** A text without tildes outside brackets and strings. */
  lemma OneOperandMeans(p: string, j: Jinja)
    requires PartOk(p) && NoTopTilde(TOP, p)
    ensures OperandsOf(p) == [p] && Meaning(p, j) == AtomMeaning(p, j)
  {
    OperandsCount(TOP, p);
    assert |OperandsOf(p)| == 1;
    hide OperandsOf, Meaning, AtomMeaning;
    MeaningIs(p, j);
  }

  /** Scanning deeper inside brackets goes the same way. */
  lemma {:induction false} ScanDeeper(depth: nat, quote: Option<char>, s: string)
    requires Scan(Lex(depth, quote), s) != Broken
    ensures var l := Scan(Lex(depth, quote), s);
            Scan(Lex(depth + 1, quote), s) == Lex(l.depth + 1, l.quote)
    ensures NoTopTilde(Lex(depth + 1, quote), s)
    decreases |s|
  {
    if s != [] {
      var l := Step(Lex(depth, quote), s[0]);
      if l == Broken {
        BrokenStays(s[1..]);
      } else {
        ScanDeeper(l.depth, l.quote, s[1..]);
      }
    }
  }

  lemma {:induction false} BrokenStays(s: string)
    ensures Scan(Broken, s) == Broken
  {
    if s != [] {
      BrokenStays(s[1..]);
    }
  }

  lemma WrappedShape(e: string)
    requires Balanced(e)
    ensures var p := "(" + e + ")"; p[1..|p| - 1] == e && IsWrapped(p) && PartOk(p) && NoTopTilde(TOP, p)
  {
    assert !IsSpace('(') && !IsSpace(')');
    hide IsSpace;
    var p, inside := "(" + e + ")", Lex(1, None);
    assert p[1..] == e + ")" && p[1..|p| - 1] == e && Step(TOP, '(') == inside && ")"[1..] == "";
    ScanDeeper(0, None, e);
    ScanAppend(inside, e, ")");
    NoTopTildeAppend(inside, e, ")");
    assert Scan(inside, ")") == Scan(TOP, "") && NoTopTilde(inside, ")");
    forall k | 0 < k < |p| ensures Scan(TOP, p[..k]) != TOP {
      WrappedPrefix(e, k);
    }
  }

  lemma WrappedPart(e: string, j: Jinja)
    requires Balanced(e)
    ensures var p := "(" + e + ")"; PartOk(p) && OnlyOperands(p, j.tight) && Meaning(p, j) == Meaning(e, j)
  {
    hide PartOk, NoTopTilde, OperandsOf, Meaning, IsWrapped, Balanced;
    WrappedShape(e);
    OneOperandMeans("(" + e + ")", j);
  }

  lemma WrappedPrefix(e: string, k: nat)
    requires Balanced(e) && 0 < k < |e| + 2
    ensures Scan(TOP, ("(" + e + ")")[..k]) != TOP
  {
    var q := ("(" + e + ")")[..k];
    assert q[1..] == e[..k - 1] && e[..k - 1] + e[k - 1..] == e;
    ScanAppend(TOP, e[..k - 1], e[k - 1..]);
    if Scan(TOP, e[..k - 1]) == Broken {
      BrokenStays(e[k - 1..]);
    }
    ScanDeeper(0, None, e[..k - 1]);
  }

  lemma {:induction false} StripLeftEnd(s: string)
    ensures var t := StripLeft(s);
            (t == [] || !IsSpace(t[0])) && (t != [] ==> t[|t| - 1] == s[|s| - 1] && |t| <= |s|)
  {
    hide IsSpace;
    if s != [] && IsSpace(s[0]) {
      StripLeftEnd(s[1..]);
    }
  }

  lemma {:induction false} StripRightStart(s: string)
    ensures var t := StripRight(s);
            (t != [] ==> !IsSpace(t[|t| - 1]) && s != [] && t[0] == s[0])
  {
    hide IsSpace;
    if s != [] && IsSpace(s[|s| - 1]) {
      StripRightStart(s[..|s| - 1]);
    }
  }

  lemma StripEnds(s: string)
    ensures var t := Strip(s); t != [] ==> !IsSpace(t[0]) && !IsSpace(t[|t| - 1])
    ensures Strip(Strip(s)) == Strip(s)
  {
    StripLeftEnd(s);
    StripRightStart(StripLeft(s));
    var t := Strip(s);
    if t != [] {
      StripPart("", t, "");
      assert "" + t + "" == t && "" + t == t;
    }
  }

  /** The expression can stand between tildes: in parentheses, or as it is. */
  predicate Composes(group: string, tight: string -> bool) {
    ' ' in Strip(group) || OnlyOperands(Strip(group), tight)
  }

  /** The part made from an expression means what the expression means. */
  lemma ExpressionPartMeaning(body: string, group: string, j: Jinja)
    requires ExpressionOk(body) && Strip(group) == Strip(body)
    ensures var p := ExpressionPart(group);
            PartOk(p) && Meaning(p, j) == Meaning(body, j) && (OnlyOperands(p, j.tight) <==> Composes(group, j.tight))
  {
    var e := Strip(body);
    StripEnds(body);
    assert Meaning(body, j) == Meaning(e, j);
    hide Meaning, Strip, IsSpace, OnlyOperands;
    if ' ' in e {
      WrappedPart(e, j);
    }
  }
}

/** When the URL compiler is right: exactly which templates are compiled to an expression
    with the value they render to (scripts/migrate_confirm_buttons.py:92-131). */
module JinjaExactness {
  import opened Options
  import opened PyText
  import opened JinjaUrl
  import opened JinjaParts
  import opened JinjaPattern

  // ---------------------------------------------------- what the parts are worth

  lemma StaticPartMeaning(s: string, j: Jinja)
    requires Unquoted(s)
    ensures PartsOk(StaticPart(s)) && PartsJoin(StaticPart(s), j.tight) && Meanings(StaticPart(s), j) == s
  {
    hide Meaning, PartOk, OnlyOperands;
    if s != "" {
      LiteralPart(s, j);
      assert StaticPart(s)[1..] == [];
      assert Meanings(StaticPart(s), j) == Meaning(Literal(s), j) + Meanings([], j);
    }
  }

  lemma UnquotedSlice(s: string, i: nat, k: nat)
    requires Unquoted(s) && i <= k <= |s|
    ensures Unquoted(s[i..k])
  {
    assert forall c :: c in s[i..k] ==> c in s;
  }

  predicate PartsOk(parts: seq<string>) {
    forall p :: p in parts ==> PartOk(p)
  }

  predicate PartsJoin(parts: seq<string>, tight: string -> bool) {
    forall p :: p in parts ==> OnlyOperands(p, tight)
  }

  lemma PartsAppend(a: seq<string>, b: seq<string>, tight: string -> bool)
    ensures PartsOk(a + b) <==> PartsOk(a) && PartsOk(b)
    ensures PartsJoin(a + b, tight) <==> PartsJoin(a, tight) && PartsJoin(b, tight)
  {
    hide PartOk, OnlyOperands;
    assert forall p :: p in a + b <==> p in a || p in b;
  }

  lemma PartsOne(p: string, tight: string -> bool)
    ensures PartsOk([p]) <==> PartOk(p)
    ensures PartsJoin([p], tight) <==> OnlyOperands(p, tight)
  {
    hide PartOk, OnlyOperands;
    assert p in [p];
  }

  /** What the parts are worth: an expression with a line break within is copied, braces and all. */
  function Delivered(url: string, i: nat, j: Jinja): string
    requires i <= |url|
    decreases |url| - i
  {
    var open := Find(url, "{{", i);
    if open == |url| then url[i..]
    else
      var close := Find(url, "}}", open + 2);
      if close == |url| then url[i..]
      else
        (if LineBroken(url[open + 2..close]) then url[i..close + 2]
         else url[i..open] + Meaning(url[open + 2..close], j))
        + Delivered(url, close + 2, j)
  }

  predicate PartsCorrect(url: string, i: nat, j: Jinja)
    requires i <= |url|
  {
    InOrder(url, i, Matches(url, i))
    && var parts := Parts(url, i, Matches(url, i));
       && PartsOk(parts) && Meanings(parts, j) == Delivered(url, i, j)
       && (PartsJoin(parts, j.tight) <==> AllCompose(url, i, j.tight))
  }

  /** Every expression found can stand between tildes. */
  predicate AllCompose(url: string, i: nat, tight: string -> bool)
    requires i <= |url|
  {
    forall m :: m in Matches(url, i) ==> Composes(m.group, tight)
  }

  lemma {:induction false} PartsMeaning(url: string, i: nat, j: Jinja)
    requires i <= |url| && Unquoted(url) && ExpressionsOk(url, i)
    ensures PartsCorrect(url, i, j)
    decreases |url| - i
  {
    hide PartsCorrect, ExpressionOk, Meaning, Matches, Delivered, PairAt, Unquoted, LineBroken;
    var open := Find(url, "{{", i);
    if open == |url| {
      LastPartMeaning(url, i, j);
    } else {
      var close := Find(url, "}}", open + 2);
      PartsMeaning(url, close + 2, j);
      if LineBroken(url[open + 2..close]) {
        BrokenMeaning(url, i, open, close, j);
      } else {
        MatchMeaning(url, i, open, close, j);
      }
    }
  }

  /** `open` and `close` are the braces of the first expression from `i` on. */
  predicate FirstBraces(url: string, i: nat, open: nat, close: nat) {
    i <= |url| && open == Find(url, "{{", i) < |url| && close == Find(url, "}}", open + 2) < |url|
  }

  lemma BracesBounds(url: string, i: nat, open: nat, close: nat)
    requires FirstBraces(url, i, open, close)
    ensures i <= open && open + 2 <= close && close + 2 <= |url|
  {
    hide Find;
  }

  lemma DeliveredStep(url: string, i: nat, open: nat, close: nat, j: Jinja)
    requires FirstBraces(url, i, open, close)
    ensures i <= open && open + 2 <= close && close + 2 <= |url|
    ensures Delivered(url, i, j)
         == (if LineBroken(url[open + 2..close]) then url[i..close + 2]
             else url[i..open] + Meaning(url[open + 2..close], j))
            + Delivered(url, close + 2, j)
  {
    hide Meaning, LineBroken, PairAt, Find;
    BracesBounds(url, i, open, close);
  }

  lemma RenderStep(url: string, i: nat, open: nat, close: nat, j: Jinja)
    requires FirstBraces(url, i, open, close)
    ensures i <= open && open + 2 <= close && close + 2 <= |url|
    ensures Render(url, i, j) == url[i..open] + Meaning(url[open + 2..close], j) + Render(url, close + 2, j)
  {
    hide Meaning, LineBroken, PairAt, Find;
    BracesBounds(url, i, open, close);
  }

  lemma NoMatchBefore(url: string, i: nat, open: nat)
    requires i <= |url| && open == Find(url, "{{", i)
    ensures forall k: nat :: i <= k < open ==> MatchAt(url, k).None?
  {
    hide PairAt, GroupAt;
  }

  lemma LastPartMeaning(url: string, i: nat, j: Jinja)
    requires i <= |url| && Unquoted(url) && Find(url, "{{", i) == |url|
    ensures PartsCorrect(url, i, j)
  {
    NoMatchBefore(url, i, |url|);
    assert MatchAt(url, |url|).None?;
    hide PartOk, OnlyOperands, Composes, Meaning, MatchAt, StaticPart;
    UnquotedSlice(url, i, |url|);
    StaticPartMeaning(url[i..|url|], j);
    NextMatchSkips(url, i, |url|);
    PartsEnd(url, i);
    assert url[i..] == url[i..|url|];
  }

  lemma MatchMeaning(url: string, i: nat, open: nat, close: nat, j: Jinja)
    requires FirstBraces(url, i, open, close)
    requires Unquoted(url) && ExpressionOk(url[open + 2..close]) && !LineBroken(url[open + 2..close])
    requires PartsCorrect(url, close + 2, j)
    ensures PartsCorrect(url, i, j)
  {
    hide PartOk, OnlyOperands, Composes, Meaning, Meanings, ExpressionOk, LineBroken, InOrder, Parts, StaticPart;
    hide Unquoted;
    hide ExpressionPart, MatchAt, Strip, Find, FirstBraces, Delivered, Matches, NextMatch, PartsOk, PartsJoin;
    hide AllCompose;
    DeliveredStep(url, i, open, close, j);
    MatchesInOrder(url, i);
    UnquotedSlice(url, i, open);
    StaticPartMeaning(url[i..open], j);
    var m := MatchStep(url, i, open, close);
    ExpressionPartMeaning(url[open + 2..close], m.group, j);
    PartsOfMatch(url, i, m, j);
    AllComposeStep(url, i, m, j.tight);
  }

  lemma AllComposeStep(url: string, i: nat, m: Match, tight: string -> bool)
    requires i <= |url| && m.end <= |url| && Matches(url, i) == [m] + Matches(url, m.end)
    ensures AllCompose(url, i, tight) <==> Composes(m.group, tight) && AllCompose(url, m.end, tight)
  {
    hide Composes, Matches;
    assert m in Matches(url, i) && forall n :: n in Matches(url, i) <==> n == m || n in Matches(url, m.end);
  }

  lemma MatchStep(url: string, i: nat, open: nat, close: nat) returns (m: Match)
    requires FirstBraces(url, i, open, close)
    requires ExpressionOk(url[open + 2..close]) && !LineBroken(url[open + 2..close])
    ensures m.start == open && m.end == close + 2 && Strip(m.group) == Strip(url[open + 2..close])
    ensures Matches(url, i) == [m] + Matches(url, m.end)
  {
    NoMatchBefore(url, i, open);
    hide ExpressionOk, LineBroken, MatchAt, Strip, PairAt, Matches;
    MatchFinds(url, open, close);
    NextMatchSkips(url, i, open);
    m := MatchAt(url, open).value;
    FirstOfMatches(url, i, open);
  }

  lemma FirstOfMatches(url: string, i: nat, open: nat)
    requires i <= open <= |url| && MatchAt(url, open).Some? && NextMatch(url, i) == NextMatch(url, open)
    ensures var m := MatchAt(url, open).value; Matches(url, i) == [m] + Matches(url, m.end)
  {
    hide MatchAt;
  }

  lemma PartsOfMatch(url: string, i: nat, m: Match, j: Jinja)
    requires i <= m.start < m.end <= |url| && Matches(url, i) == [m] + Matches(url, m.end)
    requires InOrder(url, i, Matches(url, i)) && InOrder(url, m.end, Matches(url, m.end))
    ensures var before, part := StaticPart(url[i..m.start]), ExpressionPart(m.group);
            var after := Parts(url, m.end, Matches(url, m.end));
            && Parts(url, i, Matches(url, i)) == before + [part] + after
            && (PartsOk(before + [part] + after) <==> PartsOk(before) && PartOk(part) && PartsOk(after))
            && (PartsJoin(before + [part] + after, j.tight)
                <==> PartsJoin(before, j.tight) && OnlyOperands(part, j.tight) && PartsJoin(after, j.tight))
            && Meanings(Parts(url, i, Matches(url, i)), j)
             == Meanings(before, j) + Meaning(part, j) + Meanings(after, j)
  {
    hide Meaning, Matches, PartsOk, PartsJoin, PartOk, OnlyOperands;
    var before, part := StaticPart(url[i..m.start]), ExpressionPart(m.group);
    var after := Parts(url, m.end, Matches(url, m.end));
    assert Matches(url, i)[0] == m && Matches(url, i)[1..] == Matches(url, m.end);
    MeaningsAppend(before + [part], after, j);
    MeaningsAppend(before, [part], j);
    PartsAppend(before + [part], after, j.tight);
    PartsAppend(before, [part], j.tight);
    PartsOne(part, j.tight);
    assert [part][1..] == [] && Meanings([part], j) == Meaning(part, j) + [];
  }

  lemma BrokenMeaning(url: string, i: nat, open: nat, close: nat, j: Jinja)
    requires FirstBraces(url, i, open, close)
    requires Unquoted(url) && ExpressionOk(url[open + 2..close]) && LineBroken(url[open + 2..close])
    requires PartsCorrect(url, close + 2, j)
    ensures PartsCorrect(url, i, j)
  {
    hide Composes, Meaning, Meanings, ExpressionOk, LineBroken, InOrder, Parts, Unquoted;
    hide Find, FirstBraces, Delivered, Matches, NextMatch, PartsOk, PartsJoin;
    DeliveredStep(url, i, open, close, j);
    SkipBroken(url, i, open, close);
    MatchesInOrder(url, i);
    LongerStatic(url, i, close + 2, Matches(url, i), j);
  }

  /** The matches are those behind the expression. */
  lemma SkipBroken(url: string, i: nat, open: nat, close: nat)
    requires FirstBraces(url, i, open, close)
    requires ExpressionOk(url[open + 2..close]) && LineBroken(url[open + 2..close])
    ensures i <= close + 2 <= |url| && Matches(url, i) == Matches(url, close + 2)
  {
    assert i <= open && open + 2 <= close && close + 2 <= |url|;
    hide MatchAt, ExpressionOk, LineBroken, PairAt, Matches;
    forall k: nat | i <= k < close + 2 ensures MatchAt(url, k).None? {
      if k < open {
        NoMatchBefore(url, i, open);
      } else {
        MatchFails(url, open, close, k);
      }
    }
    hide Find, FirstBraces, NextMatch;
    NextMatchSkips(url, i, close + 2);
    SameMatches(url, i, close + 2);
  }

  lemma SameMatches(url: string, i: nat, q: nat)
    requires i <= q <= |url| && NextMatch(url, i) == NextMatch(url, q)
    ensures Matches(url, i) == Matches(url, q)
  {
    hide MatchAt;
  }

  /** Only the text before the first match depends on where the parts start. */
  lemma PartsSplit(url: string, i: nat, c: nat, matches: seq<Match>) returns (q: nat, rest: seq<string>)
    requires i <= c && InOrder(url, c, matches) && InOrder(url, i, matches)
    ensures c <= q <= |url|
    ensures Parts(url, i, matches) == StaticPart(url[i..q]) + rest
    ensures Parts(url, c, matches) == StaticPart(url[c..q]) + rest
  {
    InOrderBound(url, c, matches);
    hide StaticPart, ExpressionPart;
    if matches == [] {
      q, rest := |url|, [];
      assert url[i..] == url[i..q] && url[c..] == url[c..q];
    } else {
      q, rest := matches[0].start, [ExpressionPart(matches[0].group)] + Parts(url, matches[0].end, matches[1..]);
    }
  }

  /** If the text before the first match is longer, so is what the parts are worth. */
  lemma LongerStatic(url: string, i: nat, c: nat, matches: seq<Match>, j: Jinja)
    requires i <= c && InOrder(url, c, matches) && InOrder(url, i, matches) && Unquoted(url)
    ensures c <= |url|
    ensures var a, b := Parts(url, i, matches), Parts(url, c, matches);
            && Meanings(a, j) == url[i..c] + Meanings(b, j) && |a| <= |b| + 1
            && (PartsOk(b) ==> PartsOk(a)) && (PartsJoin(a, j.tight) <==> PartsJoin(b, j.tight))
  {
    hide PartsOk, PartsJoin, Meaning, Meanings, Parts, InOrder, Unquoted;
    var q, rest := PartsSplit(url, i, c, matches);
    UnquotedSlice(url, i, q);
    UnquotedSlice(url, c, q);
    StaticPartMeaning(url[i..q], j);
    StaticPartMeaning(url[c..q], j);
    MeaningsAppend(StaticPart(url[i..q]), rest, j);
    MeaningsAppend(StaticPart(url[c..q]), rest, j);
    PartsAppend(StaticPart(url[i..q]), rest, j.tight);
    PartsAppend(StaticPart(url[c..q]), rest, j.tight);
    assert url[i..q] == url[i..c] + url[c..q];
  }

  lemma ExpressionsStep(url: string, i: nat) returns (open: nat, close: nat)
    requires i <= |url| && Unquoted(url) && ExpressionsOk(url, i) && Find(url, "{{", i) < |url|
    ensures FirstBraces(url, i, open, close) && i <= open && open + 2 <= close && close + 2 <= |url|
    ensures ExpressionOk(url[open + 2..close]) && ExpressionsOk(url, close + 2) && Unquoted(url[open + 2..close])
    ensures OneLine(url, i) <==> !LineBroken(url[open + 2..close]) && OneLine(url, close + 2)
  {
    hide ExpressionOk, LineBroken, Unquoted;
    open := Find(url, "{{", i);
    close := Find(url, "}}", open + 2);
    UnquotedSlice(url, open + 2, close);
  }

  /** The parts of the compiled expression. */
  function PartsOf(url: string): seq<string> {
    MatchesInOrder(url, 0);
    if Matches(url, 0) == [] then [Literal(url)] else Parts(url, 0, Matches(url, 0))
  }

  /** The concatenation is what the template is: a single part, or only expressions that can stand between tildes. */
  predicate Joinable(url: string, tight: string -> bool) {
    |PartsOf(url)| == 1 || AllCompose(url, 0, tight)
  }

  /** And every expression is on one line. */
  predicate Composable(url: string, tight: string -> bool) {
    OneLine(url, 0) && Joinable(url, tight)
  }

  lemma PartsOfFacts(url: string, j: Jinja)
    requires WellFormed(url)
    ensures var parts := PartsOf(url);
            && parts != [] && Convert(url) == Join(" ~ ", parts)
            && PartsOk(parts) && Meanings(parts, j) == Delivered(url, 0, j)
            && (PartsJoin(parts, j.tight) <==> AllCompose(url, 0, j.tight))
  {
    PartsMeaning(url, 0, j);
    hide PartsOk, PartsJoin, Meaning, Meanings, Delivered, ExpressionsOk, Find, Unquoted, Matches, AllCompose;
    if Matches(url, 0) == [] {
      WholeLiteral(url, j);
    } else {
      SomeParts(url, Matches(url, 0));
    }
  }

  lemma SomeParts(url: string, matches: seq<Match>)
    requires InOrder(url, 0, matches) && matches != []
    ensures Parts(url, 0, matches) != []
  {
  }

  lemma WholeLiteral(url: string, j: Jinja)
    requires Unquoted(url) && PartsCorrect(url, 0, j) && Matches(url, 0) == []
    ensures PartsOk([Literal(url)]) && PartsJoin([Literal(url)], j.tight) && AllCompose(url, 0, j.tight)
    ensures Meanings([Literal(url)], j) == Delivered(url, 0, j)
  {
    LiteralPart(url, j);
    assert Parts(url, 0, []) == StaticPart(url[0..]) && url[0..] == url;
    hide PartOk, OnlyOperands, Meaning, Delivered, Unquoted, Matches;
    StaticPartMeaning(url, j);
    PartsOne(Literal(url), j.tight);
    assert [Literal(url)][1..] == [] && Meanings([Literal(url)], j) == Meaning(Literal(url), j) + [];
  }

  /** What the compiled expression is worth if the parts can be joined. */
  lemma JoinableMeans(url: string, j: Jinja)
    requires WellFormed(url) && Joinable(url, j.tight)
    ensures Meaning(Convert(url), j) == Delivered(url, 0, j)
  {
    hide WellFormed, PartOk, OnlyOperands, Convert, Meaning, Delivered, AllCompose;
    PartsOfFacts(url, j);
    MeaningOfJoin(PartsOf(url), j);
  }

  lemma {:induction false} OneLineDelivers(url: string, i: nat, j: Jinja)
    requires i <= |url| && Unquoted(url) && ExpressionsOk(url, i) && OneLine(url, i)
    ensures Delivered(url, i, j) == Render(url, i, j)
    decreases |url| - i
  {
    hide Meaning, LineBroken, ExpressionOk, Unquoted, ExpressionsOk;
    if Find(url, "{{", i) < |url| {
      hide Delivered, Render, OneLine, FirstBraces;
      var open, close := ExpressionsStep(url, i);
      DeliveredStep(url, i, open, close, j);
      RenderStep(url, i, open, close, j);
      OneLineDelivers(url, close + 2, j);
    }
  }

  /** The compiled expression has the value the template renders to, in every
      environment in which its bare expressions bind tighter than `~`. */
  lemma ConvertPreservesMeaning(url: string, j: Jinja)
    requires WellFormed(url) && Composable(url, j.tight)
    ensures Meaning(Convert(url), j) == Render(url, 0, j)
  {
    hide ExpressionsOk, Unquoted, Joinable, OneLine, Meaning, Delivered, Render, Convert;
    JoinableMeans(url, j);
    OneLineDelivers(url, 0, j);
  }

  // ------------------------------------------------------ and in no other case

  /** Every bare expression is worth the same. */
  function Constant(c: string, tight: string -> bool): Jinja {
    Jinja(_ => c, tight)
  }

  /** Then nothing without double quotes is worth less, and nothing is worth anything if `c` is empty. */
  lemma {:induction false} ConstantMeaning(text: string, c: string, tight: string -> bool)
    requires Unquoted(text)
    ensures var r := Meaning(text, Constant(c, tight)); |r| >= |c| && (c == "" ==> r == "")
    decreases |text|, 2, 0
  {
    hide Operands, IsLiteral, IsWrapped, Strip, Constant, AtomMeaning;
    StripShortens(text);
    var t := Strip(text);
    StripUnquoted(text);
    OperandsUnquoted(t);
    var operands := OperandsOf(t);
    if |operands| >= 2 && forall o :: o in operands ==> IsOperand(o, tight) {
      ConcatenationConstant(operands, |t|, c, tight);
    } else {
      AtomConstant(t, c, tight);
    }
    assert Constant(c, tight).tight == tight by {
      TightOfConstant(c, tight);
    }
  }

  lemma TightOfConstant(c: string, tight: string -> bool)
    ensures Constant(c, tight).tight == tight
  {
  }

  lemma {:induction false} ConcatenationConstant(operands: seq<string>, bound: nat, c: string, tight: string -> bool)
    requires forall o :: o in operands ==> |o| <= bound && Unquoted(o)
    ensures var r := Concatenation(operands, bound, Constant(c, tight));
            (operands != [] ==> |r| >= |c|) && (c == "" ==> r == "")
    decreases bound, 1, |operands|
  {
    hide Constant, AtomMeaning, Unquoted;
    if operands != [] {
      AtomConstant(operands[0], c, tight);
      ConcatenationConstant(operands[1..], bound, c, tight);
    }
  }

  lemma {:induction false} AtomConstant(s: string, c: string, tight: string -> bool)
    requires Unquoted(s)
    ensures var r := AtomMeaning(s, Constant(c, tight)); |r| >= |c| && (c == "" ==> r == "")
    decreases |s|, 0, 0
  {
    assert !IsLiteral(s);
    hide Meaning, IsLiteral;
    if IsWrapped(s) {
      UnquotedSlice(s, 1, |s| - 1);
      ConstantMeaning(s[1..|s| - 1], c, tight);
    }
  }

  lemma {:induction false} StripUnquoted(s: string)
    requires Unquoted(s)
    ensures Unquoted(Strip(s))
  {
    hide Strip;
    var a, b := StripSlice(s, 0, |s|);
    assert s[0..|s|] == s;
    UnquotedSlice(s, a, b);
  }

  lemma {:induction false} OperandChars(l: Lex, s: string)
    requires Unquoted(s)
    ensures forall o :: o in Operands(l, s) ==> Unquoted(o)
    decreases |s|
  {
    if s != [] {
      UnquotedSlice(s, 1, |s|);
      assert s[1..|s|] == s[1..] && s[0] in s;
      OperandChars(Step(l, s[0]), s[1..]);
      var rest := Operands(Step(l, s[0]), s[1..]);
      assert rest[0] in rest && Unquoted([s[0]] + rest[0]);
    }
  }

  lemma OperandsUnquoted(s: string)
    requires Unquoted(s)
    ensures forall o :: o in OperandsOf(s) ==> Unquoted(o)
  {
    OperandChars(TOP, s);
    var r := Operands(TOP, s);
    hide Operands, Strip, Unquoted;
    forall o | o in OperandsOf(s) ensures Unquoted(o) {
      var i :| 0 <= i < |r| && StripAll(r)[i] == o;
      assert r[i] in r;
      StripUnquoted(r[i]);
    }
  }

  /** Where all expressions are worth nothing, one that is copied makes a difference. */
  lemma {:induction false} CopiedIsLonger(url: string, i: nat, tight: string -> bool)
    requires i <= |url| && Unquoted(url) && ExpressionsOk(url, i)
    ensures var j := Constant("", tight);
            && |Delivered(url, i, j)| >= |Render(url, i, j)|
            && (!OneLine(url, i) ==> |Delivered(url, i, j)| > |Render(url, i, j)|)
    decreases |url| - i
  {
    hide Meaning, LineBroken, ExpressionOk, Constant, Unquoted, ExpressionsOk;
    var j := Constant("", tight);
    if Find(url, "{{", i) < |url| {
      hide Delivered, Render, OneLine, FirstBraces;
      var open, close := ExpressionsStep(url, i);
      CopiedIsLonger(url, close + 2, tight);
      ConstantMeaning(url[open + 2..close], "", tight);
      DeliveredStep(url, i, open, close, j);
      RenderStep(url, i, open, close, j);
      assert |url[i..close + 2]| > |url[i..open]|;
    }
  }

  /** Where all expressions are worth a character, the template renders to one for each part, or more. */
  lemma {:induction false} RenderedParts(url: string, i: nat, tight: string -> bool)
    requires i <= |url| && Unquoted(url) && ExpressionsOk(url, i)
    ensures InOrder(url, i, Matches(url, i))
    ensures |Parts(url, i, Matches(url, i))| <= |Render(url, i, Constant("x", tight))|
    decreases |url| - i
  {
    hide Meaning, LineBroken, ExpressionOk, Constant, Unquoted, Matches, Parts, InOrder, Render, ExpressionsOk;
    hide FirstBraces;
    MatchesInOrder(url, i);
    if Find(url, "{{", i) == |url| {
      RenderedLast(url, i, Constant("x", tight));
    } else {
      var open, close := ExpressionsStep(url, i);
      RenderedParts(url, close + 2, tight);
      ConstantMeaning(url[open + 2..close], "x", tight);
      RenderedMore(url, i, open, close, Constant("x", tight));
    }
  }

  lemma RenderedLast(url: string, i: nat, j: Jinja)
    requires i <= |url| && Find(url, "{{", i) == |url|
    ensures InOrder(url, i, Matches(url, i)) && |Parts(url, i, Matches(url, i))| <= |Render(url, i, j)|
  {
    NoMatchBefore(url, i, |url|);
    assert MatchAt(url, |url|).None?;
    hide MatchAt, Literal;
    NextMatchSkips(url, i, |url|);
  }

  lemma RenderedMore(url: string, i: nat, open: nat, close: nat, j: Jinja)
    requires FirstBraces(url, i, open, close) && Unquoted(url) && ExpressionOk(url[open + 2..close])
    requires |Meaning(url[open + 2..close], j)| >= 1
    requires InOrder(url, i, Matches(url, i)) && InOrder(url, close + 2, Matches(url, close + 2))
    requires |Parts(url, close + 2, Matches(url, close + 2))| <= |Render(url, close + 2, j)|
    ensures |Parts(url, i, Matches(url, i))| <= |Render(url, i, j)|
  {
    hide Meaning, Render, ExpressionOk, LineBroken, Parts, Matches, FirstBraces, Find, InOrder, Unquoted, Literal;
    RenderStep(url, i, open, close, j);
    if LineBroken(url[open + 2..close]) {
      SkipBroken(url, i, open, close);
      LongerStatic(url, i, close + 2, Matches(url, i), j);
    } else {
      var m := MatchStep(url, i, open, close);
      PartsOfMatch(url, i, m, j);
      assert |StaticPart(url[i..open])| <= |url[i..open]|;
    }
  }

  /** Where the URL is not composable some values tell the two apart, and be it that all are empty or all the same. */
  lemma WrongSomewhere(url: string, tight: string -> bool) returns (value: string -> string)
    requires WellFormed(url) && !Composable(url, tight)
    ensures Meaning(Convert(url), Jinja(value, tight)) != Render(url, 0, Jinja(value, tight))
  {
    hide Convert, Render, PartsOf, AllCompose, Meaning, Meanings, Join, OnlyOperands, PartOk, OneLine, ExpressionsOk;
    hide Delivered;
    var c := if Joinable(url, tight) then "" else "x";
    var j := Constant(c, tight);
    value := j.value;
    if Joinable(url, tight) {
      JoinableMeans(url, j);
      CopiedIsLonger(url, 0, tight);
    } else {
      PartsOfFacts(url, j);
      var loose :| loose in PartsOf(url) && !OnlyOperands(loose, tight);
      JoinIsAtom(PartsOf(url), j, loose);
      RenderedParts(url, 0, tight);
      ManyParts(url);
    }
  }

  lemma ManyParts(url: string)
    requires |PartsOf(url)| >= 2
    ensures InOrder(url, 0, Matches(url, 0)) && PartsOf(url) == Parts(url, 0, Matches(url, 0))
  {
    MatchesInOrder(url, 0);
  }

  /** The compiler is right in every environment exactly when the URL is composable: a
      condition on the line breaks and the operators of its expressions alone. */
  lemma ConvertExactly(url: string, tight: string -> bool)
    requires WellFormed(url)
    ensures (forall value: string -> string ::
              Meaning(Convert(url), Jinja(value, tight)) == Render(url, 0, Jinja(value, tight)))
       <==> Composable(url, tight)
  {
    if Composable(url, tight) {
      forall value: string -> string
        ensures Meaning(Convert(url), Jinja(value, tight)) == Render(url, 0, Jinja(value, tight))
      {
        ConvertPreservesMeaning(url, Jinja(value, tight));
      }
    } else {
      var value := WrongSomewhere(url, tight);
    }
  }

  // ------------------------------------------------------------ two that fail

  /** Text and one bare expression. */
  predicate Bare(s: string, e: string, j: Jinja) {
    && s != "" && Unquoted(s) && '{' !in s
    && e != "" && Unquoted(e) && '{' !in e && '}' !in e && (forall c :: c in e ==> !IsSpace(c))
    && Balanced(e) && NoTopTilde(TOP, e) && !IsOperand(e, j.tight)
  }

  /** Only spaces make the compiler add parentheses. An expression without spaces that
      binds looser than `~`, such as a comparison, takes the text in front into its
      operand: the result is not the text followed by the expression's value, but
      whatever the whole expression is worth. */
  lemma LooseExpression(s: string, e: string, j: Jinja)
    requires Bare(s, e, j)
    ensures var url := s + "{{" + e + "}}";
            && Convert(url) == Literal(s) + " ~ " + e
            && Meaning(Convert(url), j) == j.value(Literal(s) + " ~ " + e)
            && Render(url, 0, j) == s + j.value(e)
  {
    hide Convert, Meaning, Render;
    BareConverts(s, e, j);
    BareMeans(s, e, j);
    BareRenders(s, e, j);
  }

  lemma FindIs(url: string, c: char, i: nat, r: nat)
    requires i <= r < |url| && PairAt(url, [c, c], r)
    requires forall k :: i <= k < r ==> url[k] != c
    ensures Find(url, [c, c], i) == r && forall k: nat :: i <= k < r ==> !PairAt(url, [c, c], k)
  {
    forall k: nat | i <= k < r ensures !PairAt(url, [c, c], k) {
      assert k + 2 <= |url| ==> url[k..k + 2][0] == url[k];
    }
    hide PairAt;
  }

  /** It fails already where every expression is worth the empty text. */
  lemma LooseExpressionIsWrong(s: string, e: string, tight: string -> bool)
    requires Bare(s, e, Jinja(_ => "", tight))
    ensures var url, j := s + "{{" + e + "}}", Jinja(_ => "", tight);
            Meaning(Convert(url), j) == "" != s == Render(url, 0, j)
  {
    hide Convert, Meaning, Render;
    LooseExpression(s, e, Jinja(_ => "", tight));
  }

  /** For example with a comparison that binds looser than `~`. */
  lemma ComparisonIsWrong(tight: string -> bool)
    requires !tight("a==b")
    ensures var url, j := "/x/" + "{{" + "a==b" + "}}", Jinja(_ => "", tight);
            Meaning(Convert(url), j) != Render(url, 0, j)
  {
    hide Bare, Convert, Meaning, Render;
    BareComparison(Jinja(_ => "", tight));
    LooseExpressionIsWrong("/x/", "a==b", tight);
  }

  lemma BareComparison(j: Jinja)
    requires !j.tight("a==b")
    ensures Bare("/x/", "a==b", j)
  {
    var e := "a==b";
    assert '"' !in e && '\\' !in e && '{' !in e && '}' !in e && e[0] != '"' && e[0] != '(';
    assert Unquoted("/x/") && '{' !in "/x/";
    forall c | c in e ensures !IsSpace(c) && c !in "'\"([{)]}~" {
      assert c == 'a' || c == '=' || c == 'b';
    }
    hide IsSpace, Scan, Step, NoTopTilde, Balanced, Unquoted;
    PlainChars(e);
    assert Unquoted(e);
  }

  /** Text without brackets, quotes and tildes. */
  lemma {:induction false} PlainChars(s: string)
    requires forall c :: c in s ==> c !in "'\"([{)]}~"
    ensures Balanced(s) && NoTopTilde(TOP, s)
  {
    if s != "" {
      assert s[0] in s && forall c :: c in s[1..] ==> c in s;
      assert Step(TOP, s[0]) == TOP;
      hide Step;
      PlainChars(s[1..]);
    }
  }

  lemma BareShape(s: string, e: string, j: Jinja)
    requires Bare(s, e, j)
    ensures var url, open, close := s + "{{" + e + "}}", |s|, |s| + 2 + |e|;
            && |url| == close + 2 && url[..open] == s && url[open + 2..close] == e
            && PairAt(url, "{{", open) && PairAt(url, "}}", close)
            && (forall k :: 0 <= k < open ==> url[k] != '{')
            && (forall k :: open + 2 <= k < close ==> url[k] != '}' && url[k] != '\n' && !IsSpace(url[k]))
  {
    var url, open, close := s + "{{" + e + "}}", |s|, |s| + 2 + |e|;
    hide Balanced, NoTopTilde, IsOperand, Unquoted;
    assert url[open..open + 2] == "{{" && url[close..close + 2] == "}}" && url[open + 2..close] == e;
    forall k | 0 <= k < open ensures url[k] != '{' {
      assert url[k] == s[k] && s[k] in s;
    }
    forall k | open + 2 <= k < close ensures url[k] != '}' && url[k] != '\n' && !IsSpace(url[k]) {
      BareChar(e, k - open - 2);
      assert url[k] == e[k - open - 2];
    }
  }

  lemma BareChar(e: string, k: nat)
    requires k < |e| && '}' !in e && forall c :: c in e ==> !IsSpace(c)
    ensures e[k] != '}' && e[k] != '\n' && !IsSpace(e[k])
  {
    assert e[k] in e && IsSpace('\n');
  }

  lemma BareFinds(s: string, e: string, j: Jinja)
    requires Bare(s, e, j)
    ensures var url, open, close := s + "{{" + e + "}}", |s|, |s| + 2 + |e|;
            && |url| == close + 2 && url[..open] == s && url[open + 2..close] == e
            && Find(url, "{{", 0) == open && Find(url, "}}", open + 2) == close
            && (forall k: nat :: k < open ==> !PairAt(url, "{{", k))
            && MatchAt(url, open) == Some(Match(open, e, |url|))
  {
    var url, open, close := s + "{{" + e + "}}", |s|, |s| + 2 + |e|;
    BareShape(s, e, j);
    assert e != "";
    hide Bare, IsSpace, MatchAt, Find, PairAt;
    FindIs(url, '{', 0, open);
    FindIs(url, '}', open + 2, close);
    GroupFinds(url, open, open + 2, close, close);
  }

  lemma StripBare(e: string)
    requires e != "" && forall c :: c in e ==> !IsSpace(c)
    ensures Strip(e) == e && !IsSpace(e[0]) && !IsSpace(e[|e| - 1])
  {
    assert e[0] in e && e[|e| - 1] in e;
  }

  lemma BareConverts(s: string, e: string, j: Jinja)
    requires Bare(s, e, j)
    ensures Convert(s + "{{" + e + "}}") == Literal(s) + " ~ " + e
  {
    var url := s + "{{" + e + "}}";
    BareFinds(s, e, j);
    StripBare(e);
    assert ' ' !in e by {
      assert IsSpace(' ');
    }
    hide Bare, IsSpace, MatchAt, Strip, Find, PairAt;
    OneMatch(url, Match(|s|, e, |url|));
    MatchesInOrder(url, 0);
    assert [Literal(s)] + [e] == [Literal(s), e] && [Literal(s), e][1..] == [e];
    assert Join(" ~ ", [Literal(s), e]) == Literal(s) + " ~ " + e;
  }

  /** A URL whose only match runs to its end. */
  lemma OneMatch(url: string, m: Match)
    requires MatchAt(url, m.start) == Some(m) && m.end == |url|
    requires forall k: nat :: k < m.start ==> !PairAt(url, "{{", k)
    ensures Matches(url, 0) == [m] && InOrder(url, 0, [m])
    ensures Parts(url, 0, [m]) == StaticPart(url[..m.start]) + [ExpressionPart(m.group)]
  {
    assert MatchAt(url, |url|).None? && forall k: nat :: k < m.start ==> MatchAt(url, k).None?;
    hide MatchAt, StaticPart, ExpressionPart, PairAt, Find;
    NextMatchSkips(url, 0, m.start);
    assert Matches(url, |url|) == [] && Matches(url, 0) == [m] + [];
    hide Matches, NextMatch;
    PartsOfOne(url, m);
  }

  lemma PartsOfOne(url: string, m: Match)
    requires m.start < m.end == |url|
    ensures InOrder(url, 0, [m])
    ensures Parts(url, 0, [m]) == StaticPart(url[..m.start]) + [ExpressionPart(m.group)]
  {
    assert StaticPart("") == [] && [m][0..] == [m] && [m][1..] == [];
    hide StaticPart, ExpressionPart;
    PartsStep(url, 0, [m], 0);
    PartsEnd(url, |url|);
    hide Parts;
    assert url[0..m.start] == url[..m.start] && url[|url|..] == "";
  }

  lemma BareMeans(s: string, e: string, j: Jinja)
    requires Bare(s, e, j)
    ensures Meaning(Literal(s) + " ~ " + e, j) == j.value(Literal(s) + " ~ " + e)
  {
    var parts := [Literal(s), e];
    LiteralPart(s, j);
    StripBare(e);
    assert PartOk(e) && NoTopTilde(TOP, e) && !IsOperand(e, j.tight);
    OneOperandMeans(e, j);
    assert !OnlyOperands(e, j.tight) by {
      assert e in OperandsOf(e);
    }
    hide Bare, PartOk, IsOperand, Meaning, OnlyOperands, OperandsOf;
    assert parts[0] == Literal(s) && parts[1] == e && parts[1..] == [e];
    assert forall p :: p in parts ==> PartOk(p);
    JoinIsAtom(parts, j, e);
    assert Join(" ~ ", parts) == Literal(s) + " ~ " + e;
  }

  lemma BareRenders(s: string, e: string, j: Jinja)
    requires Bare(s, e, j)
    ensures Render(s + "{{" + e + "}}", 0, j) == s + j.value(e)
  {
    var url := s + "{{" + e + "}}";
    BareFinds(s, e, j);
    StripBare(e);
    assert PartOk(e);
    OneOperandMeans(e, j);
    assert Meaning(e, j) == j.value(e);
    hide Bare, Meaning, MatchAt, IsSpace, Strip;
    assert Render(url, |url|, j) == "";
  }

  // -------------------------------------------------- an expression on two lines

  /** Text and one expression with a line break within. */
  predicate TwoLines(s: string, e: string) {
    && Unquoted(s) && '{' !in s && Unquoted(e) && '{' !in e && '}' !in e
    && e != "" && !IsSpace(e[0]) && !IsSpace(e[|e| - 1]) && '\n' in e
  }

  /** The pattern does not match across lines, so the braces are taken for text. */
  lemma BrokenExpression(s: string, e: string, j: Jinja)
    requires TwoLines(s, e)
    ensures var url := s + "{{" + e + "}}";
            Convert(url) == Literal(url) && Meaning(Convert(url), j) == url && Render(url, 0, j) == s + Meaning(e, j)
  {
    var url, open, close := s + "{{" + e + "}}", |s|, |s| + 2 + |e|;
    hide Meaning, Find, PairAt, TwoLines, Unquoted;
    BrokenFinds(s, e);
    LiteralPart(url, j);
    assert Render(url, |url|, j) == "" && url[0..open] == url[..open];
  }

  lemma BrokenShape(s: string, e: string)
    requires TwoLines(s, e)
    ensures var url, open, close := s + "{{" + e + "}}", |s|, |s| + 2 + |e|;
            && |url| == close + 2 && url[..open] == s && url[open + 2..close] == e && Unquoted(url)
            && PairAt(url, "{{", open) && PairAt(url, "}}", close)
            && (forall k :: 0 <= k < open ==> url[k] != '{')
            && (forall k :: open + 2 <= k < close ==> url[k] != '}')
            && (forall k :: open + 2 <= k < |url| ==> url[k] != '{')
  {
    var url, open, close := s + "{{" + e + "}}", |s|, |s| + 2 + |e|;
    hide IsSpace;
    assert url[open..open + 2] == "{{" && url[close..close + 2] == "}}" && url[open + 2..close] == e;
    forall k | 0 <= k < open ensures url[k] != '{' {
      assert url[k] == s[k] && s[k] in s;
    }
    forall k | open + 2 <= k < close ensures url[k] != '}' && url[k] != '{' {
      assert url[k] == e[k - open - 2] && e[k - open - 2] in e;
    }
    assert url[close] == '}' && url[close + 1] == '}';
  }

  lemma BrokenFinds(s: string, e: string)
    requires TwoLines(s, e)
    ensures var url, open, close := s + "{{" + e + "}}", |s|, |s| + 2 + |e|;
            && |url| == close + 2 && url[..open] == s && url[open + 2..close] == e && Unquoted(url)
            && Find(url, "{{", 0) == open && Find(url, "}}", open + 2) == close && Matches(url, 0) == []
  {
    var url, open, close := s + "{{" + e + "}}", |s|, |s| + 2 + |e|;
    BrokenShape(s, e);
    StripOk(e);
    assert LineBroken(url[open + 2..close]);
    hide IsSpace, Find, Unquoted, Strip, MatchAt, PairAt, TwoLines, LineBroken;
    FindIs(url, '{', 0, open);
    FindIs(url, '}', open + 2, close);
    BrokenAtOpen(url, open, close);
    forall k: nat | k < |url| ensures MatchAt(url, k).None? {
      NoOtherOpening(url, open, k);
    }
    NextMatchSkips(url, 0, |url|);
    NoMatchAtEnd(url);
  }

  lemma NoOtherOpening(url: string, open: nat, k: nat)
    requires MatchAt(url, open).None? && forall i: nat :: i < open ==> !PairAt(url, "{{", i)
    requires forall i :: open + 2 <= i < |url| ==> url[i] != '{'
    ensures MatchAt(url, k).None?
  {
    hide GroupAt;
    if k > open {
      OnlyOneOpening(url, open, k);
    }
  }

  lemma OnlyOneOpening(url: string, open: nat, k: nat)
    requires open < k && forall i :: open + 2 <= i < |url| ==> url[i] != '{'
    ensures !PairAt(url, "{{", k)
  {
    hide MatchAt;
    assert k + 2 <= |url| ==> url[k..k + 2][1] == url[k + 1];
  }

  lemma NoMatchAtEnd(url: string)
    ensures NextMatch(url, |url|).None?
  {
  }

  /** For example an address computed on two lines. */
  lemma LineBreakIsWrong(tight: string -> bool)
    ensures var url, j := "/x/" + "{{" + "a\n+b" + "}}", Constant("", tight);
            Meaning(Convert(url), j) != Render(url, 0, j) == "/x/"
  {
    var s, e := "/x/", "a\n+b";
    assert Unquoted(s) && '{' !in s && Unquoted(e) && '{' !in e && '}' !in e && e[1] == '\n';
    assert !IsSpace('a') && !IsSpace('b');
    hide Meaning, Convert, Render, IsSpace, Unquoted;
    BrokenExpression(s, e, Constant("", tight));
    ConstantMeaning(e, "", tight);
  }
}

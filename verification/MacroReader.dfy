/** Reading the macro calls back: which template text calls which macro with what
    (scripts/migrate_confirm_buttons.py:134-147, 219-255). */
module MacroReader {
  import opened Options
  import opened PyText
  import opened JinjaUrl
  import opened JinjaParts
  import opened JinjaPattern
  import opened JinjaExactness
  import opened FormExactness
  import opened FormMacro

  // ---------------------------------------------------------------- the reader

  /** A reader that knows escapes: inside a string a backslash takes the next character with it. */
  datatype Reader = At(lex: Lex) | Escaping(lex: Lex)

  const START := At(TOP)

  function Next(r: Reader, c: char): Reader {
    match r
    case Escaping(l) => At(l)
    case At(l) => if l.Lex? && l.quote.Some? && c == '\\' then Escaping(l) else At(Step(l, c))
  }

  function ReadOn(r: Reader, s: string): Reader
    decreases |s|
  {
    if s == [] then r else ReadOn(Next(r, s[0]), s[1..])
  }

  /** The pieces of `s` between the commas outside brackets and strings. */
  function Pieces(r: Reader, s: string): (p: seq<string>)
    ensures |p| >= 1
    decreases |s|
  {
    if s == [] then [[]]
    else
      var rest := Pieces(Next(r, s[0]), s[1..]);
      if r == START && s[0] == ',' then [[]] + rest else [[s[0]] + rest[0]] + rest[1..]
  }

  /** What follows an opening quote, up to the closing one, if that is the end: an
      escaped quote stands for a quote, another escape is left as it is. */
  function StringRest(s: string): Option<string>
    decreases |s|
  {
    if s == "" then None
    else if s[0] == '"' then if |s| == 1 then Some("") else None
    else if s[0] != '\\' then Behind([s[0]], StringRest(s[1..]))
    else if |s| == 1 then None
    else Behind(if s[1] == '"' then "\"" else s[..2], StringRest(s[2..]))
  }

  function Behind(front: string, rest: Option<string>): Option<string> {
    if rest.None? then None else Some(front + rest.value)
  }

  /** The text of an argument that is one double-quoted string. */
  function StringOf(arg: string): Option<string> {
    if arg == "" || arg[0] != '"' then None else StringRest(arg[1..])
  }

  /** The text of the first argument that is given as `key="..."`. */
  function Keyword(args: seq<string>, key: string): Option<string> {
    if args == [] then None
    else if key + "=" <= args[0] then StringOf(args[0][|key| + 1..])
    else Keyword(args[1..], key)
  }

  datatype Call = Call(name: string, args: seq<string>)

  function Parenthesis(s: string, i: nat): (r: nat)
    requires i <= |s|
    ensures i <= r <= |s| && (r < |s| ==> s[r] == '(') && '(' !in s[i..r]
    decreases |s| - i
  {
    if i == |s| || s[i] == '(' then i
    else
      var r := Parenthesis(s, i + 1);
      assert s[i..r] == [s[i]] + s[i + 1..r];
      r
  }

  /** The name before the first parenthesis, and the arguments. */
  function ReadExpression(e: string): Option<Call> {
    var k := Parenthesis(e, 0);
    if k + 2 > |e| || e[|e| - 1] != ')' then None
    else Some(Call(e[..k], StripAll(Pieces(START, e[k + 1..|e| - 1]))))
  }

  /** A call in double braces. */
  function ReadCall(text: string): Option<Call> {
    var t := Strip(text);
    if |t| < 4 || t[..2] != "{{" || t[|t| - 2..] != "}}" then None else ReadExpression(Strip(t[2..|t| - 2]))
  }

  // -------------------------------------------------------------- one string

  /** No quote but behind a backslash, and no backslash without a character behind it. */
  predicate Closed(s: string)
    decreases |s|
  {
    s == "" || if s[0] == '\\' then |s| >= 2 && Closed(s[2..]) else s[0] != '"' && Closed(s[1..])
  }

  /** A backslash never stands before a quote or the end, backslashes taken in pairs. */
  predicate Paired(s: string)
    decreases |s|
  {
    s == "" || if s[0] == '\\' then |s| >= 2 && s[1] != '"' && Paired(s[2..]) else Paired(s[1..])
  }

  /** A text between double quotes is one string exactly if it is closed. */
  lemma {:induction false} LiteralReads(s: string)
    ensures StringOf(Literal(s)).Some? <==> Closed(s)
    ensures '\\' !in s && '"' !in s ==> StringOf(Literal(s)) == Some(s)
    decreases |s|
  {
    assert Literal(s)[1..] == s + "\"";
    LiteralRest(s);
  }

  lemma {:induction false} LiteralRest(s: string)
    ensures StringRest(s + "\"").Some? <==> Closed(s)
    ensures '\\' !in s && '"' !in s ==> StringRest(s + "\"") == Some(s)
    decreases |s|
  {
    var t := s + "\"";
    if s == "" {
      assert t == "\"";
    } else if s[0] != '\\' {
      assert t[1..] == s[1..] + "\"" && s == [s[0]] + s[1..];
      assert s[0] in s && forall c :: c in s[1..] ==> c in s;
      LiteralRest(s[1..]);
    } else if |s| >= 2 {
      assert t[2..] == s[2..] + "\"" && s[0] in s;
      LiteralRest(s[2..]);
    } else {
      assert t[2..] == "" && s[0] in s;
    }
  }

  /** An escaped text between double quotes is one string exactly if its backslashes are
      paired, and without any it is read back as it was. */
  lemma EscapedReads(s: string)
    ensures StringOf(Literal(Escaped(s))).Some? <==> Paired(s)
    ensures '\\' !in s ==> StringOf(Literal(Escaped(s))) == Some(s)
  {
    assert Literal(Escaped(s))[1..] == Escaped(s) + "\"";
    EscapedRest(s);
  }

  lemma {:induction false} EscapedRest(s: string)
    ensures StringRest(Escaped(s) + "\"").Some? <==> Paired(s)
    ensures '\\' !in s ==> StringRest(Escaped(s) + "\"") == Some(s)
    decreases |s|
  {
    var t := Escaped(s) + "\"";
    if s == "" {
      assert t == "\"";
    } else if s[0] == '"' {
      assert t[2..] == Escaped(s[1..]) + "\"" && t[0] == '\\' && t[1] == '"';
      assert s == "\"" + s[1..] && forall c :: c in s[1..] ==> c in s;
      EscapedRest(s[1..]);
    } else if s[0] != '\\' {
      assert t[1..] == Escaped(s[1..]) + "\"" && t[0] == s[0];
      assert s == [s[0]] + s[1..] && forall c :: c in s[1..] ==> c in s;
      EscapedRest(s[1..]);
    } else {
      if |s| >= 2 {
        EscapedRest(s[2..]);
      }
      BackslashRest(s);
    }
  }

  lemma EscapedFirst(s: string)
    requires s != ""
    ensures Escaped(s) == (if s[0] == '"' then "\\\"" else [s[0]]) + Escaped(s[1..])
  {
  }

  lemma RestFirst(t: string)
    requires |t| >= 2
    ensures t[0] == '\\' ==> (StringRest(t).Some? <==> StringRest(t[2..]).Some?)
    ensures t[0] == '"' ==> StringRest(t).None?
  {
  }

  lemma PairedFirst(s: string)
    requires s != "" && s[0] == '\\'
    ensures Paired(s) <==> |s| >= 2 && s[1] != '"' && Paired(s[2..])
  {
  }

  lemma RestOfNothing()
    ensures StringRest("").None? && Escaped("") == ""
  {
  }

  lemma BackslashRest(s: string)
    requires s != "" && s[0] == '\\'
    requires |s| >= 2 ==> (StringRest(Escaped(s[2..]) + "\"").Some? <==> Paired(s[2..]))
    ensures StringRest(Escaped(s) + "\"").Some? <==> Paired(s)
    ensures '\\' in s
  {
    hide Escaped, StringRest, Paired;
    var t := Escaped(s) + "\"";
    EscapedFirst(s);
    PairedFirst(s);
    assert t[0] == '\\' && |t| >= 2;
    RestFirst(t);
    RestOfNothing();
    if |s| == 1 {
      assert s[1..] == "";
      assert t[2..] == "";
    } else {
      BackslashPair(s);
    }
  }

  lemma BackslashPair(s: string)
    requires |s| >= 2 && s[0] == '\\'
    ensures var t, rest := Escaped(s) + "\"", Escaped(s[2..]) + "\"";
            |t| >= 3 && if s[1] == '"' then StringRest(t[2..]).None? else t[2..] == rest
  {
    hide Escaped, StringRest;
    var t, rest := Escaped(s) + "\"", Escaped(s[2..]) + "\"";
    EscapedFirst(s);
    EscapedFirst(s[1..]);
    assert s[1..][1..] == s[2..] && s[1..][0] == s[1];
    if s[1] == '"' {
      assert t == "\\" + ("\\\"" + rest);
      assert t[2..] == "\"" + rest;
      RestFirst(t[2..]);
    } else {
      assert t == "\\" + ([s[1]] + rest);
      assert t[2..] == rest;
    }
  }

  // ---------------------------------------------------------- one argument each

  predicate NoTopComma(r: Reader, s: string)
    decreases |s|
  {
    s == [] || (!(r == START && s[0] == ',') && NoTopComma(Next(r, s[0]), s[1..]))
  }

  /** The reader is where it was after `s`, and found no comma between arguments. */
  predicate Argument(s: string) {
    ReadOn(START, s) == START && NoTopComma(START, s)
  }

  lemma {:induction false} ReadAppend(r: Reader, s: string, t: string)
    ensures ReadOn(r, s + t) == ReadOn(ReadOn(r, s), t)
    ensures NoTopComma(r, s + t) <==> NoTopComma(r, s) && NoTopComma(ReadOn(r, s), t)
    decreases |s|
  {
    if s == [] {
      assert s + t == t;
    } else {
      assert (s + t)[1..] == s[1..] + t;
      hide Next;
      ReadAppend(Next(r, s[0]), s[1..], t);
    }
  }

  lemma {:induction false} PiecesCount(r: Reader, s: string)
    ensures |Pieces(r, s)| == 1 <==> NoTopComma(r, s)
    ensures NoTopComma(r, s) ==> Pieces(r, s) == [s]
    decreases |s|
  {
    if s != [] {
      hide Next;
      PiecesCount(Next(r, s[0]), s[1..]);
      assert [s[0]] + s[1..] == s;
    }
  }

  lemma {:induction false} PiecesSplit(r: Reader, s: string, t: string)
    requires ReadOn(r, s) == START
    ensures Pieces(r, s + "," + t) == Pieces(r, s) + Pieces(START, t)
    decreases |s|
  {
    if s == [] {
      assert (s + "," + t)[1..] == t;
    } else {
      assert (s + "," + t)[1..] == s[1..] + "," + t;
      hide Next;
      PiecesSplit(Next(r, s[0]), s[1..], t);
      BehindFirst(s[0], Pieces(Next(r, s[0]), s[1..]), Pieces(START, t));
    }
  }

  lemma LeadingBlank(s: string)
    ensures StripAll(Pieces(START, " " + s)) == StripAll(Pieces(START, s))
  {
    var r := Pieces(START, s);
    assert (" " + s)[1..] == s && Next(START, ' ') == START;
    assert Pieces(START, " " + s) == [" " + r[0]] + r[1..];
    assert r == [r[0]] + r[1..];
    hide Pieces, Strip;
    StripAllAppend([" " + r[0]], r[1..]);
    StripAllAppend([r[0]], r[1..]);
    StripLead(r[0]);
    assert StripAll([r[0]])[0] == StripAll([" " + r[0]])[0];
  }

  lemma OnePiece(a: string)
    requires Argument(a) && Strip(a) == a
    ensures Pieces(START, a) == [a] && StripAll([a]) == [a] && ReadOn(START, a) == START
  {
    hide Strip;
    PiecesCount(START, a);
    assert StripAll([a])[0] == a;
  }

  /** The arguments are found again. */
  lemma {:induction false} PiecesOfJoin(args: seq<string>)
    requires args != [] && forall a :: a in args ==> Argument(a) && Strip(a) == a
    ensures StripAll(Pieces(START, Join(", ", args))) == args
    decreases |args|
  {
    hide Pieces, Strip, Next, ReadOn, StripAll, Argument;
    var a, rest := args[0], args[1..];
    assert a in args && forall b :: b in rest ==> b in args;
    OnePiece(a);
    if |args| == 1 {
      assert args == [a];
    } else {
      PiecesOfJoin(rest);
      var tail := Join(", ", rest);
      assert Join(", ", args) == a + "," + (" " + tail);
      hide Join;
      OneMorePiece(a, tail);
      assert args == [a] + rest;
    }
  }

  lemma OneMorePiece(a: string, tail: string)
    requires Pieces(START, a) == [a] && StripAll([a]) == [a] && ReadOn(START, a) == START
    ensures StripAll(Pieces(START, a + "," + (" " + tail))) == [a] + StripAll(Pieces(START, tail))
  {
    hide Pieces, Strip, Next, ReadOn, StripAll;
    PiecesSplit(START, a, " " + tail);
    StripAllAppend([a], Pieces(START, " " + tail));
    LeadingBlank(tail);
  }

  lemma {:induction false} PlainRead(l: Lex, s: string)
    requires '\\' !in s
    ensures ReadOn(At(l), s) == At(Scan(l, s))
    decreases |s|
  {
    if s != [] {
      assert s[0] in s && forall c :: c in s[1..] ==> c in s;
      hide Step;
      PlainRead(Step(l, s[0]), s[1..]);
    }
  }

  lemma {:induction false} RestRead(t: string)
    requires StringRest(t).Some?
    ensures var inside := At(Lex(0, Some('"'))); ReadOn(inside, t) == START && NoTopComma(inside, t)
    decreases |t|
  {
    var inside := At(Lex(0, Some('"')));
    if t[0] == '"' {
      assert t[1..] == "";
    } else if t[0] != '\\' {
      RestRead(t[1..]);
    } else {
      RestRead(t[2..]);
      assert t[1..][1..] == t[2..] && Next(Next(inside, t[0]), t[1]) == inside;
    }
  }

  /** A string is one argument, whatever is in it. */
  lemma StringIsArgument(a: string)
    requires StringOf(a).Some?
    ensures Argument(a)
  {
    RestRead(a[1..]);
    assert Next(START, '"') == At(Lex(0, Some('"')));
  }

  lemma {:induction false} RestEnds(t: string)
    requires StringRest(t).Some?
    ensures t[|t| - 1] == '"'
    decreases |t|
  {
    if t[0] == '"' {
    } else if t[0] != '\\' {
      RestEnds(t[1..]);
    } else {
      RestEnds(t[2..]);
    }
  }

  lemma StringStripped(a: string)
    requires StringOf(a).Some?
    ensures Strip(a) == a
  {
    RestEnds(a[1..]);
    assert !IsSpace('"');
    hide IsSpace;
    StripOk(a);
  }

  // ------------------------------------------------------ the URL as an argument

  /** Every expression is in parentheses when compiled, or has no comma outside brackets and strings. */
  predicate CommaFree(matches: seq<Match>) {
    forall m :: m in matches ==> ' ' in Strip(m.group) || NoTopComma(START, Strip(m.group))
  }

  predicate Whole(s: string) {
    Balanced(s) && '\\' !in s
  }

  predicate AllWhole(parts: seq<string>) {
    forall p :: p in parts ==> Whole(p)
  }

  predicate NoCommas(parts: seq<string>) {
    forall p :: p in parts ==> NoTopComma(START, p)
  }

  predicate GroupsWhole(matches: seq<Match>) {
    forall m :: m in matches ==> Whole(Strip(m.group))
  }

  lemma {:induction false} GroupsAreWhole(url: string, i: nat)
    requires i <= |url| && Unquoted(url) && ExpressionsOk(url, i)
    ensures GroupsWhole(Matches(url, i))
    decreases |url| - i
  {
    hide LineBroken, ExpressionOk, Unquoted, Matches, ExpressionsOk, FirstBraces, Whole, Strip;
    if Find(url, "{{", i) == |url| {
      NoMatches(url, i);
    } else {
      var open, close := ExpressionsStep(url, i);
      var body := url[open + 2..close];
      GroupsAreWhole(url, close + 2);
      if LineBroken(body) {
        SkipBroken(url, i, open, close);
      } else {
        var m := MatchStep(url, i, open, close);
        BodyIsWhole(body);
      }
    }
  }

  lemma NoMatches(url: string, i: nat)
    requires i <= |url| && Find(url, "{{", i) == |url|
    ensures Matches(url, i) == []
  {
    NoMatchBefore(url, i, |url|);
    assert MatchAt(url, |url|).None?;
    hide MatchAt;
    NextMatchSkips(url, i, |url|);
  }

  lemma BodyIsWhole(body: string)
    requires ExpressionOk(body) && Unquoted(body)
    ensures Whole(Strip(body))
  {
    StripUnquoted(body);
    hide Strip;
  }

  lemma LiteralWhole(s: string)
    requires Unquoted(s)
    ensures Whole(Literal(s)) && NoTopComma(START, Literal(s))
  {
    LiteralShape(s);
    LiteralReads(s);
    StringIsArgument(Literal(s));
  }

  lemma {:induction false} NoCommaDeeper(depth: nat, quote: Option<char>, e: string)
    requires Scan(Lex(depth, quote), e) != Broken && '\\' !in e
    ensures NoTopComma(At(Lex(depth + 1, quote)), e)
    decreases |e|
  {
    if e != [] {
      assert e[0] in e && forall c :: c in e[1..] ==> c in e;
      var l := Step(Lex(depth, quote), e[0]);
      if l == Broken {
        BrokenStays(e[1..]);
      } else {
        NoCommaDeeper(l.depth, l.quote, e[1..]);
      }
    }
  }

  /** The part made from an expression has a bare comma exactly if the expression has, and no blank. */
  lemma ExpressionComma(group: string)
    requires Whole(Strip(group))
    ensures var p, e := ExpressionPart(group), Strip(group);
            Whole(p) && (NoTopComma(START, p) <==> ' ' in e || NoTopComma(START, e))
  {
    var e := Strip(group);
    if ' ' in e {
      WrappedShape(e);
      WrappedComma(e);
    }
  }

  lemma WrappedComma(e: string)
    requires Whole(e)
    ensures NoTopComma(START, "(" + e + ")")
  {
    var p, inside := "(" + e + ")", Lex(1, None);
    assert p[1..] == e + ")" && Next(START, '(') == At(inside);
    NoCommaDeeper(0, None, e);
    ScanDeeper(0, None, e);
    PlainRead(inside, e);
    hide Scan, Next;
    ReadAppend(At(inside), e, ")");
    assert ")"[1..] == "";
  }

  lemma CommasAppend(a: seq<string>, b: seq<string>)
    ensures NoCommas(a + b) <==> NoCommas(a) && NoCommas(b)
    ensures AllWhole(a + b) <==> AllWhole(a) && AllWhole(b)
  {
    hide NoTopComma, Whole;
    assert forall p :: p in a + b <==> p in a || p in b;
  }

  lemma StaticCommas(s: string)
    requires Unquoted(s)
    ensures AllWhole(StaticPart(s)) && NoCommas(StaticPart(s))
  {
    LiteralWhole(s);
  }

  lemma {:induction false} PartsCommas(url: string, lastEnd: nat, matches: seq<Match>)
    requires InOrder(url, lastEnd, matches) && Unquoted(url) && GroupsWhole(matches)
    ensures var parts := Parts(url, lastEnd, matches); AllWhole(parts) && (NoCommas(parts) <==> CommaFree(matches))
    decreases |matches|
  {
    hide NoTopComma, Whole, Strip, ExpressionPart, StaticPart, Unquoted, AllWhole, NoCommas;
    InOrderBound(url, lastEnd, matches);
    if matches == [] {
      UnquotedSlice(url, lastEnd, |url|);
      assert url[lastEnd..] == url[lastEnd..|url|];
      StaticCommas(url[lastEnd..]);
    } else {
      var m, rest := matches[0], matches[1..];
      var before, part := StaticPart(url[lastEnd..m.start]), ExpressionPart(m.group);
      UnquotedSlice(url, lastEnd, m.start);
      StaticCommas(url[lastEnd..m.start]);
      assert matches == [m] + rest;
      ExpressionComma(m.group);
      PartsCommas(url, m.end, rest);
      CommasAppend(before + [part], Parts(url, m.end, rest));
      CommasAppend(before, [part]);
      OneComma(part);
    }
  }

  lemma OneComma(p: string)
    ensures (NoCommas([p]) <==> NoTopComma(START, p)) && (AllWhole([p]) <==> Whole(p))
  {
    hide NoTopComma, Whole;
    assert p in [p];
  }

  lemma WholeRead(p: string)
    requires Whole(p)
    ensures ReadOn(START, p) == START
  {
    PlainRead(TOP, p);
  }

  lemma TildeRead()
    ensures ReadOn(START, " ~ ") == START && NoTopComma(START, " ~ ")
  {
    assert " ~ "[1..] == "~ " && "~ "[1..] == " " && " "[1..] == "";
    assert Next(START, ' ') == START && Next(START, '~') == START;
  }

  lemma {:induction false} JoinCommas(parts: seq<string>)
    requires parts != [] && AllWhole(parts)
    ensures var t := Join(" ~ ", parts); ReadOn(START, t) == START && (NoTopComma(START, t) <==> NoCommas(parts))
    decreases |parts|
  {
    hide Whole, NoTopComma, ReadOn;
    var p, rest := parts[0], parts[1..];
    assert parts == [p] + rest && p in parts;
    WholeRead(p);
    if |parts| > 1 {
      CommasAppend([p], rest);
      OneComma(p);
      JoinCommas(rest);
      var tail := Join(" ~ ", rest);
      TildeRead();
      ReadAppend(START, p + " ~ ", tail);
      ReadAppend(START, p, " ~ ");
    }
  }

  /** The compiled URL is read as one argument exactly if no bare expression has a comma
      outside brackets and strings. */
  lemma ConvertIsArgument(url: string)
    requires WellFormed(url)
    ensures Argument(Convert(url)) <==> CommaFree(Matches(url, 0))
    ensures Strip(Convert(url)) == Convert(url)
  {
    ConvertStripped(url);
    hide Whole, NoTopComma, ReadOn, Strip, Matches, ExpressionsOk, Find, Unquoted;
    GroupsAreWhole(url, 0);
    MatchesInOrder(url, 0);
    if Matches(url, 0) == [] {
      LiteralWhole(url);
      WholeRead(Literal(url));
    } else {
      SomeParts(url, Matches(url, 0));
      PartsCommas(url, 0, Matches(url, 0));
      JoinCommas(Parts(url, 0, Matches(url, 0)));
    }
  }

  lemma {:induction false} PlainWord(l: Lex, word: string)
    requires l == TOP && forall c :: c in word ==> c !in "'\"([{)]},\\"
    ensures ReadOn(At(l), word) == At(l) && NoTopComma(At(l), word)
    decreases |word|
  {
    if word != "" {
      assert word[0] in word && forall c :: c in word[1..] ==> c in word;
      PlainWord(l, word[1..]);
    }
  }

  /** A tuple without blanks is not one argument: the macro gets what follows the comma as a fifth. */
  lemma TupleSplits()
    ensures var arg := Convert("/x/" + "{{" + "a,b" + "}}");
            !Argument(arg) && StripAll(Pieces(START, arg)) == [Literal("/x/") + " ~ a", "b"]
  {
    hide Convert, Pieces, Strip, Next, ReadOn, NoTopComma, Literal, Balanced;
    BareTuple();
    BareConverts("/x/", "a,b", Jinja(_ => "", _ => false));
    var first := Literal("/x/") + " ~ a";
    assert Literal("/x/") + " ~ " + "a,b" == first + "," + "b";
    FirstOfTuple();
    PiecesSplit(START, first, "b");
    OneLetter();
    StripAllAppend([first], ["b"]);
    PiecesCount(START, first + "," + "b");
  }

  lemma BareTuple()
    ensures Bare("/x/", "a,b", Jinja(_ => "", _ => false))
  {
    var e := "a,b";
    assert '"' !in e && '\\' !in e && '{' !in e && '}' !in e && e[0] != '"' && e[0] != '(';
    assert Unquoted("/x/") && '{' !in "/x/";
    forall c | c in e ensures !IsSpace(c) && c !in "'\"([{)]}~" {
      assert c == 'a' || c == ',' || c == 'b';
    }
    hide IsSpace, Scan, Step, NoTopTilde, Balanced, Unquoted;
    PlainChars(e);
    assert Unquoted(e);
  }

  lemma FirstOfTuple()
    ensures var first := Literal("/x/") + " ~ a";
            Pieces(START, first) == [first] && StripAll([first]) == [first] && ReadOn(START, first) == START
  {
    var p, first := Literal("/x/"), Literal("/x/") + " ~ a";
    FirstRead();
    assert first[0] == '"' && first[|first| - 1] == 'a' && !IsSpace('"') && !IsSpace('a');
    hide ReadOn, NoTopComma, Literal, IsSpace, Strip;
    StripOk(first);
    OnePiece(first);
  }

  lemma FirstRead()
    ensures Argument(Literal("/x/") + " ~ a")
  {
    assert Unquoted("/x/");
    hide ReadOn, NoTopComma, Whole, Literal;
    LiteralWhole("/x/");
    WholeRead(Literal("/x/"));
    PlainWord(TOP, " ~ a");
    ReadAppend(START, Literal("/x/"), " ~ a");
  }

  lemma OneLetter()
    ensures Pieces(START, "b") == ["b"] && StripAll(["b"]) == ["b"]
  {
    assert "b"[1..] == "" && ['b'] + "" == "b" && !IsSpace('b');
    StripOk("b");
    hide Strip;
    assert StripAll(["b"])[0] == "b";
  }

  lemma ConvertStripped(url: string)
    requires WellFormed(url)
    ensures Strip(Convert(url)) == Convert(url)
  {
    hide WellFormed, PartOk, Convert, Meaning, Meanings, Delivered, AllCompose, PartsJoin, PartsOf;
    PartsOfFacts(url, Constant("", _ => true));
    JoinEnds(PartsOf(url));
    hide Strip, IsSpace;
    StripOk(Convert(url));
  }

  // ------------------------------------------------------------ the whole call

  lemma StripFirst(c: char, s: string)
    requires IsSpace(c)
    ensures Strip([c] + s) == Strip(s)
  {
    hide IsSpace, StripRight;
    assert ([c] + s)[1..] == s;
    assert StripLeft([c] + s) == StripLeft(s);
  }

  lemma {:induction false} StripIndent(indent: string, s: string)
    requires forall c :: c in indent ==> IsSpace(c)
    ensures Strip(indent + s) == Strip(s)
    decreases |indent|
  {
    hide Strip, IsSpace;
    if indent == "" {
      assert indent + s == s;
    } else {
      var rest := indent[1..];
      assert indent[0] in indent && forall c :: c in rest ==> c in indent;
      assert indent + s == [indent[0]] + (rest + s);
      StripIndent(rest, s);
      StripFirst(indent[0], rest + s);
    }
  }

  lemma {:induction false} ParenthesisAt(name: string, tail: string, i: nat)
    requires i <= |name| && '(' !in name
    ensures Parenthesis(name + "(" + tail, i) == |name|
    decreases |name| - i
  {
    if i < |name| {
      assert (name + "(" + tail)[i] == name[i] && name[i] in name;
      ParenthesisAt(name, tail, i + 1);
    }
  }

  lemma ExpressionShape(name: string, inner: string)
    requires '(' !in name
    ensures ReadExpression(name + "(" + inner + ")") == Some(Call(name, StripAll(Pieces(START, inner))))
  {
    hide Pieces, Strip;
    var e := name + "(" + inner + ")";
    assert e == name + "(" + (inner + ")");
    ParenthesisAt(name, inner + ")", 0);
    hide Parenthesis;
    assert e[|name| + 1..|e| - 1] == inner && e[..|name|] == name;
  }

  lemma BracesAround(e: string)
    ensures var t := "{{ " + e + " }}";
            |t| == |e| + 6 && t[0] == '{' && t[|t| - 1] == '}' && t[..2] == "{{" && t[|t| - 2..] == "}}"
            && t[2..|t| - 2] == " " + e + " "
  {
  }

  lemma CallText(indent: string, name: string, inner: string)
    ensures indent + "{{ " + name + "(" + inner + ") }}" == indent + ("{{ " + (name + "(" + inner + ")") + " }}")
  {
    var head := "{{ " + name + "(" + inner;
    assert head + ") }}" == "{{ " + (name + "(" + inner + ")") + " }}";
    assert indent + "{{ " + name + "(" + inner + ") }}" == indent + (head + ") }}");
  }

  lemma BracesRead(indent: string, e: string)
    requires forall c :: c in indent ==> IsSpace(c)
    requires e != "" && !IsSpace(e[0]) && !IsSpace(e[|e| - 1])
    ensures ReadCall(indent + ("{{ " + e + " }}")) == ReadExpression(e)
  {
    assert !IsSpace('{') && !IsSpace('}');
    hide IsSpace, Strip, ReadExpression;
    var t := "{{ " + e + " }}";
    StripIndent(indent, t);
    BracesAround(e);
    StripOk(t);
    StripPart(" ", e, " ");
  }

  /** What stands between the parentheses is found. */
  lemma CallShape(indent: string, name: string, inner: string)
    requires (forall c :: c in indent ==> IsSpace(c)) && '(' !in name && (name != "" ==> !IsSpace(name[0]))
    ensures ReadCall(indent + "{{ " + name + "(" + inner + ") }}") == Some(Call(name, StripAll(Pieces(START, inner))))
  {
    assert !IsSpace('(') && !IsSpace(')');
    hide IsSpace, Pieces, ReadCall, ReadExpression, StripAll;
    var e := name + "(" + inner + ")";
    assert e[0] == if name == "" then '(' else name[0];
    CallText(indent, name, inner);
    BracesRead(indent, e);
    ExpressionShape(name, inner);
  }

  // ------------------------------------------------------- what the script writes

  /** Nothing that would end a string or a name early. */
  predicate Readable(d: Details, message: string, url: string) {
    && '(' !in d.macroName && (d.macroName != "" ==> !IsSpace(d.macroName[0]))
    && Unquoted(d.caption) && Unquoted(d.size) && Unquoted(d.icon) && '\\' !in d.title && '\\' !in message
    && WellFormed(url) && CommaFree(Matches(url, 0))
  }

  /** The size is given unless it is the usual one. */
  function GivenSize(d: Details): Option<string> {
    if d.size == "md" then None else Some(d.size)
  }

  /** The icon that a macro shows unless it is told another. */
  function UsualIcon(macroName: string): Option<string> {
    match macroName
    case "danger_button" => Some("delete")
    case "warning_button" => Some("warning")
    case _ => None
  }

  /** So the icon is given if the macro has one and it is another. */
  function GivenIcon(d: Details): Option<string> {
    if UsualIcon(d.macroName) in {None, Some(d.icon)} then None else Some(d.icon)
  }

  lemma LiteralArgument(s: string)
    requires Unquoted(s)
    ensures var a := Literal(s); Argument(a) && Strip(a) == a && StringOf(a) == Some(s)
  {
    LiteralReads(s);
    StringIsArgument(Literal(s));
    StringStripped(Literal(s));
  }

  lemma EscapedArgument(s: string)
    requires '\\' !in s
    ensures var a := Literal(Escaped(s)); Argument(a) && Strip(a) == a && StringOf(a) == Some(s)
  {
    EscapedReads(s);
    StringIsArgument(Literal(Escaped(s)));
    StringStripped(Literal(Escaped(s)));
  }

  /** `key="..."`. */
  lemma KeywordArgument(key: string, s: string)
    requires key != "" && !IsSpace(key[0]) && (forall c :: c in key ==> c !in "'\"([{)]},\\") && Unquoted(s)
    ensures var a := key + "=" + Literal(s);
            Argument(a) && Strip(a) == a && key + "=" <= a && a[|key| + 1..] == Literal(s)
  {
    var word, a := key + "=", key + "=" + Literal(s);
    PlainWord(TOP, word);
    LiteralArgument(s);
    hide ReadOn, NoTopComma, StringOf;
    ReadAppend(START, word, Literal(s));
    assert !IsSpace('"') && a[0] == key[0] && a[|a| - 1] == '"';
    hide IsSpace, Strip;
    StripOk(a);
  }

  /** The optional arguments, as far as they are given. */
  predicate Extras(extras: seq<string>, size: Option<string>, icon: Option<string>) {
    extras == (if size.Some? then ["size=" + Literal(size.value)] else [])
              + (if icon.Some? then ["icon=" + Literal(icon.value)] else [])
  }

  lemma ExtrasRead(extras: seq<string>, size: Option<string>, icon: Option<string>)
    requires Extras(extras, size, icon)
    requires (size.Some? ==> Unquoted(size.value)) && (icon.Some? ==> Unquoted(icon.value))
    ensures forall a :: a in extras ==> Argument(a) && Strip(a) == a
    ensures Keyword(extras, "size") == size && Keyword(extras, "icon") == icon
  {
    if size.Some? {
      SizeArgument(size.value);
    }
    if icon.Some? {
      IconArgument(icon.value);
    }
    hide Argument, Strip, Literal, Unquoted, StringOf;
    assert extras != [] ==> extras == [extras[0]] + extras[1..];
  }

  lemma SizeArgument(size: string)
    requires Unquoted(size)
    ensures var a := "size=" + Literal(size);
            Argument(a) && Strip(a) == a && "size" + "=" <= a && !("icon" + "=" <= a) && StringOf(a[5..]) == Some(size)
  {
    hide Argument, Strip, Unquoted, StringOf;
    KeywordArgument("size", size);
    LiteralArgument(size);
    var a := "size=" + Literal(size);
    assert "size" + "=" == "size=" && a[0] == 's';
  }

  lemma IconArgument(icon: string)
    requires Unquoted(icon)
    ensures var a := "icon=" + Literal(icon);
            Argument(a) && Strip(a) == a && "icon" + "=" <= a && !("size" + "=" <= a) && StringOf(a[5..]) == Some(icon)
  {
    hide Argument, Strip, Unquoted, StringOf;
    KeywordArgument("icon", icon);
    LiteralArgument(icon);
    var a := "icon=" + Literal(icon);
    assert "icon" + "=" == "icon=" && a[0] == 'i';
  }

  /** What a call says. */
  predicate Says(call: Call, d: Details, message: string, url: string) {
    var args := call.args;
    && call.name == d.macroName
    && |args| == 4 + (if GivenSize(d).Some? then 1 else 0) + (if GivenIcon(d).Some? then 1 else 0)
    && StringOf(args[0]) == Some(d.caption)
    && StringOf(args[1]) == Some(d.title)
    && StringOf(args[2]) == Some(message)
    && args[3] == Convert(url)
    && Keyword(args[4..], "size") == GivenSize(d)
    && Keyword(args[4..], "icon") == GivenIcon(d)
  }

  lemma ArgumentsSay(d: Details, message: string, url: string)
    requires Readable(d, message, url)
    ensures forall a :: a in Arguments(d, message, url) ==> Argument(a) && Strip(a) == a
    ensures Says(Call(d.macroName, Arguments(d, message, url)), d, message, url)
  {
    hide Argument, StringOf, Strip, Convert, WellFormed, CommaFree, Escaped, Literal, Unquoted, Keyword, IsSpace;
    LiteralArgument(d.caption);
    EscapedArgument(d.title);
    EscapedArgument(message);
    ConvertIsArgument(url);
    var args := Arguments(d, message, url);
    assert args == [args[0], args[1], args[2], args[3]] + args[4..];
    assert Extras(args[4..], GivenSize(d), GivenIcon(d));
    ExtrasRead(args[4..], GivenSize(d), GivenIcon(d));
  }

  /** The call reads back: the macro; button caption, title and message in this order; the
      compiled URL; the size unless it is the usual; the icon if the macro has one and it
      is another; and nothing else. */
  lemma CallReadsBack(d: Details, message: string, url: string, indent: string)
    requires Readable(d, message, url) && forall c :: c in indent ==> IsSpace(c)
    ensures var read := ReadCall(MacroCall(d, message, url, indent)); read.Some? && Says(read.value, d, message, url)
  {
    var args := Arguments(d, message, url);
    assert args != [];
    ArgumentsSay(d, message, url);
    hide Arguments, Argument, StringOf, Keyword, Pieces, Strip, ReadCall, StripAll, WellFormed, CommaFree, Unquoted;
    hide Says;
    PiecesOfJoin(args);
    CallShape(indent, d.macroName, Join(", ", args));
  }

  /** The URL argument is worth what the template renders to, for all values of the
      expressions, exactly if the URL is composable. */
  lemma CallMeans(d: Details, message: string, url: string, indent: string, tight: string -> bool)
    requires Readable(d, message, url) && forall c :: c in indent ==> IsSpace(c)
    ensures var read := ReadCall(MacroCall(d, message, url, indent));
            read.Some? && |read.value.args| >= 4
            && ((forall value: string -> string ::
                  Meaning(read.value.args[3], Jinja(value, tight)) == Render(url, 0, Jinja(value, tight)))
                <==> Composable(url, tight))
  {
    hide Readable, Meaning, Render, Composable, MacroCall, ReadCall, Keyword, StringOf, IsSpace, Convert;
    CallReadsBack(d, message, url, indent);
    assert WellFormed(url) by { ReadableUrl(d, message, url); }
    hide WellFormed;
    ConvertExactly(url, tight);
  }

  lemma ReadableUrl(d: Details, message: string, url: string)
    requires Readable(d, message, url)
    ensures WellFormed(url)
  {
  }

  // ------------------------------------------------------------- and for a block

  /** `url` stands between the quotes of the first `action="` that is closed, from `i` on at `k`. */
  ghost predicate FirstAction(block: string, i: nat, k: nat, url: string) {
    && i <= k && '"' !in url && OccursAt(block, "action=\"" + url + "\"", k)
    && forall e: nat, other :: i <= e < k && '"' !in other ==> !OccursAt(block, "action=\"" + other + "\"", e)
  }

  lemma {:induction false} FirstActionTaken(block: string, i: nat, k: nat, url: string)
    requires FirstAction(block, i, k, url)
    ensures ActionFrom(block, i) == Some(url)
    decreases k - i
  {
    hide OccursAt, QuoteFrom;
    assert OccursAt(block, Action(url), k);
    ActionLength(block, k, url);
    if i < k {
      if OccursAt(block, "action=\"", i) && QuoteFrom(block, i + 8) < |block| {
        SomeAction(block, i);
        assert false;
      }
      FirstActionTaken(block, i + 1, k, url);
    }
  }

  lemma SomeAction(block: string, i: nat)
    requires i + 8 <= |block| && OccursAt(block, "action=\"", i) && QuoteFrom(block, i + 8) < |block|
    ensures exists url :: '"' !in url && OccursAt(block, Action(url), i)
  {
    ActionTaken(block, i);
    hide OccursAt, Action;
    assert '"' !in block[i + 8..QuoteFrom(block, i + 8)];
  }

  lemma ActionLength(block: string, k: nat, url: string)
    requires '"' !in url && OccursAt(block, Action(url), k)
    ensures k + 8 + |url| < |block| && OccursAt(block, "action=\"", k) && QuoteFrom(block, k + 8) == k + 8 + |url|
    ensures block[k + 8..k + 8 + |url|] == url
  {
    ActionShape(block, k, url);
    hide QuoteFrom;
    var word := Action(url);
    SliceOfSlice(block, k, k + |word|, 8, 8 + |url|);
    assert word[8..8 + |url|] == url;
  }

  /** The indentation is everything before the first character that is no blank or tab. */
  lemma {:induction false} IndentIs(blanks: string, rest: string)
    requires (forall c :: c in blanks ==> c == ' ' || c == '\t') && (rest != "" ==> rest[0] != ' ' && rest[0] != '\t')
    ensures Indent(blanks + rest) == blanks
    decreases |blanks|
  {
    if blanks == "" {
      assert blanks + rest == rest;
    } else {
      assert blanks[0] in blanks && forall c :: c in blanks[1..] ==> c in blanks;
      assert (blanks + rest)[1..] == blanks[1..] + rest;
      IndentIs(blanks[1..], rest);
    }
  }

  /** A form block is replaced by a call that says what was derived for its first action,
      as far to the right as the block was. */
  lemma ScriptWrites(judge: Judge, message: string, blanks: string, rest: string, k: nat, url: string)
    requires (forall c :: c in blanks ==> c == ' ' || c == '\t') && (rest != "" ==> rest[0] != ' ' && rest[0] != '\t')
    requires FirstAction(blanks + rest, 0, k, url)
    requires Readable(judge(message, blanks + rest, url), message, url)
    ensures var written := Script(judge)(message, blanks + rest);
            && written.Some? && blanks + "{{ " <= written.value
            && var read := ReadCall(written.value);
               read.Some? && Says(read.value, judge(message, blanks + rest, url), message, url)
  {
    var d := judge(message, blanks + rest, url);
    FirstActionTaken(blanks + rest, 0, k, url);
    IndentIs(blanks, rest);
    assert forall c :: c in blanks ==> IsSpace(c);
    hide ActionFrom, Indent, FirstAction, Readable, Says, ReadCall, IsSpace;
    CallReadsBack(d, message, url, blanks);
    CallBegins(d, message, url, blanks);
  }

  lemma CallBegins(d: Details, message: string, url: string, indent: string)
    ensures indent + "{{ " <= MacroCall(d, message, url, indent)
  {
    hide Arguments, Join;
  }
}

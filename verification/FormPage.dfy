/** A page whose forms are disjoint and which the rewriting nevertheless destroys
    (scripts/migrate_confirm_buttons.py:150-184, 195-259). */
module FormPage {
  import opened Options
  import opened PyText
  import opened FormRewriter
  import opened FormExactness
  import opened FormMacro

  /** No form tag begins in the text, whatever follows it. */
  predicate Inert(s: string) {
    forall i :: 0 <= i < |s| && s[i] == '<' ==> i + 1 < |s| && s[i + 1] !in "fF/"
  }

  /** A form, some element `u` behind it on the line of its closing tag, a second form
      there, and a third form further on. */
  function Page(x: string, u: string, v: string, y: string, z: string): string {
    Front(x) + Stray(u) + "<form " + v + Back(y, z)
  }

  function Front(x: string): string {
    "<form " + x
  }

  function Stray(u: string): string {
    "</form>" + u
  }

  function Back(y: string, z: string): string {
    "</form>" + Tail(y, z)
  }

  function Tail(y: string, z: string): string {
    y + ("<form " + z + "</form>")
  }

  lemma NoTagAt(s: string, i: nat)
    requires i >= |s| || s[i] != '<' || (i + 1 < |s| && s[i + 1] !in "fF/")
    ensures !OpenAt(s, i) && !CloseAt(s, i)
  {
    if i + 5 <= |s| {
      assert "<form"[0] == '<' && "<form"[1] == 'f' && "</form>"[0] == '<' && "</form>"[1] == '/';
    }
  }

  /** A tag of two pieces lies in one of them if the second begins with an angle bracket. */
  lemma TagInSegments(x: string, y: string, i: nat)
    requires y != "" && y[0] == '<'
    ensures OpenAt(x + y, i) <==> if i < |x| then OpenAt(x, i) else OpenAt(y, i - |x|)
    ensures CloseAt(x + y, i) <==> if i < |x| then CloseAt(x, i) else CloseAt(y, i - |x|)
  {
    var s := x + y;
    assert s[0..|x|] == x && s[|x|..|s|] == y && s[|x|] == '<';
    OpenInSlice(s, 0, |x|, i);
    CloseInSlice(s, 0, |x|, i);
    if i >= |x| {
      OpenInSlice(s, |x|, |s|, i - |x|);
      CloseInSlice(s, |x|, |s|, i - |x|);
    } else {
      NoBracketInside(s, i, |x|);
    }
  }

  lemma NoBracketInside(s: string, i: nat, k: nat)
    requires i < k < |s| && s[k] == '<'
    ensures OpenAt(s, i) ==> i + 6 <= k
    ensures CloseAt(s, i) ==> i + 7 <= k
  {
    var n := k - i;
    assert Lower(s[i + n]) == '<' && !IsSpace('<');
    if n < 5 {
      assert "<form"[n] != '<';
    }
    if n < 7 {
      assert "</form>"[n] != '<';
    }
  }

  lemma OpenSegment(t: string)
    requires Inert(t)
    ensures forall i: nat :: OpenAt("<form " + t, i) <==> i == 0
    ensures forall i: nat :: !CloseAt("<form " + t, i)
  {
    var s := "<form " + t;
    assert IsSpace(' ') && OpenAt(s, 0);
    forall i: nat ensures i > 0 ==> !OpenAt(s, i)
      ensures !CloseAt(s, i)
    {
      if i == 0 {
        assert Lower(s[1]) == 'f' && "</form>"[1] == '/';
      } else {
        assert i >= 6 && i < |s| ==> s[i] == t[i - 6] && (i + 1 < |s| ==> s[i + 1] == t[i - 5]);
        NoTagAt(s, i);
      }
    }
  }

  lemma CloseSegment(t: string)
    requires Inert(t)
    ensures forall i: nat :: CloseAt("</form>" + t, i) <==> i == 0
    ensures forall i: nat :: !OpenAt("</form>" + t, i)
  {
    var s := "</form>" + t;
    assert CloseAt(s, 0);
    forall i: nat ensures i > 0 ==> !CloseAt(s, i)
      ensures !OpenAt(s, i)
    {
      if i == 0 {
        assert Lower(s[1]) == '/' && "<form"[1] == 'f';
      } else {
        assert i >= 7 && i < |s| ==> s[i] == t[i - 7] && (i + 1 < |s| ==> s[i + 1] == t[i - 6]);
        NoTagAt(s, i);
      }
    }
  }

  /** The pieces of the page: line breaks only where they have to be, nothing that looks like a form tag. */
  predicate PageParts(x: string, u: string, v: string, y: string, z: string) {
    && x != "" && x[|x| - 1] == '\n' && '\n' !in u
    && Inert(x) && Inert(u) && Inert(v) && Inert(y) && Inert(z)
  }

  /** All the tags of the end of the page. */
  lemma BackTags(y: string, z: string)
    requires Inert(y) && Inert(z)
    ensures var s, c, d := Back(y, z), 7 + |y|, 13 + |y| + |z|;
            && |s| == d + 7 && s[0] == '<'
            && (forall i: nat :: OpenAt(s, i) <==> i == c) && (forall i: nat :: CloseAt(s, i) <==> i == 0 || i == d)
  {
    var s := Back(y, z);
    var a, b, c := "</form>" + y, "<form " + z, "</form>" + "";
    assert "</form>" + "" == "</form>";
    CloseSegment(y);
    OpenSegment(z);
    CloseSegment("");
    assert s == a + (b + c) && b[0] == '<' && c[0] == '<' && (b + c)[0] == '<';
    forall i: nat
      ensures OpenAt(s, i) <==> i == 7 + |y|
      ensures CloseAt(s, i) <==> i == 0 || i == 13 + |y| + |z|
    {
      TagInSegments(a, b + c, i);
      if i >= |a| {
        TagInSegments(b, c, i - |a|);
      }
    }
  }

  lemma PageShape(x: string, u: string, v: string, y: string, z: string)
    requires PageParts(x, u, v, y, z)
    ensures var s, c, o, e := Page(x, u, v, y, z), 6 + |x|, 13 + |x| + |u|, 19 + |x| + |u| + |v|;
            && |s| == e + |Back(y, z)| && s[c..o] == Stray(u) && s[c - 1] == '\n' && s[..c] == Front(x)
            && s[e..] == Back(y, z)
  {
    hide Inert;
    var s := Page(x, u, v, y, z);
    assert s == Front(x) + (Stray(u) + ("<form " + v + Back(y, z)));
    assert s[6 + |x| - 1] == Front(x)[|Front(x)| - 1];
  }

  function Second(v: string, y: string, z: string): string {
    "<form " + v + Back(y, z)
  }

  lemma SecondTags(v: string, y: string, z: string, i: nat)
    requires Inert(v) && Inert(y) && Inert(z) && i <= 6 + |v|
    ensures Second(v, y, z)[0] == '<'
    ensures i < 6 + |v| ==> (OpenAt(Second(v, y, z), i) <==> i == 0)
    ensures CloseAt(Second(v, y, z), i) <==> i == 6 + |v|
  {
    OpenSegment(v);
    BackTags(y, z);
    hide Inert, OpenAt, CloseAt, Back;
    TagInSegments("<form " + v, Back(y, z), i);
  }

  lemma StrayTags(u: string, v: string, y: string, z: string, i: nat)
    requires Inert(u) && Inert(v) && Inert(y) && Inert(z) && i <= 13 + |u| + |v|
    ensures Stray(u)[0] == '<'
    ensures i < 13 + |u| + |v| ==> (OpenAt(Stray(u) + Second(v, y, z), i) <==> i == 7 + |u|)
    ensures CloseAt(Stray(u) + Second(v, y, z), i) <==> i == 0 || i == 13 + |u| + |v|
  {
    CloseSegment(u);
    assert |Stray(u)| == 7 + |u| && Second(v, y, z)[0] == '<';
    hide Inert, OpenAt, CloseAt, Second;
    TagInSegments(Stray(u), Second(v, y, z), i);
    if i >= 7 + |u| {
      SecondTags(v, y, z, i - 7 - |u|);
    }
  }

  /** All the tags of the page up to the second form. */
  lemma PageTags(x: string, u: string, v: string, y: string, z: string, i: nat)
    requires PageParts(x, u, v, y, z) && i <= 19 + |x| + |u| + |v|
    ensures var s, c, o, e := Page(x, u, v, y, z), 6 + |x|, 13 + |x| + |u|, 19 + |x| + |u| + |v|;
            && (i < e ==> (OpenAt(s, i) <==> i == 0 || i == o))
            && (CloseAt(s, i) <==> i == c || i == e)
  {
    OpenSegment(x);
    assert |Front(x)| == 6 + |x| && (Stray(u) + Second(v, y, z))[0] == '<';
    assert Page(x, u, v, y, z) == Front(x) + (Stray(u) + Second(v, y, z));
    hide Inert, OpenAt, CloseAt, Second, Stray, Page;
    TagInSegments(Front(x), Stray(u) + Second(v, y, z), i);
    if i >= 6 + |x| {
      StrayTags(u, v, y, z, i - 6 - |x|);
    }
  }

  /** The stray element is in no form: the first one is closed in front of it. */
  lemma StrayHasNoForm(x: string, u: string, v: string, y: string, z: string, a: nat)
    requires PageParts(x, u, v, y, z) && 13 + |x| <= a <= 13 + |x| + |u|
    ensures EnclosingForm(Page(x, u, v, y, z), a).None?
  {
    var s, c := Page(x, u, v, y, z), 6 + |x|;
    PageTags(x, u, v, y, z, c);
    hide Inert, OpenAt, CloseAt, Page, EnclosingForm;
    InsideForm(s, a);
    if q: nat :| OpensAndStays(s, a, q) {
      PageTags(x, u, v, y, z, q);
    }
  }

  /** The second form reaches back to the start of its line. */
  lemma SecondForm(x: string, u: string, v: string, y: string, z: string, b: nat)
    requires PageParts(x, u, v, y, z) && 19 + |x| + |u| <= b <= 19 + |x| + |u| + |v|
    ensures EnclosingForm(Page(x, u, v, y, z), b) == Some(Span(6 + |x|, 26 + |x| + |u| + |v|))
  {
    hide Page, Back, Front, Encloses, EnclosingForm, Inert, PageParts, Stray;
    assert '\n' !in u by {
      PartsHaveNoBreak(x, u, v, y, z);
    }
    PageShape(x, u, v, y, z);
    SecondEncloses(x, u, v, y, z, b);
    FormOnLine(Page(x, u, v, y, z), 6 + |x|, 13 + |x| + |u|, 19 + |x| + |u| + |v|, u, b);
  }

  lemma PartsHaveNoBreak(x: string, u: string, v: string, y: string, z: string)
    requires PageParts(x, u, v, y, z)
    ensures '\n' !in u
  {
  }

  lemma FormOnLine(s: string, c: nat, o: nat, e: nat, u: string, b: nat)
    requires Encloses(s, b, o, e) && 1 <= c <= o <= |s| && s[c - 1] == '\n' && s[c..o] == Stray(u) && '\n' !in u
    ensures EnclosingForm(s, b) == Some(Span(c, e + 7))
  {
    hide EnclosingForm, Encloses, Stray;
    FindsForm(s, b, o, e);
    LineOfStray(s, c, o, u);
  }

  lemma SecondEncloses(x: string, u: string, v: string, y: string, z: string, b: nat)
    requires PageParts(x, u, v, y, z) && 19 + |x| + |u| <= b <= 19 + |x| + |u| + |v|
    ensures Encloses(Page(x, u, v, y, z), b, 13 + |x| + |u|, 19 + |x| + |u| + |v|)
  {
    var s, o, e := Page(x, u, v, y, z), 13 + |x| + |u|, 19 + |x| + |u| + |v|;
    assert e < |s| by {
      PageShape(x, u, v, y, z);
      BackTags(y, z);
    }
    hide PageParts, OpenAt, CloseAt, Page;
    PageTags(x, u, v, y, z, o);
    PageTags(x, u, v, y, z, e);
    forall i: nat | o < i && i + 6 <= b ensures !OpenAt(s, i) {
      PageTags(x, u, v, y, z, i);
    }
    forall i: nat | o <= i < e ensures !CloseAt(s, i) {
      PageTags(x, u, v, y, z, i);
    }
  }

  lemma LineOfStray(s: string, c: nat, o: nat, u: string)
    requires 1 <= c <= o <= |s| && s[c - 1] == '\n' && s[c..o] == Stray(u) && '\n' !in u
    ensures LineStart(s, o) == c
  {
    LineStartFacts(s, o);
    forall k | c <= k < o ensures s[k] != '\n' {
      assert s[k] == s[c..o][k - c];
      assert k - c >= 7 ==> s[k] == u[k - c - 7] && u[k - c - 7] in u;
    }
  }

  /** The page once the second form is replaced. */
  function Replaced(x: string, call: string, y: string, z: string): string {
    Front(x) + call + Tail(y, z)
  }

  /** Now one form seems to reach from the first opening tag to the last closing one. */
  lemma ReplacedIsOneForm(x: string, call: string, y: string, z: string, a: nat)
    requires Inert(x) && Inert(y) && Inert(z) && '<' !in call
    requires 6 + |x| <= a <= 6 + |x| + |call|
    ensures EnclosingForm(Replaced(x, call, y, z), a) == Some(Span(0, |Replaced(x, call, y, z)|))
  {
    var t := x + call + y;
    NoBracketIsInert(call);
    InertConcat(x, call);
    InertConcat(x + call, y);
    assert Replaced(x, call, y, z) == ("<form " + t) + (("<form " + z) + "</form>");
    hide Inert, Replaced, EnclosingForm;
    OneForm(t, z, a);
  }

  lemma OneForm(t: string, z: string, a: nat)
    requires Inert(t) && Inert(z) && 6 <= a <= 6 + |t|
    ensures var s := ("<form " + t) + (("<form " + z) + "</form>"); EnclosingForm(s, a) == Some(Span(0, |s|))
  {
    hide Inert, Encloses, EnclosingForm;
    OneFormEncloses(t, z, a);
    FormFromStart(("<form " + t) + (("<form " + z) + "</form>"), 12 + |t| + |z|, a);
  }

  lemma FormFromStart(s: string, d: nat, a: nat)
    requires Encloses(s, a, 0, d) && |s| == d + 7
    ensures EnclosingForm(s, a) == Some(Span(0, |s|))
  {
    FindsForm(s, a, 0, d);
    LineStartFacts(s, 0);
  }

  lemma OneFormEncloses(t: string, z: string, a: nat)
    requires Inert(t) && Inert(z) && 6 <= a <= 6 + |t|
    ensures Encloses(("<form " + t) + (("<form " + z) + "</form>"), a, 0, 12 + |t| + |z|)
  {
    var s, d := ("<form " + t) + (("<form " + z) + "</form>"), 12 + |t| + |z|;
    assert |s| == d + 7;
    hide Inert, OpenAt, CloseAt;
    OneFormTags(t, z, 0);
    OneFormTags(t, z, d);
    forall i: nat | 0 < i && i + 6 <= a ensures !OpenAt(s, i) {
      OneFormTags(t, z, i);
    }
    forall i: nat | i < d ensures !CloseAt(s, i) {
      OneFormTags(t, z, i);
    }
  }

  lemma OneFormTags(t: string, z: string, i: nat)
    requires Inert(t) && Inert(z)
    ensures var s := ("<form " + t) + (("<form " + z) + "</form>");
            && (OpenAt(s, i) <==> i == 0 || i == 6 + |t|) && (CloseAt(s, i) <==> i == |s| - 7)
  {
    var p, q, r := "<form " + t, "<form " + z, "</form>" + "";
    OpenSegment(t);
    OpenSegment(z);
    CloseSegment("");
    assert r == "</form>" && q[0] == '<' && r[0] == '<' && (q + r)[0] == '<' && |p| == 6 + |t| && |q| == 6 + |z|;
    hide Inert, OpenAt, CloseAt;
    TagInSegments(p, q + r, i);
    if i >= |p| {
      TagInSegments(q, r, i - |p|);
    }
  }

  lemma InertConcat(x: string, y: string)
    requires Inert(x) && Inert(y)
    ensures Inert(x + y)
  {
    var t := x + y;
    forall i | 0 <= i < |t| && t[i] == '<' ensures i + 1 < |t| && t[i + 1] !in "fF/" {
      if i < |x| {
        assert x[i] == '<' && t[i + 1] == x[i + 1];
      } else {
        assert y[i - |x|] == '<' && t[i + 1] == y[i - |x| + 1];
      }
    }
  }

  lemma NoBracketIsInert(s: string)
    requires '<' !in s
    ensures Inert(s)
  {
    assert forall i :: 0 <= i < |s| ==> s[i] in s;
  }

  /** A replacement such as `{{ danger_button("Delete", ...) }}`. */
  predicate IsMacroCall(call: string) {
    |call| >= 20 && "{{ " <= call && call[|call| - 1] == '}' && '<' !in call
  }

  predicate GivesMacroCall(rewrite: Rewrite, message: string, block: string) {
    rewrite(message, block).Some? && IsMacroCall(rewrite(message, block).value)
  }

  /** On such a page the loop takes all three forms: the stray match, whose turn comes
      last, finds a form from the first opening tag to the last closing tag. */
  lemma StrayTakesAll(x: string, u: string, v: string, y: string, z: string, a: Match, b: Match, rewrite: Rewrite)
    requires PageParts(x, u, v, y, z) && 19 + |x| + |u| <= b.pos <= 19 + |x| + |u| + |v|
    requires 13 + |x| <= a.pos <= 13 + |x| + |u| && a.pos <= 26 + |x|
    requires 26 + |x| + |u| + |v| <= |Page(x, u, v, y, z)|
    requires GivesMacroCall(rewrite, b.message, Page(x, u, v, y, z)[6 + |x|..26 + |x| + |u| + |v|])
    requires var call := rewrite(b.message, Page(x, u, v, y, z)[6 + |x|..26 + |x| + |u| + |v|]);
             GivesMacroCall(rewrite, a.message, Replaced(x, call.value, y, z))
    ensures var page := Page(x, u, v, y, z);
            && FormsDisjoint(page, [a, b])
            && RewrittenFrom(page, [a, b], 0, rewrite) != Substituted(page, 0, [a, b], rewrite)
    ensures var page := Page(x, u, v, y, z);
            exists call, call' ::
              && IsMacroCall(call) && Substituted(page, 0, [a, b], rewrite) == Replaced(x, call, y, z)
              && IsMacroCall(call') && RewrittenFrom(page, [a, b], 0, rewrite) == call'
  {
    hide EnclosingForm, Page, Back, Stray, Front, PageParts, RewriteOne, Replaced, RewrittenFrom, Substituted;
    StrayHasNoForm(x, u, v, y, z, a.pos);
    SecondForm(x, u, v, y, z, b.pos);
    PageShape(x, u, v, y, z);
    PartsAreInert(x, u, v, y, z);
    hide Inert;
    var page, e := Page(x, u, v, y, z), 26 + |x| + |u| + |v|;
    BackRest(page, e - 7, y, z);
    var call := rewrite(b.message, page[6 + |x|..e]).value;
    SecondReplaced(page, x, e, y, z, b, rewrite);
    ReplacedIsOneForm(x, call, y, z, a.pos);
    WholeReplaced(Replaced(x, call, y, z), a, rewrite);
    TwoMatches(page, a, b, rewrite);
    StartsWithTag(x, call, y, z);
    MacroStart(rewrite(a.message, Replaced(x, call, y, z)).value);
  }

  lemma PartsAreInert(x: string, u: string, v: string, y: string, z: string)
    requires PageParts(x, u, v, y, z)
    ensures Inert(x) && Inert(y) && Inert(z)
  {
  }

  lemma MacroStart(call: string)
    requires IsMacroCall(call)
    ensures call[0] == '{'
  {
  }

  lemma StartsWithTag(x: string, call: string, y: string, z: string)
    ensures Replaced(x, call, y, z) != "" && Replaced(x, call, y, z)[0] == '<'
  {
  }

  lemma SecondReplaced(page: string, x: string, e: nat, y: string, z: string, b: Match, rewrite: Rewrite)
    requires 6 + |x| <= e <= |page| && page[..6 + |x|] == Front(x) && page[e..] == Tail(y, z)
    requires EnclosingForm(page, b.pos) == Some(Span(6 + |x|, e)) && rewrite(b.message, page[6 + |x|..e]).Some?
    ensures var after := Replaced(x, rewrite(b.message, page[6 + |x|..e]).value, y, z);
            RewriteOne(page, b, rewrite) == after && Substituted(page, 0, [b], rewrite) == after
  {
    hide EnclosingForm, RewriteOne, Substituted, Front, Tail;
    OneReplaced(page, 6 + |x|, e, b, rewrite);
  }

  lemma OneReplaced(page: string, s: nat, e: nat, m: Match, rewrite: Rewrite)
    requires s <= e <= |page| && EnclosingForm(page, m.pos) == Some(Span(s, e)) && rewrite(m.message, page[s..e]).Some?
    ensures RewriteOne(page, m, rewrite) == page[..s] + rewrite(m.message, page[s..e]).value + page[e..]
    ensures Substituted(page, 0, [m], rewrite) == page[..s] + rewrite(m.message, page[s..e]).value + page[e..]
  {
    hide EnclosingForm;
    assert [m][1..] == [] && Substituted(page, e, [], rewrite) == page[e..] && page[0..s] == page[..s];
  }

  lemma WholeReplaced(text: string, m: Match, rewrite: Rewrite)
    requires EnclosingForm(text, m.pos) == Some(Span(0, |text|)) && rewrite(m.message, text).Some?
    ensures RewriteOne(text, m, rewrite) == rewrite(m.message, text).value
  {
    hide EnclosingForm;
    assert text[0..|text|] == text && text[|text|..] == "" && text[..0] == "";
  }

  lemma BackRest(page: string, e: nat, y: string, z: string)
    requires e <= |page| && page[e..] == Back(y, z)
    ensures e + 7 <= |page| && page[e + 7..] == Tail(y, z)
  {
    assert page[e + 7..] == Back(y, z)[7..];
  }

  lemma TwoMatches(content: string, a: Match, b: Match, rewrite: Rewrite)
    requires EnclosingForm(content, a.pos).None?
    ensures RewrittenFrom(content, [a, b], 0, rewrite) == RewriteOne(RewriteOne(content, b, rewrite), a, rewrite)
    ensures Substituted(content, 0, [a, b], rewrite) == Substituted(content, 0, [b], rewrite)
  {
    hide EnclosingForm, RewriteOne;
    assert [a, b][1..] == [b];
    assert RewrittenFrom(content, [a, b], 2, rewrite) == content;
    assert RewrittenFrom(content, [a, b], 1, rewrite) == RewriteOne(content, b, rewrite);
  }

  // --------------------------------------------------------- a page in full

  /** Such as `onclick="return confirm('A?')"`. */
  function Confirm(attribute: string, message: string): string {
    attribute + "=\"return confirm('" + message + "')\""
  }

  const X := "action=\"/x\">\n"
  const U := "<input " + Confirm("onclick", "A?") + ">"
  const V := "action=\"/y\" " + Confirm("onsubmit", "B?") + ">"
  const Z := "action=\"/z\">"

  const STRAY_CONFIRM := Match(20 + |X|, "A?")
  const FORM_CONFIRM := Match(31 + |X| + |U|, "B?")

  lemma OccursInSlice(s: string, a: nat, b: nat, word: string, i: nat)
    requires a <= b <= |s| && OccursAt(s[a..b], word, i)
    ensures OccursAt(s, word, a + i)
  {
    SliceOfSlice(s, a, b, i, i + |word|);
  }

  lemma OccursInMiddle(p: string, word: string, q: string)
    ensures OccursAt(p + word + q, word, |p|)
  {
  }

  lemma ConfirmText(s: string, attribute: string, m: Match)
    requires attribute in {"onsubmit", "onclick"} && '\'' !in m.message
          && OccursAt(s, Confirm(attribute, m.message), m.pos)
    ensures ConfirmAt(s, m)
  {
    hide OccursAt;
  }

  /** Where the pieces with the two confirms are. */
  lemma PageMiddle(x: string, u: string, v: string, y: string, z: string)
    ensures var s, a, b := Page(x, u, v, y, z), 13 + |x|, 19 + |x| + |u|;
            b + |v| <= |s| && s[a..a + |u|] == u && s[b..b + |v|] == v
  {
    var front, back := Front(x) + "</form>", Back(y, z);
    assert Front(x) + Stray(u) == front + u;
    assert Page(x, u, v, y, z) == (front + u + "<form ") + v + back;
    assert (front + u + "<form ") + v + back == front + u + ("<form " + v + back);
    hide Page, Front, Back;
    Middle(front, u, "<form " + v + back);
    Middle(front + u + "<form ", v, back);
  }

  lemma Middle(p: string, word: string, q: string)
    ensures (p + word + q)[|p|..|p| + |word|] == word
  {
  }

  lemma ConfirmIsInert(attribute: string, message: string)
    requires '<' !in attribute && '<' !in message && '\n' !in attribute && '\n' !in message
    ensures Inert(Confirm(attribute, message)) && '\n' !in Confirm(attribute, message)
  {
    assert '<' !in "=\"return confirm('" && '\n' !in "=\"return confirm('" && '<' !in "')\"" && '\n' !in "')\"";
    NoBracketIsInert(Confirm(attribute, message));
  }

  lemma PiecesAreParts()
    ensures PageParts(X, U, V, "\n", Z)
  {
    ConfirmIsInert("onclick", "A?");
    ConfirmIsInert("onsubmit", "B?");
    assert X[|X| - 1] == '\n' && '<' !in X && '<' !in Z && Inert("<input ");
    assert '\n' !in "<input " && '\n' !in ">" && '<' !in ">" && '<' !in "action=\"/y\" ";
    NoBracketIsInert(X);
    NoBracketIsInert(Z);
    NoBracketIsInert("\n");
    NoBracketIsInert(">");
    NoBracketIsInert("action=\"/y\" ");
    hide Inert, Confirm;
    InertConcat("<input ", Confirm("onclick", "A?"));
    InertConcat("<input " + Confirm("onclick", "A?"), ">");
    InertConcat("action=\"/y\" ", Confirm("onsubmit", "B?"));
    InertConcat("action=\"/y\" " + Confirm("onsubmit", "B?"), ">");
  }

  lemma PageConfirms()
    ensures Confirms(Page(X, U, V, "\n", Z), [STRAY_CONFIRM, FORM_CONFIRM])
  {
    var s := Page(X, U, V, "\n", Z);
    PageMiddle(X, U, V, "\n", Z);
    assert OccursAt(U, Confirm("onclick", "A?"), 7) by {
      OccursInMiddle("<input ", Confirm("onclick", "A?"), ">");
    }
    assert OccursAt(V, Confirm("onsubmit", "B?"), 12) by {
      OccursInMiddle("action=\"/y\" ", Confirm("onsubmit", "B?"), ">");
    }
    hide Page, Confirm, OccursAt, ConfirmAt;
    OccursInSlice(s, 13 + |X|, 13 + |X| + |U|, Confirm("onclick", "A?"), 7);
    OccursInSlice(s, 19 + |X| + |U|, 19 + |X| + |U| + |V|, Confirm("onsubmit", "B?"), 12);
    ConfirmText(s, "onclick", STRAY_CONFIRM);
    ConfirmText(s, "onsubmit", FORM_CONFIRM);
  }

  /** The form of the second confirm, back to the start of its line. */
  function SecondBlock(): string {
    Stray(U) + "<form " + V + "</form>"
  }

  lemma SecondBlockIs()
    ensures var page := Page(X, U, V, "\n", Z);
            26 + |X| + |U| + |V| <= |page| && page[6 + |X|..26 + |X| + |U| + |V|] == SecondBlock()
  {
    var page, rest := Page(X, U, V, "\n", Z), Tail("\n", Z);
    assert |Front(X)| == 6 + |X| && |SecondBlock()| == 20 + |U| + |V|;
    assert Back("\n", Z) == "</form>" + rest;
    Regroup(Front(X), Stray(U), "<form ", V, "</form>", rest);
    assert page == Front(X) + SecondBlock() + rest;
    hide Front, Tail, Page, SecondBlock;
    Middle(Front(X), SecondBlock(), rest);
  }

  lemma Regroup(a: string, b: string, c: string, d: string, e: string, f: string)
    ensures a + (b + c + d + e) + f == a + b + c + d + (e + f)
  {
  }

  /** The page

          <form action="/x">
          </form><input onclick="return confirm('A?')"><form action="/y" onsubmit="return confirm('B?')"></form>
          <form action="/z"></form>

      has two confirms, and only one of them is in a form, so that the forms are
      disjoint.  The loop replaces the whole page by one macro call; substituting
      the form of the second confirm leaves the first and the third form alone.  Only
      the results for the two blocks that the loop passes to the rewriter matter. */
  lemma DisjointIsNotEnough(rewrite: Rewrite)
    requires GivesMacroCall(rewrite, "B?", SecondBlock())
    requires GivesMacroCall(rewrite, "A?", Replaced(X, rewrite("B?", SecondBlock()).value, "\n", Z))
    ensures var page, matches := Page(X, U, V, "\n", Z), [STRAY_CONFIRM, FORM_CONFIRM];
            && Confirms(page, matches) && FormsDisjoint(page, matches)
            && RewrittenFrom(page, matches, 0, rewrite) != Substituted(page, 0, matches, rewrite)
  {
    assert |Confirm("onclick", "A?")| >= 7 && |Confirm("onsubmit", "B?")| >= 7;
    hide Page, Confirms, FormsDisjoint, RewrittenFrom, Substituted, PageParts, GivesMacroCall, Replaced, IsMacroCall;
    hide SecondBlock;
    PiecesAreParts();
    PageConfirms();
    SecondBlockIs();
    StrayTakesAll(X, U, V, "\n", Z, STRAY_CONFIRM, FORM_CONFIRM, rewrite);
  }

  // --------------------------------------------- with the script's own rewriter

  /** No angle bracket in what is derived. */
  predicate Plain(d: Details) {
    '<' !in d.macroName && '<' !in d.caption && '<' !in d.title && '<' !in d.size && '<' !in d.icon
  }

  /** The first action of a block, if nothing before it begins like one. */
  lemma {:induction false} FirstAction(before: string, url: string, rest: string)
    requires 'a' !in before && '"' !in url
    ensures ActionFrom(before + Action(url) + rest, 0) == Some(url)
  {
    var block := before + Action(url) + rest;
    OccursInMiddle(before, Action(url), rest);
    forall k: nat | k < |before| ensures !OccursAt(block, "action=\"", k) {
      assert block[k] == before[k] && before[k] in before;
      assert k + 8 <= |block| ==> block[k..k + 8][0] == block[k];
    }
    ActionShape(block, |before|, url);
    assert block[|before| + 8..|before| + 8 + |url|] == url by {
      assert block == before + "action=\"" + url + ("\"" + rest);
      assert (before + "action=\"") + url + ("\"" + rest) == block;
      Middle(before + "action=\"", url, "\"" + rest);
    }
    hide OccursAt, Action, QuoteFrom;
    SkipTo(block, 0, |before|, url);
  }

  lemma {:induction false} SkipTo(block: string, i: nat, k: nat, url: string)
    requires i <= k && k + 8 <= |block| && forall n: nat :: i <= n < k ==> !OccursAt(block, "action=\"", n)
    requires OccursAt(block, "action=\"", k) && QuoteFrom(block, k + 8) < |block|
    requires block[k + 8..QuoteFrom(block, k + 8)] == url
    ensures ActionFrom(block, i) == Some(url)
    decreases k - i
  {
    hide OccursAt, QuoteFrom;
    if i < k {
      SkipTo(block, i + 1, k, url);
    }
  }

  lemma {:induction false} EscapedPlain(s: string)
    requires '<' !in s
    ensures '<' !in Escaped(s) && |Escaped(s)| >= |s|
  {
    if s != "" {
      assert s[0] in s && forall c :: c in s[1..] ==> c in s;
      EscapedPlain(s[1..]);
    }
  }

  lemma {:induction false} JoinPlain(sep: string, parts: seq<string>)
    requires '<' !in sep && forall p :: p in parts ==> '<' !in p
    ensures '<' !in JinjaUrl.Join(sep, parts) && forall p :: p in parts ==> |p| <= |JinjaUrl.Join(sep, parts)|
  {
    if |parts| > 1 {
      assert parts[0] in parts && parts == [parts[0]] + parts[1..] && forall p :: p in parts[1..] ==> p in parts;
      JoinPlain(sep, parts[1..]);
    } else if |parts| == 1 {
      assert parts[0] in parts && parts == [parts[0]];
    }
  }

  lemma PlainLiteral(s: string)
    requires '<' !in s
    ensures '<' !in JinjaUrl.Literal(s)
  {
  }

  lemma ArgumentsPlain(d: Details, message: string, url: string)
    requires Plain(d) && '<' !in message && '<' !in JinjaUrl.Convert(url)
    ensures forall a :: a in Arguments(d, message, url) ==> '<' !in a
  {
    EscapedPlain(d.title);
    EscapedPlain(message);
    PlainLiteral(d.caption);
    PlainLiteral(Escaped(d.title));
    PlainLiteral(Escaped(message));
    PlainLiteral(d.size);
    PlainLiteral(d.icon);
    assert '<' !in "size=" && '<' !in "icon=";
    hide JinjaUrl.Convert, JinjaUrl.Literal, Escaped, Plain;
  }

  /** Such a call is long enough and contains no tag. */
  lemma CallIsMacroCall(d: Details, message: string, url: string)
    requires Plain(d) && '<' !in message && |message| >= 2 && '<' !in JinjaUrl.Convert(url)
    ensures IsMacroCall(MacroCall(d, message, url, ""))
  {
    ArgumentsPlain(d, message, url);
    assert '<' !in d.macroName && '<' !in ", " && '<' !in "{{ " && '<' !in "(" && '<' !in ") }}";
    EscapedPlain(message);
    hide Plain, JinjaUrl.Convert, Escaped;
    JoinPlain(", ", Arguments(d, message, url));
    FourArguments(d, message, url);
    hide Arguments, JinjaUrl.Join;
  }

  lemma FourArguments(d: Details, message: string, url: string)
    ensures |JinjaUrl.Join(", ", Arguments(d, message, url))| >= 10 + |Escaped(message)|
  {
    hide JinjaUrl.Convert, Escaped;
    var a := Arguments(d, message, url);
    assert |a[0]| >= 2 && |a[1]| >= 2 && |a[2]| == 2 + |Escaped(message)|;
    hide Arguments, JinjaUrl.Literal;
    assert a[1..][0] == a[1] && a[1..][1..] == a[2..] && a[2..][0] == a[2] && a[2..][1..] == a[3..];
    assert |a[2..]| >= 2 && |JinjaUrl.Join(", ", a[2..])| >= |a[2]| + 2;
    assert |JinjaUrl.Join(", ", a[1..])| == |a[1]| + 2 + |JinjaUrl.Join(", ", a[2..])|;
  }

  lemma PlainUrl(url: string)
    requires '{' !in url && '<' !in url
    ensures JinjaUrl.Convert(url) == JinjaUrl.Literal(url) && '<' !in JinjaUrl.Convert(url)
  {
    NoMatch(url, 0);
  }

  lemma {:induction false} NoMatch(url: string, i: nat)
    requires '{' !in url && i <= |url|
    ensures JinjaUrl.NextMatch(url, i).None?
    decreases |url| - i
  {
    assert i + 2 <= |url| ==> url[i..i + 2][0] == url[i] && url[i] in url;
    hide JinjaUrl.GroupAt;
    if i < |url| {
      NoMatch(url, i + 1);
    }
  }

  lemma ScriptGivesCall(judge: Judge, message: string, before: string, url: string, rest: string)
    requires 'a' !in before && before != "" && before[0] == '<' && '"' !in url && '{' !in url && '<' !in url
    requires '<' !in message && |message| >= 2 && Plain(judge(message, before + Action(url) + rest, url))
    ensures GivesMacroCall(Script(judge), message, before + Action(url) + rest)
  {
    var block := before + Action(url) + rest;
    FirstAction(before, url, rest);
    assert block[0] == '<' && Indent(block) == "";
    PlainUrl(url);
    hide Plain, Action, IsMacroCall, JinjaUrl.Convert, ActionFrom, Indent;
    CallIsMacroCall(judge(message, block, url), message, url);
    hide MacroCall;
  }

  lemma SecondBlockShape()
    ensures exists before, rest ::
              && SecondBlock() == before + Action("/y") + rest && 'a' !in before && before != "" && before[0] == '<'
  {
    var before, rest := Stray(U) + "<form ", (" " + Confirm("onsubmit", "B?") + ">") + "</form>";
    assert V == Action("/y") + (" " + Confirm("onsubmit", "B?") + ">");
    assert SecondBlock() == before + Action("/y") + rest by {
      hide Stray, Confirm, Action;
      assert before + (Action("/y") + (" " + Confirm("onsubmit", "B?") + ">")) + "</form>"
          == before + Action("/y") + rest;
    }
    assert 'a' !in before by {
      NoSmallA();
    }
    hide SecondBlock, Confirm, Action;
  }

  lemma NoSmallA()
    ensures 'a' !in Stray(U) + "<form "
  {
    var c := Confirm("onclick", "A?");
    assert 'a' !in "onclick" && 'a' !in "=\"return confirm('" && 'a' !in "A?" && 'a' !in "')\"";
    assert 'a' !in c;
    hide Confirm;
    assert 'a' !in "</form>" && 'a' !in "<input " && 'a' !in ">" && 'a' !in "<form ";
  }

  lemma ReplacedShape(call: string)
    ensures exists rest :: Replaced(X, call, "\n", Z) == "<form " + Action("/x") + rest
  {
    var rest := ">\n" + call + Tail("\n", Z);
    assert X == Action("/x") + ">\n";
    hide Action, Tail;
    assert "<form " + (Action("/x") + ">\n") + call + Tail("\n", Z) == "<form " + Action("/x") + rest;
  }

  /** The script's own rewriter destroys the page, whatever names and texts without angle
      brackets it derives. */
  lemma ScriptDestroysPage(judge: Judge)
    requires Plain(judge("B?", SecondBlock(), "/y"))
    requires var call := MacroCall(judge("B?", SecondBlock(), "/y"), "B?", "/y", "");
             Plain(judge("A?", Replaced(X, call, "\n", Z), "/x"))
    ensures var page, matches := Page(X, U, V, "\n", Z), [STRAY_CONFIRM, FORM_CONFIRM];
            && Confirms(page, matches) && FormsDisjoint(page, matches)
            && RewrittenFrom(page, matches, 0, Script(judge)) != Substituted(page, 0, matches, Script(judge))
  {
    hide Page, Confirms, FormsDisjoint, RewrittenFrom, Substituted, Plain, Action, SecondBlock, Replaced, MacroCall;
    SecondCall(judge);
    var call := MacroCall(judge("B?", SecondBlock(), "/y"), "B?", "/y", "");
    ReplacedShape(call);
    var rest :| Replaced(X, call, "\n", Z) == "<form " + Action("/x") + rest;
    assert 'a' !in "<form " && '"' !in "/x" && '{' !in "/x" && '<' !in "/x" && '<' !in "A?";
    ScriptGivesCall(judge, "A?", "<form ", "/x", rest);
    hide Script, GivesMacroCall;
    DisjointIsNotEnough(Script(judge));
  }

  lemma SecondCall(judge: Judge)
    requires Plain(judge("B?", SecondBlock(), "/y"))
    ensures GivesMacroCall(Script(judge), "B?", SecondBlock())
    ensures Script(judge)("B?", SecondBlock()) == Some(MacroCall(judge("B?", SecondBlock(), "/y"), "B?", "/y", ""))
  {
    hide Plain, Action, SecondBlock;
    SecondBlockShape();
    var before, rest :|
      SecondBlock() == before + Action("/y") + rest && 'a' !in before && before != "" && before[0] == '<';
    assert '"' !in "/y" && '{' !in "/y" && '<' !in "/y" && '<' !in "B?";
    ScriptGivesCall(judge, "B?", before, "/y", rest);
    FirstAction(before, "/y", rest);
    assert Indent(SecondBlock()) == "";
    hide ActionFrom, MacroCall;
  }
}

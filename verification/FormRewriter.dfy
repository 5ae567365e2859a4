/** The in-place rewriting of confirm forms: `find_enclosing_form` and the reversed
    loop of `process_file` (scripts/migrate_confirm_buttons.py:150-184, 201-259). */
module FormRewriter {
  import opened Options
  import opened PyText

  function Lower(c: char): char {
    if 'A' <= c <= 'Z' then c - 'A' + 'a' else c
  }

  /** `word`, given in lower case, occurs at `i` in any letter case. */
  predicate WordAt(s: string, i: nat, word: string) {
    i + |word| <= |s| && forall k :: 0 <= k < |word| ==> Lower(s[i + k]) == word[k]
  }

  /** The pattern `<form\s` matches at `i`. */
  predicate OpenAt(s: string, i: nat) {
    WordAt(s, i, "<form") && i + 5 < |s| && IsSpace(s[i + 5])
  }

  predicate CloseAt(s: string, i: nat) {
    WordAt(s, i, "</form>")
  }

  /** Letter by letter, in either case each. */
  lemma TagsMean(s: string, i: nat)
    ensures OpenAt(s, i)
       <==> i + 6 <= |s| && s[i] == '<' && s[i + 1] in "fF" && s[i + 2] in "oO" && s[i + 3] in "rR" && s[i + 4] in "mM"
            && IsSpace(s[i + 5])
    ensures CloseAt(s, i)
       <==> i + 7 <= |s| && s[i] == '<' && s[i + 1] == '/' && s[i + 2] in "fF" && s[i + 3] in "oO" && s[i + 4] in "rR"
            && s[i + 5] in "mM" && s[i + 6] == '>'
  {
    hide IsSpace;
    var open, close := "<form", "</form>";
    assert open[0] == '<' && open[1] == 'f' && open[2] == 'o' && open[3] == 'r' && open[4] == 'm';
    assert close[0] == '<' && close[1] == '/' && close[2] == 'f' && close[3] == 'o' && close[4] == 'r'
           && close[5] == 'm' && close[6] == '>';
    if i + 6 <= |s| {
      assert WordAt(s, i, open) <==> Lower(s[i]) == '<' && Lower(s[i + 1]) == 'f' && Lower(s[i + 2]) == 'o'
                                     && Lower(s[i + 3]) == 'r' && Lower(s[i + 4]) == 'm';
    }
    if i + 7 <= |s| {
      assert WordAt(s, i, close) <==> Lower(s[i]) == '<' && Lower(s[i + 1]) == '/' && Lower(s[i + 2]) == 'f'
                                      && Lower(s[i + 3]) == 'o' && Lower(s[i + 4]) == 'r' && Lower(s[i + 5]) == 'm'
                                      && Lower(s[i + 6]) == '>';
    }
  }

  /** The last match of `<form\s` that starts before `end`, if any. */
  function LastOpen(s: string, end: nat): Option<nat> {
    if end == 0 then None
    else if OpenAt(s, end - 1) then Some(end - 1)
    else LastOpen(s, end - 1)
  }

  /** The first `</form>` from `start` on, if any. */
  function FirstClose(s: string, start: nat): Option<nat>
    decreases |s| - start
  {
    if start >= |s| then None
    else if CloseAt(s, start) then Some(start)
    else FirstClose(s, start + 1)
  }

  /** The start of the line that contains `i`. */
  function LineStart(s: string, i: nat): nat
    requires i <= |s|
  {
    if i == 0 || s[i - 1] == '\n' then i else LineStart(s, i - 1)
  }

  datatype Span = Span(start: nat, end: nat)

  /** `find_enclosing_form`. */
  function EnclosingForm(content: string, pos: nat): Option<Span> {
    var back := if pos <= |content| then content[..pos] else content;
    var open := LastOpen(back, |back|);
    if open.None? then None
    else if FirstClose(back, open.value).Some? then None
    else if pos >= |content| then None
    else
      var close := FirstClose(content, pos);
      if close.None? then None
      else if open.value <= |content| then Some(Span(LineStart(content, open.value), close.value + 7))
      else None
  }

  // ------------------------------------------------- what the searches find

  lemma {:induction false} LastOpenFacts(s: string, end: nat)
    ensures match LastOpen(s, end)
            case None => forall i :: 0 <= i < end ==> !OpenAt(s, i)
            case Some(j) => j < end && OpenAt(s, j) && forall i :: j < i < end ==> !OpenAt(s, i)
  {
    hide OpenAt;
    if end > 0 && !OpenAt(s, end - 1) {
      LastOpenFacts(s, end - 1);
    }
  }

  lemma {:induction false} FirstCloseFacts(s: string, start: nat)
    ensures match FirstClose(s, start)
            case None => forall i: nat :: start <= i ==> !CloseAt(s, i)
            case Some(j) => start <= j && CloseAt(s, j) && forall i: nat :: start <= i < j ==> !CloseAt(s, i)
    decreases |s| - start
  {
    if start < |s| && !CloseAt(s, start) {
      FirstCloseFacts(s, start + 1);
    }
  }

  lemma {:induction false} LineStartFacts(s: string, i: nat)
    requires i <= |s|
    ensures LineStart(s, i) <= i
    ensures LineStart(s, i) == 0 || s[LineStart(s, i) - 1] == '\n'
    ensures forall k :: LineStart(s, i) <= k < i ==> s[k] != '\n'
  {
    if i > 0 && s[i - 1] != '\n' {
      LineStartFacts(s, i - 1);
    }
  }

  /** `open` and `close` are the tags of the form around `pos`: the last opening tag
      that ends before `pos`, no closing tag between them, and the first closing
      tag from `pos` on. */
  ghost predicate Encloses(content: string, pos: nat, open: nat, close: nat) {
    && pos < |content|
    && open + 6 <= pos <= close
    && OpenAt(content, open) && CloseAt(content, close)
    && (forall i: nat :: open < i && i + 6 <= pos ==> !OpenAt(content, i))
    && (forall i: nat :: open <= i && i + 7 <= pos ==> !CloseAt(content, i))
    && (forall i: nat :: pos <= i < close ==> !CloseAt(content, i))
  }

  lemma PrefixWord(s: string, pos: nat, i: nat, word: string)
    requires pos <= |s|
    ensures WordAt(s[..pos], i, word) <==> WordAt(s, i, word) && i + |word| <= pos
  {
    if i + |word| <= pos {
      assert forall k {:trigger word[k]} :: 0 <= k < |word| ==> s[..pos][i + k] == s[i + k];
    }
  }

  lemma PrefixClose(s: string, pos: nat, i: nat)
    requires pos <= |s|
    ensures CloseAt(s[..pos], i) <==> CloseAt(s, i) && i + 7 <= pos
  {
    PrefixWord(s, pos, i, "</form>");
  }

  lemma PrefixOpen(s: string, pos: nat, i: nat)
    requires pos <= |s|
    ensures OpenAt(s[..pos], i) <==> OpenAt(s, i) && i + 6 <= pos
  {
    PrefixWord(s, pos, i, "<form");
  }

  /** The span found runs from the start of the line of the opening tag to the end
      of the closing tag of the form around the position; it is found whenever
      there is such a form. */
  lemma EnclosingFormFinds(content: string, pos: nat)
    ensures EnclosingForm(content, pos).Some? <==> exists open: nat, close: nat :: Encloses(content, pos, open, close)
    ensures forall open: nat, close: nat :: Encloses(content, pos, open, close) ==>
              EnclosingForm(content, pos) == Some(Span(LineStart(content, open), close + 7))
  {
    forall open: nat, close: nat | Encloses(content, pos, open, close)
      ensures EnclosingForm(content, pos) == Some(Span(LineStart(content, open), close + 7))
    {
      FindsForm(content, pos, open, close);
    }
    if EnclosingForm(content, pos).Some? {
      var open, close := FoundForm(content, pos);
    }
  }

  lemma FindsForm(content: string, pos: nat, open: nat, close: nat)
    requires Encloses(content, pos, open, close)
    ensures EnclosingForm(content, pos) == Some(Span(LineStart(content, open), close + 7))
  {
    hide OpenAt, CloseAt, LineStart;
    var back := content[..pos];
    LastOpenFacts(back, pos);
    PrefixOpen(content, pos, open);
    var found := LastOpen(back, pos);
    if found.Some? {
      PrefixOpen(content, pos, found.value);
    }
    assert found == Some(open);
    FirstCloseFacts(back, open);
    if FirstClose(back, open).Some? {
      PrefixClose(content, pos, FirstClose(back, open).value);
    }
    FirstCloseFacts(content, pos);
  }

  lemma FoundForm(content: string, pos: nat) returns (open: nat, close: nat)
    requires EnclosingForm(content, pos).Some?
    ensures Encloses(content, pos, open, close)
    ensures EnclosingForm(content, pos) == Some(Span(LineStart(content, open), close + 7))
  {
    var back := content[..pos];
    LastOpenFacts(back, pos);
    open := LastOpen(back, pos).value;
    PrefixOpen(content, pos, open);
    forall i: nat | open < i && i + 6 <= pos ensures !OpenAt(content, i) {
      PrefixOpen(content, pos, i);
    }
    FirstCloseFacts(back, open);
    forall i: nat | open <= i && i + 7 <= pos ensures !CloseAt(content, i) {
      PrefixClose(content, pos, i);
    }
    FirstCloseFacts(content, pos);
    close := FirstClose(content, pos).value;
  }

  lemma SpanBounds(content: string, pos: nat)
    requires EnclosingForm(content, pos).Some?
    ensures var span := EnclosingForm(content, pos).value;
            span.start < pos < span.end <= |content|
  {
    var open, close := FoundForm(content, pos);
    LineStartFacts(content, open);
  }

  // ------------------------------------------------------------- the rewriting

  /** A `confirm` found in the original text: where, and with what message. */
  datatype Match = Match(pos: nat, message: string)

  /** Lines 217-255: the macro call that replaces a form block; `None` for a form without action URL. */
  type Rewrite = (string, string) -> Option<string>

  /** One turn of the loop. */
  function RewriteOne(content: string, m: Match, rewrite: Rewrite): string {
    var span := EnclosingForm(content, m.pos);
    if span.None? then content
    else
      SpanBounds(content, m.pos);
      var call := rewrite(m.message, content[span.value.start..span.value.end]);
      if call.None? then content
      else content[..span.value.start] + call.value + content[span.value.end..]
  }

  /** The text after the turns for `matches[k..]`, taken from the last to the first. */
  function RewrittenFrom(content: string, matches: seq<Match>, k: nat, rewrite: Rewrite): string
    requires k <= |matches|
    decreases |matches| - k
  {
    if k == |matches| then content
    else RewriteOne(RewrittenFrom(content, matches, k + 1, rewrite), matches[k], rewrite)
  }

  /** The loop of lines 206-259, each turn on the text as modified so far. */
  method RewriteMatches(original: string, matches: seq<Match>, rewrite: Rewrite) returns (content: string)
    ensures content == RewrittenFrom(original, matches, 0, rewrite)
    ensures Apart(original, matches) ==> content == Substituted(original, 0, matches, rewrite)
  {
    content := original;
    for k := |matches| downto 0
      invariant content == RewrittenFrom(original, matches, k, rewrite)
    {
      var span := EnclosingForm(content, matches[k].pos);
      if span.None? {
        continue;
      }
      SpanBounds(content, matches[k].pos);
      var call := rewrite(matches[k].message, content[span.value.start..span.value.end]);
      if call.None? {
        continue;
      }
      content := content[..span.value.start] + call.value + content[span.value.end..];
    }
    if Apart(original, matches) {
      InPlaceIsSimultaneous(original, matches, 0, rewrite);
      assert matches[0..] == matches;
    }
  }

  // ------------------------------------------------- simultaneous substitution

  /** The positions ascend, and no match lies in, or has a form that overlaps, the form of a later one. */
  ghost predicate Apart(original: string, matches: seq<Match>) {
    forall i, j :: 0 <= i < j < |matches| ==> MatchesApart(original, matches[i], matches[j])
  }

  ghost predicate MatchesApart(original: string, a: Match, b: Match) {
    && a.pos < b.pos
    && (EnclosingForm(original, b.pos).Some? ==>
          && a.pos < EnclosingForm(original, b.pos).value.start
          && (EnclosingForm(original, a.pos).Some? ==>
                Disjoint(EnclosingForm(original, a.pos).value, EnclosingForm(original, b.pos).value)))
  }

  predicate Disjoint(a: Span, b: Span) {
    a.end <= b.start || b.end <= a.start
  }

  /** What replaces the form of `m`, judged on the original text alone. */
  function CallFor(original: string, m: Match, rewrite: Rewrite): Option<string> {
    var span := EnclosingForm(original, m.pos);
    if span.None? then None
    else
      SpanBounds(original, m.pos);
      rewrite(m.message, original[span.value.start..span.value.end])
  }

  /** `original[start..]` with all replaced forms substituted at once. */
  function Substituted(original: string, start: nat, matches: seq<Match>, rewrite: Rewrite): string
    requires start <= |original|
    decreases |matches|
  {
    if matches == [] then original[start..]
    else if CallFor(original, matches[0], rewrite).None? then Substituted(original, start, matches[1..], rewrite)
    else
      SpanBounds(original, matches[0].pos);
      var span := EnclosingForm(original, matches[0].pos).value;
      (if start <= span.start then original[start..span.start] else "")
      + CallFor(original, matches[0], rewrite).value
      + Substituted(original, span.end, matches[1..], rewrite)
  }

  /** Every form of `matches` starts at `c` or later. */
  ghost predicate StartFrom(original: string, matches: seq<Match>, c: nat) {
    forall m :: m in matches && EnclosingForm(original, m.pos).Some? ==> c <= EnclosingForm(original, m.pos).value.start
  }

  /** Text before the first form is copied. */
  lemma {:induction false} SubstitutedPrefix(original: string, start: nat, c: nat, matches: seq<Match>,
                                             rewrite: Rewrite)
    requires start <= c <= |original| && StartFrom(original, matches, c)
    ensures Substituted(original, start, matches, rewrite)
         == original[start..c] + Substituted(original, c, matches, rewrite)
    decreases |matches|
  {
    if matches == [] {
      assert original[start..] == original[start..c] + original[c..];
    } else if CallFor(original, matches[0], rewrite).None? {
      hide EnclosingForm, CallFor;
      SubstitutedPrefix(original, start, c, matches[1..], rewrite);
    } else {
      hide EnclosingForm;
      assert matches[0] in matches;
      SpanBounds(original, matches[0].pos);
      var span := EnclosingForm(original, matches[0].pos).value;
      var call := CallFor(original, matches[0], rewrite).value;
      var rest := Substituted(original, span.end, matches[1..], rewrite);
      assert Substituted(original, start, matches, rewrite) == original[start..span.start] + call + rest;
      assert Substituted(original, c, matches, rewrite) == original[c..span.start] + call + rest;
      hide Substituted, CallFor, StartFrom;
      SplitFirst(original, start, c, span.start, call, rest);
    }
  }

  lemma SplitFirst(s: string, a: nat, b: nat, c: nat, call: string, rest: string)
    requires a <= b <= c <= |s|
    ensures s[a..c] + call + rest == s[a..b] + (s[b..c] + call + rest)
  {
    assert s[a..c] == s[a..b] + s[b..c];
  }

  lemma SamePrefixTags(a: string, b: string, c: nat, i: nat)
    requires c <= |a| && c <= |b| && a[..c] == b[..c]
    ensures i + 6 <= c ==> (OpenAt(a, i) <==> OpenAt(b, i))
    ensures i + 7 <= c ==> (CloseAt(a, i) <==> CloseAt(b, i))
  {
    if i + 6 <= c {
      PrefixOpen(a, c, i);
      PrefixOpen(b, c, i);
    }
    if i + 7 <= c {
      PrefixClose(a, c, i);
      PrefixClose(b, c, i);
    }
  }

  /** Two texts that agree on their first `c` characters have the same form around
      a position when that form ends by `c`. */
  lemma SamePrefixSameForm(a: string, b: string, c: nat, pos: nat)
    requires c <= |a| && c <= |b| && a[..c] == b[..c]
    requires EnclosingForm(a, pos).Some? && EnclosingForm(a, pos).value.end <= c
    ensures EnclosingForm(b, pos) == EnclosingForm(a, pos)
  {
    var open, close := FoundForm(a, pos);
    SamePrefixTags(a, b, c, open);
    SamePrefixTags(a, b, c, close);
    forall i: nat | open < i && i + 6 <= pos ensures !OpenAt(b, i) {
      SamePrefixTags(a, b, c, i);
    }
    forall i: nat | open <= i && i + 7 <= pos ensures !CloseAt(b, i) {
      SamePrefixTags(a, b, c, i);
    }
    forall i: nat | pos <= i < close ensures !CloseAt(b, i) {
      SamePrefixTags(a, b, c, i);
    }
    assert Encloses(b, pos, open, close);
    FindsForm(b, pos, open, close);
    SameLineStart(a, b, c, open);
  }

  lemma {:induction false} SameLineStart(a: string, b: string, c: nat, i: nat)
    requires c <= |a| && c <= |b| && a[..c] == b[..c] && i <= c
    ensures LineStart(a, i) == LineStart(b, i)
  {
    if i > 0 {
      assert a[i - 1] == a[..c][i - 1] && b[i - 1] == b[..c][i - 1];
      SameLineStart(a, b, c, i - 1);
    }
  }

  /** They also agree that there is none, if the first text has some closing tag behind. */
  lemma SamePrefixNoForm(a: string, b: string, c: nat, pos: nat, close: nat)
    requires c <= |a| && c <= |b| && a[..c] == b[..c] && pos < c
    requires EnclosingForm(a, pos).None? && pos <= close && CloseAt(a, close)
    ensures EnclosingForm(b, pos).None?
  {
    FirstCloseFacts(a, pos);
    assert a[..pos] == a[..c][..pos] && b[..pos] == b[..c][..pos];
    LastOpenFacts(a[..pos], pos);
  }

  /** The whole loop: while the forms are apart, recomputing every span on the
      modified text and substituting from the last to the first gives the
      simultaneous substitution in the original. */
  lemma {:induction false} InPlaceIsSimultaneous(original: string, matches: seq<Match>, k: nat, rewrite: Rewrite)
    requires Apart(original, matches) && k <= |matches|
    ensures RewrittenFrom(original, matches, k, rewrite) == Substituted(original, 0, matches[k..], rewrite)
    decreases |matches| - k
  {
    if k == |matches| {
      assert original[0..] == original;
    } else {
      InPlaceIsSimultaneous(original, matches, k + 1, rewrite);
      var m, later := matches[k], matches[k + 1..];
      assert matches[k..][1..] == later && matches[k..][0] == m;
      var content := RewrittenFrom(original, matches, k + 1, rewrite);
      forall b | b in later ensures MatchesApart(original, m, b) {
        var j :| 0 <= j < |later| && later[j] == b;
        assert b == matches[k + 1 + j];
      }
      TurnIsSubstitution(original, m, later, content, rewrite);
      assert matches[k..] == [m] + later;
    }
  }

  /** One turn of the loop, on a text in which all later forms are replaced already. */
  lemma TurnIsSubstitution(original: string, m: Match, later: seq<Match>, content: string, rewrite: Rewrite)
    requires forall b :: b in later ==> MatchesApart(original, m, b)
    requires content == Substituted(original, 0, later, rewrite)
    ensures RewriteOne(content, m, rewrite) == Substituted(original, 0, [m] + later, rewrite)
  {
    assert ([m] + later)[1..] == later;
    var span := EnclosingForm(original, m.pos);
    if span.None? {
      NoFormStays(original, m, later, content, rewrite);
    } else {
      SpanBounds(original, m.pos);
      var e := span.value.end;
      forall b | b in later && EnclosingForm(original, b.pos).Some?
        ensures e <= EnclosingForm(original, b.pos).value.start
      {
        assert MatchesApart(original, m, b);
        SpanBounds(original, b.pos);
      }
      SubstitutedPrefix(original, 0, e, later, rewrite);
      assert original[0..e] == original[..e];
      assert content[..e] == original[..e] && content[e..] == Substituted(original, e, later, rewrite);
      SamePrefixSameForm(original, content, e, m.pos);
      assert content[span.value.start..e] == content[..e][span.value.start..] == original[span.value.start..e];
      assert content[..span.value.start] == content[..e][..span.value.start] == original[0..span.value.start];
    }
  }

  lemma {:induction false} UnchangedWithoutForms(original: string, start: nat, matches: seq<Match>, rewrite: Rewrite)
    requires start <= |original|
    requires forall b :: b in matches ==> EnclosingForm(original, b.pos).None?
    ensures Substituted(original, start, matches, rewrite) == original[start..]
    decreases |matches|
  {
    if matches != [] {
      assert matches[0] in matches;
      UnchangedWithoutForms(original, start, matches[1..], rewrite);
    }
  }

  /** A match outside any form is still outside any form when its turn comes. */
  lemma NoFormStays(original: string, m: Match, later: seq<Match>, content: string, rewrite: Rewrite)
    requires forall b :: b in later ==> MatchesApart(original, m, b)
    requires content == Substituted(original, 0, later, rewrite) && EnclosingForm(original, m.pos).None?
    ensures EnclosingForm(content, m.pos).None?
  {
    if forall b :: b in later ==> EnclosingForm(original, b.pos).None? {
      UnchangedWithoutForms(original, 0, later, rewrite);
      assert original[0..] == original;
    } else {
      var b :| b in later && EnclosingForm(original, b.pos).Some?;
      assert MatchesApart(original, m, b);
      var open, close := FoundForm(original, b.pos);
      SpanBounds(original, b.pos);
      var c := m.pos + 1;
      forall b' | b' in later && EnclosingForm(original, b'.pos).Some?
        ensures c <= EnclosingForm(original, b'.pos).value.start
      {
        assert MatchesApart(original, m, b');
      }
      SubstitutedPrefix(original, 0, c, later, rewrite);
      assert original[0..c] == original[..c];
      assert content[..c] == original[..c];
      SamePrefixNoForm(original, content, c, m.pos, close);
    }
  }

  // --------------------------------------------------- outside the forms

  /** How far the text at `i` moves: the growth of all replaced forms before it. */
  function Offset(original: string, matches: seq<Match>, i: nat, rewrite: Rewrite): int {
    if matches == [] then 0
    else
      var rest := Offset(original, matches[1..], i, rewrite);
      if CallFor(original, matches[0], rewrite).None? then rest
      else
        var span := EnclosingForm(original, matches[0].pos).value;
        if i < span.start then 0 else rest + |CallFor(original, matches[0], rewrite).value| - (span.end - span.start)
  }

  /** `i` lies in no form that is replaced. */
  ghost predicate Outside(original: string, matches: seq<Match>, i: nat, rewrite: Rewrite) {
    forall m :: m in matches && CallFor(original, m, rewrite).Some? ==>
      var span := EnclosingForm(original, m.pos).value; i < span.start || span.end <= i
  }

  /** The character at `i` is found again where `Offset` says. */
  predicate KeptAt(original: string, start: nat, matches: seq<Match>, i: nat, rewrite: Rewrite)
    requires start <= i < |original|
  {
    var text, at := Substituted(original, start, matches, rewrite), i - start + Offset(original, matches, i, rewrite);
    0 <= at < |text| && text[at] == original[i]
  }

  /** Every character outside the replaced forms is still there, at its old place
      plus the growth of the forms before it. */
  lemma {:induction false} OutsideUnchanged(original: string, start: nat, matches: seq<Match>, i: nat, rewrite: Rewrite)
    requires Apart(original, matches) && start <= i < |original|
    requires StartFrom(original, matches, start) && Outside(original, matches, i, rewrite)
    ensures KeptAt(original, start, matches, i, rewrite)
    decreases |matches|
  {
    if matches != [] {
      var m, later := matches[0], matches[1..];
      assert m in matches;
      ApartTail(original, matches);
      hide EnclosingForm, Apart, MatchesApart;
      if CallFor(original, m, rewrite).None? {
        OutsideUnchanged(original, start, later, i, rewrite);
      } else {
        var span := EnclosingForm(original, m.pos).value;
        assert i < span.start || span.end <= i;
        if i >= span.end {
          LaterForms(original, matches);
          SpanBounds(original, m.pos);
          OutsideUnchanged(original, span.end, later, i, rewrite);
        }
        hide CallFor, Outside, StartFrom;
        OutsideReplaced(original, start, matches, i, rewrite);
      }
    }
  }

  lemma ApartTail(original: string, matches: seq<Match>)
    requires Apart(original, matches) && matches != []
    ensures Apart(original, matches[1..])
  {
    hide MatchesApart;
    var later := matches[1..];
    assert forall a :: 0 <= a < |later| ==> later[a] == matches[a + 1];
  }

  /** Past a replaced form. */
  lemma OutsideReplaced(original: string, start: nat, matches: seq<Match>, i: nat, rewrite: Rewrite)
    requires matches != [] && CallFor(original, matches[0], rewrite).Some? && start <= i < |original|
    requires start <= EnclosingForm(original, matches[0].pos).value.start
    requires var span := EnclosingForm(original, matches[0].pos).value;
             i < span.start || (span.end <= i && KeptAt(original, span.end, matches[1..], i, rewrite))
    ensures KeptAt(original, start, matches, i, rewrite)
  {
    assert EnclosingForm(original, matches[0].pos).Some?;
    hide EnclosingForm, CallFor, Substituted, Offset;
    SubstitutedStep(original, start, matches, i, rewrite);
    var span, call := EnclosingForm(original, matches[0].pos).value, CallFor(original, matches[0], rewrite).value;
    var rest := Substituted(original, span.end, matches[1..], rewrite);
    var offset := Offset(original, matches[1..], i, rewrite);
    PieceKept(original, start, span, call, rest, i, offset);
  }

  lemma SubstitutedStep(original: string, start: nat, matches: seq<Match>, i: nat, rewrite: Rewrite)
    requires matches != [] && CallFor(original, matches[0], rewrite).Some?
    requires start <= EnclosingForm(original, matches[0].pos).value.start
    ensures var span := EnclosingForm(original, matches[0].pos).value;
            var call := CallFor(original, matches[0], rewrite).value;
            && span.start <= span.end <= |original|
            && Substituted(original, start, matches, rewrite)
               == original[start..span.start] + call + Substituted(original, span.end, matches[1..], rewrite)
            && Offset(original, matches, i, rewrite)
               == if i < span.start then 0
                  else Offset(original, matches[1..], i, rewrite) + |call| - (span.end - span.start)
  {
    SpanBounds(original, matches[0].pos);
    hide EnclosingForm, CallFor;
  }

  lemma PieceKept(original: string, start: nat, span: Span, call: string, rest: string, i: nat, offset: int)
    requires start <= span.start <= span.end <= |original| && start <= i < |original|
    requires i < span.start
             || (span.end <= i && 0 <= i - span.end + offset < |rest| && rest[i - span.end + offset] == original[i])
    ensures var text := original[start..span.start] + call + rest;
            var at := i - start + if i < span.start then 0 else offset + |call| - (span.end - span.start);
            0 <= at < |text| && text[at] == original[i]
  {
    var x := original[start..span.start];
    PiecesAt(x, call, rest);
    if i < span.start {
      assert x[i - start] == original[i];
    } else {
      var k := i - span.end + offset;
      assert (x + call + rest)[|x| + |call| + k] == rest[k];
    }
  }

  /** The later forms start where the first one ends, or after that. */
  lemma LaterForms(original: string, matches: seq<Match>)
    requires Apart(original, matches) && matches != [] && EnclosingForm(original, matches[0].pos).Some?
    ensures StartFrom(original, matches[1..], EnclosingForm(original, matches[0].pos).value.end)
  {
    var later := matches[1..];
    SpanBounds(original, matches[0].pos);
    forall b | b in later && EnclosingForm(original, b.pos).Some?
      ensures EnclosingForm(original, matches[0].pos).value.end <= EnclosingForm(original, b.pos).value.start
    {
      var j :| 0 <= j < |later| && later[j] == b;
      assert b == matches[j + 1] && MatchesApart(original, matches[0], matches[j + 1]);
      SpanBounds(original, b.pos);
    }
  }

  lemma PiecesAt(x: string, y: string, z: string)
    ensures forall k :: 0 <= k < |x| ==> (x + y + z)[k] == x[k]
    ensures forall k :: 0 <= k < |z| ==> (x + y + z)[|x| + |y| + k] == z[k]
  {
  }
}

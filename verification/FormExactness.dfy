/** Exactly when rewriting the forms in place, last match first, is substituting them
    all at once (scripts/migrate_confirm_buttons.py:150-184, 195-259). */
module FormExactness {
  import opened PyText
  import opened FormRewriter

  /** The pattern of lines 196-198 matches at `m.pos` with message `m.message`. */
  predicate ConfirmAt(s: string, m: Match) {
    '\'' !in m.message
    && exists attribute, end ::
         attribute in {"onsubmit", "onclick"} && end in {"')\"", "');\""}
         && OccursAt(s, attribute + "=\"return confirm('" + m.message + end, m.pos)
  }

  /** The matches are confirms, from the first to the last. */
  ghost predicate Confirms(original: string, matches: seq<Match>) {
    && (forall m :: m in matches ==> ConfirmAt(original, m))
    && forall i, j :: 0 <= i < j < |matches| ==> matches[i].pos < matches[j].pos
  }

  /** The enclosing forms are pairwise disjoint. */
  ghost predicate FormsDisjoint(original: string, matches: seq<Match>) {
    forall i, j :: 0 <= i < j < |matches| ==> FormsApart(original, matches[i], matches[j])
  }

  predicate FormsApart(original: string, a: Match, b: Match) {
    EnclosingForm(original, a.pos).Some? && EnclosingForm(original, b.pos).Some? ==>
      Disjoint(EnclosingForm(original, a.pos).value, EnclosingForm(original, b.pos).value)
  }

  /** Every replacement ends like a macro call. */
  ghost predicate EndsInBrace(rewrite: Rewrite) {
    forall message, block :: rewrite(message, block).Some? ==>
      var call := rewrite(message, block).value; call != "" && call[|call| - 1] == '}'
  }

  /** No tag lies around the position, only before or after it. */
  predicate OutsideTags(s: string, pos: nat) {
    forall i: nat :: i < pos < i + 7 ==> !CloseAt(s, i)
  }

  lemma ConfirmOutsideTags(s: string, m: Match)
    requires ConfirmAt(s, m)
    ensures m.pos < |s| && OutsideTags(s, m.pos)
  {
    var attribute, end :| attribute in {"onsubmit", "onclick"} && end in {"')\"", "');\""}
      && OccursAt(s, attribute + "=\"return confirm('" + m.message + end, m.pos);
    var text := attribute + "=\"return confirm('" + m.message + end;
    assert text[0] == 'o' && text[1] == 'n' && |text| >= 2;
    assert s[m.pos] == s[m.pos..m.pos + |text|][0] && s[m.pos + 1] == s[m.pos..m.pos + |text|][1];
    forall i: nat | i < m.pos < i + 7 ensures !CloseAt(s, i) {
      NotInsideClose(s, i, m.pos);
    }
  }

  lemma CloseChars(s: string, i: nat)
    requires CloseAt(s, i)
    ensures i + 7 <= |s| && s[i] == '<' && s[i + 1] == '/' && s[i + 6] == '>'
    ensures s[i + 2] != 'o' && s[i + 4] != 'o' && s[i + 4] != 'n' && s[i + 5] != 'o'
  {
    var word := "</form>";
    assert Lower(s[i]) == word[0] && Lower(s[i + 1]) == word[1] && Lower(s[i + 2]) == word[2];
    assert Lower(s[i + 4]) == word[4] && Lower(s[i + 5]) == word[5] && Lower(s[i + 6]) == word[6];
  }

  lemma NotInsideClose(s: string, i: nat, pos: nat)
    requires i < pos < i + 7 && pos + 1 < |s| && s[pos] == 'o' && s[pos + 1] == 'n'
    ensures !CloseAt(s, i)
  {
    if CloseAt(s, i) {
      CloseChars(s, i);
    }
  }

  /** A match without a form comes after the form of every earlier match, if any
      closing tag follows it. */
  lemma StrayAfterForm(original: string, c: Match, a: Match, close: nat)
    requires c.pos < a.pos < |original| && OutsideTags(original, c.pos) && OutsideTags(original, a.pos)
    requires EnclosingForm(original, c.pos).Some? && EnclosingForm(original, a.pos).None?
    requires a.pos <= close && CloseAt(original, close)
    ensures EnclosingForm(original, c.pos).value.end <= a.pos
  {
    var o, e := FoundForm(original, c.pos);
    if a.pos <= e {
      var back := original[..a.pos];
      hide OpenAt, CloseAt, EnclosingForm;
      LastOpenFacts(back, a.pos);
      PrefixOpen(original, a.pos, o);
      var found := LastOpen(back, a.pos);
      assert found.Some? && found.value >= o;
      forall i: nat | found.value <= i && i + 6 <= a.pos ensures OpenAt(original, i) <==> i == found.value {
        PrefixOpen(original, a.pos, i);
      }
      PrefixOpen(original, a.pos, found.value);
      FirstCloseFacts(original, a.pos);
      EnclosesStray(original, c.pos, a.pos, o, e, found.value, FirstClose(original, a.pos).value);
      FindsForm(original, a.pos, found.value, FirstClose(original, a.pos).value);
    } else {
      assert !(e < a.pos < e + 7);
    }
  }

  lemma EnclosesStray(s: string, c: nat, a: nat, o: nat, e: nat, last: nat, first: nat)
    requires Encloses(s, c, o, e) && c < a <= e && a < |s| && OutsideTags(s, c)
    requires o <= last && last + 6 <= a && OpenAt(s, last)
    requires forall i: nat :: last < i && i + 6 <= a ==> !OpenAt(s, i)
    requires a <= first && CloseAt(s, first) && forall i: nat :: a <= i < first ==> !CloseAt(s, i)
    ensures Encloses(s, a, last, first)
  {
    hide OpenAt, CloseAt;
    forall i: nat | last <= i && i + 7 <= a ensures !CloseAt(s, i) {
      assert i + 7 <= c || i < c < i + 7 || c <= i < e;
    }
  }

  /** `text` and `goal` have the same last `t` characters, and differ in the one before:
      a replacement ends there in one, and a form in the other. */
  predicate Diverged(text: string, goal: string, t: nat) {
    && t < |text| && t < |goal|
    && text[|text| - t..] == goal[|goal| - t..]
    && text[|text| - t - 1] == '}' && goal[|goal| - t - 1] == '>'
  }

  /** No turn repairs this: it either leaves the place alone or moves it to the right. */
  lemma DivergedTurn(text: string, goal: string, t: nat, m: Match, rewrite: Rewrite) returns (t': nat)
    requires Diverged(text, goal, t) && EndsInBrace(rewrite)
    ensures t' <= t && Diverged(RewriteOne(text, m, rewrite), goal, t')
  {
    t' := t;
    var next := RewriteOne(text, m, rewrite);
    if CallFor(text, m, rewrite).Some? {
      SpanBounds(text, m.pos);
      var span, call := EnclosingForm(text, m.pos).value, CallFor(text, m, rewrite).value;
      ClosedSpan(text, m.pos);
      assert call != "" && call[|call| - 1] == '}';
      hide EnclosingForm, CallFor, EndsInBrace;
      assert next == text[..span.start] + call + text[span.end..];
      hide RewriteOne;
      if |text| - t <= span.end {
        t' := |text| - span.end;
        BehindCall(text, goal, t, span, call);
      } else {
        AfterCall(text, goal, t, span, call);
      }
    }
  }

  lemma ClosedSpan(text: string, pos: nat)
    requires EnclosingForm(text, pos).Some?
    ensures var e := EnclosingForm(text, pos).value.end; pos + 7 <= e <= |text| && text[e - 1] == '>'
  {
    var open, close := FoundForm(text, pos);
    CloseChars(text, close);
  }

  /** The replaced form ends behind the place where the texts differ. */
  lemma BehindCall(text: string, goal: string, t: nat, span: Span, call: string)
    requires Diverged(text, goal, t) && span.start <= span.end <= |text| && |text| - t <= span.end
    requires 1 <= span.end && text[span.end - 1] == '>' && call != "" && call[|call| - 1] == '}'
    ensures Diverged(text[..span.start] + call + text[span.end..], goal, |text| - span.end)
  {
    var n := |text| - span.end;
    var next := text[..span.start] + call + text[span.end..];
    assert next[|next| - n..] == text[span.end..] && next[|next| - n - 1] == '}';
    var a, b := text[|text| - t..], goal[|goal| - t..];
    assert text[span.end..] == a[t - n..] && goal[|goal| - n..] == b[t - n..];
    assert n < t ==> goal[|goal| - n - 1] == b[t - n - 1] && text[span.end - 1] == a[t - n - 1];
  }

  /** It ends before that place. */
  lemma AfterCall(text: string, goal: string, t: nat, span: Span, call: string)
    requires Diverged(text, goal, t) && span.start <= span.end < |text| - t
    ensures Diverged(text[..span.start] + call + text[span.end..], goal, t)
  {
    var next := text[..span.start] + call + text[span.end..];
    assert next[|next| - t..] == text[|text| - t..];
    assert next[|next| - t - 1] == text[|text| - t - 1];
  }

  /** The form of every earlier match that is replaced ends well before the last `t` characters. */
  ghost predicate Deep(original: string, matches: seq<Match>, k: nat, t: nat, rewrite: Rewrite)
    requires k <= |matches|
  {
    forall i :: 0 <= i < k ==> DeepAt(original, matches, k, i, t, rewrite)
  }

  predicate DeepAt(original: string, matches: seq<Match>, k: nat, i: nat, t: nat, rewrite: Rewrite)
    requires i < k <= |matches|
  {
    CallFor(original, matches[i], rewrite).Some? ==>
      && EnclosingForm(original, matches[i].pos).Some?
      && EnclosingForm(original, matches[i].pos).value.end <= |original|
      && t < |Substituted(original, EnclosingForm(original, matches[i].pos).value.end, matches[k..], rewrite)|
  }

  /** A match without a form that gets one when its turn comes, and is replaced. */
  predicate Caught(original: string, matches: seq<Match>, k: nat, rewrite: Rewrite)
    requires k < |matches|
  {
    EnclosingForm(original, matches[k].pos).None?
    && CallFor(Substituted(original, 0, matches[k + 1..], rewrite), matches[k], rewrite).Some?
  }

  lemma LaterApart(original: string, matches: seq<Match>, k: nat)
    requires Confirms(original, matches) && FormsDisjoint(original, matches) && k < |matches|
    requires EnclosingForm(original, matches[k].pos).Some?
    ensures forall b :: b in matches[k + 1..] ==> MatchesApart(original, matches[k], b)
    ensures StartFrom(original, matches[k + 1..], EnclosingForm(original, matches[k].pos).value.end)
  {
    var later := matches[k + 1..];
    forall b | b in later
      ensures MatchesApart(original, matches[k], b)
      ensures EnclosingForm(original, b.pos).Some? ==>
                EnclosingForm(original, matches[k].pos).value.end <= EnclosingForm(original, b.pos).value.start
    {
      var i :| 0 <= i < |later| && later[i] == b;
      assert matches[k + 1 + i] == b && FormsApart(original, matches[k], matches[k + 1 + i]);
      SpanBounds(original, matches[k].pos);
      if EnclosingForm(original, b.pos).Some? {
        SpanBounds(original, b.pos);
      }
    }
  }

  /** A turn that goes as it should: nobody without a form is caught. */
  lemma GoodTurn(original: string, matches: seq<Match>, k: nat, rewrite: Rewrite)
    requires Confirms(original, matches) && FormsDisjoint(original, matches) && k < |matches|
    requires !Caught(original, matches, k, rewrite)
    ensures var content := Substituted(original, 0, matches[k + 1..], rewrite);
            RewriteOne(content, matches[k], rewrite) == Substituted(original, 0, matches[k..], rewrite)
  {
    var m, later := matches[k], matches[k + 1..];
    assert matches[k..] == [m] + later;
    if EnclosingForm(original, m.pos).Some? {
      LaterApart(original, matches, k);
      TurnIsSubstitution(original, m, later, Substituted(original, 0, later, rewrite), rewrite);
    } else {
      assert ([m] + later)[1..] == later;
    }
  }

  /** A match that is replaced later on, if the substitution changes anything. */
  lemma {:induction false} SomeReplaced(original: string, start: nat, matches: seq<Match>, rewrite: Rewrite)
    returns (b: Match)
    requires start <= |original| && Substituted(original, start, matches, rewrite) != original[start..]
    ensures b in matches && CallFor(original, b, rewrite).Some?
    decreases |matches|
  {
    b := matches[0];
    if CallFor(original, b, rewrite).None? {
      b := SomeReplaced(original, start, matches[1..], rewrite);
    }
  }

  /** Catching a match without a form makes the text diverge from the substitution. */
  lemma CaughtDiverges(original: string, matches: seq<Match>, k: nat, rewrite: Rewrite) returns (t: nat)
    requires Confirms(original, matches) && FormsDisjoint(original, matches) && EndsInBrace(rewrite)
    requires k < |matches| && Caught(original, matches, k, rewrite)
    ensures Diverged(RewriteOne(Substituted(original, 0, matches[k + 1..], rewrite), matches[k], rewrite),
                     Substituted(original, 0, matches[k..], rewrite), t)
    ensures Deep(original, matches, k, t, rewrite)
  {
    var a, later := matches[k], matches[k + 1..];
    var content := Substituted(original, 0, later, rewrite);
    assert matches[k..] == [a] + later && ([a] + later)[1..] == later;
    assert Substituted(original, 0, matches[k..], rewrite) == content;
    SpanBounds(content, a.pos);
    ClosedSpan(content, a.pos);
    var span, call := EnclosingForm(content, a.pos).value, CallFor(content, a, rewrite).value;
    t := |content| - span.end;
    NewCall(content, span, call);
    var b := SomeReplaced(original, 0, later, rewrite);
    hide Caught, EnclosingForm, RewriteOne;
    forall i | 0 <= i < k ensures DeepAt(original, matches, k, i, t, rewrite) {
      if CallFor(original, matches[i], rewrite).Some? {
        CaughtIsDeep(original, matches, k, i, b, rewrite);
      }
    }
  }

  lemma NewCall(content: string, span: Span, call: string)
    requires span.start <= span.end <= |content| && 1 <= span.end && content[span.end - 1] == '>'
    requires call != "" && call[|call| - 1] == '}'
    ensures Diverged(content[..span.start] + call + content[span.end..], content, |content| - span.end)
  {
    var next := content[..span.start] + call + content[span.end..];
    assert next[|next| - (|content| - span.end)..] == content[span.end..];
  }

  lemma CaughtIsDeep(original: string, matches: seq<Match>, k: nat, i: nat, b: Match, rewrite: Rewrite)
    requires Confirms(original, matches) && FormsDisjoint(original, matches)
    requires i < k < |matches| && CallFor(original, matches[i], rewrite).Some?
    requires EnclosingForm(original, matches[k].pos).None?
    requires b in matches[k + 1..] && CallFor(original, b, rewrite).Some?
    ensures var c := EnclosingForm(original, matches[i].pos);
            var content := Substituted(original, 0, matches[k + 1..], rewrite);
            && c.Some? && c.value.end <= matches[k].pos <= |original|
            && |Substituted(original, c.value.end, matches[k + 1..], rewrite)| == |content| - c.value.end
  {
    var c, a := matches[i], matches[k];
    ConfirmOutsideTags(original, c);
    ConfirmOutsideTags(original, a);
    var open, close := FoundForm(original, b.pos);
    var j :| 0 <= j < |matches[k + 1..]| && matches[k + 1..][j] == b;
    assert matches[k + 1 + j] == b && a.pos < b.pos;
    StrayAfterForm(original, c, a, close);
    var e := EnclosingForm(original, c.pos).value.end;
    LaterApart(original, matches, i);
    assert StartFrom(original, matches[k + 1..], e) by {
      assert matches[k + 1..] == matches[i + 1..][k - i..];
    }
    SubstitutedPrefix(original, 0, e, matches[k + 1..], rewrite);
  }

  lemma DeepMore(original: string, matches: seq<Match>, k: nat, t: nat, t': nat, rewrite: Rewrite)
    requires Confirms(original, matches) && FormsDisjoint(original, matches)
    requires k < |matches| && t' <= t && Deep(original, matches, k + 1, t, rewrite)
    ensures Deep(original, matches, k, t', rewrite)
    ensures CallFor(original, matches[k], rewrite).Some? ==>
              && EnclosingForm(original, matches[k].pos).Some?
              && var e := EnclosingForm(original, matches[k].pos).value.end;
                 e <= |original| && t < |Substituted(original, e, matches[k + 1..], rewrite)|
  {
    assert DeepAt(original, matches, k + 1, k, t, rewrite);
    forall i | 0 <= i < k ensures DeepAt(original, matches, k, i, t', rewrite) {
      assert DeepAt(original, matches, k + 1, i, t, rewrite);
      if CallFor(original, matches[i], rewrite).Some? {
        GoalLength(original, EnclosingForm(original, matches[i].pos).value.end, matches[k], matches[k + 1..], rewrite);
        assert matches[k..] == [matches[k]] + matches[k + 1..];
      }
    }
  }

  /** Putting a match in front either adds nothing or leaves what follows its form. */
  lemma GoalLength(original: string, start: nat, m: Match, later: seq<Match>, rewrite: Rewrite)
    requires start <= |original|
    ensures var more := Substituted(original, start, [m] + later, rewrite);
            if CallFor(original, m, rewrite).None? then more == Substituted(original, start, later, rewrite)
            else && EnclosingForm(original, m.pos).Some? && EnclosingForm(original, m.pos).value.end <= |original|
                 && |more| >= |Substituted(original, EnclosingForm(original, m.pos).value.end, later, rewrite)|
  {
    assert ([m] + later)[1..] == later && ([m] + later)[0] == m;
    if CallFor(original, m, rewrite).Some? {
      SpanBounds(original, m.pos);
    }
    hide EnclosingForm;
  }

  /** The substitution with one more match ends like the one without. */
  lemma SameTail(original: string, matches: seq<Match>, k: nat, t: nat, rewrite: Rewrite)
    requires Confirms(original, matches) && FormsDisjoint(original, matches) && k < |matches|
    requires CallFor(original, matches[k], rewrite).Some? ==>
               && EnclosingForm(original, matches[k].pos).Some?
               && var e := EnclosingForm(original, matches[k].pos).value.end;
                  e <= |original| && t < |Substituted(original, e, matches[k + 1..], rewrite)|
    requires t < |Substituted(original, 0, matches[k + 1..], rewrite)|
    ensures var goal := Substituted(original, 0, matches[k + 1..], rewrite);
            var goal' := Substituted(original, 0, matches[k..], rewrite);
            t < |goal'| && goal'[|goal'| - t - 1..] == goal[|goal| - t - 1..]
  {
    var m, later := matches[k], matches[k + 1..];
    assert matches[k..] == [m] + later && ([m] + later)[1..] == later;
    if CallFor(original, m, rewrite).Some? {
      LaterApart(original, matches, k);
      SpanBounds(original, m.pos);
      var span := EnclosingForm(original, m.pos).value;
      SubstitutedPrefix(original, 0, span.end, later, rewrite);
      var tail := Substituted(original, span.end, later, rewrite);
      var goal, goal' := Substituted(original, 0, later, rewrite), Substituted(original, 0, matches[k..], rewrite);
      assert goal == original[0..span.end] + tail;
      assert goal' == original[0..span.start] + CallFor(original, m, rewrite).value + tail;
      hide EnclosingForm, CallFor, Substituted;
      assert goal[|goal| - t - 1..] == tail[|tail| - t - 1..] == goal'[|goal'| - t - 1..];
    }
  }

  lemma SameTailDiverged(text: string, goal: string, goal': string, t: nat)
    requires Diverged(text, goal, t) && t < |goal'| && goal'[|goal'| - t - 1..] == goal[|goal| - t - 1..]
    ensures Diverged(text, goal', t)
  {
    var a, b := goal[|goal| - t - 1..], goal'[|goal'| - t - 1..];
    assert goal[|goal| - t..] == a[1..] && goal'[|goal'| - t..] == b[1..];
    assert goal[|goal| - t - 1] == a[0] && goal'[|goal'| - t - 1] == b[0];
  }

  /** Once somebody was caught, the loop never comes back to the substitution. */
  lemma {:induction false} StaysDiverged(original: string, matches: seq<Match>, k: nat, rewrite: Rewrite)
    returns (t: nat)
    requires Confirms(original, matches) && FormsDisjoint(original, matches) && EndsInBrace(rewrite)
    requires k < |matches| && exists i :: k <= i < |matches| && Caught(original, matches, i, rewrite)
    ensures Diverged(RewrittenFrom(original, matches, k, rewrite), Substituted(original, 0, matches[k..], rewrite), t)
    ensures Deep(original, matches, k, t, rewrite)
    decreases |matches| - k
  {
    hide Caught, Confirms, FormsDisjoint, EndsInBrace, Deep, Diverged, Substituted, RewriteOne;
    if exists i :: k + 1 <= i < |matches| && Caught(original, matches, i, rewrite) {
      var u := StaysDiverged(original, matches, k + 1, rewrite);
      var text := RewrittenFrom(original, matches, k + 1, rewrite);
      var goal := Substituted(original, 0, matches[k + 1..], rewrite);
      t := DivergedTurn(text, goal, u, matches[k], rewrite);
      DeepMore(original, matches, k, u, t, rewrite);
      DivergedLength(text, goal, u);
      SameTail(original, matches, k, t, rewrite);
      SameTailDiverged(RewriteOne(text, matches[k], rewrite), goal, Substituted(original, 0, matches[k..], rewrite), t);
    } else {
      UncaughtAgree(original, matches, k + 1, rewrite);
      t := CaughtDiverges(original, matches, k, rewrite);
    }
  }

  lemma DivergedLength(text: string, goal: string, t: nat)
    requires Diverged(text, goal, t)
    ensures t < |goal| && text != goal
  {
  }

  /** While nobody is caught, the loop is the substitution. */
  lemma {:induction false} UncaughtAgree(original: string, matches: seq<Match>, k: nat, rewrite: Rewrite)
    requires Confirms(original, matches) && FormsDisjoint(original, matches) && k <= |matches|
    requires forall i :: k <= i < |matches| ==> !Caught(original, matches, i, rewrite)
    ensures RewrittenFrom(original, matches, k, rewrite) == Substituted(original, 0, matches[k..], rewrite)
    decreases |matches| - k
  {
    if k == |matches| {
      assert original[0..] == original;
    } else {
      hide Caught, Confirms, FormsDisjoint, Substituted, RewriteOne;
      UncaughtAgree(original, matches, k + 1, rewrite);
      GoodTurn(original, matches, k, rewrite);
    }
  }

  /** For confirms with pairwise disjoint forms the in-place loop is the simultaneous
      substitution exactly if no match that had no form finds one, and is replaced, in
      the text with the later forms substituted. */
  lemma InPlaceExactly(original: string, matches: seq<Match>, rewrite: Rewrite)
    requires Confirms(original, matches) && FormsDisjoint(original, matches) && EndsInBrace(rewrite)
    ensures RewrittenFrom(original, matches, 0, rewrite) == Substituted(original, 0, matches, rewrite)
       <==> forall k :: 0 <= k < |matches| ==> !Caught(original, matches, k, rewrite)
  {
    assert matches[0..] == matches;
    hide Caught, Confirms, FormsDisjoint, EndsInBrace, Substituted, RewriteOne, Deep, Diverged, RewrittenFrom;
    if forall k :: 0 <= k < |matches| ==> !Caught(original, matches, k, rewrite) {
      UncaughtAgree(original, matches, 0, rewrite);
    } else {
      var t := StaysDiverged(original, matches, 0, rewrite);
      DivergedLength(RewrittenFrom(original, matches, 0, rewrite), Substituted(original, 0, matches, rewrite), t);
    }
  }

  // ------------------------------------------- the same, read off the original

  predicate TagFree(s: string) {
    forall i :: 0 <= i < |s| ==> !OpenAt(s, i) && !CloseAt(s, i)
  }

  /** The replacement ends in a brace and contains no form tag, as macro calls do. */
  predicate IsCall(call: string) {
    call != "" && call[|call| - 1] == '}' && TagFree(call)
  }

  /** The forms of the matches are replaced by such. */
  predicate MacroCalls(original: string, matches: seq<Match>, rewrite: Rewrite) {
    forall m :: m in matches && CallFor(original, m, rewrite).Some? ==> IsCall(CallFor(original, m, rewrite).value)
  }

  /** A form is open at `c`: some opening tag before it has no closing tag before it. */
  ghost predicate FormOpen(s: string, c: nat) {
    exists o: nat :: OpensAndStays(s, c, o)
  }

  ghost predicate OpensAndStays(s: string, c: nat, o: nat) {
    o + 6 <= c && OpenAt(s, o) && forall i: nat :: o <= i && i + 7 <= c ==> !CloseAt(s, i)
  }

  ghost predicate CloseFrom(s: string, start: nat) {
    exists i: nat :: start <= i && CloseAt(s, i)
  }

  /** A closing tag from `start` on lies in no form that is replaced. */
  ghost predicate CloseLeft(original: string, start: nat, matches: seq<Match>, rewrite: Rewrite) {
    exists j: nat :: start <= j && CloseAt(original, j) && Outside(original, matches, j, rewrite)
  }

  /** A match at `pos` without a form is at risk: it stands on the line in front of the
      first form that is replaced later, the closing tag that ended the form around it
      stands there too, and goes with the replacement, and another one follows. */
  ghost predicate AtRisk(original: string, pos: nat, later: seq<Match>, rewrite: Rewrite)
    decreases |later|
  {
    if later == [] then false
    else if CallFor(original, later[0], rewrite).None? then AtRisk(original, pos, later[1..], rewrite)
    else
      var span := EnclosingForm(original, later[0].pos).value;
      span.start <= pos && FormOpen(original, span.start) && CloseLeft(original, span.end, later[1..], rewrite)
  }

  /** The first replacement, if it starts before `pos`, is long enough to reach it. */
  ghost predicate Reaches(original: string, pos: nat, later: seq<Match>, rewrite: Rewrite)
    decreases |later|
  {
    if later == [] then true
    else if CallFor(original, later[0], rewrite).None? then Reaches(original, pos, later[1..], rewrite)
    else
      var span := EnclosingForm(original, later[0].pos).value;
      span.start <= pos ==> pos <= span.start + |CallFor(original, later[0], rewrite).value|
  }

  /** Inside a form is where a form is open and a closing tag follows. */
  lemma InsideForm(s: string, pos: nat)
    ensures EnclosingForm(s, pos).Some? <==> pos < |s| && FormOpen(s, pos) && CloseFrom(s, pos)
  {
    EnclosingFormFinds(s, pos);
    hide EnclosingForm, OpenAt, CloseAt;
    if open: nat, close: nat :| Encloses(s, pos, open, close) {
      assert OpensAndStays(s, pos, open);
    }
    if pos < |s| && FormOpen(s, pos) && CloseFrom(s, pos) {
      var o: nat :| OpensAndStays(s, pos, o);
      var last := LastOpenBefore(s, pos, o);
      FirstCloseFacts(s, pos);
      assert Encloses(s, pos, last, FirstClose(s, pos).value);
    }
  }

  lemma LastOpenBefore(s: string, pos: nat, o: nat) returns (last: nat)
    requires pos < |s| && OpenAt(s, o) && o + 6 <= pos
    ensures o <= last && last + 6 <= pos && OpenAt(s, last)
    ensures forall i: nat :: last < i && i + 6 <= pos ==> !OpenAt(s, i)
  {
    var back := s[..pos];
    PrefixOpen(s, pos, o);
    LastOpenFacts(back, pos);
    hide OpenAt;
    last := LastOpen(back, pos).value;
    PrefixOpen(s, pos, last);
    forall i: nat | last < i && i + 6 <= pos ensures !OpenAt(s, i) {
      PrefixOpen(s, pos, i);
    }
  }

  // ------------------------------------------------ tags of a text in pieces

  /** No tag reaches over the end of `x`. */
  predicate Borders(x: string) {
    x == "" || x[|x| - 1] in "\n}"
  }

  lemma SliceWord(s: string, a: nat, b: nat, i: nat, word: string)
    requires a <= b <= |s|
    ensures WordAt(s[a..b], i, word) <==> a + i + |word| <= b && WordAt(s, a + i, word)
  {
    if a + i + |word| <= b {
      assert forall k {:trigger word[k]} :: 0 <= k < |word| ==> s[a..b][i + k] == s[a + i + k];
    }
  }

  lemma CloseInSlice(s: string, a: nat, b: nat, i: nat)
    requires a <= b <= |s|
    ensures CloseAt(s[a..b], i) <==> a + i + 7 <= b && CloseAt(s, a + i)
  {
    SliceWord(s, a, b, i, "</form>");
  }

  lemma OpenInSlice(s: string, a: nat, b: nat, i: nat)
    requires a <= b <= |s|
    ensures OpenAt(s[a..b], i) <==> a + i + 6 <= b && OpenAt(s, a + i)
  {
    SliceWord(s, a, b, i, "<form");
    assert a + i + 6 <= b ==> s[a..b][i + 5] == s[a + i + 5];
  }

  lemma CloseHasNoBorder(s: string, i: nat, k: nat)
    requires CloseAt(s, i) && i <= k < i + 7
    ensures s[k] !in "\n}"
  {
    assert Lower(s[i + (k - i)]) == "</form>"[k - i];
  }

  lemma OpenHasNoBorder(s: string, i: nat, k: nat)
    requires OpenAt(s, i) && i <= k < i + 6
    ensures s[k] != '}' && (s[k] == '\n' ==> k == i + 5)
  {
    if k < i + 5 {
      assert Lower(s[i + (k - i)]) == "<form"[k - i];
    }
  }

  /** A closing tag of two pieces is one of the first or one of the second. */
  lemma CloseInPieces(x: string, y: string, i: nat)
    requires Borders(x)
    ensures CloseAt(x + y, i) <==> if i < |x| then CloseAt(x, i) else CloseAt(y, i - |x|)
  {
    var s := x + y;
    assert s[0..|x|] == x && s[|x|..|s|] == y;
    CloseInSlice(s, 0, |x|, i);
    if i >= |x| {
      CloseInSlice(s, |x|, |s|, i - |x|);
      assert CloseAt(s, i) ==> i + 7 <= |s|;
    } else if CloseAt(s, i) && i + 7 > |x| {
      CloseHasNoBorder(s, i, |x| - 1);
    }
  }

  /** So is an opening tag. */
  lemma OpenInPieces(x: string, y: string, i: nat)
    requires Borders(x)
    ensures OpenAt(x + y, i) <==> if i < |x| then OpenAt(x, i) else OpenAt(y, i - |x|)
  {
    var s := x + y;
    assert s[0..|x|] == x && s[|x|..|s|] == y;
    OpenInSlice(s, 0, |x|, i);
    if i >= |x| {
      OpenInSlice(s, |x|, |s|, i - |x|);
      assert OpenAt(s, i) ==> i + 6 <= |s|;
    } else if OpenAt(s, i) && i + 6 > |x| {
      OpenHasNoBorder(s, i, |x| - 1);
    }
  }

  lemma SpanBorder(original: string, pos: nat, start: nat)
    requires EnclosingForm(original, pos).Some? && start <= EnclosingForm(original, pos).value.start
    ensures var s := EnclosingForm(original, pos).value.start; s <= |original| && Borders(original[start..s])
  {
    var open, close := FoundForm(original, pos);
    SpanBounds(original, pos);
    LineStartFacts(original, open);
    assert start < LineStart(original, open) ==>
      original[start..LineStart(original, open)][LineStart(original, open) - start - 1]
      == original[LineStart(original, open) - 1];
  }

  /** The closing tags that the substitution leaves are those it shows. */
  lemma {:induction false} CloseLeftMeaning(original: string, start: nat, matches: seq<Match>, rewrite: Rewrite)
    requires Confirms(original, matches) && FormsDisjoint(original, matches)
    requires MacroCalls(original, matches, rewrite)
    requires start <= |original| && StartFrom(original, matches, start)
    ensures CloseFrom(Substituted(original, start, matches, rewrite), 0)
       <==> CloseLeft(original, start, matches, rewrite)
    decreases |matches|
  {
    if matches == [] {
      CloseInTail(original, start, rewrite);
    } else {
      var m, rest := matches[0], matches[1..];
      OrderedTail(original, matches);
      CallsTail(original, matches, rewrite);
      hide EnclosingForm, Confirms, FormsDisjoint, MacroCalls;
      if CallFor(original, m, rewrite).None? {
        CloseLeftMeaning(original, start, rest, rewrite);
        CloseLeftSkips(original, start, matches, rewrite);
      } else {
        LaterApart(original, matches, 0);
        SpanBounds(original, m.pos);
        var span := EnclosingForm(original, m.pos).value;
        CloseLeftMeaning(original, span.end, rest, rewrite);
        CloseLeftStep(original, start, matches, rewrite);
      }
    }
  }

  lemma OrderedTail(original: string, matches: seq<Match>)
    requires Confirms(original, matches) && FormsDisjoint(original, matches) && matches != []
    ensures Confirms(original, matches[1..]) && FormsDisjoint(original, matches[1..])
  {
    hide ConfirmAt, FormsApart;
    var rest := matches[1..];
    assert forall i :: 0 <= i < |rest| ==> rest[i] == matches[i + 1];
    forall i, j | 0 <= i < j < |rest| ensures FormsApart(original, rest[i], rest[j]) {
      assert FormsApart(original, matches[i + 1], matches[j + 1]);
    }
  }

  lemma CallsTail(original: string, matches: seq<Match>, rewrite: Rewrite)
    requires MacroCalls(original, matches, rewrite) && matches != []
    ensures MacroCalls(original, matches[1..], rewrite)
    ensures var call := CallFor(original, matches[0], rewrite); call.Some? ==> IsCall(call.value)
  {
    hide CallFor, IsCall;
    assert matches[0] in matches && forall m :: m in matches[1..] ==> m in matches;
  }

  lemma CloseInTail(original: string, start: nat, rewrite: Rewrite)
    requires start <= |original|
    ensures CloseFrom(original[start..], 0) <==> CloseLeft(original, start, [], rewrite)
  {
    var tail := original[start..|original|];
    assert tail == original[start..];
    if i: nat :| CloseAt(tail, i) {
      CloseInSlice(original, start, |original|, i);
      assert Outside(original, [], start + i, rewrite);
    }
    if CloseLeft(original, start, [], rewrite) {
      var j: nat :| start <= j && CloseAt(original, j);
      CloseInSlice(original, start, |original|, j - start);
    }
  }

  lemma CloseLeftSkips(original: string, start: nat, matches: seq<Match>, rewrite: Rewrite)
    requires matches != [] && CallFor(original, matches[0], rewrite).None?
    ensures CloseLeft(original, start, matches, rewrite) <==> CloseLeft(original, start, matches[1..], rewrite)
  {
    hide EnclosingForm, CloseAt;
    forall j: nat ensures Outside(original, matches, j, rewrite) <==> Outside(original, matches[1..], j, rewrite) {
      assert matches == [matches[0]] + matches[1..];
    }
  }

  /** Text, replacement, rest. */
  lemma CloseLeftStep(original: string, start: nat, matches: seq<Match>, rewrite: Rewrite)
    requires matches != [] && CallFor(original, matches[0], rewrite).Some?
    requires IsCall(CallFor(original, matches[0], rewrite).value)
    requires EnclosingForm(original, matches[0].pos).Some?
    requires var span := EnclosingForm(original, matches[0].pos).value;
             && start <= span.start <= span.end <= |original| && StartFrom(original, matches[1..], span.end)
             && (CloseFrom(Substituted(original, span.end, matches[1..], rewrite), 0)
                 <==> CloseLeft(original, span.end, matches[1..], rewrite))
    ensures CloseFrom(Substituted(original, start, matches, rewrite), 0)
       <==> CloseLeft(original, start, matches, rewrite)
  {
    var span, call := EnclosingForm(original, matches[0].pos).value, CallFor(original, matches[0], rewrite).value;
    var rest := Substituted(original, span.end, matches[1..], rewrite);
    SpanBorder(original, matches[0].pos, start);
    assert IsCall(call);
    hide EnclosingForm, CallFor, TagFree, Outside, StartFrom;
    CloseInThree(original[start..span.start], call, rest);
    CloseBefore(original, start, span.start);
    if CloseFrom(original[start..span.start], 0) {
      var j: nat :| start <= j < span.start && CloseAt(original, j);
      OutsideBefore(original, matches, j, rewrite);
    } else if CloseLeft(original, span.end, matches[1..], rewrite) {
      var j: nat :| span.end <= j && CloseAt(original, j) && Outside(original, matches[1..], j, rewrite);
      OutsideAfter(original, matches, j, rewrite);
    } else if CloseLeft(original, start, matches, rewrite) {
      var j: nat :| start <= j && CloseAt(original, j) && Outside(original, matches, j, rewrite);
      OutsideAfter(original, matches, j, rewrite);
    }
  }

  lemma OutsideBefore(original: string, matches: seq<Match>, j: nat, rewrite: Rewrite)
    requires matches != [] && EnclosingForm(original, matches[0].pos).Some?
    requires var span := EnclosingForm(original, matches[0].pos).value;
             j < span.start <= span.end && StartFrom(original, matches[1..], span.end)
    ensures Outside(original, matches, j, rewrite)
  {
    assert matches == [matches[0]] + matches[1..];
  }

  lemma OutsideAfter(original: string, matches: seq<Match>, j: nat, rewrite: Rewrite)
    requires matches != [] && CallFor(original, matches[0], rewrite).Some?
    ensures EnclosingForm(original, matches[0].pos).Some?
    ensures var span := EnclosingForm(original, matches[0].pos).value;
            Outside(original, matches, j, rewrite)
            <==> (j < span.start || span.end <= j) && Outside(original, matches[1..], j, rewrite)
  {
    assert matches == [matches[0]] + matches[1..];
    hide EnclosingForm;
  }

  lemma CloseInThree(x: string, y: string, z: string)
    requires Borders(x) && Borders(y) && TagFree(y)
    ensures CloseFrom(x + y + z, 0) <==> CloseFrom(x, 0) || CloseFrom(z, 0)
    ensures Borders(x + y)
  {
    assert Borders(x + y);
    hide Borders, TagFree;
    var s := x + y + z;
    if i: nat :| CloseAt(s, i) {
      CloseInPieces(x + y, z, i);
      CloseInPieces(x, y, i);
      CloseNotFree(y, i - |x|);
    }
    if i: nat :| CloseAt(x, i) {
      CloseInPieces(x, y, i);
      CloseInPieces(x + y, z, i);
      assert CloseAt(x, i) ==> i < |x|;
    }
    if i: nat :| CloseAt(z, i) {
      CloseInPieces(x + y, z, |x + y| + i);
    }
  }

  lemma CloseNotFree(y: string, i: int)
    requires TagFree(y)
    ensures i >= 0 ==> !CloseAt(y, i)
  {
    if 0 <= i < |y| {
      assert !CloseAt(y, i);
    }
  }

  lemma CloseBefore(original: string, start: nat, end: nat)
    requires start <= end <= |original| && Borders(original[start..end])
    ensures CloseFrom(original[start..end], 0) <==> exists j: nat :: start <= j < end && CloseAt(original, j)
  {
    var x := original[start..end];
    assert start < end ==> x[end - start - 1] == original[end - 1];
    if i: nat :| CloseAt(x, i) {
      CloseInSlice(original, start, end, i);
    }
    if j: nat :| start <= j < end && CloseAt(original, j) {
      CloseInSlice(original, start, end, j - start);
      if j + 7 > end {
        CloseHasNoBorder(original, j, end - 1);
      }
    }
  }

  // ------------------------------------------------------ who is at risk

  /** The match is found inside a form of the substituted text exactly if it is at risk. */
  lemma {:induction false} RiskMeaning(original: string, pos: nat, later: seq<Match>, rewrite: Rewrite)
    requires Confirms(original, later) && FormsDisjoint(original, later)
    requires MacroCalls(original, later, rewrite)
    requires EnclosingForm(original, pos).None? && pos < |original| && forall b :: b in later ==> pos < b.pos
    requires Reaches(original, pos, later, rewrite)
    ensures EnclosingForm(Substituted(original, 0, later, rewrite), pos).Some?
       <==> AtRisk(original, pos, later, rewrite)
    decreases |later|
  {
    if later == [] {
      assert original[0..] == original;
    } else {
      var b, rest := later[0], later[1..];
      OrderedTail(original, later);
      assert b in later;
      CallsTail(original, later, rewrite);
      hide EnclosingForm, Confirms, FormsDisjoint, MacroCalls;
      if CallFor(original, b, rewrite).None? {
        RiskMeaning(original, pos, rest, rewrite);
      } else {
        LaterApart(original, later, 0);
        SpanBounds(original, b.pos);
        var span := EnclosingForm(original, b.pos).value;
        CloseLeftMeaning(original, span.end, rest, rewrite);
        RiskStep(original, pos, later, rewrite);
      }
    }
  }

  lemma RiskStep(original: string, pos: nat, later: seq<Match>, rewrite: Rewrite)
    requires later != [] && CallFor(original, later[0], rewrite).Some?
    requires IsCall(CallFor(original, later[0], rewrite).value)
    requires EnclosingForm(original, pos).None? && pos < |original| && pos < later[0].pos
    requires EnclosingForm(original, later[0].pos).Some? && Reaches(original, pos, later, rewrite)
    requires var span := EnclosingForm(original, later[0].pos).value;
             && span.start <= span.end <= |original| && StartFrom(original, later[1..], span.end)
             && (CloseFrom(Substituted(original, span.end, later[1..], rewrite), 0)
                 <==> CloseLeft(original, span.end, later[1..], rewrite))
    ensures EnclosingForm(Substituted(original, 0, later, rewrite), pos).Some?
       <==> AtRisk(original, pos, later, rewrite)
  {
    var span, call := EnclosingForm(original, later[0].pos).value, CallFor(original, later[0], rewrite).value;
    var rest := Substituted(original, span.end, later[1..], rewrite);
    var content := Substituted(original, 0, later, rewrite);
    SpanBorder(original, later[0].pos, 0);
    assert IsCall(call);
    assert content == original[0..span.start] + call + rest && original[0..span.start] == original[..span.start];
    InsideForm(content, pos);
    if pos < span.start {
      var open, close := FoundForm(original, later[0].pos);
      assert content[..pos + 1] == original[..pos + 1];
      hide EnclosingForm, CallFor, Substituted;
      SamePrefixNoForm(original, content, pos + 1, pos, close);
    } else {
      hide EnclosingForm, CallFor, Substituted, TagFree, Borders;
      FormOpenInPieces(original, span.start, call, rest, pos);
      CloseFromInPieces(original[..span.start], call, rest, pos);
    }
  }

  /** Whether a form is open inside the replacement depends on the text before it alone. */
  lemma FormOpenInPieces(original: string, s: nat, call: string, rest: string, pos: nat)
    requires s <= |original| && Borders(original[..s]) && call != "" && call[|call| - 1] == '}' && TagFree(call)
    requires s <= pos <= s + |call|
    ensures FormOpen(original[..s] + call + rest, pos) <==> FormOpen(original, s)
  {
    var x := original[..s];
    var content := x + call + rest;
    forall i: nat
      ensures OpenAt(content, i) && i + 6 <= pos <==> OpenAt(original, i) && i + 6 <= s
      ensures CloseAt(content, i) && i + 7 <= pos <==> CloseAt(original, i) && i + 7 <= s
    {
      TagsBefore(original, s, call, rest, pos, i);
    }
    hide OpenAt, CloseAt, TagFree, Borders;
    if o: nat :| OpensAndStays(content, pos, o) {
      assert OpensAndStays(original, s, o);
    }
    if o: nat :| OpensAndStays(original, s, o) {
      assert OpensAndStays(content, pos, o);
    }
  }

  lemma TagsBefore(original: string, s: nat, call: string, rest: string, pos: nat, i: nat)
    requires s <= |original| && Borders(original[..s]) && call != "" && call[|call| - 1] == '}' && TagFree(call)
    requires s <= pos <= s + |call|
    ensures var content := original[..s] + call + rest;
            && (OpenAt(content, i) && i + 6 <= pos <==> OpenAt(original, i) && i + 6 <= s)
            && (CloseAt(content, i) && i + 7 <= pos <==> CloseAt(original, i) && i + 7 <= s)
  {
    var x := original[..s];
    assert Borders(x + call) && x == original[0..s];
    OpenInSlice(original, 0, s, i);
    CloseInSlice(original, 0, s, i);
    assert (OpenAt(x, i) ==> i + 6 <= s) && (CloseAt(x, i) ==> i + 7 <= s);
    OpenInPieces(x + call, rest, i);
    CloseInPieces(x + call, rest, i);
    OpenInPieces(x, call, i);
    CloseInPieces(x, call, i);
    CloseNotFree(call, i - s);
    OpenNotFree(call, i - s);
    hide OpenAt, CloseAt, TagFree, Borders;
  }

  lemma OpenNotFree(y: string, i: int)
    requires TagFree(y)
    ensures i >= 0 ==> !OpenAt(y, i)
  {
    if 0 <= i < |y| {
      assert !OpenAt(y, i);
    }
  }

  /** A closing tag behind a place inside the replacement is one of the rest. */
  lemma CloseFromInPieces(x: string, call: string, rest: string, pos: nat)
    requires Borders(x) && call != "" && call[|call| - 1] == '}' && TagFree(call)
    requires |x| <= pos <= |x| + |call|
    ensures pos < |x + call + rest| && CloseFrom(x + call + rest, pos) <==> CloseFrom(rest, 0)
  {
    var content := x + call + rest;
    assert Borders(x + call);
    hide Borders;
    if i: nat :| pos <= i && CloseAt(content, i) {
      CloseInPieces(x + call, rest, i);
      CloseInPieces(x, call, i);
      CloseNotFree(call, i - |x|);
    }
    if i: nat :| CloseAt(rest, i) {
      CloseInPieces(x + call, rest, |x + call| + i);
      assert |x + call| + i < |content|;
    }
  }

  /** Nobody without a form is at risk. */
  ghost predicate Harmless(original: string, matches: seq<Match>, rewrite: Rewrite) {
    forall k :: 0 <= k < |matches| && EnclosingForm(original, matches[k].pos).None? ==>
      !AtRisk(original, matches[k].pos, matches[k + 1..], rewrite)
  }

  ghost predicate AllReach(original: string, matches: seq<Match>, rewrite: Rewrite) {
    forall k :: 0 <= k < |matches| && EnclosingForm(original, matches[k].pos).None? ==>
      Reaches(original, matches[k].pos, matches[k + 1..], rewrite)
  }

  function Action(url: string): string {
    "action=\"" + url + "\""
  }

  /** The pattern of line 220 finds an action in the block. */
  ghost predicate HasAction(block: string) {
    exists i: nat, url :: '"' !in url && OccursAt(block, Action(url), i)
  }

  /** Every block with an action is replaced. */
  ghost predicate TakesActions(rewrite: Rewrite) {
    forall message, block :: HasAction(block) ==> rewrite(message, block).Some?
  }

  /** Every opening tag has its action on its own line. */
  ghost predicate ActionsInline(original: string) {
    forall o: nat :: OpenAt(original, o) ==> ActionOnLine(original, o)
  }

  ghost predicate ActionOnLine(s: string, o: nat) {
    exists i: nat, url :: '"' !in url && OnLine(s, o, i, Action(url))
  }

  predicate OnLine(s: string, o: nat, i: nat, word: string) {
    o <= i && OccursAt(s, word, i) && forall k :: o <= k < i + |word| ==> s[k] != '\n'
  }

  lemma OccursInsideSlice(s: string, a: nat, b: nat, word: string, i: nat)
    requires a <= b <= |s| && a <= i && i + |word| <= b && OccursAt(s, word, i)
    ensures OccursAt(s[a..b], word, i - a)
  {
    SliceOfSlice(s, a, b, i - a, i - a + |word|);
  }

  lemma SliceOfSlice(s: string, a: nat, b: nat, i: nat, j: nat)
    requires a <= b <= |s| && i <= j <= b - a
    ensures s[a..b][i..j] == s[a + i..a + j]
  {
    assert forall k :: 0 <= k < j - i ==> s[a..b][i..j][k] == s[a + i..a + j][k];
  }

  /** The form in which a match at risk is caught has an action: that of its opening tag,
      which stands on a line before the replacement. */
  lemma {:induction false} RiskHasAction(original: string, pos: nat, later: seq<Match>, rewrite: Rewrite)
    requires Confirms(original, later) && FormsDisjoint(original, later) && MacroCalls(original, later, rewrite)
    requires EnclosingForm(original, pos).None? && pos < |original| && forall b :: b in later ==> pos < b.pos
    requires Reaches(original, pos, later, rewrite) && AtRisk(original, pos, later, rewrite) && ActionsInline(original)
    ensures BlockHasAction(Substituted(original, 0, later, rewrite), pos)
    decreases |later|
  {
    var b, rest := later[0], later[1..];
    CallsTail(original, later, rewrite);
    if CallFor(original, b, rewrite).None? {
      OrderedTail(original, later);
      hide EnclosingForm, Confirms, FormsDisjoint, MacroCalls, ActionsInline, BlockHasAction;
      RiskHasAction(original, pos, rest, rewrite);
    } else {
      RiskMeaning(original, pos, later, rewrite);
      hide Confirms, FormsDisjoint, MacroCalls, ActionsInline, BlockHasAction;
      FirstReplaced(original, b, rest, rewrite);
      var span, call := EnclosingForm(original, b.pos).value, CallFor(original, b, rewrite).value;
      hide EnclosingForm, CallFor, Substituted, IsCall;
      ActionBefore(original, span.start, call, Substituted(original, span.end, rest, rewrite), pos);
    }
  }

  /** The form found around the position has an action. */
  ghost predicate BlockHasAction(content: string, pos: nat) {
    var span := EnclosingForm(content, pos);
    && span.Some? && span.value.start <= span.value.end <= |content|
    && HasAction(content[span.value.start..span.value.end])
  }

  lemma FirstReplaced(original: string, b: Match, rest: seq<Match>, rewrite: Rewrite)
    requires CallFor(original, b, rewrite).Some?
    ensures var span := EnclosingForm(original, b.pos);
            && span.Some? && span.value.start <= span.value.end <= |original|
            && (span.value.start == 0 || original[span.value.start - 1] == '\n')
            && Substituted(original, 0, [b] + rest, rewrite)
               == original[..span.value.start] + CallFor(original, b, rewrite).value
                  + Substituted(original, span.value.end, rest, rewrite)
  {
    SpanOnLine(original, b.pos);
    hide EnclosingForm;
    assert ([b] + rest)[1..] == rest && ([b] + rest)[0] == b;
    var start := EnclosingForm(original, b.pos).value.start;
    assert original[0..start] == original[..start];
  }

  lemma SpanOnLine(s: string, pos: nat)
    requires EnclosingForm(s, pos).Some?
    ensures var span := EnclosingForm(s, pos).value;
            span.start <= span.end <= |s| && (span.start == 0 || s[span.start - 1] == '\n')
  {
    var open, close := FoundForm(s, pos);
    SpanBounds(s, pos);
    LineStartFacts(s, open);
    hide EnclosingForm;
  }

  /** Whatever form is found around a place in the replacement was opened on a line before it. */
  lemma ActionBefore(original: string, s: nat, call: string, rest: string, pos: nat)
    requires s <= pos <= s + |call| && s <= |original| && IsCall(call) && ActionsInline(original)
    requires s == 0 || original[s - 1] == '\n'
    requires EnclosingForm(original[..s] + call + rest, pos).Some?
    ensures BlockHasAction(original[..s] + call + rest, pos)
  {
    var content := original[..s] + call + rest;
    hide EnclosingForm, IsCall, ActionsInline;
    var open, close := FoundForm(content, pos);
    SpanBounds(content, pos);
    var start := LineStart(content, open);
    LineStartFacts(content, open);
    hide LineStart;
    assert OpenAt(content, open) && open + 6 <= pos;
    hide Encloses, OpenAt, HasAction;
    ActionOfTag(original, s, call, rest, pos, open, start, close + 7);
  }

  lemma ActionOfTag(original: string, s: nat, call: string, rest: string, pos: nat, open: nat, start: nat, end: nat)
    requires s <= pos <= s + |call| && s <= |original| && IsCall(call) && ActionsInline(original)
    requires s == 0 || original[s - 1] == '\n'
    requires var content := original[..s] + call + rest;
             OpenAt(content, open) && open + 6 <= pos < end <= |content| && start <= open
    ensures HasAction((original[..s] + call + rest)[start..end])
  {
    BreakIsBorder(original, s);
    assert call != "" && call[|call| - 1] == '}' && TagFree(call);
    hide OpenAt, Borders, TagFree;
    TagsBefore(original, s, call, rest, pos, open);
    assert ActionOnLine(original, open);
    var i: nat, url :| '"' !in url && OnLine(original, open, i, Action(url));
    ActionInPrefix(original, s, call + rest, open, i, Action(url));
    assert original[..s] + call + rest == original[..s] + (call + rest);
    OccursInsideSlice(original[..s] + call + rest, start, end, Action(url), i);
  }

  lemma BreakIsBorder(original: string, s: nat)
    requires s <= |original| && (s == 0 || original[s - 1] == '\n')
    ensures Borders(original[..s])
  {
    assert s > 0 ==> original[..s][s - 1] == original[s - 1];
  }

  lemma ActionInPrefix(original: string, s: nat, more: string, o: nat, i: nat, word: string)
    requires o < s <= |original| && original[s - 1] == '\n' && OnLine(original, o, i, word)
    ensures i + |word| < s && OccursAt(original[..s] + more, word, i)
  {
    assert !(o <= s - 1 < i + |word|);
    var content := original[..s] + more;
    assert content[..s] == original[..s];
    assert content[i..i + |word|] == content[..s][i..i + |word|] == original[..s][i..i + |word|]
        == original[i..i + |word|];
  }

  lemma CaughtMeaning(original: string, matches: seq<Match>, k: nat, rewrite: Rewrite)
    requires Confirms(original, matches) && FormsDisjoint(original, matches) && MacroCalls(original, matches, rewrite)
    requires AllReach(original, matches, rewrite) && k < |matches| && EnclosingForm(original, matches[k].pos).None?
    ensures Caught(original, matches, k, rewrite) ==> AtRisk(original, matches[k].pos, matches[k + 1..], rewrite)
    ensures TakesActions(rewrite) && ActionsInline(original) ==>
              AtRisk(original, matches[k].pos, matches[k + 1..], rewrite) ==> Caught(original, matches, k, rewrite)
  {
    var m, later := matches[k], matches[k + 1..];
    OrderedFrom(original, matches, k + 1);
    CallsOf(original, matches, later, rewrite);
    assert ConfirmAt(original, m) && Reaches(original, m.pos, later, rewrite) && matches[k + 1 - 1] == m;
    hide Confirms, FormsDisjoint, MacroCalls, AtRisk, Substituted, EnclosingForm, Reaches, AllReach, ConfirmAt;
    hide ActionsInline, BlockHasAction, TakesActions;
    ConfirmOutsideTags(original, m);
    RiskMeaning(original, m.pos, later, rewrite);
    CaughtInForm(original, matches, k, rewrite);
    if ActionsInline(original) && AtRisk(original, m.pos, later, rewrite) {
      RiskHasAction(original, m.pos, later, rewrite);
    }
  }

  lemma CallsOf(original: string, matches: seq<Match>, some: seq<Match>, rewrite: Rewrite)
    requires MacroCalls(original, matches, rewrite) && forall m :: m in some ==> m in matches
    ensures MacroCalls(original, some, rewrite)
  {
    hide CallFor, IsCall;
  }

  lemma CaughtInForm(original: string, matches: seq<Match>, k: nat, rewrite: Rewrite)
    requires k < |matches| && EnclosingForm(original, matches[k].pos).None?
    ensures var content, pos := Substituted(original, 0, matches[k + 1..], rewrite), matches[k].pos;
            && (Caught(original, matches, k, rewrite) ==> EnclosingForm(content, pos).Some?)
            && (BlockHasAction(content, pos) && TakesActions(rewrite) ==> Caught(original, matches, k, rewrite))
  {
    var content, m := Substituted(original, 0, matches[k + 1..], rewrite), matches[k];
    if EnclosingForm(content, m.pos).Some? {
      SpanBounds(content, m.pos);
      var span := EnclosingForm(content, m.pos).value;
      assert CallFor(content, m, rewrite) == rewrite(m.message, content[span.start..span.end]);
    }
    hide EnclosingForm, Substituted, HasAction;
  }

  /** For macro calls that are long enough the loop is the substitution if nobody is at
      risk; and only then, if blocks with an action are replaced and every opening tag
      has its action on its own line. */
  lemma HarmlessExactly(original: string, matches: seq<Match>, rewrite: Rewrite)
    requires Confirms(original, matches) && FormsDisjoint(original, matches) && EndsInBrace(rewrite)
    requires MacroCalls(original, matches, rewrite) && AllReach(original, matches, rewrite)
    ensures Harmless(original, matches, rewrite) ==>
              RewrittenFrom(original, matches, 0, rewrite) == Substituted(original, 0, matches, rewrite)
    ensures TakesActions(rewrite) && ActionsInline(original) ==>
              (RewrittenFrom(original, matches, 0, rewrite) == Substituted(original, 0, matches, rewrite)
               <==> Harmless(original, matches, rewrite))
  {
    InPlaceExactly(original, matches, rewrite);
    forall k | 0 <= k < |matches|
      ensures Caught(original, matches, k, rewrite) ==> EnclosingForm(original, matches[k].pos).None?
      ensures EnclosingForm(original, matches[k].pos).None? && Caught(original, matches, k, rewrite) ==>
                AtRisk(original, matches[k].pos, matches[k + 1..], rewrite)
      ensures TakesActions(rewrite) && ActionsInline(original) && EnclosingForm(original, matches[k].pos).None? ==>
                AtRisk(original, matches[k].pos, matches[k + 1..], rewrite) ==> Caught(original, matches, k, rewrite)
    {
      if EnclosingForm(original, matches[k].pos).None? {
        hide TakesActions, ActionsInline, AtRisk;
        CaughtMeaning(original, matches, k, rewrite);
      }
    }
    hide EnclosingForm, AtRisk, RewrittenFrom, Substituted, Caught, Confirms, FormsDisjoint, MacroCalls, AllReach;
    hide TakesActions, ActionsInline;
  }

  lemma {:induction false} OrderedFrom(original: string, matches: seq<Match>, k: nat)
    requires Confirms(original, matches) && FormsDisjoint(original, matches) && k <= |matches|
    ensures Confirms(original, matches[k..]) && FormsDisjoint(original, matches[k..])
    ensures k > 0 ==> forall b :: b in matches[k..] ==> matches[k - 1].pos < b.pos
  {
    hide ConfirmAt, FormsApart;
    var rest := matches[k..];
    assert forall i :: 0 <= i < |rest| ==> rest[i] == matches[k + i];
    forall i, j | 0 <= i < j < |rest| ensures FormsApart(original, rest[i], rest[j]) {
      assert FormsApart(original, matches[k + i], matches[k + j]);
    }
  }
}

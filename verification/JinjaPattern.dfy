/** Where the pattern of the URL compiler matches: at every expression on one line, and
    nowhere in one with a line break within (scripts/migrate_confirm_buttons.py:101-102). */
module JinjaPattern {
  import opened Options
  import opened PyText
  import opened JinjaUrl
  import opened JinjaParts

  // --------------------------------------------------- the pattern finds them

  /** `Strip` of a slice is a slice. */
  lemma {:induction false} StripSlice(s: string, p: nat, q: nat) returns (a: nat, b: nat)
    requires p <= q <= |s|
    ensures p <= a <= b <= q && Strip(s[p..q]) == s[a..b]
    ensures forall k :: (p <= k < a || b <= k < q) ==> IsSpace(s[k])
    ensures a < b ==> !IsSpace(s[a]) && !IsSpace(s[b - 1])
    decreases q - p
  {
    hide IsSpace, StripRight;
    if p < q && IsSpace(s[p]) {
      assert s[p..q][1..] == s[p + 1..q];
      a, b := StripSlice(s, p + 1, q);
    } else {
      a := p;
      assert StripLeft(s[p..q]) == s[p..q];
      b := StripRightSlice(s, p, q);
    }
  }

  lemma {:induction false} StripRightSlice(s: string, p: nat, q: nat) returns (b: nat)
    requires p <= q <= |s|
    ensures p <= b <= q && StripRight(s[p..q]) == s[p..b]
    ensures forall k :: b <= k < q ==> IsSpace(s[k])
    ensures p < b ==> !IsSpace(s[b - 1])
    decreases q - p
  {
    hide IsSpace;
    b := q;
    if p < q {
      var t := s[p..q];
      assert t[|t| - 1] == s[q - 1] && t[..|t| - 1] == s[p..q - 1];
      if IsSpace(s[q - 1]) {
        b := StripRightSlice(s, p, q - 1);
      }
    }
  }

  lemma {:induction false} LazyEndFinds(s: string, a: nat, b: nat, end: nat, close: nat)
    requires a < b <= end <= close < |s| && PairAt(s, "}}", close)
    requires forall k :: a <= k < end ==> s[k] != '\n'
    requires !IsSpace(s[end - 1]) && forall k :: end <= k < close ==> IsSpace(s[k])
    requires forall k: nat :: a <= k < close ==> !PairAt(s, "}}", k)
    ensures LazyEnd(s, a, b) == Some(end)
    decreases end - b
  {
    assert !IsSpace(s[close]) by {
      BraceIsNoSpace(s, close);
    }
    hide IsSpace;
    var p := SpaceEnd(s, b);
    if b < end {
      assert p <= end - 1;
      LazyEndFinds(s, a, b + 1, end, close);
    } else {
      assert p == close;
    }
  }

  lemma SpaceEndIs(s: string, p: nat, q: nat)
    requires p <= q < |s| && !IsSpace(s[q]) && forall k :: p <= k < q ==> IsSpace(s[k])
    ensures SpaceEnd(s, p) == q
  {
    hide IsSpace;
  }

  /** Where white space, a group without line breaks and white space again fill the
      braces, the pattern matches, and matches exactly that group. */
  lemma GroupFinds(url: string, open: nat, a: nat, b: nat, close: nat)
    requires PairAt(url, "{{", open) && open + 2 <= a < b <= close < |url| && PairAt(url, "}}", close)
    requires forall k :: (open + 2 <= k < a || b <= k < close) ==> IsSpace(url[k])
    requires !IsSpace(url[a]) && !IsSpace(url[b - 1]) && forall k :: a <= k < b ==> url[k] != '\n'
    requires forall k: nat :: open + 2 <= k < close ==> !PairAt(url, "}}", k)
    ensures MatchAt(url, open) == Some(Match(open, url[a..b], close + 2))
  {
    hide IsSpace, SpaceEnd, LazyEnd;
    assert SpaceEnd(url, open + 2) == a by {
      SpaceEndIs(url, open + 2, a);
    }
    assert SpaceEnd(url, b) == close by {
      BraceIsNoSpace(url, close);
      SpaceEndIs(url, b, close);
    }
    assert LazyEnd(url, a, a + 1) == Some(b) by {
      LazyEndFinds(url, a, a + 1, b, close);
    }
    hide PairAt;
    assert GroupAt(url, open, open + 2, a) == Some(Match(open, url[a..b], close + 2));
  }

  lemma BraceIsNoSpace(s: string, i: nat)
    requires PairAt(s, "}}", i)
    ensures !IsSpace(s[i])
  {
    assert s[i] == s[i..i + 2][0] == '}';
  }

  /** At the next expression of a well-formed template, if it is on one line, the pattern
      matches, and its group is the expression. */
  lemma MatchFinds(url: string, open: nat, close: nat)
    requires PairAt(url, "{{", open) && close == Find(url, "}}", open + 2) < |url|
    requires ExpressionOk(url[open + 2..close]) && !LineBroken(url[open + 2..close])
    ensures MatchAt(url, open).Some?
    ensures var m := MatchAt(url, open).value;
            m.start == open && m.end == close + 2 && Strip(m.group) == Strip(url[open + 2..close])
  {
    hide IsSpace, Scan, Step, Balanced, NoTopTilde, MatchAt, Strip;
    var p := open + 2;
    var a, b := StripSlice(url, p, close);
    var e := Strip(url[p..close]);
    forall k | a <= k < b ensures url[k] != '\n' {
      assert url[k] == e[k - a] && e[k - a] in e;
    }
    GroupFinds(url, open, a, b, close);
    StripEnds(url[p..close]);
  }

  // ---------------------------------------------- and misses those with line breaks

  lemma {:induction false} LazyEndStops(s: string, a: nat, b: nat, nl: nat, lim: nat)
    requires a < b <= nl + 1 && nl < lim < |s| && s[nl] == '\n' && !IsSpace(s[lim])
    requires forall k: nat :: a <= k <= lim ==> !PairAt(s, "}}", k)
    ensures LazyEnd(s, a, b).None?
    decreases nl + 1 - b
  {
    hide IsSpace, PairAt;
    if b <= nl {
      SpaceEndBound(s, b, lim);
      LazyEndStops(s, a, b + 1, nl, lim);
    }
  }

  lemma {:induction false} SpaceEndBound(s: string, p: nat, lim: nat)
    requires p <= lim < |s| && !IsSpace(s[lim])
    ensures SpaceEnd(s, p) <= lim
    decreases lim - p
  {
    hide IsSpace;
    if p < lim {
      SpaceEndBound(s, p + 1, lim);
    }
  }

  lemma {:induction false} GroupFails(s: string, i: nat, p: nat, a: nat, nl: nat, lim: nat)
    requires i < p <= a <= nl < lim < |s| && s[nl] == '\n' && !IsSpace(s[lim])
    requires forall k: nat :: p <= k <= lim ==> !PairAt(s, "}}", k)
    ensures GroupAt(s, i, p, a).None?
    decreases a
  {
    hide IsSpace, PairAt, LazyEnd;
    LazyEndStops(s, a, a + 1, nl, lim);
    if a > p {
      GroupFails(s, i, p, a - 1, nl, lim);
    }
  }

  /** Nowhere in the braces of such an expression does the pattern match. */
  lemma MatchFails(url: string, open: nat, close: nat, k: nat)
    requires PairAt(url, "{{", open) && close == Find(url, "}}", open + 2) < |url| && open <= k < close + 2
    requires ExpressionOk(url[open + 2..close]) && LineBroken(url[open + 2..close])
    ensures MatchAt(url, k).None?
  {
    if k == open {
      BrokenAtOpen(url, open, close);
    } else {
      hide IsSpace, Scan, Strip, GroupAt, Find;
      NoBracesWithin(url, open, close, k);
    }
  }

  lemma BrokenAtOpen(url: string, open: nat, close: nat)
    requires PairAt(url, "{{", open) && close == Find(url, "}}", open + 2) < |url|
    requires LineBroken(url[open + 2..close])
    ensures MatchAt(url, open).None?
  {
    hide IsSpace, Strip, GroupAt, PairAt, SpaceEnd, Find;
    var a, nl, last := BreakInside(url, open + 2, close);
    SpaceEndIs(url, open + 2, a);
    GroupFails(url, open, open + 2, a, nl, last);
  }

  /** The expression starts at `a`, has a line break at `nl` and ends at `last`. */
  lemma BreakInside(s: string, p: nat, q: nat) returns (a: nat, nl: nat, last: nat)
    requires p <= q <= |s| && LineBroken(s[p..q])
    ensures p <= a < nl < last < q && s[nl] == '\n' && !IsSpace(s[a]) && !IsSpace(s[last])
    ensures forall k :: p <= k < a ==> IsSpace(s[k])
  {
    NewlineIsSpace();
    hide IsSpace, Strip;
    var b: nat;
    a, b := StripSlice(s, p, q);
    var e := Strip(s[p..q]);
    var n :| 0 <= n < |e| && e[n] == '\n';
    nl, last := a + n, b - 1;
    assert s[nl] == s[a..b][n];
  }

  lemma NewlineIsSpace()
    ensures IsSpace('\n')
  {
  }

  lemma NoBracesWithin(url: string, open: nat, close: nat, k: nat)
    requires open + 2 <= close && PairAt(url, "}}", close) && open < k < close + 2
    requires var body := url[open + 2..close];
             body != [] && body[0] != '{' && forall i: nat :: i < |body| ==> !PairAt(body, "{{", i)
    ensures !PairAt(url, "{{", k)
  {
    var body := url[open + 2..close];
    assert url[close] == url[close..close + 2][0] == '}' && url[close + 1] == url[close..close + 2][1] == '}';
    assert k + 2 <= |url| ==> url[k..k + 2][0] == url[k] && url[k..k + 2][1] == url[k + 1];
    assert body[0] == url[open + 2];
    if open + 2 <= k && k + 2 <= close {
      assert body[k - open - 2..k - open] == url[k..k + 2];
      assert !PairAt(body, "{{", k - open - 2);
    }
  }

  lemma {:induction false} NextMatchSkips(url: string, i: nat, q: nat)
    requires i <= q <= |url| && forall k: nat :: i <= k < q ==> MatchAt(url, k).None?
    ensures NextMatch(url, i) == NextMatch(url, q)
    decreases q - i
  {
    hide MatchAt;
    if i < q {
      NextMatchSkips(url, i + 1, q);
    }
  }
}

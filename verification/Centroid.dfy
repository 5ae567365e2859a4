/** The polygon centroid of the fiber importer, `_polygon_centroid`
    (scripts/import_fiber_kmz.py:316-334), over exact reals. */
module Centroid {
  datatype Point = Point(x: real, y: real)

  /** Below this absolute value of twice the signed area the polygon counts as degenerate (line 327). */
  const DEGENERATE: real := 0.000000000001

  /** Lines 317-318: the ring, ending where it begins. */
  function Close(ring: seq<Point>): seq<Point>
    requires ring != []
  {
    if ring[0] != ring[|ring| - 1] then ring + [ring[0]] else ring
  }

  function Cross(a: Point, b: Point): real {
    a.x * b.y - b.x * a.y
  }

  /** What the loop of lines 322-326 accumulates: twice the signed area and the two moments. */
  datatype Moments = Moments(area: real, mx: real, my: real)

  function Plus(m: Moments, n: Moments): Moments {
    Moments(m.area + n.area, m.mx + n.mx, m.my + n.my)
  }

  function EdgeMoments(a: Point, b: Point): Moments {
    Moments(Cross(a, b), (a.x + b.x) * Cross(a, b), (a.y + b.y) * Cross(a, b))
  }

  /** The sums over all consecutive pairs of `path`. */
  function PathMoments(path: seq<Point>): Moments {
    if |path| < 2 then Moments(0.0, 0.0, 0.0)
    else Plus(PathMoments(path[..|path| - 1]), EdgeMoments(path[|path| - 2], path[|path| - 1]))
  }

  function Sum(path: seq<Point>): Point {
    if path == [] then Point(0.0, 0.0)
    else var s := Sum(path[..|path| - 1]);
         Point(s.x + path[|path| - 1].x, s.y + path[|path| - 1].y)
  }

  predicate Degenerate(area: real) {
    -DEGENERATE < area < DEGENERATE
  }

  /** Lines 327-334: the average of the listed points, or the quotient of moments and area. */
  function CentroidOfClosed(path: seq<Point>): Point
    requires path != []
  {
    var m := PathMoments(path);
    if Degenerate(m.area)
    then Point(Sum(path).x / |path| as real, Sum(path).y / |path| as real)
    else Point(m.mx / (6.0 * (m.area * 0.5)), m.my / (6.0 * (m.area * 0.5)))
  }

  function Centroid(ring: seq<Point>): Point
    requires ring != []
  {
    CentroidOfClosed(Close(ring))
  }

  lemma PathMomentsStep(path: seq<Point>, i: nat)
    requires 1 <= i < |path|
    ensures PathMoments(path[..i + 1]) == Plus(PathMoments(path[..i]), EdgeMoments(path[i - 1], path[i]))
  {
    assert path[..i + 1][..i] == path[..i];
  }

  lemma SumStep(path: seq<Point>, i: nat)
    requires i < |path|
    ensures Sum(path[..i + 1]) == Point(Sum(path[..i]).x + path[i].x, Sum(path[..i]).y + path[i].y)
  {
    assert path[..i + 1][..i] == path[..i];
  }

  lemma CrossOf(a: Point, b: Point)
    ensures Cross(a, b) == a.x * b.y - b.x * a.y
  {
  }

  /** The accumulating loop of lines 319-326. */
  method Accumulate(coords: seq<Point>) returns (area: real, cx: real, cy: real)
    requires coords != []
    ensures Moments(area, cx, cy) == PathMoments(coords)
  {
    hide Cross;
    area, cx, cy := 0.0, 0.0, 0.0;
    var i := 1;
    while i < |coords|
      invariant 1 <= i <= |coords|
      invariant Moments(area, cx, cy) == PathMoments(coords[..i])
    {
      var x0, y0, x1, y1 := coords[i - 1].x, coords[i - 1].y, coords[i].x, coords[i].y;
      var cross := x0 * y1 - x1 * y0;
      assert cross == Cross(coords[i - 1], coords[i]) by { CrossOf(coords[i - 1], coords[i]); }
      PathMomentsStep(coords, i);
      area := area + cross;
      cx := cx + (x0 + x1) * cross;
      cy := cy + (y0 + y1) * cross;
      i := i + 1;
    }
    assert coords[..i] == coords;
  }

  /** The averages of lines 328-329. */
  method Average(coords: seq<Point>) returns (c: Point)
    requires coords != []
    ensures c == Point(Sum(coords).x / |coords| as real, Sum(coords).y / |coords| as real)
  {
    var sx, sy := 0.0, 0.0;
    for k := 0 to |coords|
      invariant Point(sx, sy) == Sum(coords[..k])
    {
      SumStep(coords, k);
      sx, sy := sx + coords[k].x, sy + coords[k].y;
    }
    assert coords[..|coords|] == coords;
    c := Point(sx / |coords| as real, sy / |coords| as real);
  }

  method PolygonCentroid(ring: seq<Point>) returns (c: Point)
    requires ring != []
    ensures c == Centroid(ring)
  {
    var coords := ring;
    if ring[0] != ring[|ring| - 1] {
      coords := ring + [ring[0]];
    }
    var area, cx, cy := Accumulate(coords);
    if -DEGENERATE < area < DEGENERATE {
      c := Average(coords);
    } else {
      area := area * 0.5;
      cx := cx / (6.0 * area);
      cy := cy / (6.0 * area);
      c := Point(cx, cy);
    }
  }

  // -------------------------------------------------------------- translation

  function Shift(p: Point, d: Point): Point {
    Point(p.x + d.x, p.y + d.y)
  }

  function Translate(path: seq<Point>, d: Point): seq<Point> {
    seq(|path|, i requires 0 <= i < |path| => Shift(path[i], d))
  }

  lemma TranslateClose(ring: seq<Point>, d: Point)
    requires ring != []
    ensures Close(Translate(ring, d)) == Translate(Close(ring), d)
  {
  }

  /** What a translation adds to the moments of an edge telescopes: it is the
      difference of these potentials at its end points, plus a multiple of the area. */
  function AreaPotential(p: Point, d: Point): real {
    d.x * p.y - d.y * p.x
  }

  function PotentialX(p: Point, d: Point): real {
    d.x * (p.x * p.y) - d.y * (p.x * p.x) + 2.0 * d.x * AreaPotential(p, d)
  }

  function PotentialY(p: Point, d: Point): real {
    d.x * (p.y * p.y) - d.y * (p.x * p.y) + 2.0 * d.y * AreaPotential(p, d)
  }

  lemma ShiftedCross(a: Point, b: Point, d: Point)
    ensures Cross(Shift(a, d), Shift(b, d)) == Cross(a, b) + AreaPotential(b, d) - AreaPotential(a, d)
  {
  }

  lemma ShiftedMomentX(a: Point, b: Point, d: Point)
    ensures (a.x + b.x + 2.0 * d.x) * (Cross(a, b) + AreaPotential(b, d) - AreaPotential(a, d))
         == (a.x + b.x) * Cross(a, b) + 3.0 * d.x * Cross(a, b) + PotentialX(b, d) - PotentialX(a, d)
  {
  }

  lemma ShiftedMomentY(a: Point, b: Point, d: Point)
    ensures (a.y + b.y + 2.0 * d.y) * (Cross(a, b) + AreaPotential(b, d) - AreaPotential(a, d))
         == (a.y + b.y) * Cross(a, b) + 3.0 * d.y * Cross(a, b) + PotentialY(b, d) - PotentialY(a, d)
  {
  }

  /** Translating a path, open or closed. */
  ghost predicate Shifted(m: Moments, m': Moments, first: Point, last: Point, d: Point) {
    && m'.area == m.area + AreaPotential(last, d) - AreaPotential(first, d)
    && m'.mx == m.mx + 3.0 * d.x * m.area + PotentialX(last, d) - PotentialX(first, d)
    && m'.my == m.my + 3.0 * d.y * m.area + PotentialY(last, d) - PotentialY(first, d)
  }

  lemma ShiftedEdge(a: Point, b: Point, d: Point)
    ensures Shifted(EdgeMoments(a, b), EdgeMoments(Shift(a, d), Shift(b, d)), a, b, d)
  {
    hide AreaPotential, PotentialX, PotentialY;
    ShiftedCross(a, b, d);
    ShiftedMomentX(a, b, d);
    ShiftedMomentY(a, b, d);
  }

  lemma ShiftedPlus(m: Moments, m': Moments, e: Moments, e': Moments, p: Point, q: Point, r: Point, d: Point)
    requires Shifted(m, m', p, q, d) && Shifted(e, e', q, r, d)
    ensures Shifted(Plus(m, e), Plus(m', e'), p, r, d)
  {
    hide AreaPotential, PotentialX, PotentialY;
    Distribute(3.0 * d.x, m.area, e.area);
    Distribute(3.0 * d.y, m.area, e.area);
  }

  lemma Distribute(k: real, a: real, b: real)
    ensures k * (a + b) == k * a + k * b
  {
  }

  lemma ShiftedZero(p: Point, d: Point)
    ensures Shifted(Moments(0.0, 0.0, 0.0), Moments(0.0, 0.0, 0.0), p, p, d)
  {
  }

  lemma {:induction false} TranslatedPath(path: seq<Point>, d: Point)
    requires path != []
    ensures Shifted(PathMoments(path), PathMoments(Translate(path, d)), path[0], path[|path| - 1], d)
  {
    hide Shifted, EdgeMoments, Plus;
    var n := |path|;
    if n == 1 {
      ShiftedZero(path[0], d);
    } else {
      TranslatedPath(path[..n - 1], d);
      assert Translate(path, d)[..n - 1] == Translate(path[..n - 1], d);
      ShiftedEdge(path[n - 2], path[n - 1], d);
      ShiftedPlus(PathMoments(path[..n - 1]), PathMoments(Translate(path[..n - 1], d)),
                  EdgeMoments(path[n - 2], path[n - 1]),
                  EdgeMoments(Shift(path[n - 2], d), Shift(path[n - 1], d)),
                  path[0], path[n - 2], path[n - 1], d);
    }
  }

  lemma OneMore(n: nat, d: real)
    ensures (n + 1) as real * d == n as real * d + d
  {
  }

  lemma {:induction false} TranslatedSum(path: seq<Point>, d: Point)
    ensures Sum(Translate(path, d)) == Point(Sum(path).x + |path| as real * d.x, Sum(path).y + |path| as real * d.y)
  {
    if path != [] {
      var n := |path|;
      var init, s := path[..n - 1], Sum(path[..n - 1]);
      TranslatedSum(init, d);
      assert Translate(path, d)[..n - 1] == Translate(init, d) && Translate(path, d)[n - 1] == Shift(path[n - 1], d);
      assert Sum(Translate(path, d)).x == s.x + |init| as real * d.x + (path[n - 1].x + d.x);
      assert Sum(Translate(path, d)).y == s.y + |init| as real * d.y + (path[n - 1].y + d.y);
      hide Sum, Translate;
      OneMore(n - 1, d.x);
      OneMore(n - 1, d.y);
    }
  }

  /** The shoelace sum of a closed path, and so the branch taken, does not move with the polygon. */
  lemma AreaTranslationInvariant(path: seq<Point>, d: Point)
    requires path != [] && path[0] == path[|path| - 1]
    ensures var m, m' := PathMoments(path), PathMoments(Translate(path, d));
            m'.area == m.area && m'.mx == m.mx + 3.0 * d.x * m.area && m'.my == m.my + 3.0 * d.y * m.area
  {
    hide AreaPotential, PotentialX, PotentialY, PathMoments;
    TranslatedPath(path, d);
  }

  lemma Quotient(m: real, area: real, d: real)
    requires area != 0.0
    ensures (m + 3.0 * d * area) / (6.0 * (area * 0.5)) == m / (6.0 * (area * 0.5)) + d
  {
  }

  lemma ShiftedAverage(sum: real, n: real, d: real)
    requires n != 0.0
    ensures (sum + n * d) / n == sum / n + d
  {
  }

  /** The centroid moves with the polygon, in both branches. */
  lemma CentroidTranslates(ring: seq<Point>, d: Point)
    requires ring != []
    ensures Centroid(Translate(ring, d)) == Shift(Centroid(ring), d)
  {
    hide CentroidOfClosed, Close, Translate;
    TranslateClose(ring, d);
    ClosedEnds(ring);
    if Degenerate(PathMoments(Close(ring)).area) {
      AverageTranslates(Close(ring), d);
    } else {
      QuotientTranslates(Close(ring), d);
    }
  }

  lemma AverageTranslates(path: seq<Point>, d: Point)
    requires path != [] && path[0] == path[|path| - 1] && Degenerate(PathMoments(path).area)
    ensures Translate(path, d) != [] && CentroidOfClosed(Translate(path, d)) == Shift(CentroidOfClosed(path), d)
  {
    hide PathMoments, Sum, Translate;
    TranslateLength(path, d);
    AreaTranslationInvariant(path, d);
    TranslatedSum(path, d);
    ShiftedAverage(Sum(path).x, |path| as real, d.x);
    ShiftedAverage(Sum(path).y, |path| as real, d.y);
  }

  lemma QuotientTranslates(path: seq<Point>, d: Point)
    requires path != [] && path[0] == path[|path| - 1] && !Degenerate(PathMoments(path).area)
    ensures Translate(path, d) != [] && CentroidOfClosed(Translate(path, d)) == Shift(CentroidOfClosed(path), d)
  {
    hide PathMoments, Sum, Translate;
    TranslateLength(path, d);
    AreaTranslationInvariant(path, d);
    Quotient(PathMoments(path).mx, PathMoments(path).area, d.x);
    Quotient(PathMoments(path).my, PathMoments(path).area, d.y);
  }

  lemma ClosedEnds(ring: seq<Point>)
    requires ring != []
    ensures var path := Close(ring); path != [] && path[0] == path[|path| - 1]
  {
  }

  lemma TranslateLength(path: seq<Point>, d: Point)
    ensures |Translate(path, d)| == |path|
  {
  }

  // ----------------------------------------------------------------- reversal

  function Reverse(path: seq<Point>): seq<Point> {
    if path == [] then [] else [path[|path| - 1]] + Reverse(path[..|path| - 1])
  }

  lemma {:induction false} ReverseEnds(path: seq<Point>)
    requires path != []
    ensures |Reverse(path)| == |path|
    ensures Reverse(path)[0] == path[|path| - 1] && Reverse(path)[|path| - 1] == path[0]
  {
    if |path| > 1 {
      ReverseEnds(path[..|path| - 1]);
    }
  }

  function Negated(m: Moments): Moments {
    Moments(-m.area, -m.mx, -m.my)
  }

  lemma EdgeReversed(a: Point, b: Point)
    ensures EdgeMoments(b, a) == Negated(EdgeMoments(a, b))
  {
    var c := Cross(a, b);
    assert Cross(b, a) == -c;
    assert (b.x + a.x) * -c == -((a.x + b.x) * c);
    assert (b.y + a.y) * -c == -((a.y + b.y) * c);
  }

  /** The moments can also be summed from the first edge on. */
  lemma {:induction false} PathMomentsFront(a: Point, path: seq<Point>)
    requires path != []
    ensures PathMoments([a] + path) == Plus(EdgeMoments(a, path[0]), PathMoments(path))
  {
    hide EdgeMoments;
    var n := |path|;
    assert ([a] + path)[..n] == [a] + path[..n - 1];
    if n > 1 {
      PathMomentsFront(a, path[..n - 1]);
    }
  }

  lemma PathMomentsLast(path: seq<Point>)
    requires |path| >= 2
    ensures PathMoments(path) == Plus(PathMoments(path[..|path| - 1]),
                                      EdgeMoments(path[|path| - 2], path[|path| - 1]))
  {
  }

  lemma NegatedPlus(m: Moments, n: Moments)
    ensures Negated(Plus(m, n)) == Plus(Negated(n), Negated(m))
  {
  }

  lemma {:induction false} ReversedPath(path: seq<Point>)
    ensures PathMoments(Reverse(path)) == Negated(PathMoments(path))
  {
    var n := |path|;
    if n >= 2 {
      hide EdgeMoments, PathMoments;
      var init := path[..n - 1];
      assert Reverse(path) == [path[n - 1]] + Reverse(init);
      hide Reverse;
      ReversedPath(init);
      ReverseEnds(init);
      PathMomentsFront(path[n - 1], Reverse(init));
      PathMomentsLast(path);
      EdgeReversed(path[n - 2], path[n - 1]);
      NegatedPlus(PathMoments(init), EdgeMoments(path[n - 2], path[n - 1]));
    } else if n == 1 {
      assert path[..0] == [];
    }
  }

  lemma {:induction false} SumFront(a: Point, path: seq<Point>)
    ensures Sum([a] + path) == Point(a.x + Sum(path).x, a.y + Sum(path).y)
  {
    var n := |path|;
    if n > 0 {
      assert ([a] + path)[..n] == [a] + path[..n - 1];
      SumFront(a, path[..n - 1]);
    } else {
      assert ([a] + path)[..0] == [];
    }
  }

  lemma {:induction false} ReversedSum(path: seq<Point>)
    ensures Sum(Reverse(path)) == Sum(path)
  {
    if path != [] {
      ReversedSum(path[..|path| - 1]);
      SumFront(path[|path| - 1], Reverse(path[..|path| - 1]));
    }
  }

  /** Reversing a ring, open or closed, negates the shoelace sum and both moments. */
  lemma ReversedRing(ring: seq<Point>)
    requires ring != []
    ensures PathMoments(Close(Reverse(ring))) == Negated(PathMoments(Close(ring)))
  {
    hide EdgeMoments, PathMoments, Reverse;
    ReverseEnds(ring);
    ReversedPath(ring);
    var n := |ring|;
    if ring[0] != ring[n - 1] {
      var closed, reversed := Close(ring), Close(Reverse(ring));
      assert closed[..n] == ring && reversed[..n] == Reverse(ring);
      PathMomentsLast(closed);
      PathMomentsLast(reversed);
      EdgeReversed(ring[n - 1], ring[0]);
    }
  }

  lemma NegatedQuotient(m: real, area: real)
    requires area != 0.0
    ensures -m / (6.0 * (-area * 0.5)) == m / (6.0 * (area * 0.5))
  {
    assert 6.0 * (area * 0.5) == 3.0 * area && 6.0 * (-area * 0.5) == -(3.0 * area);
    assert -m / -(3.0 * area) == m / (3.0 * area);
  }

  /** In the degenerate branch an open ring and its reverse average different lists. */
  lemma OpenAverages(ring: seq<Point>)
    requires ring != [] && ring[0] != ring[|ring| - 1]
    ensures var n := |ring|;
            && |Close(ring)| == n + 1 && |Close(Reverse(ring))| == n + 1
            && Sum(Close(ring)) == Point(Sum(ring).x + ring[0].x, Sum(ring).y + ring[0].y)
            && Sum(Close(Reverse(ring))) == Point(Sum(ring).x + ring[n - 1].x, Sum(ring).y + ring[n - 1].y)
  {
    ReverseEnds(ring);
    ReversedSum(ring);
    assert Close(ring)[..|ring|] == ring;
    assert Close(Reverse(ring))[..|ring|] == Reverse(ring);
  }

  /** Equal averages of equally many points have equal sums. */
  lemma SamePathAverage(path: seq<Point>, path': seq<Point>)
    requires path != [] && |path'| == |path|
    requires Degenerate(PathMoments(path).area) && Degenerate(PathMoments(path').area)
    ensures CentroidOfClosed(path) == CentroidOfClosed(path') <==> Sum(path) == Sum(path')
  {
    hide PathMoments, Sum;
    SameAverage(Sum(path).x, Sum(path').x, |path| as real);
    SameAverage(Sum(path).y, Sum(path').y, |path| as real);
  }

  lemma SamePathQuotient(path: seq<Point>, path': seq<Point>)
    requires path != [] && path' != [] && !Degenerate(PathMoments(path).area)
    requires PathMoments(path') == Negated(PathMoments(path))
    ensures CentroidOfClosed(path) == CentroidOfClosed(path')
  {
    hide PathMoments, Sum;
    NegatedQuotient(PathMoments(path).mx, PathMoments(path).area);
    NegatedQuotient(PathMoments(path).my, PathMoments(path).area);
  }

  /** Reversing the ring leaves the centroid alone exactly when the ring is closed
      or not degenerate: the degenerate branch averages the closed list, which
      counts the first point of an open ring twice. */
  lemma CentroidReversed(ring: seq<Point>)
    requires ring != []
    ensures Centroid(Reverse(ring)) == Centroid(ring)
       <==> ring[0] == ring[|ring| - 1] || !Degenerate(PathMoments(Close(ring)).area)
  {
    hide PathMoments, Sum, Reverse, CentroidOfClosed;
    ReverseEnds(ring);
    ReversedRing(ring);
    if !Degenerate(PathMoments(Close(ring)).area) {
      SamePathQuotient(Close(ring), Close(Reverse(ring)));
    } else {
      if ring[0] == ring[|ring| - 1] {
        ReversedSum(ring);
      } else {
        OpenAverages(ring);
      }
      SamePathAverage(Close(ring), Close(Reverse(ring)));
    }
  }

  lemma SameAverage(s: real, t: real, n: real)
    requires n != 0.0
    ensures s / n == t / n <==> s == t
  {
    assert s == (s / n) * n && t == (t / n) * n;
  }

  /** An open degenerate ring: a segment. Its two directions average different lists. */
  lemma OpenSegmentReversed()
    ensures var ring := [Point(0.0, 0.0), Point(1.0, 0.0)];
            Centroid(Reverse(ring)) != Centroid(ring)
  {
    var a, b := Point(0.0, 0.0), Point(1.0, 0.0);
    hide EdgeMoments, PathMoments, Reverse, Centroid, CentroidOfClosed;
    SegmentIsFlat(a, b);
    CentroidReversed([a, b]);
  }

  lemma SegmentIsFlat(a: Point, b: Point)
    requires a.y == 0.0 && b.y == 0.0 && a != b
    ensures PathMoments(Close([a, b])).area == 0.0
  {
    var closed := [a, b, a];
    assert Close([a, b]) == closed && closed[..2] == [a, b] && [a, b][..1] == [a];
    FlatEdge(a, b);
    FlatEdge(b, a);
    PathMomentsOne(a);
    hide EdgeMoments, PathMoments;
    PathMomentsLast(closed);
    PathMomentsLast([a, b]);
  }

  lemma FlatEdge(a: Point, b: Point)
    requires a.y == 0.0 && b.y == 0.0
    ensures EdgeMoments(a, b).area == 0.0
  {
  }

  lemma PathMomentsOne(a: Point)
    ensures PathMoments([a]).area == 0.0
  {
  }

  /** Repeating the first point at the end changes nothing exactly if the ring is open,
      or not degenerate, or its points average to the first one anyway. */
  lemma CentroidClosed(ring: seq<Point>)
    requires ring != []
    ensures Centroid(ring + [ring[0]]) == Centroid(ring)
       <==> ring[0] != ring[|ring| - 1] || !Degenerate(PathMoments(ring).area)
            || Sum(ring) == Point(|ring| as real * ring[0].x, |ring| as real * ring[0].y)
  {
    hide EdgeMoments, PathMoments, Sum, CentroidOfClosed;
    var n := |ring|;
    var again := ring + [ring[0]];
    assert again[..n] == ring && again[n] == ring[0];
    if ring[0] == ring[n - 1] {
      EdgeToItself(ring[0]);
      PathMomentsLast(again);
      PlusZero(PathMoments(ring));
      if Degenerate(PathMoments(ring).area) {
        AverageWithFirst(ring);
      } else {
        MomentsDecide(again, ring);
      }
    }
  }

  /** One more copy of the first point moves the average unless it lies there. */
  lemma AverageWithFirst(ring: seq<Point>)
    requires ring != [] && Degenerate(PathMoments(ring).area)
    requires PathMoments(ring + [ring[0]]) == PathMoments(ring)
    ensures CentroidOfClosed(ring + [ring[0]]) == CentroidOfClosed(ring)
       <==> Sum(ring) == Point(|ring| as real * ring[0].x, |ring| as real * ring[0].y)
  {
    hide PathMoments, Sum, CentroidOfClosed;
    var again, n := ring + [ring[0]], |ring|;
    SumStep(again, n);
    assert again[..n] == ring && again[..n + 1] == again && again[n] == ring[0];
    DegenerateAverage(ring);
    DegenerateAverage(again);
    assert |again| as real == n as real + 1.0;
    AveragesCompare(Sum(ring), Sum(again), ring[0], n as real);
  }

  lemma DegenerateAverage(path: seq<Point>)
    requires path != [] && Degenerate(PathMoments(path).area)
    ensures CentroidOfClosed(path) == Point(Sum(path).x / |path| as real, Sum(path).y / |path| as real)
  {
  }

  lemma AveragesCompare(sum: Point, more: Point, p: Point, n: real)
    requires n > 0.0 && more == Point(sum.x + p.x, sum.y + p.y)
    ensures Point(more.x / (n + 1.0), more.y / (n + 1.0)) == Point(sum.x / n, sum.y / n)
       <==> sum == Point(n * p.x, n * p.y)
  {
    OneMorePoint(sum.x, n, p.x);
    OneMorePoint(sum.y, n, p.y);
  }

  lemma OneMorePoint(sum: real, n: real, x: real)
    requires n > 0.0
    ensures (sum + x) / (n + 1.0) == sum / n <==> sum == n * x
  {
    var p, q := sum / n, (sum + x) / (n + 1.0);
    assert sum == p * n && sum + x == q * (n + 1.0);
    if p == q {
      assert sum + x == p * n + p;
    }
    if sum == n * x {
      assert n * p == n * x && p == x;
      assert sum + x == x * (n + 1.0) && q * (n + 1.0) == x * (n + 1.0);
    }
  }

  lemma PlusZero(m: Moments)
    ensures Plus(m, Moments(0.0, 0.0, 0.0)) == m
  {
  }

  lemma MomentsDecide(path: seq<Point>, path': seq<Point>)
    requires path != [] && path' != [] && PathMoments(path) == PathMoments(path')
    requires !Degenerate(PathMoments(path).area)
    ensures CentroidOfClosed(path) == CentroidOfClosed(path')
  {
    hide PathMoments, Sum;
  }

  lemma EdgeToItself(a: Point)
    ensures EdgeMoments(a, a) == Moments(0.0, 0.0, 0.0)
  {
    assert Cross(a, a) == 0.0;
  }

  // ------------------------------------------------- where the ring is begun

  /** The ring begun at its vertex `k`. */
  function Turned(ring: seq<Point>, k: nat): (r: seq<Point>)
    requires k < |ring|
    ensures |r| == |ring| && r[0] == ring[k]
  {
    ring[k..] + ring[..k]
  }

  predicate Open(ring: seq<Point>)
    requires ring != []
  {
    ring[0] != ring[|ring| - 1]
  }

  lemma {:induction false} PathMomentsConcat(a: seq<Point>, b: seq<Point>)
    requires a != [] && b != []
    ensures PathMoments(a + b)
         == Plus(Plus(PathMoments(a), EdgeMoments(a[|a| - 1], b[0])), PathMoments(b))
    decreases |b|
  {
    hide EdgeMoments, PathMoments;
    var n := |b| - 1;
    assert (a + b)[..|a + b| - 1] == a + b[..n];
    PathMomentsLast(a + b);
    if n == 0 {
      NoEdges(b);
      assert a + b[..0] == a;
    } else {
      PathMomentsLast(b);
      PathMomentsConcat(a, b[..n]);
    }
  }

  lemma NoEdges(path: seq<Point>)
    requires |path| == 1
    ensures PathMoments(path) == Moments(0.0, 0.0, 0.0)
  {
  }

  lemma {:induction false} SumConcat(a: seq<Point>, b: seq<Point>)
    ensures Sum(a + b) == Point(Sum(a).x + Sum(b).x, Sum(a).y + Sum(b).y)
    decreases |b|
  {
    if b == [] {
      assert a + b == a;
    } else {
      assert (a + b)[..|a + b| - 1] == a + b[..|b| - 1];
      SumConcat(a, b[..|b| - 1]);
    }
  }

  /** The closed path has the edges of the ring and the one that closes it, of length zero if it is closed already. */
  lemma ClosedMoments(ring: seq<Point>)
    requires ring != []
    ensures PathMoments(Close(ring)) == Plus(PathMoments(ring), EdgeMoments(ring[|ring| - 1], ring[0]))
  {
    hide EdgeMoments, PathMoments;
    if Open(ring) {
      assert Close(ring)[..|ring|] == ring;
      PathMomentsLast(Close(ring));
    } else {
      EdgeToItself(ring[0]);
      PlusZero(PathMoments(ring));
    }
  }

  /** The moments of a ring, cut in two somewhere. */
  lemma AroundCut(a: seq<Point>, b: seq<Point>)
    requires a != [] && b != []
    ensures PathMoments(Close(a + b))
         == Plus(Plus(Plus(PathMoments(a), EdgeMoments(a[|a| - 1], b[0])), PathMoments(b)),
             EdgeMoments(b[|b| - 1], a[0]))
  {
    hide EdgeMoments, PathMoments, Close;
    ClosedMoments(a + b);
    PathMomentsConcat(a, b);
  }

  lemma PlusTurns(m: Moments, e: Moments, n: Moments, f: Moments)
    ensures Plus(Plus(Plus(m, e), n), f) == Plus(Plus(Plus(n, f), m), e)
  {
  }

  lemma TurnedMoments(ring: seq<Point>, k: nat)
    requires k < |ring|
    ensures PathMoments(Close(Turned(ring, k))) == PathMoments(Close(ring)) && Sum(Turned(ring, k)) == Sum(ring)
  {
    hide EdgeMoments, PathMoments, Sum, Close, Plus;
    var a, b := ring[..k], ring[k..];
    assert ring == a + b && Turned(ring, k) == b + a;
    hide Turned;
    SumConcat(a, b);
    SumConcat(b, a);
    if k == 0 {
      assert b + a == ring;
    } else {
      AroundCut(a, b);
      AroundCut(b, a);
      PlusTurns(PathMoments(a), EdgeMoments(a[|a| - 1], b[0]), PathMoments(b), EdgeMoments(b[|b| - 1], a[0]));
    }
  }

  function Mean(sum: Point, n: real): Point
    requires n != 0.0
  {
    Point(sum.x / n, sum.y / n)
  }

  function More(sum: Point, p: Point): Point {
    Point(sum.x + p.x, sum.y + p.y)
  }

  function Times(n: real, p: Point): Point {
    Point(n * p.x, n * p.y)
  }

  /** An open ring is averaged with its first point counted twice, a closed one as listed. */
  lemma AverageOf(ring: seq<Point>)
    requires ring != [] && Degenerate(PathMoments(Close(ring)).area)
    ensures var s, n := Sum(ring), |ring| as real;
            Centroid(ring) == if Open(ring) then Mean(More(s, ring[0]), n + 1.0) else Mean(s, n)
  {
    hide PathMoments, CentroidOfClosed, Degenerate;
    DegenerateAverage(Close(ring));
    if Open(ring) {
      assert Close(ring)[..|ring|] == ring && Close(ring)[|ring|] == ring[0]
          && |Close(ring)| as real == |ring| as real + 1.0;
      SumStep(Close(ring), |ring|);
      assert Close(ring)[..|ring| + 1] == Close(ring);
    }
    hide Sum;
  }

  lemma MeansCompare(s: Point, p: Point, q: Point, n: real)
    requires n > 0.0
    ensures Mean(More(s, q), n + 1.0) == Mean(More(s, p), n + 1.0) <==> q == p
    ensures Mean(More(s, p), n + 1.0) == Mean(s, n) <==> s == Times(n, p)
  {
    SameAverage(s.x + q.x, s.x + p.x, n + 1.0);
    SameAverage(s.y + q.y, s.y + p.y, n + 1.0);
    AveragesCompare(s, More(s, p), p, n);
  }

  /** Beginning the ring elsewhere leaves the centroid alone exactly if it is not
      degenerate, or the point that counts twice stays the same, or is the average anyway. */
  lemma CentroidTurned(ring: seq<Point>, k: nat)
    requires k < |ring|
    ensures var turned, s, n := Turned(ring, k), Sum(ring), |ring| as real;
            Centroid(turned) == Centroid(ring)
            <==> || !Degenerate(PathMoments(Close(ring)).area)
                 || (if Open(ring) && Open(turned) then ring[k] == ring[0]
                     else if Open(ring) then s == Times(n, ring[0])
                     else if Open(turned) then s == Times(n, ring[k])
                     else true)
  {
    hide PathMoments, Sum, CentroidOfClosed, Turned, Degenerate, Mean, More, Open, Times, Plus, EdgeMoments;
    TurnedMoments(ring, k);
    var turned, s, n := Turned(ring, k), Sum(ring), |ring| as real;
    assert Close(turned) != [] && Close(ring) != [];
    hide Close;
    if !Degenerate(PathMoments(Close(ring)).area) {
      MomentsDecide(Close(turned), Close(ring));
    } else {
      hide Centroid;
      AverageOf(ring);
      AverageOf(turned);
      MeansCompare(s, ring[0], ring[k], n);
      MeansCompare(s, ring[k], ring[0], n);
    }
  }

  // ----------------------------------------------- what the centroid really is

  /** Twice the signed area of a triangle. */
  function Triangle(p: Point, a: Point, b: Point): real {
    (a.x - p.x) * (b.y - p.y) - (b.x - p.x) * (a.y - p.y)
  }

  /** The triangles `p`, `path[i]`, `path[i + 1]`: their areas (twice, signed), and
      their own centroids, the averages of their corners, weighted by these areas. */
  function FanMoments(path: seq<Point>, p: Point): Moments {
    if |path| < 2 then Moments(0.0, 0.0, 0.0)
    else Plus(FanMoments(path[..|path| - 1], p), FanTerm(path[|path| - 2], path[|path| - 1], p))
  }

  function FanTerm(a: Point, b: Point, p: Point): Moments {
    var w := Triangle(p, a, b);
    Moments(w, w * ((p.x + a.x + b.x) / 3.0), w * ((p.y + a.y + b.y) / 3.0))
  }

  function Opposite(p: Point): Point {
    Point(-p.x, -p.y)
  }

  lemma FanEdge(p: Point, a: Point, b: Point)
    ensures MovedBack(FanTerm(a, b, p), EdgeMoments(Shift(a, Opposite(p)), Shift(b, Opposite(p))), p)
  {
    var w := Triangle(p, a, b);
    var e := EdgeMoments(Shift(a, Opposite(p)), Shift(b, Opposite(p)));
    assert e.area == w;
    assert e.mx == (a.x - p.x + b.x - p.x) * w;
    assert e.my == (a.y - p.y + b.y - p.y) * w;
    WeightedThird(w, p.x + a.x + b.x);
    WeightedThird(w, p.y + a.y + b.y);
    assert (p.x + a.x + b.x) * w == (a.x - p.x + b.x - p.x) * w + 3.0 * p.x * w;
    assert (p.y + a.y + b.y) * w == (a.y - p.y + b.y - p.y) * w + 3.0 * p.y * w;
  }

  lemma WeightedThird(w: real, s: real)
    ensures 3.0 * (w * (s / 3.0)) == s * w
  {
  }

  /** `f` is what `m`, the moments seen from `p` as origin, become when moved back. */
  ghost predicate MovedBack(f: Moments, m: Moments, p: Point) {
    f.area == m.area && 3.0 * f.mx == m.mx + 3.0 * p.x * m.area && 3.0 * f.my == m.my + 3.0 * p.y * m.area
  }

  lemma MovedBackPlus(f: Moments, m: Moments, g: Moments, n: Moments, p: Point)
    requires MovedBack(f, m, p) && MovedBack(g, n, p)
    ensures MovedBack(Plus(f, g), Plus(m, n), p)
  {
    Distribute(3.0 * p.x, m.area, n.area);
    Distribute(3.0 * p.y, m.area, n.area);
  }

  lemma {:induction false} FanOfTranslated(path: seq<Point>, p: Point)
    ensures MovedBack(FanMoments(path, p), PathMoments(Translate(path, Opposite(p))), p)
  {
    var n := |path|;
    if n >= 2 {
      hide EdgeMoments, FanTerm, PathMoments, MovedBack, Plus, Opposite;
      var init, d := path[..n - 1], Opposite(p);
      FanOfTranslated(init, p);
      assert Translate(path, d)[..n - 1] == Translate(init, d);
      PathMomentsLast(Translate(path, d));
      FanEdge(p, path[n - 2], path[n - 1]);
      MovedBackPlus(FanMoments(init, p), PathMoments(Translate(init, d)),
                    FanTerm(path[n - 2], path[n - 1], p),
                    EdgeMoments(Shift(path[n - 2], d), Shift(path[n - 1], d)), p);
    }
  }

  /** The reference definition: cut the polygon into triangles from any apex
      whatever; its centroid is the mean of their centroids, weighted by signed area. */
  lemma CentroidIsWeightedMean(ring: seq<Point>, apex: Point)
    requires ring != [] && !Degenerate(PathMoments(Close(ring)).area)
    ensures var f := FanMoments(Close(ring), apex);
            f.area == PathMoments(Close(ring)).area && Centroid(ring) == Point(f.mx / f.area, f.my / f.area)
  {
    hide PathMoments, FanMoments, Close;
    var path := Close(ring);
    ClosedEnds(ring);
    AreaTranslationInvariant(path, Opposite(apex));
    FanOfTranslated(path, apex);
    var m, f := PathMoments(path), FanMoments(path, apex);
    assert 3.0 * -apex.x * m.area == -(3.0 * apex.x * m.area);
    assert 3.0 * -apex.y * m.area == -(3.0 * apex.y * m.area);
    assert f.area == m.area && 3.0 * f.mx == m.mx && 3.0 * f.my == m.my;
    ThirdQuotient(f.mx, m.area);
    ThirdQuotient(f.my, m.area);
  }

  lemma ThirdQuotient(m: real, area: real)
    requires area != 0.0
    ensures (3.0 * m) / (6.0 * (area * 0.5)) == m / area
  {
    assert 6.0 * (area * 0.5) == 3.0 * area;
    assert (3.0 * m) / (3.0 * area) == m / area;
  }

  // ------------------------------------------------------ how small is degenerate

  const ORIGIN := Point(0.0, 0.0)

  lemma OneEdge(path: seq<Point>)
    requires |path| == 2
    ensures PathMoments(path) == EdgeMoments(path[0], path[1])
  {
    hide Cross, EdgeMoments;
    assert PathMoments(path[..1]) == Moments(0.0, 0.0, 0.0);
  }

  lemma ThreeEdges(path: seq<Point>)
    requires |path| == 4
    ensures PathMoments(path) == Plus(Plus(EdgeMoments(path[0], path[1]), EdgeMoments(path[1], path[2])),
                                      EdgeMoments(path[2], path[3]))
  {
    hide PathMoments, EdgeMoments, Plus;
    OneEdge(path[..2]);
    PathMomentsStep(path, 2);
    PathMomentsStep(path, 3);
    assert path[..4] == path;
  }

  lemma FourPoints(path: seq<Point>)
    requires |path| == 4
    ensures Sum(path) == Point(path[0].x + path[1].x + path[2].x + path[3].x,
                               path[0].y + path[1].y + path[2].y + path[3].y)
  {
    assert Sum(path[..0]) == ORIGIN;
    hide Sum;
    SumStep(path, 0);
    SumStep(path, 1);
    SumStep(path, 2);
    SumStep(path, 3);
    assert path[..4] == path;
  }

  lemma TriangleMoments(s: real, t: real)
    ensures var path := [ORIGIN, Point(s, 0.0), Point(0.0, t), ORIGIN];
            PathMoments(path) == Moments(s * t, s * (s * t), t * (s * t)) && Sum(path) == Point(s, t)
  {
    var path := [ORIGIN, Point(s, 0.0), Point(0.0, t), ORIGIN];
    ThreeEdges(path);
    FourPoints(path);
    assert Cross(path[0], path[1]) == 0.0 && Cross(path[1], path[2]) == s * t && Cross(path[2], path[3]) == 0.0;
    hide Cross, PathMoments, Sum;
  }

  lemma Third(s: real, area: real)
    requires area != 0.0
    ensures s * area / (6.0 * (area * 0.5)) == s / 3.0
  {
    assert 6.0 * (area * 0.5) == 3.0 * area;
    assert s * area == (s / 3.0) * (3.0 * area);
  }

  /** A right triangle has its centroid a third of the way along both legs, unless the
      product of the legs is below a trillionth: then the corner counts twice. */
  lemma RightTriangle(s: real, t: real)
    requires t != 0.0
    ensures Centroid([ORIGIN, Point(s, 0.0), Point(0.0, t)])
         == if -1.0 < 1000000000000.0 * (s * t) < 1.0 then Point(s / 4.0, t / 4.0) else Point(s / 3.0, t / 3.0)
  {
    var ring := [ORIGIN, Point(s, 0.0), Point(0.0, t)];
    TriangleMoments(s, t);
    var area := s * t;
    assert Close(ring) == [ORIGIN, Point(s, 0.0), Point(0.0, t), ORIGIN];
    assert Degenerate(area) <==> -1.0 < 1000000000000.0 * area < 1.0;
    hide PathMoments, Sum, Close;
    if !Degenerate(area) {
      Third(s, area);
      Third(t, area);
    }
  }
}

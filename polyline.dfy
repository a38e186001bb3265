/** The polyline helpers of the tracer: Ramer-Douglas-Peucker simplification (`rdp`), Chaikin
    corner cutting (`chaikinSmooth`) and the Catmull-Rom to cubic Bezier conversion
    (`catmullRomToBezier`). Coordinates are exact reals. */
module Polyline {

  datatype Point = Point(x: real, y: real)

  // ---------------------------------------------------------------------------------------
  // `chaikinSmooth`

  /** The cut point a quarter of the way from a to b. */
  function Q(a: Point, b: Point): Point {
    Point(0.75 * a.x + 0.25 * b.x, 0.75 * a.y + 0.25 * b.y)
  }

  /** The cut point three quarters of the way from a to b. */
  function R(a: Point, b: Point): Point {
    Point(0.25 * a.x + 0.75 * b.x, 0.25 * a.y + 0.75 * b.y)
  }

  /** The k-th cut point of p: segment k / 2 cut at a quarter for even k, at three quarters
      for odd k. */
  function Cut(p: seq<Point>, k: int): Point
    requires 0 <= k < 2 * (|p| - 1)
  {
    if k % 2 == 0 then Q(p[k / 2], p[k / 2 + 1]) else R(p[k / 2], p[k / 2 + 1])
  }

  /** The two cut points of each of the first i segments of p, in order. */
  function Cuts(p: seq<Point>, i: nat): (c: seq<Point>)
    requires i < |p|
    ensures |c| == 2 * i
  {
    if i == 0 then [] else Cuts(p, i - 1) + [Q(p[i - 1], p[i]), R(p[i - 1], p[i])]
  }

  lemma {:induction false} CutsAt(p: seq<Point>, i: nat)
    requires i < |p|
    ensures forall k :: 0 <= k < 2 * i ==> Cuts(p, i)[k] == Cut(p, k)
  {
    if i > 0 {
      CutsAt(p, i - 1);
      assert Cut(p, 2 * i - 2) == Q(p[i - 1], p[i]) && Cut(p, 2 * i - 1) == R(p[i - 1], p[i]);
    }
  }

  /** One round of corner cutting: the first point, both cut points of every segment, the last
      point. */
  function ChaikinOnce(p: seq<Point>): (r: seq<Point>)
    requires |p| >= 2
    ensures |r| == 2 * |p| && r[0] == p[0] && r[|r| - 1] == p[|p| - 1]
  {
    [p[0]] + Cuts(p, |p| - 1) + [p[|p| - 1]]
  }

  /** Between its end points, a round lists the cut points in order. */
  lemma ChaikinOnceAt(p: seq<Point>)
    requires |p| >= 2
    ensures forall k :: 0 < k < 2 * |p| - 1 ==> ChaikinOnce(p)[k] == Cut(p, k - 1)
  {
    CutsAt(p, |p| - 1);
  }

  /** k rounds of corner cutting. */
  function ChaikinN(p: seq<Point>, k: int): (r: seq<Point>)
    requires |p| >= 2
    ensures |r| >= 2
    decreases k
  {
    if k <= 0 then p else ChaikinOnce(ChaikinN(p, k - 1))
  }

  /** `chaikinSmooth(points, iterations)`: fewer than two points are copied; otherwise
      `iterations` rounds of corner cutting. */
  method ChaikinSmooth(points: seq<Point>, iterations: int) returns (pts: seq<Point>)
    ensures |points| < 2 ==> pts == points
    ensures |points| >= 2 ==> pts == ChaikinN(points, iterations)
  {
    if |points| < 2 {
      return points;
    }
    pts := points;
    var it := 0;
    while it < iterations
      invariant 0 <= it && (iterations <= 0 ==> it == 0) && (iterations > 0 ==> it <= iterations)
      invariant |pts| >= 2 && pts == ChaikinN(points, it)
    {
      pts := ChaikinRound(pts);
      it := it + 1;
    }
  }

  /** The body of the `iterations` loop: one round of corner cutting. */
  method ChaikinRound(pts: seq<Point>) returns (out: seq<Point>)
    requires |pts| >= 2
    ensures out == ChaikinOnce(pts)
  {
    out := [pts[0]];
    var i := 0;
    while i < |pts| - 1
      invariant 0 <= i <= |pts| - 1
      invariant out == [pts[0]] + Cuts(pts, i)
    {
      var p0, p1 := pts[i], pts[i + 1];
      out := out + [Q(p0, p1), R(p0, p1)];
      i := i + 1;
    }
    out := out + [pts[|pts| - 1]];
  }

  function Pow2(k: nat): (r: nat)
    ensures r >= 1
  {
    if k == 0 then 1 else 2 * Pow2(k - 1)
  }

  /** k rounds turn n points into n * 2^k points, with the first and last points kept. */
  lemma {:induction false} ChaikinShape(p: seq<Point>, k: nat)
    requires |p| >= 2
    ensures |ChaikinN(p, k)| == |p| * Pow2(k)
    ensures ChaikinN(p, k)[0] == p[0] && ChaikinN(p, k)[|ChaikinN(p, k)| - 1] == p[|p| - 1]
  {
    if k > 0 {
      ChaikinShape(p, k - 1);
      var q := ChaikinN(p, k - 1);
      assert ChaikinN(p, k) == ChaikinOnce(q);
      Doubling(|p|, Pow2(k - 1));
    }
  }

  lemma Doubling(a: int, b: int)
    ensures a * (2 * b) == 2 * (a * b)
  {
  }

  /** Every point lies in the box [lo.x, hi.x] x [lo.y, hi.y]. */
  ghost predicate InBox(p: seq<Point>, lo: Point, hi: Point) {
    forall i :: 0 <= i < |p| ==> lo.x <= p[i].x <= hi.x && lo.y <= p[i].y <= hi.y
  }

  lemma ChaikinOnceBox(p: seq<Point>, lo: Point, hi: Point)
    requires |p| >= 2 && InBox(p, lo, hi)
    ensures InBox(ChaikinOnce(p), lo, hi)
  {
    var r := ChaikinOnce(p);
    ChaikinOnceAt(p);
    forall i | 0 <= i < |r|
      ensures lo.x <= r[i].x <= hi.x && lo.y <= r[i].y <= hi.y
    {
      if 0 < i < |r| - 1 {
        var j := (i - 1) / 2;
        assert r[i] == Cut(p, i - 1);
        assert r[i] == Q(p[j], p[j + 1]) || r[i] == R(p[j], p[j + 1]);
      }
    }
  }

  /** Corner cutting never leaves a box that holds the input: every smoothed point is a convex
      combination of input points. */
  lemma {:induction false} ChaikinBox(p: seq<Point>, k: nat, lo: Point, hi: Point)
    requires |p| >= 2 && InBox(p, lo, hi)
    ensures InBox(ChaikinN(p, k), lo, hi)
  {
    if k > 0 {
      ChaikinBox(p, k - 1, lo, hi);
      ChaikinOnceBox(ChaikinN(p, k - 1), lo, hi);
    }
  }

  // ---------------------------------------------------------------------------------------
  // `catmullRomToBezier`

  /** A path command: `M x y`, `L x y`, or `C c1x c1y c2x c2y x y`. */
  datatype Cmd = Move(to: Point) | Line(to: Point) | Curve(c1: Point, c2: Point, to: Point)

  /** The control-point offset along one coordinate: a sixth of the chord from a to b, scaled
      by the tension. */
  function Tangent(a: real, b: real, tension: real): real {
    (b - a) / 6.0 * tension
  }

  /** The cubic segment from points[i] to points[i + 1]; the end points stand in for the missing
      neighbours before the first and after the last point. */
  function Segment(points: seq<Point>, i: int, tension: real): (c: Cmd)
    requires 0 <= i < |points| - 1
    ensures c.Curve? && c.to == points[i + 1]
  {
    var p0 := if i == 0 then points[0] else points[i - 1];
    var p1 := points[i];
    var p2 := points[i + 1];
    var p3 := if i + 2 < |points| then points[i + 2] else points[|points| - 1];
    Curve(Point(p1.x + Tangent(p0.x, p2.x, tension), p1.y + Tangent(p0.y, p2.y, tension)),
          Point(p2.x - Tangent(p1.x, p3.x, tension), p2.y - Tangent(p1.y, p3.y, tension)),
          p2)
  }

  /** `catmullRomToBezier(points, tension)`, as the list of commands the `d` string spells out. */
  method CatmullRomToBezier(points: seq<Point>, tension: real) returns (d: seq<Cmd>)
    ensures |points| == 0 ==> d == []
    ensures |points| == 1 ==> d == [Move(points[0])]
    ensures |points| == 2 ==> d == [Move(points[0]), Line(points[1])]
    ensures |points| >= 3 ==> (|d| == |points| && d[0] == Move(points[0]) &&
      forall i :: 1 <= i < |points| ==> d[i] == Segment(points, i - 1, tension))
  {
    var n := |points|;
    if n == 0 {
      return [];
    }
    if n == 1 {
      return [Move(points[0])];
    }
    if n == 2 {
      return [Move(points[0]), Line(points[1])];
    }
    d := [Move(points[0])];
    var i := 0;
    while i < n - 1
      invariant 0 <= i <= n - 1 && |d| == i + 1 && d[0] == Move(points[0])
      invariant forall j :: 1 <= j <= i ==> d[j] == Segment(points, j - 1, tension)
    {
      d := d + [Segment(points, i, tension)];
      i := i + 1;
    }
  }

  /** Where two segments meet at points[i + 1], the incoming and the outgoing control points lie
      on one line through it at equal distances, parallel to the chord from points[i] to
      points[i + 2]: the curve has a continuous tangent. */
  lemma CatmullRomSmooth(points: seq<Point>, i: int, tension: real)
    requires 0 <= i && i + 2 < |points|
    ensures Segment(points, i + 1, tension).c1.x - points[i + 1].x == Tangent(points[i].x, points[i + 2].x, tension)
    ensures points[i + 1].x - Segment(points, i, tension).c2.x == Tangent(points[i].x, points[i + 2].x, tension)
    ensures Segment(points, i + 1, tension).c1.y - points[i + 1].y == Tangent(points[i].y, points[i + 2].y, tension)
    ensures points[i + 1].y - Segment(points, i, tension).c2.y == Tangent(points[i].y, points[i + 2].y, tension)
  {
  }

  /** At the two ends the missing neighbour is the end point itself: the first segment leaves
      points[0] heading for points[1], and the last one arrives at the last point from the
      direction of the point before it. */
  lemma CatmullRomEnds(points: seq<Point>, tension: real)
    requires |points| >= 2
    ensures Segment(points, 0, tension).c1.x - points[0].x == Tangent(points[0].x, points[1].x, tension)
    ensures Segment(points, 0, tension).c1.y - points[0].y == Tangent(points[0].y, points[1].y, tension)
    ensures points[|points| - 1].x - Segment(points, |points| - 2, tension).c2.x ==
      Tangent(points[|points| - 2].x, points[|points| - 1].x, tension)
    ensures points[|points| - 1].y - Segment(points, |points| - 2, tension).c2.y ==
      Tangent(points[|points| - 2].y, points[|points| - 1].y, tension)
  {
  }

  // ---------------------------------------------------------------------------------------
  // `rdp`

  /** `dx * dx + dy * dy`, the squared length of the vector (dx, dy). */
  function Sq(u: real, v: real): real {
    u * u + v * v
  }

  /** Over the reals a squared length is positive exactly when the vector is not zero, so the
      test below on `Sq(dx, dy)` is the test `dx === 0 && dy === 0` of the code. */
  lemma DegenerateSegment(u: real, v: real)
    ensures u * u + v * v > 0.0 <==> !(u == 0.0 && v == 0.0)
  {
  }

  /** The square of `distPtSeg(p, a, b)`: the distance from p to the nearest point of segment
      ab, or to a when the segment is a single point. */
  function SqDistPtSeg(p: Point, a: Point, b: Point): real {
    var dx, dy := b.x - a.x, b.y - a.y;
    if !(Sq(dx, dy) > 0.0) then Sq(p.x - a.x, p.y - a.y)
    else
      var t := ((p.x - a.x) * dx + (p.y - a.y) * dy) / Sq(dx, dy);
      if t < 0.0 then Sq(p.x - a.x, p.y - a.y)
      else if t > 1.0 then Sq(p.x - b.x, p.y - b.y)
      else Sq(p.x - (a.x + t * dx), p.y - (a.y + t * dy))
  }

  /** The scan of `simplify` over first + 1 .. j - 1: the largest squared distance to segment
      (first, last), with the first index attaining it, or (0, -1) when every one is 0. */
  function Peak(pts: seq<Point>, first: int, last: int, j: int): (r: (real, int))
    requires 0 <= first < j <= last < |pts|
    ensures r.0 >= 0.0
    ensures r.1 == -1 ==> r.0 == 0.0
    ensures r.1 != -1 ==> first < r.1 < j && r.0 == SqDistPtSeg(pts[r.1], pts[first], pts[last]) && r.0 > 0.0
    ensures forall i :: first < i < j ==> SqDistPtSeg(pts[i], pts[first], pts[last]) <= r.0
    ensures r.1 != -1 ==> forall i :: first < i < r.1 ==> SqDistPtSeg(pts[i], pts[first], pts[last]) < r.0
    decreases j
  {
    if j == first + 1 then (0.0, -1)
    else
      var prev := Peak(pts, first, last, j - 1);
      var d := SqDistPtSeg(pts[j - 1], pts[first], pts[last]);
      if d > prev.0 then (d, j - 1) else prev
  }

  /** The indices `simplify(pts, first, last, keep)` sets in `keep`, with eps2 the square of the
      tolerance. */
  function Marks(pts: seq<Point>, first: int, last: int, eps2: real): (r: set<int>)
    requires 0 <= first < last < |pts| && eps2 >= 0.0
    ensures forall i :: i in r ==> first < i < last
    decreases last - first
  {
    var pk := Peak(pts, first, last, last);
    if pk.0 > eps2 then {pk.1} + Marks(pts, first, pk.1, eps2) + Marks(pts, pk.1, last, eps2) else {}
  }

  /** The loop of `simplify` that finds the farthest point. */
  method FarthestPoint(pts: seq<Point>, first: int, last: int) returns (maxd: real, idx: int)
    requires 0 <= first < last < |pts|
    ensures (maxd, idx) == Peak(pts, first, last, last)
  {
    maxd, idx := 0.0, -1;
    var a, b := pts[first], pts[last];
    var i := first + 1;
    while i < last
      invariant first < i <= last && (maxd, idx) == Peak(pts, first, last, i)
    {
      var d := SqDistPtSeg(pts[i], a, b);
      if d > maxd {
        maxd, idx := d, i;
      }
      i := i + 1;
    }
  }

  /** `simplify(pts, first, last, keep)`: keeps the farthest point when it is farther than eps
      and recurses on both halves. */
  method Simplify(pts: seq<Point>, first: int, last: int, keep: array<bool>, eps: real)
    requires 0 <= first < last < |pts| && keep.Length == |pts| && eps >= 0.0
    modifies keep
    ensures forall i :: 0 <= i < keep.Length ==> keep[i] == (old(keep[i]) || i in Marks(pts, first, last, eps * eps))
    decreases last - first
  {
    var maxd, idx := FarthestPoint(pts, first, last);
    if maxd > eps * eps {
      keep[idx] := true;
      Simplify(pts, first, idx, keep, eps);
      Simplify(pts, idx, last, keep, eps);
    }
  }

  /** The kept indices of a call on (first, last): both ends and its marks. */
  function Kept(pts: seq<Point>, first: int, last: int, eps2: real): set<int>
    requires 0 <= first < last < |pts| && eps2 >= 0.0
  {
    {first, last} + Marks(pts, first, last, eps2)
  }

  /** The tolerance `rdp` guarantees: a dropped point lies within eps of the segment joining the
      nearest kept points on either side of it. */
  lemma {:induction false} MarksTolerance(pts: seq<Point>, first: int, last: int, eps2: real, a: int, b: int, i: int)
    requires 0 <= first < last < |pts| && eps2 >= 0.0
    requires a in Kept(pts, first, last, eps2) && b in Kept(pts, first, last, eps2) && a < i < b
    requires forall j :: a < j < b ==> j !in Kept(pts, first, last, eps2)
    ensures SqDistPtSeg(pts[i], pts[a], pts[b]) <= eps2
    decreases last - first
  {
    var pk := Peak(pts, first, last, last);
    if pk.0 > eps2 {
      var m := pk.1;
      assert m in Kept(pts, first, last, eps2);
      if b <= m {
        assert a !in Marks(pts, m, last, eps2);
        assert a in Kept(pts, first, m, eps2) && b in Kept(pts, first, m, eps2);
        MarksTolerance(pts, first, m, eps2, a, b, i);
      } else {
        assert a >= m;
        assert b !in Marks(pts, first, m, eps2);
        assert a in Kept(pts, m, last, eps2) && b in Kept(pts, m, last, eps2);
        MarksTolerance(pts, m, last, eps2, a, b, i);
      }
    } else {
      assert a == first && b == last;
    }
  }

  predicate Increasing(idx: seq<int>) {
    forall u, v :: 0 <= u < v < |idx| ==> idx[u] < idx[v]
  }

  /** out lists pts at the positions idx. */
  predicate Selects(pts: seq<Point>, out: seq<Point>, idx: seq<int>) {
    |out| == |idx| && Increasing(idx) &&
    forall t :: 0 <= t < |idx| ==> 0 <= idx[t] < |pts| && out[t] == pts[idx[t]]
  }

  /** The collection loop of `rdp`: the points whose `keep` flag is set, in order. */
  method Collect(points: seq<Point>, keep: array<bool>) returns (out: seq<Point>, ghost idx: seq<int>)
    requires keep.Length == |points|
    ensures Selects(points, out, idx)
    ensures forall j :: 0 <= j < |points| ==> (keep[j] <==> j in idx)
  {
    out, idx := [], [];
    var i := 0;
    while i < |points|
      invariant 0 <= i <= |points| && Selects(points, out, idx)
      invariant forall t :: 0 <= t < |idx| ==> idx[t] < i
      invariant forall j :: 0 <= j < i ==> (keep[j] <==> j in idx)
    {
      if keep[i] {
        out, idx := out + [points[i]], idx + [i];
      }
      i := i + 1;
    }
  }

  /** Two neighbouring positions of an increasing index list have no listed index between them. */
  lemma Adjacent(idx: seq<int>, t: int, j: int)
    requires Increasing(idx) && 0 <= t < |idx| - 1 && idx[t] < j < idx[t + 1]
    ensures j !in idx
  {
    forall u | 0 <= u < |idx|
      ensures idx[u] != j
    {
      if u <= t {
        assert u == t || idx[u] < idx[t];
      } else {
        assert u == t + 1 || idx[t + 1] < idx[u];
      }
    }
  }

  /** A point strictly between neighbouring entries t and t + 1 of the list of kept indices is
      within tolerance of the segment joining them. */
  lemma RdpBetween(points: seq<Point>, eps2: real, idx: seq<int>, t: int, i: int)
    requires |points| >= 2 && eps2 >= 0.0 && Increasing(idx)
    requires forall j :: 0 <= j < |points| ==> (j in idx <==> j in Kept(points, 0, |points| - 1, eps2))
    requires forall u :: 0 <= u < |idx| ==> 0 <= idx[u] < |points|
    requires 0 <= t < |idx| - 1 && idx[t] < i < idx[t + 1]
    ensures SqDistPtSeg(points[i], points[idx[t]], points[idx[t + 1]]) <= eps2
  {
    var K := Kept(points, 0, |points| - 1, eps2);
    assert idx[t] in idx && idx[t + 1] in idx;
    assert idx[t] in K && idx[t + 1] in K;
    forall j | idx[t] < j < idx[t + 1]
      ensures j !in K
    {
      Adjacent(idx, t, j);
    }
    MarksTolerance(points, 0, |points| - 1, eps2, idx[t], idx[t + 1], i);
  }

  /** An increasing list of indices below n that holds 0 and n - 1 starts at 0 and ends at n - 1. */
  lemma RdpEnds(idx: seq<int>, n: int)
    requires Increasing(idx) && n >= 2 && 0 in idx && n - 1 in idx
    requires forall u :: 0 <= u < |idx| ==> 0 <= idx[u] < n
    ensures |idx| >= 2 && idx[0] == 0 && idx[|idx| - 1] == n - 1
  {
    var u :| 0 <= u < |idx| && idx[u] == 0;
    var v :| 0 <= v < |idx| && idx[v] == n - 1;
    assert forall w :: 0 < w < |idx| ==> idx[0] < idx[w];
    assert forall w :: 0 <= w < |idx| - 1 ==> idx[w] < idx[|idx| - 1];
    assert idx[0] >= 0 && idx[|idx| - 1] <= n - 1 && u != v;
  }

  /** `rdp(points, eps)`: fewer than three points are copied; otherwise, in order, exactly the
      points whose indices are `Kept` (both ends and the marks of the recursion), with every
      dropped point within eps of the segment joining its kept neighbours. */
  method Rdp(points: seq<Point>, eps: real) returns (out: seq<Point>)
    requires eps >= 0.0
    ensures |points| < 3 ==> out == points
    ensures |points| >= 3 ==> exists idx :: (Selects(points, out, idx) && |idx| >= 2 &&
      idx[0] == 0 && idx[|idx| - 1] == |points| - 1 &&
      (forall j :: 0 <= j < |points| ==> (j in idx <==> j in Kept(points, 0, |points| - 1, eps * eps))) &&
      forall t, i :: 0 <= t < |idx| - 1 && idx[t] < i < idx[t + 1] ==>
        SqDistPtSeg(points[i], points[idx[t]], points[idx[t + 1]]) <= eps * eps)
  {
    var n := |points|;
    if n < 3 {
      return points;
    }
    var keep := new bool[n](_ => false);
    keep[0], keep[n - 1] := true, true;
    Simplify(points, 0, n - 1, keep, eps);
    ghost var idx;
    out, idx := Collect(points, keep);
    RdpKept(points, eps * eps, keep[..], idx);
  }

  /** The indices kept by `rdp` start at 0, end at the last point, and leave every dropped
      point within tolerance of its kept neighbours. */
  lemma RdpKept(points: seq<Point>, eps2: real, keep: seq<bool>, idx: seq<int>)
    requires |points| >= 3 && eps2 >= 0.0 && |keep| == |points|
    requires forall i :: 0 <= i < |points| ==> keep[i] == (i == 0 || i == |points| - 1 || i in Marks(points, 0, |points| - 1, eps2))
    requires Increasing(idx) && forall u :: 0 <= u < |idx| ==> 0 <= idx[u] < |points|
    requires forall j :: 0 <= j < |points| ==> (keep[j] <==> j in idx)
    ensures |idx| >= 2 && idx[0] == 0 && idx[|idx| - 1] == |points| - 1
    ensures forall j :: 0 <= j < |points| ==> (j in idx <==> j in Kept(points, 0, |points| - 1, eps2))
    ensures forall t, i :: 0 <= t < |idx| - 1 && idx[t] < i < idx[t + 1] ==>
      SqDistPtSeg(points[i], points[idx[t]], points[idx[t + 1]]) <= eps2
  {
    var n := |points|;
    var K := Kept(points, 0, n - 1, eps2);
    assert forall j :: 0 <= j < n ==> (j in idx <==> j in K);
    RdpEnds(idx, n);
    forall t, i | 0 <= t < |idx| - 1 && idx[t] < i < idx[t + 1]
      ensures SqDistPtSeg(points[i], points[idx[t]], points[idx[t + 1]]) <= eps2
    {
      RdpBetween(points, eps2, idx, t, i);
    }
  }
}

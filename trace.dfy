/** The integer helpers inside `autoTrace`: `maskBounds`, the bounding box of a mask, and the
    stride decimation that thins the pixel spine and the simplified polyline. */
module Trace {
  import opened Grid
  import opened LongestPath
  import opened Polyline

  datatype Option<T> = None | Some(value: T)

  /** The `{ minX, minY, maxX, maxY }` record of `maskBounds`. */
  datatype Bounds = Bounds(minX: int, minY: int, maxX: int, maxY: int)

  // ---------------------------------------------------------------------------------------
  // `maskBounds`

  /** Pixel (x, y) is a foreground pixel of the image. */
  predicate On(m: seq<int>, w: nat, h: nat, x: int, y: int)
    requires |m| == w * h
  {
    InBounds(w, h, x, y) && Px(m, w, h, x, y) != 0
  }

  /** b is the bounding box of the foreground: it lies in the image, holds every foreground
      pixel, and each of its four sides passes through a foreground pixel. */
  ghost predicate IsBoundingBox(m: seq<int>, w: nat, h: nat, b: Bounds)
    requires |m| == w * h
  {
    0 <= b.minX <= b.maxX < w && 0 <= b.minY <= b.maxY < h &&
    (forall x, y :: On(m, w, h, x, y) ==> b.minX <= x <= b.maxX && b.minY <= y <= b.maxY) &&
    (exists y :: On(m, w, h, b.minX, y)) && (exists y :: On(m, w, h, b.maxX, y)) &&
    (exists x :: On(m, w, h, x, b.minY)) && (exists x :: On(m, w, h, x, b.maxY))
  }

  /** A mask is all zero exactly when it has no foreground pixel. */
  lemma AllZeroNoPixel(m: seq<int>, w: nat, h: nat)
    requires |m| == w * h
    ensures AllZero(m) <==> forall x, y :: !On(m, w, h, x, y)
  {
    if AllZero(m) {
      PxAllZero(m, w, h);
    } else {
      var i :| 0 <= i < |m| && m[i] != 0;
      Decompose(w, h, i);
      assert On(m, w, h, i % w, i / w);
    }
  }

  /** A foreground pixel scanned before (x, y). */
  predicate Seen(m: seq<int>, w: nat, h: nat, x: int, y: int, p: Pixel)
    requires |m| == w * h
  {
    Before(p.x, p.y, x, y) && On(m, w, h, p.x, p.y)
  }

  /** The variables of `maskBounds` once the scan has reached (x, y): `found` tells whether a
      foreground pixel was seen; if none was, the bounds keep their initial values, otherwise
      they bound every pixel seen, each attained at the pixel named beside it. */
  ghost predicate Scanned(m: seq<int>, w: nat, h: nat, x: int, y: int, found: bool, b: Bounds,
                          p1: Pixel, p2: Pixel, p3: Pixel, p4: Pixel)
    requires |m| == w * h
  {
    (forall a, c :: Before(a, c, x, y) && On(m, w, h, a, c) ==>
       found && b.minX <= a <= b.maxX && b.minY <= c <= b.maxY) &&
    (!found ==> b == Bounds(w, h, 0, 0)) &&
    (found ==> Seen(m, w, h, x, y, p1) && p1.x == b.minX && Seen(m, w, h, x, y, p2) && p2.y == b.minY &&
               Seen(m, w, h, x, y, p3) && p3.x == b.maxX && Seen(m, w, h, x, y, p4) && p4.y == b.maxY)
  }

  /** The test of the scan at (x, y), with the witnesses moved along. */
  lemma ScanStep(m: seq<int>, w: nat, h: nat, x: int, y: int, found: bool, b: Bounds,
                 p1: Pixel, p2: Pixel, p3: Pixel, p4: Pixel, found': bool, b': Bounds,
                 q1: Pixel, q2: Pixel, q3: Pixel, q4: Pixel)
    requires |m| == w * h && InBounds(w, h, x, y)
    requires Scanned(m, w, h, x, y, found, b, p1, p2, p3, p4)
    requires !On(m, w, h, x, y) ==> found' == found && b' == b && [q1, q2, q3, q4] == [p1, p2, p3, p4]
    requires On(m, w, h, x, y) ==> (found' &&
      b' == Bounds(if x < b.minX then x else b.minX, if y < b.minY then y else b.minY,
                   if x > b.maxX then x else b.maxX, if y > b.maxY then y else b.maxY))
    requires On(m, w, h, x, y) ==> (
      q1 == (if x < b.minX then Pixel(x, y) else p1) && q2 == (if y < b.minY then Pixel(x, y) else p2) &&
      q3 == (if x > b.maxX || !found then Pixel(x, y) else p3) &&
      q4 == (if y > b.maxY || !found then Pixel(x, y) else p4))
    ensures Scanned(m, w, h, x + 1, y, found', b', q1, q2, q3, q4)
  {
  }

  /** The end of a row is the start of the next. */
  lemma ScanNextRow(m: seq<int>, w: nat, h: nat, y: int, found: bool, b: Bounds,
                    p1: Pixel, p2: Pixel, p3: Pixel, p4: Pixel)
    requires |m| == w * h && Scanned(m, w, h, w, y, found, b, p1, p2, p3, p4)
    ensures Scanned(m, w, h, 0, y + 1, found, b, p1, p2, p3, p4)
  {
  }

  /** After the last row the scan has seen every pixel: the result is the bounding box. */
  lemma ScanDone(m: seq<int>, w: nat, h: nat, found: bool, b: Bounds,
                 p1: Pixel, p2: Pixel, p3: Pixel, p4: Pixel)
    requires |m| == w * h && Scanned(m, w, h, 0, h, found, b, p1, p2, p3, p4)
    ensures !found <==> AllZero(m)
    ensures found ==> IsBoundingBox(m, w, h, b)
  {
    AllZeroNoPixel(m, w, h);
    if found {
      assert On(m, w, h, b.minX, p1.y) && On(m, w, h, b.maxX, p3.y);
      assert On(m, w, h, p2.x, b.minY) && On(m, w, h, p4.x, b.maxY);
    }
  }

  /** The body of the inner loop of `maskBounds` at (x, y), where the mask holds v. */
  method Visit(ghost m: seq<int>, w: nat, h: nat, x: int, y: int, v: int, found0: bool, b0: Bounds,
               ghost p1: Pixel, ghost p2: Pixel, ghost p3: Pixel, ghost p4: Pixel)
    returns (found: bool, b: Bounds, ghost q1: Pixel, ghost q2: Pixel, ghost q3: Pixel, ghost q4: Pixel)
    requires |m| == w * h && InBounds(w, h, x, y) && (v != 0) == On(m, w, h, x, y)
    requires Scanned(m, w, h, x, y, found0, b0, p1, p2, p3, p4)
    ensures Scanned(m, w, h, x + 1, y, found, b, q1, q2, q3, q4)
  {
    found, b := found0, b0;
    q1, q2, q3, q4 := p1, p2, p3, p4;
    if v != 0 {
      if x < b.minX {
        q1 := Pixel(x, y);
      }
      if y < b.minY {
        q2 := Pixel(x, y);
      }
      if x > b.maxX || !found {
        q3 := Pixel(x, y);
      }
      if y > b.maxY || !found {
        q4 := Pixel(x, y);
      }
      found := true;
      var minX, minY, maxX, maxY := b.minX, b.minY, b.maxX, b.maxY;
      if x < minX { minX := x; }
      if y < minY { minY := y; }
      if x > maxX { maxX := x; }
      if y > maxY { maxY := y; }
      b := Bounds(minX, minY, maxX, maxY);
    }
    ScanStep(m, w, h, x, y, found0, b0, p1, p2, p3, p4, found, b, q1, q2, q3, q4);
  }

  /** The scan of row y of `maskBounds`. */
  method BoundsRow(mask: array<int>, w: nat, h: nat, y: int, found0: bool, b0: Bounds,
                   ghost p1: Pixel, ghost p2: Pixel, ghost p3: Pixel, ghost p4: Pixel)
    returns (found: bool, b: Bounds, ghost q1: Pixel, ghost q2: Pixel, ghost q3: Pixel, ghost q4: Pixel)
    requires mask.Length == w * h && 0 <= y < h
    requires Scanned(mask[..], w, h, 0, y, found0, b0, p1, p2, p3, p4)
    ensures Scanned(mask[..], w, h, 0, y + 1, found, b, q1, q2, q3, q4)
  {
    ghost var m := mask[..];
    found, b := found0, b0;
    q1, q2, q3, q4 := p1, p2, p3, p4;
    var x := 0;
    while x < w
      invariant 0 <= x <= w
      invariant Scanned(m, w, h, x, y, found, b, q1, q2, q3, q4)
    {
      IdxRange(w, h, x, y);
      var v := mask[y * w + x];
      assert v == m[Idx(w, x, y)];
      found, b, q1, q2, q3, q4 := Visit(m, w, h, x, y, v, found, b, q1, q2, q3, q4);
      x := x + 1;
    }
    ScanNextRow(m, w, h, y, found, b, q1, q2, q3, q4);
  }

  /** `maskBounds(maskArr, w, h)`: `null` exactly for a mask with no foreground pixel, otherwise
      its bounding box. */
  method MaskBounds(mask: array<int>, w: nat, h: nat) returns (r: Option<Bounds>)
    requires mask.Length == w * h
    ensures r.None? <==> AllZero(mask[..])
    ensures r.Some? ==> IsBoundingBox(mask[..], w, h, r.value)
  {
    var found := false;
    var b := Bounds(w, h, 0, 0);
    ghost var p1, p2, p3, p4 := Pixel(0, 0), Pixel(0, 0), Pixel(0, 0), Pixel(0, 0);
    var y := 0;
    while y < h
      invariant 0 <= y <= h
      invariant Scanned(mask[..], w, h, 0, y, found, b, p1, p2, p3, p4)
    {
      found, b, p1, p2, p3, p4 := BoundsRow(mask, w, h, y, found, b, p1, p2, p3, p4);
      y := y + 1;
    }
    ScanDone(mask[..], w, h, found, b, p1, p2, p3, p4);
    if !found {
      return None;
    }
    return Some(b);
  }

  /** The bounding box is unique, so the contract of `MaskBounds` fixes its result. */
  lemma BoundingBoxUnique(m: seq<int>, w: nat, h: nat, b: Bounds, c: Bounds)
    requires |m| == w * h && IsBoundingBox(m, w, h, b) && IsBoundingBox(m, w, h, c)
    ensures b == c
  {
    var y1 :| On(m, w, h, b.minX, y1);
    var y2 :| On(m, w, h, c.minX, y2);
    var y3 :| On(m, w, h, b.maxX, y3);
    var y4 :| On(m, w, h, c.maxX, y4);
    var x1 :| On(m, w, h, x1, b.minY);
    var x2 :| On(m, w, h, x2, c.minY);
    var x3 :| On(m, w, h, x3, b.maxY);
    var x4 :| On(m, w, h, x4, c.maxY);
  }

  // ---------------------------------------------------------------------------------------
  // Stride decimation

  /** r lists s at the positions 0, k, 2k, ... that lie below |s|, in order. */
  predicate Strided(s: seq<Point>, k: int, r: seq<Point>)
    requires k >= 1
  {
    |r| * k >= |s| && (|r| == 0 || (|r| - 1) * k < |s|) &&
    forall j :: 0 <= j < |r| ==> j * k < |s| && r[j] == s[j * k]
  }

  /** `for (let i = 0; i < s.length; i += k) out.push(s[i])` followed by the push of the last
      element when its y differs from that of the last one taken. */
  method Decimate(s: seq<Point>, k: int) returns (dec: seq<Point>)
    requires k >= 1
    ensures |s| == 0 ==> dec == []
    ensures |s| > 0 ==> (|dec| >= 1 &&
      ((Strided(s, k, dec) && dec[|dec| - 1].y == s[|s| - 1].y) ||
       (|dec| >= 2 && Strided(s, k, dec[..|dec| - 1]) && dec[|dec| - 2].y != s[|s| - 1].y &&
        dec[|dec| - 1] == s[|s| - 1])))
  {
    dec := [];
    var i := 0;
    while i < |s|
      invariant i == |dec| * k && (|dec| == 0 || (|dec| - 1) * k < |s|)
      invariant forall j :: 0 <= j < |dec| ==> j * k < |s| && dec[j] == s[j * k]
    {
      dec := dec + [s[i]];
      i := i + k;
    }
    assert Strided(s, k, dec);
    if |s| > 0 && (|dec| == 0 || dec[|dec| - 1].y != s[|s| - 1].y) {
      ghost var base := dec;
      dec := dec + [s[|s| - 1]];
      assert dec[..|dec| - 1] == base;
    }
  }

  /** Positions j * k grow with j. */
  lemma StrideOrder(k: int, a: int, b: int)
    requires k >= 1 && 0 <= a < b
    ensures a * k < b * k
  {
    assert b * k - a * k == (b - a) * k;
  }

  /** Only one list is strided from s. */
  lemma StridedUnique(s: seq<Point>, k: int, r: seq<Point>, t: seq<Point>)
    requires k >= 1 && Strided(s, k, r) && Strided(s, k, t)
    ensures r == t
  {
    if |r| < |t| {
      StrideOrder(k, |r|, |t| - 1);
      assert false;
    } else if |t| < |r| {
      StrideOrder(k, |t|, |r| - 1);
      assert false;
    }
  }

  /** The decimated list starts with the first element of s, takes it and the strided ones in
      order, and ends on an element with the y of the last element of s. */
  lemma DecimateEnds(s: seq<Point>, k: int, dec: seq<Point>)
    requires k >= 1 && |s| > 0 && |dec| >= 1
    requires (Strided(s, k, dec) && dec[|dec| - 1].y == s[|s| - 1].y) ||
      (|dec| >= 2 && Strided(s, k, dec[..|dec| - 1]) && dec[|dec| - 2].y != s[|s| - 1].y &&
       dec[|dec| - 1] == s[|s| - 1])
    ensures dec[0] == s[0] && dec[|dec| - 1].y == s[|s| - 1].y
  {
    if !Strided(s, k, dec) || dec[|dec| - 1].y != s[|s| - 1].y {
      assert dec[..|dec| - 1][0] == dec[0];
    }
  }

  /** The pixel `{ x, y }` pushed into the point list, with its coordinates read as numbers. */
  function ToPoint(p: Pixel): Point {
    Point(p.x as real, p.y as real)
  }

  function ToPoints(ps: seq<Pixel>): (r: seq<Point>)
    ensures |r| == |ps| && forall i :: 0 <= i < |ps| ==> r[i] == ToPoint(ps[i])
  {
    if |ps| == 0 then [] else [ToPoint(ps[0])] + ToPoints(ps[1..])
  }

  /** Reading pixel rows as numbers keeps the y comparison of the decimation. */
  lemma ToPointRows(p: Pixel, q: Pixel)
    ensures ToPoint(p).y == ToPoint(q).y <==> p.y == q.y
  {
  }
}

/** Flat row-major pixel grids: the `Uint8Array` masks of the tracing pipeline,
    indexed `y * w + x`, and the index arithmetic every stage relies on. */
module Grid {

  /** Flat index of pixel (x, y) in a buffer of width w. */
  function Idx(w: int, x: int, y: int): int { y * w + x }

  predicate InBounds(w: int, h: int, x: int, y: int) { 0 <= x < w && 0 <= y < h }

  /** Not on the first or last row or column. */
  predicate Interior(w: int, h: int, x: int, y: int) { 1 <= x < w - 1 && 1 <= y < h - 1 }

  /** A binary mask of a w-by-h image: w*h cells, each 0 or 1. */
  predicate IsMask(m: seq<int>, w: nat, h: nat) {
    |m| == w * h && forall i :: 0 <= i < |m| ==> m[i] == 0 || m[i] == 1
  }

  /** Every foreground cell of a is foreground in b. */
  predicate Within(a: seq<int>, b: seq<int>) {
    |a| == |b| && forall i :: 0 <= i < |a| && a[i] != 0 ==> b[i] != 0
  }

  predicate AllZero(m: seq<int>) { forall i :: 0 <= i < |m| ==> m[i] == 0 }

  function Zeros(n: nat): (z: seq<int>)
    ensures |z| == n && AllZero(z)
  {
    seq(n, _ => 0)
  }

  /** Number of foreground (non-zero) cells. */
  function Count(m: seq<int>): nat {
    if |m| == 0 then 0 else Count(m[..|m| - 1]) + (if m[|m| - 1] != 0 then 1 else 0)
  }

  lemma MulLe(a: int, b: int, c: nat)
    requires a <= b
    ensures a * c <= b * c
  {
    assert (b - a) * c >= 0;
  }

  lemma IdxRange(w: nat, h: nat, x: int, y: int)
    requires InBounds(w, h, x, y)
    ensures 0 <= Idx(w, x, y) < w * h
  {
    MulLe(y, h - 1, w);
    assert (h - 1) * w == h * w - w;
  }

  /** x and y are recovered from the flat index by `% w` and `/ w`. */
  lemma IdxCoords(w: int, x: int, y: int)
    requires 0 <= x < w
    ensures Idx(w, x, y) % w == x && Idx(w, x, y) / w == y
  {
    var i := Idx(w, x, y);
    var q, r := i / w, i % w;
    assert i == q * w + r && 0 <= r < w;
    assert (q - y) * w == x - r;
    if q > y {
      MulLe(1, q - y, w);
    } else if q < y {
      MulLe(1, y - q, w);
    }
  }

  /** Two pixels of the same row width share a flat index only if they are the same pixel. */
  lemma IdxInjective(w: int, x: int, y: int, a: int, b: int)
    requires 0 <= x < w && 0 <= a < w
    ensures Idx(w, x, y) == Idx(w, a, b) <==> x == a && y == b
  {
    IdxCoords(w, x, y);
    IdxCoords(w, a, b);
  }

  /** Every flat index of a w-by-h buffer is the index of an in-bounds pixel. */
  lemma Decompose(w: nat, h: nat, i: int)
    requires 0 <= i < w * h
    ensures InBounds(w, h, i % w, i / w) && Idx(w, i % w, i / w) == i
  {
    if i / w >= h {
      MulLe(h, i / w, w);
    }
  }

  lemma DecomposeAll(w: nat, h: nat)
    ensures forall i :: 0 <= i < w * h ==> InBounds(w, h, i % w, i / w) && Idx(w, i % w, i / w) == i
  {
    forall i | 0 <= i < w * h
      ensures InBounds(w, h, i % w, i / w) && Idx(w, i % w, i / w) == i
    {
      Decompose(w, h, i);
    }
  }

  /** (a, b) lies in the 3x3 block centred on (x, y). */
  predicate Near(x: int, y: int, a: int, b: int) {
    -1 <= a - x <= 1 && -1 <= b - y <= 1
  }

  /** Row-major scan order: (a, b) is visited before (x, y). */
  predicate Before(a: int, b: int, x: int, y: int) { b < y || (b == y && a < x) }

  /** Row y of an image of height h occupies the flat cells [Idx(w, 0, y), Idx(w, w, y)). */
  lemma RowSpan(w: nat, h: nat, y: int)
    requires 0 <= y < h
    ensures 0 <= Idx(w, 0, y) && Idx(w, w, y) <= w * h
  {
    MulLe(y + 1, h, w);
  }

  /** The cell after the last pixel of a row is the first pixel of the next row. */
  lemma IdxNextRow(w: int, y: int)
    ensures Idx(w, w, y) == Idx(w, 0, y + 1)
  {
  }

  /** The pixel value at (x, y); pixels outside the image read as background. */
  function Px(m: seq<int>, w: nat, h: nat, x: int, y: int): int
    requires |m| == w * h
  {
    if InBounds(w, h, x, y) then IdxRange(w, h, x, y); m[Idx(w, x, y)] else 0
  }

  lemma CountAllZero(m: seq<int>)
    requires AllZero(m)
    ensures Count(m) == 0
  {
    if |m| > 0 {
      CountAllZero(m[..|m| - 1]);
    }
  }

  /** Count is monotone under Within, and strictly so when a 0/1 mask loses a cell. */
  lemma {:induction false} CountWithin(a: seq<int>, b: seq<int>)
    requires Within(a, b)
    ensures Count(a) <= Count(b)
    ensures ((forall i :: 0 <= i < |a| ==> a[i] == 0 || a[i] == 1) &&
             (forall i :: 0 <= i < |b| ==> b[i] == 0 || b[i] == 1) && a != b) ==> Count(a) < Count(b)
  {
    if |a| > 0 {
      var n := |a| - 1;
      assert Within(a[..n], b[..n]);
      CountWithin(a[..n], b[..n]);
      if a[..n] != b[..n] {
      } else if a != b {
        assert a == a[..n] + [a[n]] && b == b[..n] + [b[n]];
        assert a[n] != b[n];
      }
    }
  }

  /** `new Uint8Array(src)`: a fresh copy of a buffer. */
  method CopyBuffer(src: array<int>) returns (dst: array<int>)
    ensures fresh(dst) && dst[..] == src[..]
  {
    dst := new int[src.Length](i reads src => if 0 <= i < src.Length then src[i] else 0);
    assert dst[..] == src[..];
  }

  lemma WithinTrans(a: seq<int>, b: seq<int>, c: seq<int>)
    requires Within(a, b) && Within(b, c)
    ensures Within(a, c)
  {
  }

  /** Every pixel of an all-background mask reads as background. */
  lemma PxAllZero(m: seq<int>, w: nat, h: nat)
    requires |m| == w * h && AllZero(m)
    ensures forall x, y :: Px(m, w, h, x, y) == 0
  {
    forall x, y | InBounds(w, h, x, y)
      ensures Px(m, w, h, x, y) == 0
    {
      IdxRange(w, h, x, y);
    }
  }
}

/** 8-neighbourhood morphology on 0/1 masks: `dilate`, `erode` and `closeMask`. */
module Morphology {
  import opened Grid

  /** (x, y) is an in-bounds foreground pixel that the row-major scan reaches before (cx, cy). */
  predicate SeenFg(m: seq<int>, w: nat, h: nat, x: int, y: int, cx: int, cy: int)
    requires |m| == w * h
  {
    InBounds(w, h, x, y) && Before(x, y, cx, cy) && Px(m, w, h, x, y) != 0
  }

  predicate RowSeen(m: seq<int>, w: nat, h: nat, x: int, y: int, cx: int, cy: int)
    requires |m| == w * h
  {
    SeenFg(m, w, h, x - 1, y, cx, cy) || SeenFg(m, w, h, x, y, cx, cy) || SeenFg(m, w, h, x + 1, y, cx, cy)
  }

  /** Some pixel of the 3x3 block centred on (x, y) is foreground and scanned before (cx, cy). */
  predicate BlockSeen(m: seq<int>, w: nat, h: nat, x: int, y: int, cx: int, cy: int)
    requires |m| == w * h
  {
    RowSeen(m, w, h, x, y - 1, cx, cy) || RowSeen(m, w, h, x, y, cx, cy) || RowSeen(m, w, h, x, y + 1, cx, cy)
  }

  /** One dilation round: a pixel is set when it or one of its 8 neighbours is foreground. */
  function DilateOnce(m: seq<int>, w: nat, h: nat): (r: seq<int>)
    requires |m| == w * h
    ensures IsMask(r, w, h)
  {
    seq(w * h, i requires 0 <= i < w * h => if BlockSeen(m, w, h, i % w, i / w, 0, h) then 1 else 0)
  }

  function DilateN(m: seq<int>, w: nat, h: nat, n: int): (r: seq<int>)
    requires |m| == w * h
    ensures |r| == w * h
    decreases n
  {
    if n <= 0 then m else DilateOnce(DilateN(m, w, h, n - 1), w, h)
  }

  predicate RowFull(m: seq<int>, w: nat, h: nat, x: int, y: int)
    requires |m| == w * h
  {
    Px(m, w, h, x - 1, y) != 0 && Px(m, w, h, x, y) != 0 && Px(m, w, h, x + 1, y) != 0
  }

  /** The whole 3x3 block centred on (x, y) is foreground. */
  predicate BlockFull(m: seq<int>, w: nat, h: nat, x: int, y: int)
    requires |m| == w * h
  {
    RowFull(m, w, h, x, y - 1) && RowFull(m, w, h, x, y) && RowFull(m, w, h, x, y + 1)
  }

  /** One erosion round: only interior pixels whose whole 3x3 block is foreground stay set. */
  function ErodeOnce(m: seq<int>, w: nat, h: nat): (r: seq<int>)
    requires |m| == w * h
    ensures IsMask(r, w, h)
  {
    seq(w * h, i requires 0 <= i < w * h =>
      if Interior(w, h, i % w, i / w) && BlockFull(m, w, h, i % w, i / w) then 1 else 0)
  }

  function ErodeN(m: seq<int>, w: nat, h: nat, n: int): (r: seq<int>)
    requires |m| == w * h
    ensures |r| == w * h
    decreases n
  {
    if n <= 0 then m else ErodeOnce(ErodeN(m, w, h, n - 1), w, h)
  }

  /** (a, b) is an offset of the block around (x, y) that the offset loops visit before (ox, oy). */
  predicate StampedBefore(x: int, y: int, a: int, b: int, ox: int, oy: int) {
    Near(x, y, a, b) && Before(a - x, b - y, ox, oy)
  }

  /** The inner offset loops of `dilate`: set every in-bounds pixel of the block around (x, y). */
  method StampBlock(out: array<int>, w: nat, h: nat, x: int, y: int)
    requires out.Length == w * h && InBounds(w, h, x, y)
    modifies out
    ensures forall j :: 0 <= j < w * h ==> out[j] == if Near(x, y, j % w, j / w) then 1 else old(out[j])
  {
    DecomposeAll(w, h);
    var oy := -1;
    while oy <= 1
      invariant -1 <= oy <= 2
      invariant forall j :: 0 <= j < w * h ==>
        out[j] == if StampedBefore(x, y, j % w, j / w, -1, oy) then 1 else old(out[j])
    {
      var ox := -1;
      while ox <= 1
        invariant -1 <= ox <= 2
        invariant forall j :: 0 <= j < w * h ==>
          out[j] == if StampedBefore(x, y, j % w, j / w, ox, oy) then 1 else old(out[j])
      {
        var nx, ny := x + ox, y + oy;
        if nx >= 0 && nx < w && ny >= 0 && ny < h {
          IdxRange(w, h, nx, ny);
          IdxCoords(w, nx, ny);
          out[ny * w + nx] := 1;
        }
        ox := ox + 1;
      }
      oy := oy + 1;
    }
  }

  /** Scanning one more pixel (x, y) adds exactly the blocks that contain it, when it is set. */
  lemma BlockSeenStep(m: seq<int>, w: nat, h: nat, a: int, b: int, x: int, y: int)
    requires |m| == w * h && InBounds(w, h, a, b) && InBounds(w, h, x, y)
    ensures BlockSeen(m, w, h, a, b, x + 1, y) ==
            (BlockSeen(m, w, h, a, b, x, y) || (Px(m, w, h, x, y) != 0 && Near(x, y, a, b)))
  {
  }

  /** The `out` buffer of `dilate` once the scan has reached (x, y). */
  ghost predicate ScatteredTo(out: seq<int>, m: seq<int>, w: nat, h: nat, x: int, y: int)
    requires |m| == w * h
  {
    |out| == w * h &&
    forall j :: 0 <= j < w * h ==> out[j] == if BlockSeen(m, w, h, j % w, j / w, x, y) then 1 else 0
  }

  /** Scattering pixel (x, y) onto its block moves the scan position one pixel on. */
  lemma ScatterStep(before: seq<int>, after: seq<int>, m: seq<int>, w: nat, h: nat, x: int, y: int)
    requires |m| == w * h && InBounds(w, h, x, y) && |after| == w * h
    requires ScatteredTo(before, m, w, h, x, y)
    requires forall j :: 0 <= j < w * h ==>
      after[j] == if Px(m, w, h, x, y) != 0 && Near(x, y, j % w, j / w) then 1 else before[j]
    ensures ScatteredTo(after, m, w, h, x + 1, y)
  {
    forall j | 0 <= j < w * h
      ensures after[j] == if BlockSeen(m, w, h, j % w, j / w, x + 1, y) then 1 else 0
    {
      Decompose(w, h, j);
      BlockSeenStep(m, w, h, j % w, j / w, x, y);
    }
  }

  lemma BlockSeenNextRow(m: seq<int>, w: nat, h: nat, a: int, b: int, y: int)
    requires |m| == w * h
    ensures BlockSeen(m, w, h, a, b, w, y) == BlockSeen(m, w, h, a, b, 0, y + 1)
  {
  }

  /** A scan position past the end of row y is the start of row y + 1. */
  lemma ScatterNextRow(out: seq<int>, m: seq<int>, w: nat, h: nat, y: int)
    requires |m| == w * h && ScatteredTo(out, m, w, h, w, y)
    ensures ScatteredTo(out, m, w, h, 0, y + 1)
  {
    forall j | 0 <= j < w * h
      ensures out[j] == if BlockSeen(m, w, h, j % w, j / w, 0, y + 1) then 1 else 0
    {
      BlockSeenNextRow(m, w, h, j % w, j / w, y);
    }
  }

  /** One row of the `dilate` scan. */
  method DilateRow(img: array<int>, out: array<int>, w: nat, h: nat, y: int)
    requires img.Length == w * h && out.Length == w * h && img != out && 0 <= y < h
    requires ScatteredTo(out[..], img[..], w, h, 0, y)
    modifies out
    ensures ScatteredTo(out[..], img[..], w, h, 0, y + 1)
  {
    var x := 0;
    while x < w
      invariant 0 <= x <= w
      invariant ScatteredTo(out[..], img[..], w, h, x, y)
    {
      IdxRange(w, h, x, y);
      ghost var before := out[..];
      if img[y * w + x] != 0 {
        StampBlock(out, w, h, x, y);
      }
      ScatterStep(before, out[..], img[..], w, h, x, y);
      x := x + 1;
    }
    ScatterNextRow(out[..], img[..], w, h, y);
  }

  /** One dilation round as the code does it: clear `out`, then scatter each foreground pixel
      onto its 3x3 block. */
  method DilateRound(img: array<int>, out: array<int>, w: nat, h: nat)
    requires img.Length == w * h && out.Length == w * h && img != out
    modifies out
    ensures out[..] == DilateOnce(img[..], w, h)
  {
    forall i | 0 <= i < out.Length {
      out[i] := 0;
    }
    var y := 0;
    while y < h
      invariant 0 <= y <= h
      invariant ScatteredTo(out[..], img[..], w, h, 0, y)
    {
      DilateRow(img, out, w, h, y);
      y := y + 1;
    }
    assert out[..] == DilateOnce(img[..], w, h);
  }

  method Dilate(mask: array<int>, w: nat, h: nat, iterations: int) returns (img: array<int>)
    requires mask.Length == w * h
    ensures img[..] == DilateN(mask[..], w, h, iterations)
    ensures fresh(img)
    ensures iterations <= 0 ==> img[..] == mask[..]
  {
    img := CopyBuffer(mask);
    var out := new int[w * h](_ => 0);
    var it := 0;
    while it < iterations
      invariant 0 <= it && (iterations <= 0 ==> it == 0) && (iterations > 0 ==> it <= iterations)
      invariant fresh(img) && img != out && img.Length == w * h
      invariant img[..] == DilateN(mask[..], w, h, it)
    {
      DilateRound(img, out, w, h);
      img := CopyBuffer(out);
      it := it + 1;
    }
  }

  /** Rows y-1 .. y+oy-1 of the block around (x, y) are foreground. */
  predicate RowsFullBefore(m: seq<int>, w: nat, h: nat, x: int, y: int, oy: int)
    requires |m| == w * h
  {
    (oy > -1 ==> RowFull(m, w, h, x, y - 1)) && (oy > 0 ==> RowFull(m, w, h, x, y)) &&
    (oy > 1 ==> RowFull(m, w, h, x, y + 1))
  }

  /** Cells x-1 .. x+ox-1 of row y+oy are foreground. */
  predicate CellsFullBefore(m: seq<int>, w: nat, h: nat, x: int, y: int, ox: int, oy: int)
    requires |m| == w * h
  {
    (ox > -1 ==> Px(m, w, h, x - 1, y + oy) != 0) && (ox > 0 ==> Px(m, w, h, x, y + oy) != 0) &&
    (ox > 1 ==> Px(m, w, h, x + 1, y + oy) != 0)
  }

  /** The `ok` test of `erode` for the interior pixel (x, y); the inner loop stops at the first
      background pixel of a row. */
  method BlockIsFull(img: array<int>, w: nat, h: nat, x: int, y: int) returns (ok: int)
    requires img.Length == w * h && Interior(w, h, x, y)
    ensures ok == (if BlockFull(img[..], w, h, x, y) then 1 else 0)
  {
    ok := 1;
    var oy := -1;
    while oy <= 1
      invariant -1 <= oy <= 2 && (ok == 0 || ok == 1)
      invariant ok == 1 <==> RowsFullBefore(img[..], w, h, x, y, oy)
    {
      var ox := -1;
      while ox <= 1
        invariant -1 <= ox <= 2 && (ok == 0 || ok == 1)
        invariant ok == 1 <==> RowsFullBefore(img[..], w, h, x, y, oy) && CellsFullBefore(img[..], w, h, x, y, ox, oy)
      {
        IdxRange(w, h, x + ox, y + oy);
        if img[(y + oy) * w + (x + ox)] == 0 {
          ok := 0;
          break;
        }
        ox := ox + 1;
      }
      oy := oy + 1;
    }
  }

  /** The `out` buffer of `erode` once the scan has reached (x, y). */
  ghost predicate ErodedTo(out: seq<int>, m: seq<int>, w: nat, h: nat, x: int, y: int)
    requires |m| == w * h
  {
    |out| == w * h &&
    forall j :: 0 <= j < w * h ==>
      out[j] == if Interior(w, h, j % w, j / w) && Before(j % w, j / w, x, y) && BlockFull(m, w, h, j % w, j / w) then 1 else 0
  }

  /** Deciding the interior pixel (x, y) moves the erosion scan one pixel on: `after` is `before`
      with cell (x, y) set to 1 when `ok` is 1 and left alone otherwise. */
  lemma ErodeStep(before: seq<int>, after: seq<int>, m: seq<int>, w: nat, h: nat, x: int, y: int, ok: int)
    requires |m| == w * h && Interior(w, h, x, y) && ErodedTo(before, m, w, h, x, y)
    requires 0 <= Idx(w, x, y) < w * h
    requires ok == (if BlockFull(m, w, h, x, y) then 1 else 0)
    requires after == if ok == 1 then before[Idx(w, x, y) := 1] else before
    ensures ErodedTo(after, m, w, h, x + 1, y)
  {
    IdxCoords(w, x, y);
    forall j | 0 <= j < w * h
      ensures after[j] == if Interior(w, h, j % w, j / w) && Before(j % w, j / w, x + 1, y) && BlockFull(m, w, h, j % w, j / w) then 1 else 0
    {
      Decompose(w, h, j);
      IdxInjective(w, j % w, j / w, x, y);
    }
  }

  /** The erosion scan skips the last column of row y and the first column of row y + 1. */
  lemma ErodeNextRow(out: seq<int>, m: seq<int>, w: nat, h: nat, y: int)
    requires |m| == w * h && ErodedTo(out, m, w, h, w - 1, y)
    ensures ErodedTo(out, m, w, h, 1, y + 1)
  {
  }

  /** One interior row of the `erode` scan. */
  method ErodeRow(img: array<int>, out: array<int>, w: nat, h: nat, y: int)
    requires img.Length == w * h && out.Length == w * h && img != out && 1 <= y < h - 1
    requires ErodedTo(out[..], img[..], w, h, 1, y)
    modifies out
    ensures ErodedTo(out[..], img[..], w, h, 1, y + 1)
  {
    ghost var cur := img[..];
    var x := 1;
    while x < w - 1
      invariant 1 <= x && (w >= 2 ==> x <= w - 1)
      invariant ErodedTo(out[..], cur, w, h, x, y)
    {
      var ok := BlockIsFull(img, w, h, x, y);
      IdxRange(w, h, x, y);
      ghost var before := out[..];
      if ok == 1 {
        out[y * w + x] := 1;
      }
      ErodeStep(before, out[..], cur, w, h, x, y, ok);
      x := x + 1;
    }
    ErodeNextRow(out[..], cur, w, h, y);
  }

  /** One erosion round: clear `out`, then set each interior pixel whose block is full. */
  method ErodeRound(img: array<int>, out: array<int>, w: nat, h: nat)
    requires img.Length == w * h && out.Length == w * h && img != out
    modifies out
    ensures out[..] == ErodeOnce(img[..], w, h)
  {
    forall i | 0 <= i < out.Length {
      out[i] := 0;
    }
    var y := 1;
    while y < h - 1
      invariant 1 <= y && (h >= 2 ==> y <= h - 1)
      invariant ErodedTo(out[..], img[..], w, h, 1, y)
    {
      ErodeRow(img, out, w, h, y);
      y := y + 1;
    }
    assert out[..] == ErodeOnce(img[..], w, h);
  }

  method Erode(mask: array<int>, w: nat, h: nat, iterations: int) returns (img: array<int>)
    requires mask.Length == w * h
    ensures img[..] == ErodeN(mask[..], w, h, iterations)
    ensures fresh(img)
    ensures iterations <= 0 ==> img[..] == mask[..]
  {
    img := CopyBuffer(mask);
    var out := new int[w * h](_ => 0);
    var it := 0;
    while it < iterations
      invariant 0 <= it && (iterations <= 0 ==> it == 0) && (iterations > 0 ==> it <= iterations)
      invariant fresh(img) && img != out && img.Length == w * h
      invariant img[..] == ErodeN(mask[..], w, h, it)
    {
      ErodeRound(img, out, w, h);
      img := CopyBuffer(out);
      it := it + 1;
    }
  }

  /** `closeMask`: `iter` rounds of dilation followed by `iter` rounds of erosion. */
  method CloseMask(mask: array<int>, w: nat, h: nat, iter: int) returns (r: array<int>)
    requires mask.Length == w * h
    ensures r[..] == ErodeN(DilateN(mask[..], w, h, iter), w, h, iter)
    ensures fresh(r)
  {
    var d := Dilate(mask, w, h, iter);
    r := Erode(d, w, h, iter);
  }

  /** The pixel (x, y) of a dilated mask is set when some pixel of its block was foreground. */
  lemma DilateOnceAt(m: seq<int>, w: nat, h: nat, x: int, y: int, a: int, b: int)
    requires |m| == w * h && InBounds(w, h, x, y) && InBounds(w, h, a, b) && Near(x, y, a, b)
    requires Px(m, w, h, a, b) != 0
    ensures Px(DilateOnce(m, w, h), w, h, x, y) == 1
  {
    IdxRange(w, h, x, y);
    IdxCoords(w, x, y);
    assert SeenFg(m, w, h, a, b, 0, h);
  }

  /** A set pixel of an eroded mask had its whole block foreground, and it is interior; and an
      interior pixel with a full block is set. */
  lemma ErodeOnceAt(m: seq<int>, w: nat, h: nat, x: int, y: int)
    requires |m| == w * h && InBounds(w, h, x, y)
    ensures Px(ErodeOnce(m, w, h), w, h, x, y) == 1 <==> Interior(w, h, x, y) && BlockFull(m, w, h, x, y)
  {
    IdxRange(w, h, x, y);
    IdxCoords(w, x, y);
  }

  /** Dilation never clears a foreground pixel. */
  lemma DilateOnceGrows(m: seq<int>, w: nat, h: nat)
    requires |m| == w * h
    ensures Within(m, DilateOnce(m, w, h))
  {
    forall i | 0 <= i < w * h && m[i] != 0
      ensures DilateOnce(m, w, h)[i] != 0
    {
      Decompose(w, h, i);
      DilateOnceAt(m, w, h, i % w, i / w, i % w, i / w);
    }
  }

  lemma {:induction false} DilateNGrows(m: seq<int>, w: nat, h: nat, n: int)
    requires |m| == w * h
    ensures Within(m, DilateN(m, w, h, n))
    decreases n
  {
    if n > 0 {
      DilateNGrows(m, w, h, n - 1);
      DilateOnceGrows(DilateN(m, w, h, n - 1), w, h);
      WithinTrans(m, DilateN(m, w, h, n - 1), DilateN(m, w, h, n));
    }
  }

  /** Erosion never sets a background pixel. */
  lemma ErodeOnceShrinks(m: seq<int>, w: nat, h: nat)
    requires |m| == w * h
    ensures Within(ErodeOnce(m, w, h), m)
  {
    forall i | 0 <= i < w * h && ErodeOnce(m, w, h)[i] != 0
      ensures m[i] != 0
    {
      Decompose(w, h, i);
      ErodeOnceAt(m, w, h, i % w, i / w);
    }
  }

  lemma {:induction false} ErodeNShrinks(m: seq<int>, w: nat, h: nat, n: int)
    requires |m| == w * h
    ensures Within(ErodeN(m, w, h, n), m)
    decreases n
  {
    if n > 0 {
      ErodeNShrinks(m, w, h, n - 1);
      ErodeOnceShrinks(ErodeN(m, w, h, n - 1), w, h);
      WithinTrans(ErodeN(m, w, h, n), ErodeN(m, w, h, n - 1), m);
    }
  }

  /** After at least one erosion round the first and last rows and columns are background. */
  lemma ErodeNBorder(m: seq<int>, w: nat, h: nat, n: int, x: int, y: int)
    requires |m| == w * h && n >= 1 && InBounds(w, h, x, y) && !Interior(w, h, x, y)
    ensures Px(ErodeN(m, w, h, n), w, h, x, y) == 0
  {
    var prev := ErodeN(m, w, h, n - 1);
    assert ErodeN(m, w, h, n) == ErodeOnce(prev, w, h);
    ErodeOnceAt(prev, w, h, x, y);
    IdxRange(w, h, x, y);
  }

  /** Both operations keep a 0/1 mask a 0/1 mask, for any number of rounds. */
  lemma MaskPreserved(m: seq<int>, w: nat, h: nat, n: int)
    requires IsMask(m, w, h)
    ensures IsMask(DilateN(m, w, h, n), w, h) && IsMask(ErodeN(m, w, h, n), w, h)
  {
  }

  lemma {:induction false} DilateNAllZero(m: seq<int>, w: nat, h: nat, n: int)
    requires |m| == w * h && AllZero(m)
    ensures AllZero(DilateN(m, w, h, n))
    decreases n
  {
    if n > 0 {
      DilateNAllZero(m, w, h, n - 1);
      PxAllZero(DilateN(m, w, h, n - 1), w, h);
    }
  }

  lemma {:induction false} ErodeNAllZero(m: seq<int>, w: nat, h: nat, n: int)
    requires |m| == w * h && AllZero(m)
    ensures AllZero(ErodeN(m, w, h, n))
    decreases n
  {
    if n > 0 {
      ErodeNAllZero(m, w, h, n - 1);
      ErodeNShrinks(m, w, h, n);
    }
  }

  /** Closing an empty mask leaves it empty. */
  lemma CloseAllZero(m: seq<int>, w: nat, h: nat, n: int)
    requires |m| == w * h && AllZero(m)
    ensures AllZero(ErodeN(DilateN(m, w, h, n), w, h, n))
  {
    DilateNAllZero(m, w, h, n);
    ErodeNAllZero(DilateN(m, w, h, n), w, h, n);
  }

  /** (a, b) is within Chebyshev distance k of (x, y). */
  predicate Ball(x: int, y: int, k: int, a: int, b: int) {
    -k <= a - x <= k && -k <= b - y <= k
  }

  /** n dilation rounds set every in-bounds pixel within distance n of a foreground pixel. */
  lemma {:induction false} DilateNBall(m: seq<int>, w: nat, h: nat, n: int, x: int, y: int)
    requires |m| == w * h && InBounds(w, h, x, y) && Px(m, w, h, x, y) != 0 && n >= 0
    ensures forall a, b :: InBounds(w, h, a, b) && Ball(x, y, n, a, b) ==> Px(DilateN(m, w, h, n), w, h, a, b) != 0
    decreases n
  {
    if n > 0 {
      DilateNBall(m, w, h, n - 1, x, y);
      forall a, b | InBounds(w, h, a, b) && Ball(x, y, n, a, b)
        ensures Px(DilateN(m, w, h, n), w, h, a, b) != 0
      {
        var a' := if a > x then a - 1 else if a < x then a + 1 else a;
        var b' := if b > y then b - 1 else if b < y then b + 1 else b;
        DilateOnceAt(DilateN(m, w, h, n - 1), w, h, a, b, a', b');
      }
    }
  }

  /** If the ball of radius k around (x, y) lies inside the image and is foreground, then after j
      erosion rounds the ball of radius k - j still is. */
  lemma {:induction false} ErodeNBall(m: seq<int>, w: nat, h: nat, k: int, j: int, x: int, y: int)
    requires |m| == w * h && 0 <= j <= k
    requires k <= x < w - k && k <= y < h - k
    requires forall a, b :: Ball(x, y, k, a, b) ==> Px(m, w, h, a, b) != 0
    ensures forall a, b :: Ball(x, y, k - j, a, b) ==> Px(ErodeN(m, w, h, j), w, h, a, b) != 0
    decreases j
  {
    if j > 0 {
      ErodeNBall(m, w, h, k, j - 1, x, y);
      forall a, b | Ball(x, y, k - j, a, b)
        ensures Px(ErodeN(m, w, h, j), w, h, a, b) != 0
      {
        var prev := ErodeN(m, w, h, j - 1);
        assert BlockFull(prev, w, h, a, b) by {
          assert Ball(x, y, k - j + 1, a - 1, b - 1) && Ball(x, y, k - j + 1, a, b - 1) && Ball(x, y, k - j + 1, a + 1, b - 1);
          assert Ball(x, y, k - j + 1, a - 1, b) && Ball(x, y, k - j + 1, a, b) && Ball(x, y, k - j + 1, a + 1, b);
          assert Ball(x, y, k - j + 1, a - 1, b + 1) && Ball(x, y, k - j + 1, a, b + 1) && Ball(x, y, k - j + 1, a + 1, b + 1);
        }
        ErodeOnceAt(prev, w, h, a, b);
      }
    }
  }

  /** Closing keeps every foreground pixel that lies at least `n` pixels away from the image
      border: the dilation covers its whole n-ball, which n erosion rounds shrink back to it. */
  lemma CloseKeepsInner(m: seq<int>, w: nat, h: nat, n: int, x: int, y: int)
    requires |m| == w * h && n >= 0 && n <= x < w - n && n <= y < h - n
    requires Px(m, w, h, x, y) != 0
    ensures Px(ErodeN(DilateN(m, w, h, n), w, h, n), w, h, x, y) != 0
  {
    DilateNBall(m, w, h, n, x, y);
    ErodeNBall(DilateN(m, w, h, n), w, h, n, n, x, y);
    assert Ball(x, y, 0, x, y);
  }
}

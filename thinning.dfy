/** Zhang-Suen thinning (`zhangSuenThinning`): two sub-iterations per round, each deleting in
    parallel the interior foreground pixels whose 8-neighbourhood passes the Zhang-Suen tests,
    repeated until a round deletes nothing. */
module Thinning {
  import opened Grid

  /** The eight neighbours of (x, y) in the order the code reads them:
      N, NE, E, SE, S, SW, W, NW (indices 0 to 7). */
  function Ring(m: seq<int>, w: nat, h: nat, x: int, y: int): (n: seq<int>)
    requires |m| == w * h
    ensures |n| == 8
  {
    [Px(m, w, h, x, y - 1), Px(m, w, h, x + 1, y - 1), Px(m, w, h, x + 1, y), Px(m, w, h, x + 1, y + 1),
     Px(m, w, h, x, y + 1), Px(m, w, h, x - 1, y + 1), Px(m, w, h, x - 1, y), Px(m, w, h, x - 1, y - 1)]
  }

  /** Whether the ring has a 0 at position i followed (cyclically) by a 1. */
  function Rise(n: seq<int>, i: int): int
    requires |n| == 8 && 0 <= i < 8
  {
    if n[i] == 0 && n[(i + 1) % 8] == 1 then 1 else 0
  }

  /** The `transitions` reduction over positions i .. 7. */
  function RisesFrom(n: seq<int>, i: int): int
    requires |n| == 8 && 0 <= i <= 8
    decreases 8 - i
  {
    if i == 8 then 0 else Rise(n, i) + RisesFrom(n, i + 1)
  }

  /** Number of 0-to-1 patterns going once round the ring. */
  function Transitions(n: seq<int>): int
    requires |n| == 8
  {
    RisesFrom(n, 0)
  }

  /** The `count` reduction: the sum of the values from position i on. */
  function SumFrom(n: seq<int>, i: nat): int
    requires i <= |n|
    decreases |n| - i
  {
    if i == |n| then 0 else n[i] + SumFrom(n, i + 1)
  }

  /** The test of the first (`first`) or second sub-iteration for pixel (x, y). */
  predicate Marked(m: seq<int>, w: nat, h: nat, x: int, y: int, first: bool)
    requires |m| == w * h
  {
    var n := Ring(m, w, h, x, y);
    Interior(w, h, x, y) && Px(m, w, h, x, y) != 0 &&
    2 <= SumFrom(n, 0) <= 6 && Transitions(n) == 1 &&
    if first then n[0] * n[2] * n[4] == 0 && n[2] * n[4] * n[6] == 0
    else n[0] * n[2] * n[6] == 0 && n[0] * n[4] * n[6] == 0
  }

  /** Cells flagged in c cleared from m: only foreground is lost, the pixel count cannot rise,
      and nothing changes exactly when no flagged cell was foreground. */
  function Cleared(m: seq<int>, c: seq<int>): (r: seq<int>)
    requires |c| == |m|
    ensures Within(r, m) && Count(r) <= Count(m)
    ensures r == m <==> forall i :: 0 <= i < |m| && c[i] != 0 ==> m[i] == 0
  {
    var r := seq(|m|, i requires 0 <= i < |m| => if c[i] != 0 then 0 else m[i]);
    CountWithin(r, m);
    assert (forall i :: 0 <= i < |m| && c[i] != 0 ==> m[i] == 0) ==> r == m;
    r
  }

  /** The flags a sub-iteration's scan puts in `changed`. */
  function Marks(m: seq<int>, w: nat, h: nat, first: bool): (c: seq<int>)
    requires |m| == w * h
    ensures |c| == w * h
  {
    seq(w * h, i requires 0 <= i < w * h => if Marked(m, w, h, i % w, i / w, first) then 1 else 0)
  }

  /** One sub-iteration: every marked pixel is deleted at once. */
  function ThinStep(m: seq<int>, w: nat, h: nat, first: bool): (r: seq<int>)
    requires |m| == w * h
    ensures |r| == w * h
  {
    Cleared(m, Marks(m, w, h, first))
  }

  /** One pass of the `while (any)` loop: step 1, then step 2 on its result. */
  function Round(m: seq<int>, w: nat, h: nat): (r: seq<int>)
    requires |m| == w * h
    ensures |r| == w * h
  {
    ThinStep(ThinStep(m, w, h, true), w, h, false)
  }

  /** A sub-iteration only deletes foreground pixels, and it deletes exactly the marked ones. */
  lemma ThinStepWithin(m: seq<int>, w: nat, h: nat, first: bool)
    requires IsMask(m, w, h)
    ensures IsMask(ThinStep(m, w, h, first), w, h) && Within(ThinStep(m, w, h, first), m)
    ensures forall i :: 0 <= i < w * h ==>
      (ThinStep(m, w, h, first)[i] != m[i] <==> Marked(m, w, h, i % w, i / w, first))
  {
    forall i | 0 <= i < w * h && Marked(m, w, h, i % w, i / w, first)
      ensures m[i] == 1
    {
      Decompose(w, h, i);
    }
  }

  /** A round keeps a 0/1 mask, only deletes, and strictly lowers the pixel count when it
      changes anything. */
  lemma RoundShrinks(m: seq<int>, w: nat, h: nat)
    requires IsMask(m, w, h)
    ensures IsMask(Round(m, w, h), w, h) && Within(Round(m, w, h), m)
    ensures Round(m, w, h) != m ==> Count(Round(m, w, h)) < Count(m)
  {
    var s1 := ThinStep(m, w, h, true);
    ThinStepWithin(m, w, h, true);
    ThinStepWithin(s1, w, h, false);
    WithinTrans(Round(m, w, h), s1, m);
    CountWithin(Round(m, w, h), m);
  }

  /** The skeleton: rounds are applied until one changes nothing. The result is a 0/1 mask
      inside the input on which a further round deletes nothing. */
  function Thin(m: seq<int>, w: nat, h: nat): (r: seq<int>)
    requires IsMask(m, w, h)
    ensures IsMask(r, w, h) && Within(r, m) && Round(r, w, h) == r
    decreases Count(m)
  {
    var n := Round(m, w, h);
    if n == m then m
    else
      RoundShrinks(m, w, h);
      var r := Thin(n, w, h);
      WithinTrans(r, n, m);
      r
  }

  /** At a fixed point of a round neither sub-iteration deletes a pixel: no pixel of the
      skeleton passes the test of step 1 or of step 2. */
  lemma RoundFixed(m: seq<int>, w: nat, h: nat)
    requires IsMask(m, w, h) && Round(m, w, h) == m
    ensures ThinStep(m, w, h, true) == m && ThinStep(m, w, h, false) == m
  {
    var s1 := ThinStep(m, w, h, true);
    ThinStepWithin(m, w, h, true);
    ThinStepWithin(s1, w, h, false);
    CountWithin(s1, m);
    CountWithin(Round(m, w, h), s1);
  }

  /** No pixel of the skeleton passes the deletion test of either sub-iteration. */
  lemma ThinStable(m: seq<int>, w: nat, h: nat, x: int, y: int, first: bool)
    requires IsMask(m, w, h)
    ensures !Marked(Thin(m, w, h), w, h, x, y, first)
  {
    var r := Thin(m, w, h);
    RoundFixed(r, w, h);
    if Interior(w, h, x, y) {
      IdxRange(w, h, x, y);
      IdxCoords(w, x, y);
      ThinStepWithin(r, w, h, first);
      assert ThinStep(r, w, h, first)[Idx(w, x, y)] == r[Idx(w, x, y)];
    }
  }

  /** Pixels on the first and last rows and columns are never deleted. */
  lemma {:induction false} ThinBorder(m: seq<int>, w: nat, h: nat, x: int, y: int)
    requires IsMask(m, w, h) && InBounds(w, h, x, y) && !Interior(w, h, x, y)
    ensures Px(Thin(m, w, h), w, h, x, y) == Px(m, w, h, x, y)
    decreases Count(m)
  {
    var n := Round(m, w, h);
    if n != m {
      RoundShrinks(m, w, h);
      ThinBorder(n, w, h, x, y);
      IdxRange(w, h, x, y);
      IdxCoords(w, x, y);
      var s1 := ThinStep(m, w, h, true);
      ThinStepWithin(m, w, h, true);
      ThinStepWithin(s1, w, h, false);
    }
  }

  /** Thinning an empty mask leaves it empty. */
  lemma ThinAllZero(m: seq<int>, w: nat, h: nat)
    requires IsMask(m, w, h) && AllZero(m)
    ensures Thin(m, w, h) == m
  {
    var r := Thin(m, w, h);
    assert Within(r, m);
    assert r == m;
  }

  /** The `changed` buffer once the scan of a sub-iteration has reached (x, y). */
  ghost predicate MarkedTo(c: seq<int>, m: seq<int>, w: nat, h: nat, x: int, y: int, first: bool)
    requires |m| == w * h
  {
    |c| == w * h &&
    forall j :: 0 <= j < w * h ==>
      c[j] == if Before(j % w, j / w, x, y) && Marked(m, w, h, j % w, j / w, first) then 1 else 0
  }

  /** Testing pixel (x, y) moves the scan one pixel on. */
  lemma MarkStep(before: seq<int>, after: seq<int>, m: seq<int>, w: nat, h: nat, x: int, y: int,
                 first: bool, v: int)
    requires |m| == w * h && InBounds(w, h, x, y) && MarkedTo(before, m, w, h, x, y, first)
    requires 0 <= Idx(w, x, y) < w * h
    requires v == (if Marked(m, w, h, x, y, first) then 1 else 0)
    requires after == if v == 1 then before[Idx(w, x, y) := 1] else before
    ensures MarkedTo(after, m, w, h, x + 1, y, first)
  {
    IdxCoords(w, x, y);
    forall j | 0 <= j < w * h
      ensures after[j] == if Before(j % w, j / w, x + 1, y) && Marked(m, w, h, j % w, j / w, first) then 1 else 0
    {
      Decompose(w, h, j);
      IdxInjective(w, j % w, j / w, x, y);
    }
  }

  /** The last interior column of a row and the first of the next are never marked. */
  lemma MarkNextRow(c: seq<int>, m: seq<int>, w: nat, h: nat, y: int, first: bool)
    requires |m| == w * h && MarkedTo(c, m, w, h, w - 1, y, first)
    ensures MarkedTo(c, m, w, h, 1, y + 1, first)
  {
  }

  /** The neighbour reads of the code, `img[idx(x + dx, y + dy)]`, for an interior pixel. */
  method Neighbors(img: array<int>, w: nat, h: nat, x: int, y: int) returns (n: seq<int>)
    requires img.Length == w * h && Interior(w, h, x, y)
    ensures n == Ring(img[..], w, h, x, y)
  {
    IdxRange(w, h, x, y - 1);
    IdxRange(w, h, x + 1, y - 1);
    IdxRange(w, h, x + 1, y);
    IdxRange(w, h, x + 1, y + 1);
    IdxRange(w, h, x, y + 1);
    IdxRange(w, h, x - 1, y + 1);
    IdxRange(w, h, x - 1, y);
    IdxRange(w, h, x - 1, y - 1);
    n := [img[(y - 1) * w + x], img[(y - 1) * w + x + 1], img[y * w + x + 1], img[(y + 1) * w + x + 1],
          img[(y + 1) * w + x], img[(y + 1) * w + x - 1], img[y * w + x - 1], img[(y - 1) * w + x - 1]];
  }

  /** The `transitions` reduction. */
  method CountTransitions(n: seq<int>) returns (t: int)
    requires |n| == 8
    ensures t == Transitions(n)
  {
    t := 0;
    var i := 8;
    while i > 0
      invariant 0 <= i <= 8 && t == RisesFrom(n, i)
    {
      i := i - 1;
      t := t + (if n[i] == 0 && n[(i + 1) % 8] == 1 then 1 else 0);
    }
  }

  /** The `count` reduction. */
  method SumRing(n: seq<int>) returns (s: int)
    ensures s == SumFrom(n, 0)
  {
    s := 0;
    var i := |n|;
    while i > 0
      invariant 0 <= i <= |n| && s == SumFrom(n, i)
    {
      i := i - 1;
      s := s + n[i];
    }
  }

  /** One interior row of a sub-iteration's scan. */
  method MarkRow(img: array<int>, changed: array<int>, w: nat, h: nat, y: int, first: bool)
    requires img.Length == w * h && changed.Length == w * h && img != changed && 1 <= y < h - 1
    requires MarkedTo(changed[..], img[..], w, h, 1, y, first)
    modifies changed
    ensures MarkedTo(changed[..], img[..], w, h, 1, y + 1, first)
  {
    ghost var cur := img[..];
    var x := 1;
    while x < w - 1
      invariant 1 <= x && (w >= 2 ==> x <= w - 1)
      invariant MarkedTo(changed[..], cur, w, h, x, y, first)
    {
      IdxRange(w, h, x, y);
      ghost var before := changed[..];
      var v := 0;
      var p := img[y * w + x];
      if p != 0 {
        var n := Neighbors(img, w, h, x, y);
        var transitions := CountTransitions(n);
        var count := SumRing(n);
        if count >= 2 && count <= 6 && transitions == 1 {
          if (first && n[0] * n[2] * n[4] == 0 && n[2] * n[4] * n[6] == 0) ||
             (!first && n[0] * n[2] * n[6] == 0 && n[0] * n[4] * n[6] == 0) {
            v := 1;
            changed[y * w + x] := 1;
          }
        }
      }
      MarkStep(before, changed[..], cur, w, h, x, y, first, v);
      x := x + 1;
    }
    MarkNextRow(changed[..], cur, w, h, y, first);
  }

  /** The clean-up loop after each scan: clear flagged pixels, reset the flags, and report
      whether any flag was set. */
  method ApplyChanges(img: array<int>, changed: array<int>) returns (removed: bool)
    requires img.Length == changed.Length && img != changed
    modifies img, changed
    ensures img[..] == Cleared(old(img[..]), old(changed[..]))
    ensures AllZero(changed[..])
    ensures removed <==> exists k :: 0 <= k < changed.Length && old(changed[k]) != 0
  {
    removed := false;
    var i := 0;
    while i < img.Length
      invariant 0 <= i <= img.Length
      invariant forall k :: 0 <= k < i ==> img[k] == (if old(changed[k]) != 0 then 0 else old(img[k])) && changed[k] == 0
      invariant forall k :: i <= k < img.Length ==> img[k] == old(img[k]) && changed[k] == old(changed[k])
      invariant removed <==> exists k :: 0 <= k < i && old(changed[k]) != 0
    {
      if changed[i] != 0 {
        img[i] := 0;
        removed := true;
        changed[i] := 0;
      }
      i := i + 1;
    }
    assert img[..] == Cleared(old(img[..]), old(changed[..]));
  }

  /** One sub-iteration: scan, then apply. `removed` tells whether it deleted anything. */
  method SubIteration(img: array<int>, changed: array<int>, w: nat, h: nat, first: bool) returns (removed: bool)
    requires img.Length == w * h && changed.Length == w * h && img != changed
    requires IsMask(img[..], w, h) && AllZero(changed[..])
    modifies img, changed
    ensures img[..] == ThinStep(old(img[..]), w, h, first) && AllZero(changed[..])
    ensures removed <==> img[..] != old(img[..])
  {
    ghost var m := img[..];
    var y := 1;
    while y < h - 1
      invariant 1 <= y && (h >= 2 ==> y <= h - 1)
      invariant img[..] == m
      invariant MarkedTo(changed[..], m, w, h, 1, y, first)
    {
      MarkRow(img, changed, w, h, y, first);
      y := y + 1;
    }
    assert changed[..] == Marks(m, w, h, first);
    ghost var marks := changed[..];
    removed := ApplyChanges(img, changed);
    ThinStepWithin(m, w, h, first);
    if removed {
      ghost var k :| 0 <= k < w * h && marks[k] != 0;
      assert img[k] != m[k];
    }
  }

  /** `zhangSuenThinning`: the skeleton of a 0/1 mask, in a new buffer. */
  method ZhangSuenThinning(src: array<int>, w: nat, h: nat) returns (img: array<int>)
    requires IsMask(src[..], w, h)
    ensures img[..] == Thin(src[..], w, h)
    ensures fresh(img)
  {
    img := CopyBuffer(src);
    var changed := new int[w * h](_ => 0);
    var any := true;
    while any
      invariant fresh(img) && fresh(changed) && img != changed
      invariant img.Length == w * h && changed.Length == w * h && AllZero(changed[..])
      invariant IsMask(img[..], w, h) && Thin(img[..], w, h) == Thin(src[..], w, h)
      invariant !any ==> Round(img[..], w, h) == img[..]
      decreases if any then Count(img[..]) + 1 else 0
    {
      ghost var prev := img[..];
      RoundShrinks(prev, w, h);
      ThinStepWithin(prev, w, h, true);
      var any1 := SubIteration(img, changed, w, h, true);
      var any2 := SubIteration(img, changed, w, h, false);
      any := any1 || any2;
      assert img[..] == Round(prev, w, h);
    }
  }
}

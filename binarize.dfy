/** Thresholding canvas RGBA samples into a 0/1 mask (`toBinaryMask`). */
module Binarize {
  import opened Grid

  /** The red, green and blue samples of pixel i (at offsets 4i, 4i+1, 4i+2) have a mean of at
      least `threshold`. The mean is compared as a sum against three times the threshold. */
  predicate Bright(data: seq<int>, i: int, threshold: int)
    requires 0 <= i && 4 * i + 2 < |data|
  {
    data[4 * i] + data[4 * i + 1] + data[4 * i + 2] >= 3 * threshold
  }

  /** The mask `toBinaryMask` produces: cell i is 1 exactly when pixel i is bright. */
  function BinaryMask(data: seq<int>, w: nat, h: nat, threshold: int): seq<int>
    requires |data| == 4 * (w * h)
  {
    seq(w * h, i requires 0 <= i < w * h => if Bright(data, i, threshold) then 1 else 0)
  }

  /** Samples as a canvas delivers them: bytes 0..255. */
  predicate IsRgba(data: seq<int>, w: nat, h: nat) {
    |data| == 4 * (w * h) && forall i :: 0 <= i < |data| ==> 0 <= data[i] <= 255
  }

  method ToBinaryMask(data: array<int>, w: nat, h: nat, threshold: int) returns (mask: array<int>)
    requires data.Length == 4 * (w * h)
    ensures mask[..] == BinaryMask(data[..], w, h, threshold)
    ensures fresh(mask)
  {
    mask := new int[w * h](_ => 0);
    ghost var spec := BinaryMask(data[..], w, h, threshold);
    var y := 0;
    while y < h
      invariant 0 <= y <= h && mask.Length == w * h
      invariant forall i :: 0 <= i < Idx(w, 0, y) ==> mask[i] == spec[i]
    {
      RowSpan(w, h, y);
      var x := 0;
      while x < w
        invariant 0 <= x <= w
        invariant forall i :: 0 <= i < Idx(w, x, y) ==> mask[i] == spec[i]
      {
        IdxRange(w, h, x, y);
        var k := y * w + x;
        var i := k * 4;
        var r, g, b := data[i], data[i + 1], data[i + 2];
        mask[k] := if r + g + b >= 3 * threshold then 1 else 0;
        assert mask[k] == spec[k];
        x := x + 1;
      }
      IdxNextRow(w, y);
      y := y + 1;
    }
    assert Idx(w, 0, h) == w * h;
    assert mask[..] == spec;
  }

  /** w*h cells, each 0 or 1; cell (x, y) is 1 exactly when the quadruple at 4*(y*w+x) is bright. */
  lemma BinaryMaskCells(data: seq<int>, w: nat, h: nat, threshold: int, x: int, y: int)
    requires |data| == 4 * (w * h) && InBounds(w, h, x, y)
    ensures IsMask(BinaryMask(data, w, h, threshold), w, h)
    ensures 0 <= Idx(w, x, y) < w * h
    ensures var i := 4 * Idx(w, x, y);
            BinaryMask(data, w, h, threshold)[Idx(w, x, y)] == 1 <==>
            data[i] + data[i + 1] + data[i + 2] >= 3 * threshold
  {
    IdxRange(w, h, x, y);
  }

  /** The alpha sample (offset 4i+3) is never read: data differing only in alpha give the same mask. */
  lemma AlphaIgnored(d1: seq<int>, d2: seq<int>, w: nat, h: nat, threshold: int)
    requires |d1| == |d2| == 4 * (w * h)
    requires forall j :: 0 <= j < |d1| && j % 4 != 3 ==> d1[j] == d2[j]
    ensures BinaryMask(d1, w, h, threshold) == BinaryMask(d2, w, h, threshold)
  {
    forall i | 0 <= i < w * h
      ensures Bright(d1, i, threshold) == Bright(d2, i, threshold)
    {
      assert (4 * i) % 4 == 0 && (4 * i + 1) % 4 == 1 && (4 * i + 2) % 4 == 2;
    }
  }

  /** A threshold of 0 or below makes every pixel foreground. */
  lemma LowThresholdAllOnes(data: seq<int>, w: nat, h: nat, threshold: int)
    requires IsRgba(data, w, h) && threshold <= 0
    ensures forall i :: 0 <= i < w * h ==> BinaryMask(data, w, h, threshold)[i] == 1
  {
  }

  /** A threshold above 255 makes every pixel background. */
  lemma HighThresholdAllZeros(data: seq<int>, w: nat, h: nat, threshold: int)
    requires IsRgba(data, w, h) && threshold > 255
    ensures AllZero(BinaryMask(data, w, h, threshold))
  {
  }
}

/** Spur pruning (`pruneEndpoints`): each round deletes, all at once, the interior foreground
    pixels with at most one foreground 8-neighbour; the rounds stop early once none is left. */
module Prune {
  import opened Grid

  /** Neighbour (x + ox, y + oy) counted by the inner loops; the centre offset is skipped. */
  function Nb(m: seq<int>, w: nat, h: nat, x: int, y: int, ox: int, oy: int): int
    requires |m| == w * h
  {
    if ox == 0 && oy == 0 then 0 else if Px(m, w, h, x + ox, y + oy) != 0 then 1 else 0
  }

  /** Count of row offset oy over the column offsets -1 .. upto - 1. */
  function RowNb(m: seq<int>, w: nat, h: nat, x: int, y: int, oy: int, upto: int): int
    requires |m| == w * h
  {
    (if upto > -1 then Nb(m, w, h, x, y, -1, oy) else 0) +
    (if upto > 0 then Nb(m, w, h, x, y, 0, oy) else 0) +
    (if upto > 1 then Nb(m, w, h, x, y, 1, oy) else 0)
  }

  /** Count over the full row offsets -1 .. upto - 1. */
  function RowsNb(m: seq<int>, w: nat, h: nat, x: int, y: int, upto: int): int
    requires |m| == w * h
  {
    (if upto > -1 then RowNb(m, w, h, x, y, -1, 2) else 0) +
    (if upto > 0 then RowNb(m, w, h, x, y, 0, 2) else 0) +
    (if upto > 1 then RowNb(m, w, h, x, y, 1, 2) else 0)
  }

  /** Number of foreground pixels among the 8 neighbours of (x, y). */
  function NbCount(m: seq<int>, w: nat, h: nat, x: int, y: int): (n: int)
    requires |m| == w * h
    ensures 0 <= n <= 8
  {
    RowsNb(m, w, h, x, y, 2)
  }

  /** An interior foreground pixel with at most one foreground neighbour: an end of a spur, or an
      isolated pixel. */
  predicate Endpoint(m: seq<int>, w: nat, h: nat, x: int, y: int)
    requires |m| == w * h
  {
    Interior(w, h, x, y) && Px(m, w, h, x, y) != 0 && NbCount(m, w, h, x, y) <= 1
  }

  /** One pruning round: every endpoint deleted at once. */
  function PruneOnce(m: seq<int>, w: nat, h: nat): (r: seq<int>)
    requires |m| == w * h
    ensures |r| == w * h
  {
    seq(w * h, i requires 0 <= i < w * h => if Endpoint(m, w, h, i % w, i / w) then 0 else m[i])
  }

  function PruneN(m: seq<int>, w: nat, h: nat, n: int): (r: seq<int>)
    requires |m| == w * h
    ensures |r| == w * h
    decreases n
  {
    if n <= 0 then m else PruneOnce(PruneN(m, w, h, n - 1), w, h)
  }

  /** The 8-neighbour count of the code for pixel (x, y). */
  method CountNeighbours(img: array<int>, w: nat, h: nat, x: int, y: int) returns (n: int)
    requires img.Length == w * h
    ensures n == NbCount(img[..], w, h, x, y)
  {
    n := 0;
    var oy := -1;
    while oy <= 1
      invariant -1 <= oy <= 2 && n == RowsNb(img[..], w, h, x, y, oy)
    {
      var ox := -1;
      while ox <= 1
        invariant -1 <= ox <= 2 && n == RowsNb(img[..], w, h, x, y, oy) + RowNb(img[..], w, h, x, y, oy, ox)
      {
        if ox == 0 && oy == 0 {
          ox := ox + 1;
          continue;
        }
        var nx, ny := x + ox, y + oy;
        var v := 0;
        if nx >= 0 && nx < w && ny >= 0 && ny < h {
          IdxRange(w, h, nx, ny);
          v := img[ny * w + nx];
        }
        if v != 0 {
          n := n + 1;
        }
        ox := ox + 1;
      }
      oy := oy + 1;
    }
  }

  /** The `toRemove` list once the scan of a round has reached (x, y): it holds exactly the
      in-range indices of the endpoints scanned so far. */
  ghost predicate RemovedTo(rem: seq<int>, m: seq<int>, w: nat, h: nat, x: int, y: int)
    requires |m| == w * h
  {
    (forall j :: 0 <= j < |rem| ==> 0 <= rem[j] < w * h) &&
    forall k :: k in rem <==> 0 <= k < w * h && Before(k % w, k / w, x, y) && Endpoint(m, w, h, k % w, k / w)
  }

  lemma RemoveStep(before: seq<int>, after: seq<int>, m: seq<int>, w: nat, h: nat, x: int, y: int)
    requires |m| == w * h && InBounds(w, h, x, y) && RemovedTo(before, m, w, h, x, y)
    requires 0 <= Idx(w, x, y) < w * h
    requires after == if Endpoint(m, w, h, x, y) then before + [Idx(w, x, y)] else before
    ensures RemovedTo(after, m, w, h, x + 1, y)
  {
    IdxCoords(w, x, y);
    forall k
      ensures k in after <==> 0 <= k < w * h && Before(k % w, k / w, x + 1, y) && Endpoint(m, w, h, k % w, k / w)
    {
      if 0 <= k < w * h {
        Decompose(w, h, k);
        IdxInjective(w, k % w, k / w, x, y);
      }
    }
  }

  lemma RemoveNextRow(rem: seq<int>, m: seq<int>, w: nat, h: nat, y: int)
    requires |m| == w * h && RemovedTo(rem, m, w, h, w - 1, y)
    ensures RemovedTo(rem, m, w, h, 1, y + 1)
  {
  }

  /** The scan of one interior row, appending the row's endpoints to `toRemove`. */
  method CollectRow(img: array<int>, w: nat, h: nat, y: int, rem0: seq<int>) returns (rem: seq<int>)
    requires img.Length == w * h && 1 <= y < h - 1
    requires RemovedTo(rem0, img[..], w, h, 1, y)
    ensures RemovedTo(rem, img[..], w, h, 1, y + 1)
  {
    rem := rem0;
    var x := 1;
    while x < w - 1
      invariant 1 <= x && (w >= 2 ==> x <= w - 1)
      invariant RemovedTo(rem, img[..], w, h, x, y)
    {
      IdxRange(w, h, x, y);
      ghost var before := rem;
      if img[y * w + x] != 0 {
        var n := CountNeighbours(img, w, h, x, y);
        if n <= 1 {
          rem := rem + [y * w + x];
        }
      }
      RemoveStep(before, rem, img[..], w, h, x, y);
      x := x + 1;
    }
    RemoveNextRow(rem, img[..], w, h, y);
  }

  /** The scan of one round: the list of all endpoints of the current image. */
  method Collect(img: array<int>, w: nat, h: nat) returns (rem: seq<int>)
    requires img.Length == w * h
    ensures forall j :: 0 <= j < |rem| ==> 0 <= rem[j] < w * h
    ensures forall k :: k in rem <==> 0 <= k < w * h && Endpoint(img[..], w, h, k % w, k / w)
  {
    rem := [];
    var y := 1;
    while y < h - 1
      invariant 1 <= y && (h >= 2 ==> y <= h - 1)
      invariant RemovedTo(rem, img[..], w, h, 1, y)
    {
      rem := CollectRow(img, w, h, y, rem);
      y := y + 1;
    }
  }

  /** `toRemove.forEach(i => img[i] = 0)`. */
  method ClearAll(img: array<int>, rem: seq<int>)
    requires forall j :: 0 <= j < |rem| ==> 0 <= rem[j] < img.Length
    modifies img
    ensures forall k :: 0 <= k < img.Length ==> img[k] == if k in rem then 0 else old(img[k])
  {
    var j := 0;
    while j < |rem|
      invariant 0 <= j <= |rem|
      invariant forall k :: 0 <= k < img.Length ==> img[k] == if k in rem[..j] then 0 else old(img[k])
    {
      img[rem[j]] := 0;
      assert rem[..j + 1] == rem[..j] + [rem[j]];
      j := j + 1;
    }
    assert rem[..j] == rem;
  }

  /** A round that finds no endpoint changes nothing, so every later round is the same. */
  lemma {:induction false} PruneSettled(m: seq<int>, w: nat, h: nat, j: int, k: int)
    requires |m| == w * h && 0 <= j <= k
    requires PruneOnce(PruneN(m, w, h, j), w, h) == PruneN(m, w, h, j)
    ensures PruneN(m, w, h, k) == PruneN(m, w, h, j)
    decreases k
  {
    if k > j {
      PruneSettled(m, w, h, j, k - 1);
    }
  }

  /** `pruneEndpoints`: up to `iterations` rounds, stopping at the first round with nothing to
      delete. */
  method PruneEndpoints(mask: array<int>, w: nat, h: nat, iterations: int) returns (img: array<int>)
    requires mask.Length == w * h
    ensures img[..] == PruneN(mask[..], w, h, iterations)
    ensures fresh(img)
  {
    img := CopyBuffer(mask);
    var it := 0;
    while it < iterations
      invariant 0 <= it && (iterations <= 0 ==> it == 0) && (iterations > 0 ==> it <= iterations)
      invariant fresh(img) && img.Length == w * h
      invariant img[..] == PruneN(mask[..], w, h, it)
    {
      var toRemove := Collect(img, w, h);
      if |toRemove| == 0 {
        assert PruneOnce(img[..], w, h) == img[..];
        PruneSettled(mask[..], w, h, it, iterations);
        return;
      }
      ghost var prev := img[..];
      ClearAll(img, toRemove);
      assert img[..] == PruneOnce(prev, w, h);
      it := it + 1;
    }
  }

  /** A round only deletes endpoints: everything else, the border included, is kept. */
  lemma PruneOnceWithin(m: seq<int>, w: nat, h: nat)
    requires |m| == w * h
    ensures Within(PruneOnce(m, w, h), m)
    ensures forall i :: 0 <= i < w * h ==>
      (PruneOnce(m, w, h)[i] != m[i] <==> Endpoint(m, w, h, i % w, i / w))
  {
    forall i | 0 <= i < w * h && Endpoint(m, w, h, i % w, i / w)
      ensures m[i] != 0
    {
      Decompose(w, h, i);
    }
  }

  /** Each round is within the one before, so pixel count never increases from round to round. */
  lemma PruneMonotone(m: seq<int>, w: nat, h: nat, k: int)
    requires |m| == w * h && k >= 0
    ensures Within(PruneN(m, w, h, k + 1), PruneN(m, w, h, k))
    ensures Count(PruneN(m, w, h, k + 1)) <= Count(PruneN(m, w, h, k))
  {
    PruneOnceWithin(PruneN(m, w, h, k), w, h);
    CountWithin(PruneN(m, w, h, k + 1), PruneN(m, w, h, k));
  }

  /** Pruning only deletes pixels, keeps a 0/1 mask, and never touches the border. */
  lemma {:induction false} PruneNWithin(m: seq<int>, w: nat, h: nat, n: int)
    requires |m| == w * h
    ensures Within(PruneN(m, w, h, n), m)
    ensures IsMask(m, w, h) ==> IsMask(PruneN(m, w, h, n), w, h)
    ensures forall i :: 0 <= i < w * h && !Interior(w, h, i % w, i / w) ==> PruneN(m, w, h, n)[i] == m[i]
    decreases n
  {
    if n > 0 {
      PruneNWithin(m, w, h, n - 1);
      PruneOnceWithin(PruneN(m, w, h, n - 1), w, h);
      WithinTrans(PruneN(m, w, h, n), PruneN(m, w, h, n - 1), m);
    }
  }

  /** A mask with no endpoint (a closed loop, say) is left exactly as it is. */
  lemma NoEndpointUnchanged(m: seq<int>, w: nat, h: nat, n: int)
    requires |m| == w * h && n >= 0
    requires forall x, y :: !Endpoint(m, w, h, x, y)
    ensures PruneN(m, w, h, n) == m
  {
    assert PruneOnce(m, w, h) == m;
    PruneSettled(m, w, h, 0, n);
  }
}

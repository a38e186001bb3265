/** `extractLongestPath`: two breadth-first searches over the 8-connected foreground graph. The
    first, from the first foreground pixel in scan order, finds A, the farthest pixel; the
    second, from A, finds B; the parent pointers of the second search give a shortest walk from
    A to B, returned as pixel coordinates. */
module LongestPath {
  import opened Grid
  import opened Graph

  datatype Pixel = Pixel(x: int, y: int)

  /** `toXY`: the column and row of flat index i. */
  function ToXY(w: nat, i: int): (p: Pixel)
    requires w > 0
    ensures 0 <= i ==> Idx(w, p.x, p.y) == i && 0 <= p.x < w
  {
    Pixel(i % w, i / w)
  }

  function Pixels(w: nat, p: seq<int>): (r: seq<Pixel>)
    requires w > 0
  {
    seq(|p|, k requires 0 <= k < |p| => ToXY(w, p[k]))
  }

  /** A foreground walk from s to j. */
  ghost predicate Walk(m: seq<int>, w: nat, h: nat, p: seq<int>, s: int, j: int) {
    IsPath(m, w, h, p) && p[0] == s && p[|p| - 1] == j
  }

  /** d is the 8-connected distance from s to j: some walk takes d steps, none takes fewer. */
  ghost predicate IsDist(m: seq<int>, w: nat, h: nat, s: int, j: int, d: int) {
    (exists p :: Walk(m, w, h, p, s, j) && |p| == d + 1) &&
    forall p :: Walk(m, w, h, p, s, j) ==> d + 1 <= |p|
  }

  /** a is the first pixel, in scan order, among those farthest from s. */
  ghost predicate IsFarthest(m: seq<int>, w: nat, h: nat, s: int, a: int) {
    exists d :: IsDist(m, w, h, s, a, d) &&
      forall j, e :: IsDist(m, w, h, s, j, e) ==> e < d || (e == d && a <= j)
  }

  predicate IsFirstFg(m: seq<int>, s: int) {
    Fg(m, s) && forall k :: 0 <= k < s ==> m[k] == 0
  }

  predicate Distinct(p: seq<int>) {
    forall k, l :: 0 <= k < l < |p| ==> p[k] != p[l]
  }

  /** What `extractLongestPath` returns for a mask with foreground, as flat indices: a walk
      without repeats from A, the first farthest pixel from the first foreground pixel, to B, the
      first farthest pixel from A, as short as any walk from A to B. */
  ghost predicate Traced(m: seq<int>, w: nat, h: nat, p: seq<int>) {
    IsPath(m, w, h, p) && Distinct(p) &&
    (exists s :: IsFirstFg(m, s) && IsFarthest(m, w, h, s, p[0])) &&
    IsFarthest(m, w, h, p[0], p[|p| - 1]) && IsDist(m, w, h, p[0], p[|p| - 1], |p| - 1)
  }

  lemma DistUnique(m: seq<int>, w: nat, h: nat, s: int, j: int, d: int, e: int)
    requires IsDist(m, w, h, s, j, d) && IsDist(m, w, h, s, j, e)
    ensures d == e
  {
    var p :| Walk(m, w, h, p, s, j) && |p| == d + 1;
    var q :| Walk(m, w, h, q, s, j) && |q| == e + 1;
  }

  // ---------------------------------------------------------------------------------------
  // The search tree left in `dist` and `parent`

  /** `dist` and `parent` as a search tree rooted at s: every reached pixel other than s is a
      foreground pixel one step further than its parent, to which it is adjacent. */
  predicate Tree(m: seq<int>, w: nat, h: nat, s: int, D: seq<int>, P: seq<int>) {
    |m| == w * h && |D| == w * h && |P| == w * h && 0 <= s < w * h && Fg(m, s) && D[s] == 0 &&
    forall i :: 0 <= i < w * h && D[i] >= 0 && i != s ==>
      D[i] >= 1 && 0 <= P[i] < w * h && D[P[i]] == D[i] - 1 && Adj(w, h, P[i], i) && Fg(m, i)
  }

  /** The parent chain from the root s down to the reached pixel j. */
  ghost function Chain(m: seq<int>, w: nat, h: nat, s: int, D: seq<int>, P: seq<int>, j: int): (c: seq<int>)
    requires Tree(m, w, h, s, D, P) && 0 <= j < w * h && D[j] >= 0
    ensures |c| == D[j] + 1 && Walk(m, w, h, c, s, j)
    ensures forall k :: 0 <= k < |c| ==> 0 <= c[k] < w * h && D[c[k]] == k
    ensures forall k :: 1 <= k < |c| ==> c[k] != s && c[k - 1] == P[c[k]]
    decreases D[j]
  {
    if j == s then [s] else Chain(m, w, h, s, D, P, P[j]) + [j]
  }

  // ---------------------------------------------------------------------------------------
  // The invariant of `bfs`

  /** The pixels the search has not reached yet. */
  ghost function Unreached(D: seq<int>): set<int> {
    set i | 0 <= i < |D| && D[i] < 0
  }

  ghost predicate InRange(q: seq<int>, n: int) {
    forall k :: 0 <= k < |q| ==> 0 <= q[k] < n
  }

  /** Distances along the queue never decrease, and from the head qi on they span at most one
      more than the head's. */
  ghost predicate Layered(q: seq<int>, qi: int, D: seq<int>)
    requires InRange(q, |D|)
  {
    (forall k :: 0 <= k < |q| - 1 ==> D[q[k]] <= D[q[k + 1]]) &&
    (forall k :: 0 <= qi <= k < |q| ==> D[q[k]] <= D[q[qi]] + 1)
  }

  lemma {:induction false} Monotone(q: seq<int>, qi: int, D: seq<int>, k: int, l: int)
    requires InRange(q, |D|) && Layered(q, qi, D) && 0 <= k <= l < |q|
    ensures D[q[k]] <= D[q[l]]
    decreases l - k
  {
    if k < l {
      Monotone(q, qi, D, k + 1, l);
    }
  }

  /** Every foreground neighbour of pixel c is reached, at most one step further than c. */
  ghost predicate NbBound(m: seq<int>, w: nat, h: nat, D: seq<int>, c: int)
    requires |D| == w * h
  {
    forall j :: Adj(w, h, c, j) && Fg(m, j) ==> D[j] >= 0 && D[j] <= D[c] + 1
  }

  lemma NbBoundExtends(m: seq<int>, w: nat, h: nat, D: seq<int>, D': seq<int>, c: int)
    requires |D| == w * h && Extends(D, D') && 0 <= c < w * h && D[c] >= 0 && NbBound(m, w, h, D, c)
    ensures NbBound(m, w, h, D', c)
  {
    forall j | Adj(w, h, c, j) && Fg(m, j)
      ensures D'[j] >= 0 && D'[j] <= D'[c] + 1
    {
      assert D'[j] == D[j];
    }
  }

  /** Every already dequeued pixel has its neighbours reached. */
  ghost predicate Processed(m: seq<int>, w: nat, h: nat, q: seq<int>, qi: int, D: seq<int>)
    requires |D| == w * h && InRange(q, |D|) && qi <= |q|
  {
    forall k :: 0 <= k < qi ==> NbBound(m, w, h, D, q[k])
  }

  /** The state of `bfs(s)` before dequeuing q[qi]: the reached pixels are exactly the queued
      ones, and C is the number of queued and unreached pixels together, which stays fixed. */
  ghost predicate BfsInv(m: seq<int>, w: nat, h: nat, s: int, q: seq<int>, qi: int,
                         D: seq<int>, P: seq<int>, C: int)
  {
    Tree(m, w, h, s, D, P) && 0 <= qi <= |q| && |q| >= 1 && q[0] == s && InRange(q, w * h) &&
    Queued(D, q) &&
    |Unreached(D)| + |q| == C &&
    Layered(q, qi, D) && Processed(m, w, h, q, qi, D)
  }

  /** The reached pixels are exactly the queued ones; the others are at -1. */
  ghost predicate Queued(D: seq<int>, q: seq<int>) {
    forall i :: 0 <= i < |D| ==> D[i] >= -1 && (D[i] >= 0 <==> i in q)
  }

  lemma QueuedPush(D: seq<int>, q: seq<int>, ni: int, v: int)
    requires Queued(D, q) && 0 <= ni < |D| && D[ni] < 0 && v >= 0
    ensures Queued(D[ni := v], q + [ni]) && ni !in q
  {
  }

  /** b starts with a. */
  predicate Prefix(a: seq<int>, b: seq<int>) {
    |a| <= |b| && forall k :: 0 <= k < |a| ==> b[k] == a[k]
  }

  lemma PrefixTrans(a: seq<int>, b: seq<int>, c: seq<int>)
    requires Prefix(a, b) && Prefix(b, c)
    ensures Prefix(a, c)
  {
  }

  /** D' keeps every distance D has already set. */
  ghost predicate Extends(D: seq<int>, D': seq<int>) {
    |D'| == |D| && forall i :: 0 <= i < |D| && D[i] >= 0 ==> D'[i] == D[i]
  }

  lemma ExtendsTrans(D0: seq<int>, D1: seq<int>, D2: seq<int>)
    requires Extends(D0, D1) && Extends(D1, D2)
    ensures Extends(D0, D2)
  {
  }

  lemma UnreachedPush(D: seq<int>, ni: int, v: int)
    requires 0 <= ni < |D| && D[ni] < 0 && v >= 0
    ensures Unreached(D[ni := v]) == Unreached(D) - {ni} && ni in Unreached(D)
    ensures |Unreached(D[ni := v])| == |Unreached(D)| - 1
  {
    var U, U' := Unreached(D), Unreached(D[ni := v]);
    assert U' == U - {ni};
    assert U == U' + {ni};
  }

  lemma LayeredPush(q: seq<int>, qi: int, D: seq<int>, cur: int, ni: int)
    requires InRange(q, |D|) && Layered(q, qi, D) && 0 <= qi < |q| && cur == q[qi]
    requires 0 <= ni < |D| && D[ni] < 0 && ni !in q
    ensures InRange(q + [ni], |D|) && Layered(q + [ni], qi, D[ni := D[cur] + 1])
  {
    var D' := D[ni := D[cur] + 1];
    var q' := q + [ni];
    assert forall k :: 0 <= k < |q| ==> q'[k] == q[k] && D'[q[k]] == D[q[k]];
  }

  lemma ProcessedExtends(m: seq<int>, w: nat, h: nat, q: seq<int>, qi: int, D: seq<int>,
                         q': seq<int>, D': seq<int>)
    requires |D| == w * h && InRange(q, |D|) && qi <= |q| && Processed(m, w, h, q, qi, D)
    requires Extends(D, D') && InRange(q', |D'|) && Prefix(q, q')
    requires forall k :: 0 <= k < |q| ==> D[q[k]] >= 0
    ensures Processed(m, w, h, q', qi, D')
  {
    forall k | 0 <= k < qi
      ensures NbBound(m, w, h, D', q'[k])
    {
      assert q'[k] == q[k];
      NbBoundExtends(m, w, h, D, D', q[k]);
    }
  }

  lemma TreePush(m: seq<int>, w: nat, h: nat, s: int, D: seq<int>, P: seq<int>, cur: int, ni: int)
    requires Tree(m, w, h, s, D, P) && 0 <= cur < w * h && D[cur] >= 0
    requires Adj(w, h, cur, ni) && Fg(m, ni) && D[ni] < 0
    ensures Tree(m, w, h, s, D[ni := D[cur] + 1], P[ni := cur])
  {
    var D', P' := D[ni := D[cur] + 1], P[ni := cur];
    forall i | 0 <= i < w * h && D'[i] >= 0 && i != s
      ensures D'[i] >= 1 && 0 <= P'[i] < w * h && D'[P'[i]] == D'[i] - 1 && Adj(w, h, P'[i], i) && Fg(m, i)
    {
      if i != ni {
        assert D'[i] == D[i] && P'[i] == P[i] && P[i] != ni;
      }
    }
  }

  /** Reaching the new pixel ni from the head cur keeps the invariant. */
  lemma BfsPush(m: seq<int>, w: nat, h: nat, s: int, q: seq<int>, qi: int, D: seq<int>, P: seq<int>,
                C: int, cur: int, ni: int, q': seq<int>, D': seq<int>, P': seq<int>)
    requires BfsInv(m, w, h, s, q, qi, D, P, C) && qi < |q| && cur == q[qi]
    requires Adj(w, h, cur, ni) && Fg(m, ni) && D[ni] == -1
    requires q' == q + [ni] && D' == D[ni := D[cur] + 1] && P' == P[ni := cur]
    ensures BfsInv(m, w, h, s, q', qi, D', P', C)
    ensures Extends(D, D') && Prefix(q, q')
    ensures D'[ni] >= 0 && D'[ni] <= D'[cur] + 1
  {
    assert cur in q;
    PushShape(m, w, h, s, q, D, P, C, cur, ni);
    PushOrder(m, w, h, q, qi, D, cur, ni);
  }

  /** The tree, the queue and the count after reaching ni. */
  lemma PushShape(m: seq<int>, w: nat, h: nat, s: int, q: seq<int>, D: seq<int>, P: seq<int>,
                  C: int, cur: int, ni: int)
    requires Tree(m, w, h, s, D, P) && Queued(D, q) && |Unreached(D)| + |q| == C
    requires InRange(q, w * h) && |q| >= 1 && q[0] == s
    requires 0 <= cur < w * h && D[cur] >= 0 && Adj(w, h, cur, ni) && Fg(m, ni) && D[ni] == -1
    ensures Tree(m, w, h, s, D[ni := D[cur] + 1], P[ni := cur])
    ensures Queued(D[ni := D[cur] + 1], q + [ni]) && InRange(q + [ni], w * h) && (q + [ni])[0] == s
    ensures |Unreached(D[ni := D[cur] + 1])| + |q + [ni]| == C
  {
    QueuedPush(D, q, ni, D[cur] + 1);
    TreePush(m, w, h, s, D, P, cur, ni);
    UnreachedPush(D, ni, D[cur] + 1);
  }

  /** The queue order and the dequeued pixels after reaching ni from the head. */
  lemma PushOrder(m: seq<int>, w: nat, h: nat, q: seq<int>, qi: int, D: seq<int>, cur: int, ni: int)
    requires |D| == w * h && InRange(q, w * h) && 0 <= qi < |q| && cur == q[qi]
    requires Layered(q, qi, D) && Processed(m, w, h, q, qi, D) && Queued(D, q)
    requires 0 <= ni < w * h && D[ni] == -1
    ensures Layered(q + [ni], qi, D[ni := D[cur] + 1]) && Processed(m, w, h, q + [ni], qi, D[ni := D[cur] + 1])
  {
    assert ni !in q;
    LayeredPush(q, qi, D, cur, ni);
    ProcessedExtends(m, w, h, q, qi, D, q + [ni], D[ni := D[cur] + 1]);
  }

  /** A neighbour ni that is not reached now is background or already reached, at most one step
      further than the head. */
  lemma BfsKeep(m: seq<int>, w: nat, h: nat, s: int, q: seq<int>, qi: int, D: seq<int>, P: seq<int>,
                C: int, cur: int, ni: int)
    requires BfsInv(m, w, h, s, q, qi, D, P, C) && qi < |q| && cur == q[qi]
    requires Adj(w, h, cur, ni) && !(m[ni] != 0 && D[ni] == -1)
    ensures m[ni] != 0 ==> D[ni] >= 0 && D[ni] <= D[cur] + 1
    ensures Extends(D, D) && Prefix(q, q)
  {
    if m[ni] != 0 {
      assert ni in q;
      var l :| 0 <= l < |q| && q[l] == ni;
      if l <= qi {
        Monotone(q, qi, D, l, qi);
      } else {
        assert D[q[l]] <= D[q[qi]] + 1;
      }
    }
  }

  /** With every foreground neighbour of the head reached at most one step further, the head can
      be dequeued. */
  lemma BfsAdvance(m: seq<int>, w: nat, h: nat, s: int, q: seq<int>, qi: int, D: seq<int>, P: seq<int>, C: int)
    requires BfsInv(m, w, h, s, q, qi, D, P, C) && qi < |q|
    requires NbBound(m, w, h, D, q[qi])
    ensures BfsInv(m, w, h, s, q, qi + 1, D, P, C)
  {
    if qi + 1 < |q| {
      assert D[q[qi]] <= D[q[qi + 1]];
    }
  }

  /** Foreground neighbours (cx + a, cy + b) of the head at offsets the loops have passed are
      reached, at most one step further than the head's distance dc. */
  ghost predicate NbDone(m: seq<int>, w: nat, h: nat, D: seq<int>, cx: int, cy: int, dc: int, ox: int, oy: int)
    requires |m| == w * h && |D| == w * h
  {
    forall a, b ::
      (Near(0, 0, a, b) && Before(a, b, ox, oy) && InBounds(w, h, cx + a, cy + b) &&
       Px(m, w, h, cx + a, cy + b) != 0) ==>
        Px(D, w, h, cx + a, cy + b) >= 0 && Px(D, w, h, cx + a, cy + b) <= dc + 1
  }

  lemma NbDoneStep(m: seq<int>, w: nat, h: nat, D: seq<int>, D': seq<int>, cx: int, cy: int, dc: int,
                   ox: int, oy: int)
    requires |m| == w * h && |D| == w * h && Extends(D, D') && NbDone(m, w, h, D, cx, cy, dc, ox, oy)
    requires (InBounds(w, h, cx + ox, cy + oy) && Px(m, w, h, cx + ox, cy + oy) != 0) ==>
               Px(D', w, h, cx + ox, cy + oy) >= 0 && Px(D', w, h, cx + ox, cy + oy) <= dc + 1
    ensures NbDone(m, w, h, D', cx, cy, dc, ox + 1, oy)
  {
    forall a, b | Near(0, 0, a, b) && Before(a, b, ox + 1, oy) && InBounds(w, h, cx + a, cy + b) &&
                  Px(m, w, h, cx + a, cy + b) != 0
      ensures Px(D', w, h, cx + a, cy + b) >= 0 && Px(D', w, h, cx + a, cy + b) <= dc + 1
    {
      if (a, b) != (ox, oy) {
        assert Before(a, b, ox, oy);
        IdxRange(w, h, cx + a, cy + b);
        var i := Idx(w, cx + a, cy + b);
        assert Px(D, w, h, cx + a, cy + b) == D[i] && Px(D', w, h, cx + a, cy + b) == D'[i];
      }
    }
  }

  lemma NbDoneRow(m: seq<int>, w: nat, h: nat, D: seq<int>, cx: int, cy: int, dc: int, oy: int)
    requires |m| == w * h && |D| == w * h && NbDone(m, w, h, D, cx, cy, dc, 2, oy)
    ensures NbDone(m, w, h, D, cx, cy, dc, -1, oy + 1)
  {
  }

  lemma NbDoneAll(m: seq<int>, w: nat, h: nat, D: seq<int>, cur: int)
    requires |m| == w * h && |D| == w * h && 0 <= cur < w * h
    requires NbDone(m, w, h, D, cur % w, cur / w, D[cur], -1, 2)
    ensures NbBound(m, w, h, D, cur)
  {
    forall j | Adj(w, h, cur, j) && Fg(m, j)
      ensures D[j] >= 0 && D[j] <= D[cur] + 1
    {
      Decompose(w, h, j);
      Decompose(w, h, cur);
      var a, b := j % w - cur % w, j / w - cur / w;
      assert cur % w + a == j % w && cur / w + b == j / w;
      assert Near(0, 0, a, b) && Before(a, b, -1, 2) && InBounds(w, h, cur % w + a, cur / w + b);
      assert Px(m, w, h, cur % w + a, cur / w + b) == m[j];
      assert Px(D, w, h, cur % w + a, cur / w + b) == D[j];
    }
  }

  // ---------------------------------------------------------------------------------------
  // `bfs`

  /** `dist[ni] = dist[cur] + 1; parent[ni] = cur; q.push(ni)`. */
  method Reach(dist: array<int>, parent: array<int>, cur: int, ni: int, q0: seq<int>) returns (q: seq<int>)
    requires dist != parent && 0 <= cur < dist.Length && 0 <= ni < dist.Length == parent.Length
    modifies dist, parent
    ensures dist[..] == old(dist[..])[ni := old(dist[cur]) + 1] && parent[..] == old(parent[..])[ni := cur]
    ensures q == q0 + [ni]
  {
    dist[ni] := dist[cur] + 1;
    parent[ni] := cur;
    q := q0 + [ni];
  }

  /** The test and update for neighbour ni of the head cur: reach it if it is foreground and
      still at -1. */
  method BfsVisit(skel: seq<int>, dist: array<int>, parent: array<int>, w: nat, h: nat,
                  cur: int, ni: int, q0: seq<int>, ghost qi: int, ghost s: int, ghost C: int)
    returns (q: seq<int>)
    requires |skel| == w * h && dist.Length == w * h && parent.Length == w * h
    requires dist != parent
    requires BfsInv(skel, w, h, s, q0, qi, dist[..], parent[..], C) && qi < |q0| && cur == q0[qi]
    requires Adj(w, h, cur, ni)
    modifies dist, parent
    ensures BfsInv(skel, w, h, s, q, qi, dist[..], parent[..], C)
    ensures Extends(old(dist[..]), dist[..]) && Prefix(q0, q)
    ensures skel[ni] != 0 ==> dist[ni] >= 0 && dist[ni] <= dist[cur] + 1
  {
    ghost var D, P := dist[..], parent[..];
    q := q0;
    if skel[ni] != 0 && dist[ni] == -1 {
      q := Reach(dist, parent, cur, ni, q);
      BfsPush(skel, w, h, s, q0, qi, D, P, C, cur, ni, q, dist[..], parent[..]);
    } else {
      BfsKeep(skel, w, h, s, q0, qi, D, P, C, cur, ni);
    }
  }

  /** The neighbour (nx, ny) of cur at a non-zero offset that stays on the image is adjacent to it. */
  lemma OffsetIdx(w: nat, h: nat, cur: int, ox: int, oy: int, nx: int, ny: int)
    requires 0 <= cur < w * h && Near(0, 0, ox, oy) && (ox, oy) != (0, 0)
    requires nx == cur % w + ox && ny == cur / w + oy && InBounds(w, h, nx, ny)
    ensures Adj(w, h, cur, Idx(w, nx, ny))
  {
    Decompose(w, h, cur);
    AdjCoords(w, h, cur % w, cur / w, ox, oy);
    assert cur == Idx(w, cur % w, cur / w);
  }

  /** The centre offset passes with nothing to do: the head itself is reached. */
  lemma NbDoneCentre(m: seq<int>, w: nat, h: nat, D: seq<int>, cur: int)
    requires |m| == w * h && |D| == w * h && 0 <= cur < w * h && D[cur] >= 0
    requires NbDone(m, w, h, D, cur % w, cur / w, D[cur], 0, 0)
    ensures NbDone(m, w, h, D, cur % w, cur / w, D[cur], 1, 0)
  {
    Decompose(w, h, cur);
    assert Px(D, w, h, cur % w, cur / w) == D[cur];
    NbDoneStep(m, w, h, D, D, cur % w, cur / w, D[cur], 0, 0);
  }

  /** After the test of the neighbour at offset (ox, oy), that offset is done too. */
  lemma NbDoneVisit(m: seq<int>, w: nat, h: nat, D: seq<int>, D': seq<int>, cur: int, ox: int, oy: int,
                    nx: int, ny: int, ni: int)
    requires |m| == w * h && |D| == w * h && 0 <= cur < w * h && D[cur] >= 0 && Extends(D, D')
    requires nx == cur % w + ox && ny == cur / w + oy && InBounds(w, h, nx, ny)
    requires ni == Idx(w, nx, ny) && 0 <= ni < w * h
    requires NbDone(m, w, h, D, cur % w, cur / w, D[cur], ox, oy)
    requires m[ni] != 0 ==> D'[ni] >= 0 && D'[ni] <= D'[cur] + 1
    ensures D'[cur] == D[cur] && NbDone(m, w, h, D', cur % w, cur / w, D[cur], ox + 1, oy)
  {
    NbDoneStep(m, w, h, D, D', cur % w, cur / w, D[cur], ox, oy);
  }

  /** The body of the neighbour loops for offset (ox, oy): skip the centre and the pixels off
      the image, test the others. */
  method BfsOffset(skel: seq<int>, dist: array<int>, parent: array<int>, w: nat, h: nat,
                   cur: int, ox: int, oy: int, q0: seq<int>, ghost qi: int, ghost s: int, ghost C: int)
    returns (q: seq<int>)
    requires |skel| == w * h && dist.Length == w * h && parent.Length == w * h
    requires dist != parent
    requires BfsInv(skel, w, h, s, q0, qi, dist[..], parent[..], C) && qi < |q0| && cur == q0[qi]
    requires Near(0, 0, ox, oy)
    requires NbDone(skel, w, h, dist[..], cur % w, cur / w, dist[cur], ox, oy)
    modifies dist, parent
    ensures BfsInv(skel, w, h, s, q, qi, dist[..], parent[..], C)
    ensures Extends(old(dist[..]), dist[..]) && Prefix(q0, q)
    ensures NbDone(skel, w, h, dist[..], cur % w, cur / w, dist[cur], ox + 1, oy)
  {
    ghost var D := dist[..];
    assert cur in q0;
    q := q0;
    var cx, cy := cur % w, cur / w;
    var nx, ny := cx + ox, cy + oy;
    if ox == 0 && oy == 0 {
      NbDoneCentre(skel, w, h, D, cur);
      return;
    }
    if nx < 0 || nx >= w || ny < 0 || ny >= h {
      NbDoneStep(skel, w, h, D, D, cx, cy, D[cur], ox, oy);
      return;
    }
    q := BfsNeighbour(skel, dist, parent, w, h, cur, ox, oy, nx, ny, q0, qi, s, C);
  }

  /** The test of the neighbour (nx, ny) at offset (ox, oy), which lies on the image. */
  method BfsNeighbour(skel: seq<int>, dist: array<int>, parent: array<int>, w: nat, h: nat,
                      cur: int, ox: int, oy: int, nx: int, ny: int, q0: seq<int>, ghost qi: int,
                      ghost s: int, ghost C: int)
    returns (q: seq<int>)
    requires |skel| == w * h && dist.Length == w * h && parent.Length == w * h
    requires dist != parent
    requires BfsInv(skel, w, h, s, q0, qi, dist[..], parent[..], C) && qi < |q0| && cur == q0[qi]
    requires Near(0, 0, ox, oy) && (ox, oy) != (0, 0) && dist[cur] >= 0
    requires nx == cur % w + ox && ny == cur / w + oy && InBounds(w, h, nx, ny)
    requires NbDone(skel, w, h, dist[..], cur % w, cur / w, dist[cur], ox, oy)
    modifies dist, parent
    ensures BfsInv(skel, w, h, s, q, qi, dist[..], parent[..], C)
    ensures Extends(old(dist[..]), dist[..]) && Prefix(q0, q)
    ensures NbDone(skel, w, h, dist[..], cur % w, cur / w, dist[cur], ox + 1, oy)
  {
    ghost var D := dist[..];
    OffsetIdx(w, h, cur, ox, oy, nx, ny);
    var ni := Idx(w, nx, ny);
    q := BfsVisit(skel, dist, parent, w, h, cur, ni, q0, qi, s, C);
    NbDoneVisit(skel, w, h, D, dist[..], cur, ox, oy, nx, ny, ni);
  }

  /** The inner neighbour loop, over the column offsets of row offset oy. */
  method BfsRow(skel: seq<int>, dist: array<int>, parent: array<int>, w: nat, h: nat,
                cur: int, oy: int, q0: seq<int>, ghost qi: int, ghost s: int, ghost C: int)
    returns (q: seq<int>)
    requires |skel| == w * h && dist.Length == w * h && parent.Length == w * h
    requires dist != parent
    requires BfsInv(skel, w, h, s, q0, qi, dist[..], parent[..], C) && qi < |q0| && cur == q0[qi]
    requires -1 <= oy <= 1
    requires NbDone(skel, w, h, dist[..], cur % w, cur / w, dist[cur], -1, oy)
    modifies dist, parent
    ensures BfsInv(skel, w, h, s, q, qi, dist[..], parent[..], C)
    ensures Extends(old(dist[..]), dist[..]) && Prefix(q0, q)
    ensures NbDone(skel, w, h, dist[..], cur % w, cur / w, dist[cur], -1, oy + 1)
  {
    ghost var D := dist[..];
    assert cur in q0;
    q := q0;
    var ox := -1;
    while ox <= 1
      invariant -1 <= ox <= 2
      invariant BfsInv(skel, w, h, s, q, qi, dist[..], parent[..], C)
      invariant Extends(D, dist[..]) && Prefix(q0, q) && qi < |q| && q[qi] == cur && dist[cur] == D[cur]
      invariant NbDone(skel, w, h, dist[..], cur % w, cur / w, D[cur], ox, oy)
    {
      ghost var D1, q1 := dist[..], q;
      q := BfsOffset(skel, dist, parent, w, h, cur, ox, oy, q, qi, s, C);
      ExtendsTrans(D, D1, dist[..]);
      PrefixTrans(q0, q1, q);
      assert dist[cur] == D1[cur];
      ox := ox + 1;
    }
    NbDoneRow(skel, w, h, dist[..], cur % w, cur / w, D[cur], oy);
  }

  /** The two neighbour loops of `bfs` for the head cur = q[qi], which is then dequeued. */
  method BfsNeighbours(skel: seq<int>, dist: array<int>, parent: array<int>, w: nat, h: nat,
                       cur: int, q0: seq<int>, ghost qi: int, ghost s: int, ghost C: int)
    returns (q: seq<int>)
    requires |skel| == w * h && dist.Length == w * h && parent.Length == w * h
    requires dist != parent
    requires BfsInv(skel, w, h, s, q0, qi, dist[..], parent[..], C) && qi < |q0| && cur == q0[qi]
    modifies dist, parent
    ensures BfsInv(skel, w, h, s, q, qi + 1, dist[..], parent[..], C)
  {
    ghost var D := dist[..];
    assert cur in q0;
    q := q0;
    var oy := -1;
    while oy <= 1
      invariant -1 <= oy <= 2
      invariant BfsInv(skel, w, h, s, q, qi, dist[..], parent[..], C)
      invariant Extends(D, dist[..]) && Prefix(q0, q) && qi < |q| && q[qi] == cur && dist[cur] == D[cur]
      invariant NbDone(skel, w, h, dist[..], cur % w, cur / w, D[cur], -1, oy)
    {
      ghost var D1, q1 := dist[..], q;
      q := BfsRow(skel, dist, parent, w, h, cur, oy, q, qi, s, C);
      ExtendsTrans(D, D1, dist[..]);
      PrefixTrans(q0, q1, q);
      assert dist[cur] == D1[cur];
      oy := oy + 1;
    }
    NbDoneAll(skel, w, h, dist[..], cur);
    BfsAdvance(skel, w, h, s, q, qi, dist[..], parent[..], C);
  }

  /** The state right after `dist[from] = 0` with the queue [from]. */
  lemma BfsStart(m: seq<int>, w: nat, h: nat, s: int, D: seq<int>, P: seq<int>)
    requires |m| == w * h && |D| == w * h && |P| == w * h && Fg(m, s)
    requires forall i :: 0 <= i < |D| ==> D[i] == if i == s then 0 else -1
    ensures BfsInv(m, w, h, s, [s], 0, D, P, |Unreached(D)| + 1)
  {
  }

  /** Once the queue is exhausted, the distance of the end of any walk from s is at most the
      walk's number of steps. */
  lemma {:induction false} BfsLower(m: seq<int>, w: nat, h: nat, s: int, q: seq<int>, D: seq<int>,
                                    P: seq<int>, C: int, p: seq<int>)
    requires BfsInv(m, w, h, s, q, |q|, D, P, C) && IsPath(m, w, h, p) && p[0] == s
    ensures 0 <= p[|p| - 1] < w * h && 0 <= D[p[|p| - 1]] <= |p| - 1
    decreases |p|
  {
    if |p| > 1 {
      var p' := p[..|p| - 1];
      assert IsPath(m, w, h, p');
      BfsLower(m, w, h, s, q, D, P, C, p');
      var c := p'[|p'| - 1];
      assert c in q;
      var k :| 0 <= k < |q| && q[k] == c;
      assert NbBound(m, w, h, D, q[k]);
      assert Adj(w, h, c, p[|p| - 1]);
    }
  }

  /** D holds exactly the 8-connected distances from s, and -1 exactly at the pixels no walk from
      s reaches. */
  ghost predicate Exact(m: seq<int>, w: nat, h: nat, s: int, D: seq<int>) {
    |D| == w * h &&
    (forall j :: 0 <= j < w * h && D[j] >= 0 ==> IsDist(m, w, h, s, j, D[j])) &&
    (forall j :: 0 <= j < w * h && D[j] < 0 ==> !Connected(m, w, h, s, j))
  }

  /** Once the queue is exhausted, `dist` holds exactly the 8-connected distances from s, and -1
      exactly at the pixels no walk from s reaches. */
  lemma BfsExact(m: seq<int>, w: nat, h: nat, s: int, q: seq<int>, D: seq<int>, P: seq<int>, C: int)
    requires BfsInv(m, w, h, s, q, |q|, D, P, C)
    ensures Exact(m, w, h, s, D)
  {
    forall j | 0 <= j < w * h && D[j] >= 0
      ensures IsDist(m, w, h, s, j, D[j])
    {
      var c := Chain(m, w, h, s, D, P, j);
      forall p | Walk(m, w, h, p, s, j)
        ensures D[j] + 1 <= |p|
      {
        BfsLower(m, w, h, s, q, D, P, C, p);
      }
    }
    forall j | 0 <= j < w * h && D[j] < 0
      ensures !Connected(m, w, h, s, j)
    {
      forall p | IsPath(m, w, h, p) && p[0] == s
        ensures p[|p| - 1] != j
      {
        BfsLower(m, w, h, s, q, D, P, C, p);
      }
    }
  }

  /** The scan `for (i...) if (dist[i] > best)`: the first pixel of largest distance. */
  method Farthest(dist: seq<int>, from: int) returns (far: int)
    requires 0 <= from < |dist| && dist[from] == 0
    requires forall i :: 0 <= i < |dist| && dist[i] == 0 ==> i == from
    ensures 0 <= far < |dist| && dist[far] >= 0
    ensures forall k :: 0 <= k < |dist| ==> dist[k] <= dist[far]
    ensures forall k :: 0 <= k < |dist| && dist[k] == dist[far] ==> far <= k
  {
    far := from;
    var best := 0;
    var i := 0;
    while i < |dist|
      invariant 0 <= i <= |dist| && 0 <= far < |dist| && best == dist[far] && best >= 0
      invariant far == from || far < i
      invariant forall k :: 0 <= k < i ==> dist[k] <= best
      invariant forall k :: 0 <= k < i && dist[k] == best ==> far <= k
    {
      if dist[i] > best {
        best := dist[i];
        far := i;
      }
      i := i + 1;
    }
  }

  /** The first pixel of largest distance, with exact distances, is the first farthest pixel. */
  lemma FarthestFirst(m: seq<int>, w: nat, h: nat, s: int, D: seq<int>, far: int)
    requires |m| == w * h && Exact(m, w, h, s, D) && 0 <= far < w * h && D[far] >= 0
    requires forall k :: 0 <= k < w * h ==> D[k] <= D[far]
    requires forall k :: 0 <= k < w * h && D[k] == D[far] ==> far <= k
    ensures IsFarthest(m, w, h, s, far)
  {
    var d := D[far];
    assert IsDist(m, w, h, s, far, d);
    forall j, e | IsDist(m, w, h, s, j, e)
      ensures e < d || (e == d && far <= j)
    {
      var p :| Walk(m, w, h, p, s, j) && |p| == e + 1;
      assert Fg(m, p[|p| - 1]);
      assert Connected(m, w, h, s, j);
      DistUnique(m, w, h, s, j, D[j], e);
    }
  }

  /** The queue loop of `bfs(from)`, run on the arrays set up for it. */
  method BfsLoop(skel: seq<int>, dist: array<int>, parent: array<int>, w: nat, h: nat, from: int,
                 ghost C: int) returns (q: seq<int>)
    requires |skel| == w * h && dist.Length == w * h && parent.Length == w * h && dist != parent
    requires BfsInv(skel, w, h, from, [from], 0, dist[..], parent[..], C)
    modifies dist, parent
    ensures BfsInv(skel, w, h, from, q, |q|, dist[..], parent[..], C)
  {
    q := [from];
    var qi := 0;
    while qi < |q|
      invariant BfsInv(skel, w, h, from, q, qi, dist[..], parent[..], C)
      decreases C - qi
    {
      var cur := q[qi];
      q := BfsNeighbours(skel, dist, parent, w, h, cur, q, qi, from, C);
      qi := qi + 1;
    }
  }

  /** The set-up of `bfs(from)`: every distance -1 but that of from, every parent -1, and the
      queue [from]. */
  method BfsInit(skel: seq<int>, w: nat, h: nat, from: int)
    returns (dist: array<int>, parent: array<int>, ghost C: int)
    requires |skel| == w * h && 0 <= from < w * h && skel[from] != 0
    ensures fresh(dist) && fresh(parent) && dist != parent && dist.Length == w * h && parent.Length == w * h
    ensures forall i :: 0 <= i < w * h ==> parent[i] == -1 && dist[i] == if i == from then 0 else -1
    ensures BfsInv(skel, w, h, from, [from], 0, dist[..], parent[..], C)
  {
    dist := new int[w * h](_ => -1);
    parent := new int[w * h](_ => -1);
    dist[from] := 0;
    C := |Unreached(dist[..])| + 1;
    BfsStart(skel, w, h, from, dist[..], parent[..]);
  }

  /** `bfs(from)`: the farthest pixel, and the search tree with exact distances. */
  method Bfs(skel: seq<int>, w: nat, h: nat, from: int) returns (far: int, parent: array<int>, dist: array<int>)
    requires |skel| == w * h && 0 <= from < w * h && skel[from] != 0
    ensures dist.Length == w * h && parent.Length == w * h
    ensures Tree(skel, w, h, from, dist[..], parent[..]) && Exact(skel, w, h, from, dist[..])
    ensures 0 <= far < w * h && dist[far] >= 0 && IsFarthest(skel, w, h, from, far)
  {
    ghost var C;
    dist, parent, C := BfsInit(skel, w, h, from);
    var q := BfsLoop(skel, dist, parent, w, h, from, C);
    ghost var D, P := dist[..], parent[..];
    BfsExact(skel, w, h, from, q, D, P, C);
    assert Tree(skel, w, h, from, D, P);
    far := Farthest(dist[..], from);
    assert dist[..] == D && parent[..] == P;
    FarthestFirst(skel, w, h, from, D, far);
  }

  // ---------------------------------------------------------------------------------------
  // The start pixel, the reconstruction, and the whole stage

  /** The scan for the first foreground pixel: -1 when there is none. */
  method FirstForeground(skel: array<int>) returns (start: int)
    ensures start == -1 <==> AllZero(skel[..])
    ensures start != -1 ==> IsFirstFg(skel[..], start)
  {
    start := -1;
    var i := 0;
    while i < skel.Length
      invariant 0 <= i <= skel.Length
      invariant forall k :: 0 <= k < i ==> skel[k] == 0
    {
      if skel[i] != 0 {
        start := i;
        break;
      }
      i := i + 1;
    }
  }

  /** `Array.prototype.reverse` after a push: the pushed element comes first. */
  lemma ReversePush<T>(r: seq<T>, x: T)
    ensures Reverse(r + [x]) == [x] + Reverse(r)
  {
    assert forall k :: 0 <= k < |r| + 1 ==> Reverse(r + [x])[k] == ([x] + Reverse(r))[k];
  }

  lemma PixelsAppend(w: nat, p: seq<int>, q: seq<int>)
    requires w > 0
    ensures Pixels(w, p + q) == Pixels(w, p) + Pixels(w, q)
  {
  }

  /** One round of the reconstruction loop: pushing cur and stepping to its parent keeps the
      pushed pixels, reversed, the tail of the chain to b; at A they are the whole of it. */
  lemma ReconstructStep(m: seq<int>, w: nat, h: nat, a: int, D: seq<int>, P: seq<int>, b: int,
                        cur: int, rev: seq<Pixel>)
    requires w > 0 && Tree(m, w, h, a, D, P) && 0 <= b < w * h && D[b] >= 0
    requires 0 <= cur < w * h && D[cur] >= 0
    requires Pixels(w, Chain(m, w, h, a, D, P, b)) == Pixels(w, Chain(m, w, h, a, D, P, cur)) + Reverse(rev)
    ensures cur == a ==> Pixels(w, Chain(m, w, h, a, D, P, b)) == Reverse(rev + [ToXY(w, cur)])
    ensures cur != a ==> (0 <= P[cur] < w * h && 0 <= D[P[cur]] < D[cur] &&
      Pixels(w, Chain(m, w, h, a, D, P, b)) == Pixels(w, Chain(m, w, h, a, D, P, P[cur])) + Reverse(rev + [ToXY(w, cur)]))
  {
    var x := ToXY(w, cur);
    ReversePush(rev, x);
    if cur == a {
      assert Pixels(w, [cur]) == [x];
    } else {
      var c := Chain(m, w, h, a, D, P, P[cur]);
      PixelsAppend(w, c, [cur]);
      assert Pixels(w, [cur]) == [x];
      assert Pixels(w, c) + [x] + Reverse(rev) == Pixels(w, c) + ([x] + Reverse(rev));
    }
  }

  /** The walk back from b along the parents, pushed pixel by pixel until A and then reversed: the
      tree's chain from A to b. */
  method Reconstruct(parent: array<int>, w: nat, h: nat, a: int, b: int, ghost m: seq<int>,
                     ghost D: seq<int>) returns (path: seq<Pixel>)
    requires w > 0 && parent.Length == w * h && Tree(m, w, h, a, D, parent[..])
    requires 0 <= b < w * h && D[b] >= 0
    ensures path == Pixels(w, Chain(m, w, h, a, D, parent[..], b))
  {
    ghost var P := parent[..];
    var rev: seq<Pixel> := [];
    var cur := b;
    while cur != -1
      invariant 0 <= cur < w * h && D[cur] >= 0
      invariant Pixels(w, Chain(m, w, h, a, D, P, b)) == Pixels(w, Chain(m, w, h, a, D, P, cur)) + Reverse(rev)
      decreases D[cur]
    {
      ReconstructStep(m, w, h, a, D, P, b, cur, rev);
      rev := rev + [ToXY(w, cur)];
      if cur == a {
        break;
      }
      cur := parent[cur];
    }
    path := Reverse(rev);
  }

  /** The chain of the second search from A to B is what the stage promises. */
  lemma ChainTraced(m: seq<int>, w: nat, h: nat, s: int, a: int, D: seq<int>, P: seq<int>, b: int)
    requires Tree(m, w, h, a, D, P) && Exact(m, w, h, a, D)
    requires IsFirstFg(m, s) && IsFarthest(m, w, h, s, a) && IsFarthest(m, w, h, a, b)
    requires 0 <= b < w * h && D[b] >= 0
    ensures Traced(m, w, h, Chain(m, w, h, a, D, P, b))
  {
    var c := Chain(m, w, h, a, D, P, b);
    assert IsDist(m, w, h, a, b, D[b]);
    forall k, l | 0 <= k < l < |c|
      ensures c[k] != c[l]
    {
      assert D[c[k]] == k && D[c[l]] == l;
    }
  }

  /** `extractLongestPath`: no path for an empty mask; otherwise the traced walk from A to B. */
  method ExtractLongestPath(skel: array<int>, w: nat, h: nat) returns (path: seq<Pixel>)
    requires skel.Length == w * h
    ensures AllZero(skel[..]) ==> path == []
    ensures !AllZero(skel[..]) ==> w > 0 && exists p :: Traced(skel[..], w, h, p) && path == Pixels(w, p)
  {
    var start := FirstForeground(skel);
    if start == -1 {
      return [];
    }
    ghost var m := skel[..];
    var a, _, _ := Bfs(skel[..], w, h, start);
    var b, parent, dist := Bfs(skel[..], w, h, a);
    assert skel[..] == m;
    path := Reconstruct(parent, w, h, a, b, m, dist[..]);
    ChainTraced(m, w, h, start, a, dist[..], parent[..], b);
  }

  /** Consecutive points of a traced walk are distinct pixels touching at a side or a corner. */
  lemma PixelsStep(m: seq<int>, w: nat, h: nat, p: seq<int>)
    requires w > 0 && IsPath(m, w, h, p)
    ensures forall k :: 0 <= k < |p| - 1 ==>
      Pixels(w, p)[k] != Pixels(w, p)[k + 1] &&
      -1 <= Pixels(w, p)[k + 1].x - Pixels(w, p)[k].x <= 1 &&
      -1 <= Pixels(w, p)[k + 1].y - Pixels(w, p)[k].y <= 1
  {
    forall k | 0 <= k < |p| - 1
      ensures Pixels(w, p)[k] != Pixels(w, p)[k + 1]
    {
      assert Adj(w, h, p[k], p[k + 1]);
      IdxInjective(w, p[k] % w, p[k] / w, p[k + 1] % w, p[k + 1] / w);
    }
  }
}

/** `largestComponent`: keep only the largest 8-connected component of a mask. Components are
    found by a stack-based flood fill started at each unvisited foreground pixel in scan order;
    the kept one is the first of the longest in that order, which is what the code's stable sort
    by decreasing length puts at `comps[0]`. */
module Components {
  import opened Grid
  import opened Graph

  /** The distinct members of a list. */
  function Elems(s: seq<int>): set<int> {
    set k | k in s
  }

  /** The cells of a buffer that are set. */
  ghost function VSet(v: seq<int>): set<int> {
    set k | 0 <= k < |v| && v[k] != 0
  }

  /** The cells of a buffer that are clear. */
  ghost function ZSet(v: seq<int>): set<int> {
    set k | 0 <= k < |v| && v[k] == 0
  }

  /** The mask whose set cells are exactly the members of S. */
  function Indicator(S: set<int>, n: nat): (r: seq<int>)
    ensures |r| == n
  {
    seq(n, i => if i in S then 1 else 0)
  }

  /** s is the pixel whose component `largestComponent` keeps: among the foreground pixels whose
      component is as large as any, the one with the smallest index. */
  ghost predicate IsLargestSeed(m: seq<int>, w: nat, h: nat, s: int) {
    Fg(m, s) &&
    forall k :: Fg(m, k) ==>
      |Component(m, w, h, k)| < |Component(m, w, h, s)| ||
      (|Component(m, w, h, k)| == |Component(m, w, h, s)| && s <= k)
  }

  /** The kept component is determined uniquely. */
  lemma LargestSeedUnique(m: seq<int>, w: nat, h: nat, s: int, t: int)
    requires IsLargestSeed(m, w, h, s) && IsLargestSeed(m, w, h, t)
    ensures s == t
  {
  }

  /** The kept seed is the first pixel of its component in scan order. */
  lemma LargestSeedFirst(m: seq<int>, w: nat, h: nat, s: int, j: int)
    requires |m| == w * h && IsLargestSeed(m, w, h, s) && j in Component(m, w, h, s)
    ensures s <= j
  {
    ComponentShape(m, w, h, s);
    ComponentOfMember(m, w, h, s, j);
  }

  /** While a flood fill from s runs: `cset` is what it has visited, every member of it is
      connected to s, and every member no longer on the stack has its foreground neighbours
      visited. */
  ghost predicate FloodInv(m: seq<int>, w: nat, h: nat, s: int, V0: set<int>, vis: seq<int>,
                           stack: seq<int>, comp: seq<int>, cset: set<int>)
  {
    |vis| == w * h && VSet(vis) == V0 + cset && cset !! V0 &&
    cset == Elems(comp) && |cset| == |comp| && s in cset &&
    (forall k :: k in cset ==> Fg(m, k) && Connected(m, w, h, s, k)) &&
    (forall j :: 0 <= j < |stack| ==> stack[j] in cset)
  }

  /** Foreground neighbours of pixel (cx, cy) at offsets the loops have passed are visited. */
  ghost predicate NbVisited(m: seq<int>, w: nat, h: nat, cx: int, cy: int, ox: int, oy: int, V: set<int>)
    requires |m| == w * h
  {
    forall a, b ::
      (Near(0, 0, a, b) && Before(a, b, ox, oy) && InBounds(w, h, cx + a, cy + b) &&
       Px(m, w, h, cx + a, cy + b) != 0) ==> Idx(w, cx + a, cy + b) in V
  }

  lemma NbVisitedAll(m: seq<int>, w: nat, h: nat, cur: int, V: set<int>)
    requires |m| == w * h && 0 <= cur < w * h && NbVisited(m, w, h, cur % w, cur / w, -1, 2, V)
    ensures forall j :: Adj(w, h, cur, j) && Fg(m, j) ==> j in V
  {
    forall j | Adj(w, h, cur, j) && Fg(m, j)
      ensures j in V
    {
      Decompose(w, h, j);
      Decompose(w, h, cur);
      var a, b := j % w - cur % w, j / w - cur / w;
      assert cur % w + a == j % w && cur / w + b == j / w;
      assert Near(0, 0, a, b) && Before(a, b, -1, 2) && InBounds(w, h, cur % w + a, cur / w + b);
      assert Px(m, w, h, cur % w + a, cur / w + b) == m[j];
    }
  }

  /** Marking cell i of a buffer moves it from the clear cells to the set ones. */
  lemma MarkCell(v: seq<int>, i: int)
    requires 0 <= i < |v| && v[i] == 0
    ensures VSet(v[i := 1]) == VSet(v) + {i} && ZSet(v[i := 1]) == ZSet(v) - {i} && i in ZSet(v)
  {
  }

  /** Between two states of a fill, `cset` only grew by pixels that were clear (Z is the set of
      clear cells) and that were pushed on top of the old stack. */
  ghost predicate Grows(stack0: seq<int>, cset0: set<int>, Z0: set<int>,
                        stack: seq<int>, cset: set<int>, Z: set<int>)
  {
    cset0 <= cset && |stack0| <= |stack| && stack[..|stack0|] == stack0 &&
    (forall k :: k in cset - cset0 ==> k in stack) &&
    cset - cset0 <= Z0 && Z == Z0 - (cset - cset0) &&
    (stack == stack0 || exists k :: k in cset && k !in cset0)
  }

  lemma GrowsTrans(s0: seq<int>, c0: set<int>, z0: set<int>, s1: seq<int>, c1: set<int>, z1: set<int>,
                   s2: seq<int>, c2: set<int>, z2: set<int>)
    requires Grows(s0, c0, z0, s1, c1, z1) && Grows(s1, c1, z1, s2, c2, z2)
    ensures Grows(s0, c0, z0, s2, c2, z2)
  {
    assert s2[..|s0|] == s1[..|s1|][..|s0|];
    assert c2 - c0 == (c1 - c0) + (c2 - c1);
    forall k | k in c1 - c0
      ensures k in s2
    {
      var t :| 0 <= t < |s1| && s1[t] == k;
      assert s2[t] == k;
    }
    if exists k :: k in c1 && k !in c0 {
      var k :| k in c1 && k !in c0;
      assert k in c2;
    } else if exists k :: k in c2 && k !in c1 {
      var k :| k in c2 && k !in c1;
      assert k !in c0;
    }
  }

  /** `if (!visited[ni] && img[ni]) { visited[ni] = 1; stack.push(ni); comp.push(ni); }` */
  method Visit(img: array<int>, visited: array<int>, w: nat, h: nat, cur: int, ni: int,
               stack0: seq<int>, comp0: seq<int>, ghost cset0: set<int>, ghost V0: set<int>, ghost s: int)
    returns (stack: seq<int>, comp: seq<int>, ghost cset: set<int>)
    requires img.Length == w * h && visited.Length == w * h && img != visited
    requires FloodInv(img[..], w, h, s, V0, visited[..], stack0, comp0, cset0)
    requires cur in cset0 && Adj(w, h, cur, ni)
    modifies visited
    ensures FloodInv(img[..], w, h, s, V0, visited[..], stack, comp, cset)
    ensures Grows(stack0, cset0, old(ZSet(visited[..])), stack, cset, ZSet(visited[..]))
    ensures img[ni] != 0 ==> ni in V0 + cset
  {
    stack, comp, cset := stack0, comp0, cset0;
    if visited[ni] == 0 && img[ni] != 0 {
      ghost var v := visited[..];
      ConnectedStep(img[..], w, h, s, cur, ni);
      visited[ni] := 1;
      assert visited[..] == v[ni := 1];
      stack := stack + [ni];
      comp := comp + [ni];
      cset := cset + {ni};
      FloodAdd(img[..], w, h, s, V0, v, stack0, comp0, cset0, ni);
    } else if img[ni] != 0 {
      assert ni in VSet(visited[..]);
    }
  }

  /** Visiting the clear foreground pixel ni, connected to s, pushes it and keeps the fill's
      invariant. */
  lemma FloodAdd(m: seq<int>, w: nat, h: nat, s: int, V0: set<int>, v: seq<int>,
                 stack0: seq<int>, comp0: seq<int>, cset0: set<int>, ni: int)
    requires FloodInv(m, w, h, s, V0, v, stack0, comp0, cset0)
    requires 0 <= ni < |v| && v[ni] == 0 && Fg(m, ni) && Connected(m, w, h, s, ni)
    ensures FloodInv(m, w, h, s, V0, v[ni := 1], stack0 + [ni], comp0 + [ni], cset0 + {ni})
    ensures Grows(stack0, cset0, ZSet(v), stack0 + [ni], cset0 + {ni}, ZSet(v[ni := 1]))
  {
    MarkCell(v, ni);
    assert ni !in cset0;
    assert Elems(comp0 + [ni]) == Elems(comp0) + {ni};
    var stack := stack0 + [ni];
    assert (cset0 + {ni}) - cset0 == {ni};
    assert stack[|stack0|] == ni;
  }

  lemma NbVisitedStep(m: seq<int>, w: nat, h: nat, cx: int, cy: int, ox: int, oy: int,
                      V: set<int>, V': set<int>)
    requires |m| == w * h && NbVisited(m, w, h, cx, cy, ox, oy, V) && V <= V'
    requires (InBounds(w, h, cx + ox, cy + oy) && Px(m, w, h, cx + ox, cy + oy) != 0) ==>
               Idx(w, cx + ox, cy + oy) in V'
    ensures NbVisited(m, w, h, cx, cy, ox + 1, oy, V')
  {
  }

  lemma NbVisitedRow(m: seq<int>, w: nat, h: nat, cx: int, cy: int, oy: int, V: set<int>)
    requires |m| == w * h && NbVisited(m, w, h, cx, cy, 2, oy, V)
    ensures NbVisited(m, w, h, cx, cy, -1, oy + 1, V)
  {
  }

  /** The body of the neighbour loops for offset (ox, oy): skip the centre and out-of-bounds
      pixels, visit the others. (st, cs, zs) is the state the enclosing loop started from. */
  method VisitOffset(img: array<int>, visited: array<int>, w: nat, h: nat, cur: int, ox: int, oy: int,
                     stack0: seq<int>, comp0: seq<int>, ghost cset0: set<int>, ghost V0: set<int>, ghost s: int,
                     ghost st: seq<int>, ghost cs: set<int>, ghost zs: set<int>)
    returns (stack: seq<int>, comp: seq<int>, ghost cset: set<int>)
    requires img.Length == w * h && visited.Length == w * h && img != visited
    requires FloodInv(img[..], w, h, s, V0, visited[..], stack0, comp0, cset0) && cur in cset0
    requires 0 <= cur < w * h && Near(0, 0, ox, oy)
    requires Grows(st, cs, zs, stack0, cset0, ZSet(visited[..]))
    requires NbVisited(img[..], w, h, cur % w, cur / w, ox, oy, V0 + cset0)
    modifies visited
    ensures FloodInv(img[..], w, h, s, V0, visited[..], stack, comp, cset)
    ensures Grows(st, cs, zs, stack, cset, ZSet(visited[..])) && cset0 <= cset
    ensures NbVisited(img[..], w, h, cur % w, cur / w, ox + 1, oy, V0 + cset)
  {
    ghost var m := img[..];
    ghost var z1 := ZSet(visited[..]);
    stack, comp, cset := stack0, comp0, cset0;
    var cx, cy := cur % w, cur / w;
    Decompose(w, h, cur);
    var nx, ny := cx + ox, cy + oy;
    if ox == 0 && oy == 0 {
      NbVisitedStep(m, w, h, cx, cy, ox, oy, V0 + cset, V0 + cset);
      return;
    }
    if nx < 0 || nx >= w || ny < 0 || ny >= h {
      NbVisitedStep(m, w, h, cx, cy, ox, oy, V0 + cset, V0 + cset);
      return;
    }
    AdjCoords(w, h, cx, cy, ox, oy);
    var ni := ny * w + nx;
    assert A: cur == Idx(w, cx, cy) && ni == Idx(w, nx, ny);
    assert B: Adj(w, h, cur, ni);
    stack, comp, cset := Visit(img, visited, w, h, cur, ni, stack, comp, cset, V0, s);
    GrowsTrans(st, cs, zs, stack0, cset0, z1, stack, cset, ZSet(visited[..]));
    NbVisitedStep(m, w, h, cx, cy, ox, oy, V0 + cset0, V0 + cset);
  }

  /** The inner neighbour loop, over the column offsets of row offset oy. */
  method VisitRow(img: array<int>, visited: array<int>, w: nat, h: nat, cur: int, oy: int,
                  stack0: seq<int>, comp0: seq<int>, ghost cset0: set<int>, ghost V0: set<int>, ghost s: int,
                  ghost st: seq<int>, ghost cs: set<int>, ghost zs: set<int>)
    returns (stack: seq<int>, comp: seq<int>, ghost cset: set<int>)
    requires img.Length == w * h && visited.Length == w * h && img != visited && -1 <= oy <= 1
    requires FloodInv(img[..], w, h, s, V0, visited[..], stack0, comp0, cset0) && cur in cset0
    requires 0 <= cur < w * h && NbVisited(img[..], w, h, cur % w, cur / w, -1, oy, V0 + cset0)
    requires Grows(st, cs, zs, stack0, cset0, ZSet(visited[..]))
    modifies visited
    ensures FloodInv(img[..], w, h, s, V0, visited[..], stack, comp, cset)
    ensures Grows(st, cs, zs, stack, cset, ZSet(visited[..]))
    ensures NbVisited(img[..], w, h, cur % w, cur / w, -1, oy + 1, V0 + cset)
  {
    ghost var m := img[..];
    stack, comp, cset := stack0, comp0, cset0;
    var ox := -1;
    while ox <= 1
      invariant -1 <= ox <= 2
      invariant FloodInv(m, w, h, s, V0, visited[..], stack, comp, cset)
      invariant Grows(st, cs, zs, stack, cset, ZSet(visited[..])) && cur in cset
      invariant NbVisited(m, w, h, cur % w, cur / w, ox, oy, V0 + cset)
    {
      stack, comp, cset := VisitOffset(img, visited, w, h, cur, ox, oy, stack, comp, cset, V0, s, st, cs, zs);
      ox := ox + 1;
    }
    NbVisitedRow(m, w, h, cur % w, cur / w, oy, V0 + cset);
  }

  /** The neighbour loops of the flood fill for the popped pixel `cur`. */
  method VisitNeighbours(img: array<int>, visited: array<int>, w: nat, h: nat, cur: int,
                         stack0: seq<int>, comp0: seq<int>, ghost cset0: set<int>,
                         ghost V0: set<int>, ghost s: int)
    returns (stack: seq<int>, comp: seq<int>, ghost cset: set<int>)
    requires img.Length == w * h && visited.Length == w * h && img != visited
    requires FloodInv(img[..], w, h, s, V0, visited[..], stack0, comp0, cset0) && cur in cset0
    modifies visited
    ensures FloodInv(img[..], w, h, s, V0, visited[..], stack, comp, cset)
    ensures Grows(stack0, cset0, old(ZSet(visited[..])), stack, cset, ZSet(visited[..]))
    ensures forall j :: Adj(w, h, cur, j) && Fg(img[..], j) ==> j in V0 + cset
  {
    ghost var m := img[..];
    ghost var Z0 := ZSet(visited[..]);
    stack, comp, cset := stack0, comp0, cset0;
    var oy := -1;
    while oy <= 1
      invariant -1 <= oy <= 2
      invariant FloodInv(m, w, h, s, V0, visited[..], stack, comp, cset)
      invariant Grows(stack0, cset0, Z0, stack, cset, ZSet(visited[..]))
      invariant NbVisited(m, w, h, cur % w, cur / w, -1, oy, V0 + cset)
    {
      stack, comp, cset := VisitRow(img, visited, w, h, cur, oy, stack, comp, cset, V0, s, stack0, cset0, Z0);
      oy := oy + 1;
    }
    NbVisitedAll(m, w, h, cur, V0 + cset);
  }

  /** The foreground pixels a closed visited set leaves out stay out of a fill that avoids it. */
  lemma FillClosed(m: seq<int>, w: nat, h: nat, V0: set<int>, cset: set<int>)
    requires ClosedSet(m, w, h, V0) && cset !! V0
    requires forall k :: k in cset ==> Fg(m, k)
    requires forall k, j :: k in cset && Adj(w, h, k, j) && Fg(m, j) ==> j in V0 + cset
    ensures ClosedSet(m, w, h, cset) && ClosedSet(m, w, h, V0 + cset)
  {
    forall k, j | k in cset && Adj(w, h, k, j) && Fg(m, j)
      ensures j in cset
    {
      if j in V0 {
        AdjSym(w, h, k, j);
      }
    }
  }

  /** Every visited pixel of the fill that is no longer on the stack has had its foreground
      neighbours visited. */
  ghost predicate Finished(m: seq<int>, w: nat, h: nat, V0: set<int>, stack: seq<int>, cset: set<int>) {
    forall k, j :: k in cset && k !in stack && Adj(w, h, k, j) && Fg(m, j) ==> j in V0 + cset
  }

  /** Popping `cur` and visiting its neighbours keeps `Finished`, and lowers the termination
      measure: fewer clear cells, or the same cells and a shorter stack. */
  lemma FinishedStep(m: seq<int>, w: nat, h: nat, V0: set<int>, full: seq<int>, cur: int,
                     stack0: seq<int>, cset0: set<int>, z0: set<int>, stack: seq<int>, cset: set<int>, z: set<int>)
    requires |full| > 0 && cur == full[|full| - 1] && stack0 == full[..|full| - 1]
    requires Finished(m, w, h, V0, full, cset0) && Grows(stack0, cset0, z0, stack, cset, z)
    requires forall j :: Adj(w, h, cur, j) && Fg(m, j) ==> j in V0 + cset
    ensures Finished(m, w, h, V0, stack, cset)
    ensures z < z0 || (z == z0 && |stack| < |full|)
  {
    forall k, j | k in cset && k !in stack && Adj(w, h, k, j) && Fg(m, j)
      ensures j in V0 + cset
    {
      assert k in cset0;
      if k != cur {
        forall t | 0 <= t < |full|
          ensures full[t] != k
        {
          if t < |stack0| {
            assert full[t] == stack0[t] == stack[..|stack0|][t] == stack[t];
          }
        }
      }
    }
    if exists k :: k in cset && k !in cset0 {
      var k :| k in cset && k !in cset0;
      assert k in z0 && k !in z;
    }
  }

  /** The flood fill from the unvisited foreground pixel s: it marks and lists exactly the
      component of s, each pixel once. */
  method FloodFill(img: array<int>, visited: array<int>, w: nat, h: nat, s: int) returns (comp: seq<int>)
    requires img.Length == w * h && visited.Length == w * h && img != visited
    requires 0 <= s < w * h && img[s] != 0 && visited[s] == 0
    requires ClosedSet(img[..], w, h, VSet(visited[..]))
    requires forall k :: k in VSet(visited[..]) ==> Fg(img[..], k)
    modifies visited
    ensures Elems(comp) == Component(img[..], w, h, s) && |Elems(comp)| == |comp|
    ensures VSet(visited[..]) == VSet(old(visited[..])) + Elems(comp)
    ensures Elems(comp) !! VSet(old(visited[..]))
    ensures ClosedSet(img[..], w, h, VSet(visited[..]))
    ensures forall k :: k in VSet(visited[..]) ==> Fg(img[..], k)
  {
    ghost var m := img[..];
    ghost var V0 := VSet(visited[..]);
    visited[s] := 1;
    var stack := [s];
    comp := [s];
    ghost var cset := {s};
    ConnectedRefl(m, w, h, s);
    assert VSet(visited[..]) == V0 + cset;
    while |stack| > 0
      invariant FloodInv(m, w, h, s, V0, visited[..], stack, comp, cset)
      invariant Finished(m, w, h, V0, stack, cset)
      decreases ZSet(visited[..]), |stack|
    {
      var cur := stack[|stack| - 1];
      ghost var full := stack;
      ghost var z := ZSet(visited[..]);
      stack := stack[..|stack| - 1];
      ghost var (stack0, before) := (stack, cset);
      stack, comp, cset := VisitNeighbours(img, visited, w, h, cur, stack, comp, cset, V0, s);
      FinishedStep(m, w, h, V0, full, cur, stack0, before, z, stack, cset, ZSet(visited[..]));
    }
    FillClosed(m, w, h, V0, cset);
    ClosedContains(m, w, h, cset, s);
  }

  /** The state of the outer scan once it has reached flat index p: every foreground pixel
      before p is visited, the visited pixels are exactly the listed components, and each
      listed component is the component of its seed, listed without repetition, the seed being
      its first pixel in scan order. */
  ghost predicate ScanState(m: seq<int>, vis: seq<int>, comps: seq<seq<int>>, seeds: seq<int>,
                            w: nat, h: nat, p: int)
  {
    |m| == w * h && |vis| == w * h && |comps| == |seeds| && 0 <= p <= w * h &&
    ClosedSet(m, w, h, VSet(vis)) && (forall k :: k in VSet(vis) ==> Fg(m, k)) &&
    (forall k :: 0 <= k < p && Fg(m, k) ==> vis[k] != 0) &&
    (forall k :: k in VSet(vis) <==> exists t :: 0 <= t < |comps| && k in Elems(comps[t])) &&
    Recorded(m, w, h, comps, seeds, p)
  }

  /** Each recorded list is the component of its seed, without repeats, and its seed is its
      smallest pixel; the seeds are increasing and lie before p. */
  ghost predicate Recorded(m: seq<int>, w: nat, h: nat, comps: seq<seq<int>>, seeds: seq<int>, p: int) {
    |comps| == |seeds| &&
    (forall t :: 0 <= t < |comps| ==>
       Elems(comps[t]) == Component(m, w, h, seeds[t]) && |Elems(comps[t])| == |comps[t]| &&
       Fg(m, seeds[t]) && seeds[t] < p && forall j :: j in Elems(comps[t]) ==> seeds[t] <= j) &&
    (forall t, u :: 0 <= t < u < |comps| ==> seeds[t] < seeds[u])
  }

  lemma RecordedPush(m: seq<int>, w: nat, h: nat, comps: seq<seq<int>>, seeds: seq<int>, i: int, comp: seq<int>)
    requires Recorded(m, w, h, comps, seeds, i)
    requires Elems(comp) == Component(m, w, h, i) && |Elems(comp)| == |comp| && Fg(m, i)
    requires forall j :: j in Elems(comp) ==> i <= j
    ensures Recorded(m, w, h, comps + [comp], seeds + [i], i + 1)
  {
  }

  /** The scan's step at flat index i: skip it, or flood-fill from it and record the component. */
  method ScanPixel(img: array<int>, visited: array<int>, w: nat, h: nat, i: int,
                   comps0: seq<seq<int>>, ghost seeds0: seq<int>)
    returns (comps: seq<seq<int>>, ghost seeds: seq<int>)
    requires img.Length == w * h && visited.Length == w * h && img != visited && 0 <= i < w * h
    requires ScanState(img[..], visited[..], comps0, seeds0, w, h, i)
    modifies visited
    ensures ScanState(img[..], visited[..], comps, seeds, w, h, i + 1)
  {
    comps, seeds := comps0, seeds0;
    if img[i] == 0 || visited[i] != 0 {
      ScanSkip(img[..], visited[..], comps, seeds, w, h, i);
      return;
    }
    ghost var v0 := visited[..];
    var comp := FloodFill(img, visited, w, h, i);
    ScanRecord(img[..], v0, visited[..], comps0, seeds0, w, h, i, comp);
    comps := comps + [comp];
    seeds := seeds + [i];
  }

  lemma ScanSkip(m: seq<int>, vis: seq<int>, comps: seq<seq<int>>, seeds: seq<int>, w: nat, h: nat, i: int)
    requires ScanState(m, vis, comps, seeds, w, h, i) && 0 <= i < w * h
    requires m[i] == 0 || vis[i] != 0
    ensures ScanState(m, vis, comps, seeds, w, h, i + 1)
  {
  }

  /** Recording the component flood-filled from the unvisited foreground pixel i keeps the scan's
      invariant: the visited set is still the union of the recorded components. */
  lemma ScanRecord(m: seq<int>, v0: seq<int>, v1: seq<int>, comps0: seq<seq<int>>, seeds0: seq<int>,
                   w: nat, h: nat, i: int, comp: seq<int>)
    requires ScanState(m, v0, comps0, seeds0, w, h, i) && 0 <= i < w * h && m[i] != 0 && v0[i] == 0
    requires |v1| == w * h
    requires Elems(comp) == Component(m, w, h, i) && |Elems(comp)| == |comp|
    requires VSet(v1) == VSet(v0) + Elems(comp) && Elems(comp) !! VSet(v0)
    requires ClosedSet(m, w, h, VSet(v1)) && forall k :: k in VSet(v1) ==> Fg(m, k)
    ensures ScanState(m, v1, comps0 + [comp], seeds0 + [i], w, h, i + 1)
  {
    SeedSmallest(m, v0, i, Elems(comp));
    ScanUnion(m, v0, v1, comps0, seeds0, w, h, i, comp);
    RecordedPush(m, w, h, comps0, seeds0, i, comp);
    ConnectedRefl(m, w, h, i);
    ScanCovered(m, v0, v1, i, Elems(comp));
  }

  /** A set of foreground cells disjoint from the visited ones, when every foreground cell
      before i is visited, has no member before i. */
  lemma SeedSmallest(m: seq<int>, v0: seq<int>, i: int, C: set<int>)
    requires |v0| == |m| && forall k :: 0 <= k < i && Fg(m, k) ==> v0[k] != 0
    requires C !! VSet(v0) && forall k :: k in C ==> Fg(m, k)
    ensures forall j :: j in C ==> i <= j
  {
    forall j | j in C
      ensures i <= j
    {
      assert j !in VSet(v0);
      assert !(0 <= j < |v0| && v0[j] != 0);
    }
  }

  lemma ScanCovered(m: seq<int>, v0: seq<int>, v1: seq<int>, i: int, C: set<int>)
    requires 0 <= i < |v0| == |v1| == |m| && i in C
    requires forall k :: 0 <= k < i && Fg(m, k) ==> v0[k] != 0
    requires VSet(v1) == VSet(v0) + C
    ensures forall k :: 0 <= k < i + 1 && Fg(m, k) ==> v1[k] != 0
  {
    forall k | 0 <= k < i + 1 && Fg(m, k)
      ensures v1[k] != 0
    {
      if k == i {
        assert k in VSet(v1);
      } else {
        assert k in VSet(v0);
      }
    }
  }


  lemma ScanUnion(m: seq<int>, v0: seq<int>, v1: seq<int>, comps0: seq<seq<int>>, seeds0: seq<int>,
                  w: nat, h: nat, i: int, comp: seq<int>)
    requires ScanState(m, v0, comps0, seeds0, w, h, i)
    requires VSet(v1) == VSet(v0) + Elems(comp)
    ensures forall k :: k in VSet(v1) <==> exists t :: 0 <= t < |comps0 + [comp]| && k in Elems((comps0 + [comp])[t])
  {
    var comps := comps0 + [comp];
    forall k
      ensures k in VSet(v1) <==> exists t :: 0 <= t < |comps| && k in Elems(comps[t])
    {
      if k in Elems(comp) {
        assert k in Elems(comps[|comps| - 1]);
      }
      if k in VSet(v0) {
        var t :| 0 <= t < |comps0| && k in Elems(comps0[t]);
        assert k in Elems(comps[t]);
      }
    }
  }

  /** `comps[0]` after the stable sort by decreasing length: the first of the longest lists. */
  method FirstLongest(comps: seq<seq<int>>) returns (best: int)
    requires |comps| > 0
    ensures 0 <= best < |comps|
    ensures forall t :: 0 <= t < |comps| ==> |comps[t]| <= |comps[best]|
    ensures forall t :: 0 <= t < best ==> |comps[t]| < |comps[best]|
  {
    best := 0;
    var t := 1;
    while t < |comps|
      invariant 0 <= best < t <= |comps|
      invariant forall u :: 0 <= u < t ==> |comps[u]| <= |comps[best]|
      invariant forall u :: 0 <= u < best ==> |comps[u]| < |comps[best]|
    {
      if |comps[t]| > |comps[best]| {
        best := t;
      }
      t := t + 1;
    }
  }

  /** `main` with `comps[0].forEach(i => main[i] = 1)`. */
  method Paint(n: nat, comp: seq<int>) returns (main: array<int>)
    requires forall j :: 0 <= j < |comp| ==> 0 <= comp[j] < n
    ensures main[..] == Indicator(Elems(comp), n)
    ensures fresh(main)
  {
    main := new int[n](_ => 0);
    var j := 0;
    while j < |comp|
      invariant 0 <= j <= |comp| && main.Length == n
      invariant forall k :: 0 <= k < n ==> main[k] == if k in comp[..j] then 1 else 0
    {
      main[comp[j]] := 1;
      assert comp[..j + 1] == comp[..j] + [comp[j]];
      j := j + 1;
    }
    assert comp[..j] == comp;
  }

  /** At the end of the scan, the first longest listed component is the component of the
      largest seed. */
  lemma ChosenIsLargest(m: seq<int>, vis: seq<int>, comps: seq<seq<int>>, seeds: seq<int>,
                        w: nat, h: nat, best: int)
    requires ScanState(m, vis, comps, seeds, w, h, w * h) && 0 <= best < |comps|
    requires forall t :: 0 <= t < |comps| ==> |comps[t]| <= |comps[best]|
    requires forall t :: 0 <= t < best ==> |comps[t]| < |comps[best]|
    ensures IsLargestSeed(m, w, h, seeds[best])
  {
    forall k | Fg(m, k)
      ensures |Component(m, w, h, k)| < |Component(m, w, h, seeds[best])| ||
              (|Component(m, w, h, k)| == |Component(m, w, h, seeds[best])| && seeds[best] <= k)
    {
      assert k in VSet(vis);
      var t :| 0 <= t < |comps| && k in Elems(comps[t]);
      ChosenBeats(m, w, h, comps, seeds, best, t, k);
    }
  }

  /** The chosen list against the list t that holds pixel k. */
  lemma ChosenBeats(m: seq<int>, w: nat, h: nat, comps: seq<seq<int>>, seeds: seq<int>,
                    best: int, t: int, k: int)
    requires Recorded(m, w, h, comps, seeds, w * h) && 0 <= best < |comps| && 0 <= t < |comps|
    requires |comps[t]| <= |comps[best]|
    requires forall u :: 0 <= u < best ==> |comps[u]| < |comps[best]|
    requires k in Elems(comps[t])
    ensures |Component(m, w, h, k)| < |Component(m, w, h, seeds[best])| ||
            (|Component(m, w, h, k)| == |Component(m, w, h, seeds[best])| && seeds[best] <= k)
  {
    ComponentOfMember(m, w, h, seeds[t], k);
    var b := seeds[best];
    assert |Component(m, w, h, k)| == |comps[t]| && |Component(m, w, h, b)| == |comps[best]|;
    if |comps[t]| == |comps[best]| {
      assert best <= t;
      assert b <= seeds[t] <= k;
    }
  }

  /** The scan of row y of the image. */
  method ScanRow(img: array<int>, visited: array<int>, w: nat, h: nat, y: int,
                 comps0: seq<seq<int>>, ghost seeds0: seq<int>)
    returns (comps: seq<seq<int>>, ghost seeds: seq<int>)
    requires img.Length == w * h && visited.Length == w * h && img != visited && 0 <= y < h
    requires ScanState(img[..], visited[..], comps0, seeds0, w, h, Idx(w, 0, y))
    modifies visited
    ensures ScanState(img[..], visited[..], comps, seeds, w, h, Idx(w, 0, y + 1))
  {
    comps, seeds := comps0, seeds0;
    RowSpan(w, h, y);
    var x := 0;
    while x < w
      invariant 0 <= x <= w
      invariant ScanState(img[..], visited[..], comps, seeds, w, h, Idx(w, x, y))
    {
      IdxRange(w, h, x, y);
      comps, seeds := ScanPixel(img, visited, w, h, y * w + x, comps, seeds);
      x := x + 1;
    }
    IdxNextRow(w, y);
  }

  /** A finished scan that recorded nothing saw no foreground pixel. */
  lemma NoComponents(m: seq<int>, vis: seq<int>, comps: seq<seq<int>>, seeds: seq<int>, w: nat, h: nat)
    requires ScanState(m, vis, comps, seeds, w, h, w * h) && |comps| == 0
    ensures AllZero(m)
  {
    forall k | 0 <= k < w * h
      ensures m[k] == 0
    {
      assert k !in VSet(vis);
    }
  }

  /** `largestComponent`: a mask with no foreground comes back unchanged; otherwise the result
      is the indicator of the component of the largest seed. */
  method LargestComponent(mask: array<int>, w: nat, h: nat) returns (r: array<int>)
    requires mask.Length == w * h
    ensures AllZero(mask[..]) ==> r[..] == mask[..]
    ensures !AllZero(mask[..]) ==>
      exists s :: IsLargestSeed(mask[..], w, h, s) && r[..] == Indicator(Component(mask[..], w, h, s), w * h)
    ensures fresh(r)
  {
    var img := CopyBuffer(mask);
    var visited := new int[w * h](_ => 0);
    var comps: seq<seq<int>> := [];
    ghost var seeds: seq<int> := [];
    assert VSet(visited[..]) == {};
    var y := 0;
    while y < h
      invariant 0 <= y <= h && img[..] == mask[..]
      invariant ScanState(img[..], visited[..], comps, seeds, w, h, Idx(w, 0, y))
    {
      comps, seeds := ScanRow(img, visited, w, h, y, comps, seeds);
      y := y + 1;
    }
    assert Idx(w, 0, h) == w * h;
    ghost var m := mask[..];
    if |comps| == 0 {
      NoComponents(m, visited[..], comps, seeds, w, h);
      return img;
    }
    assert Fg(m, seeds[0]);
    var best := FirstLongest(comps);
    ChosenIsLargest(m, visited[..], comps, seeds, w, h, best);
    forall j | 0 <= j < |comps[best]|
      ensures 0 <= comps[best][j] < w * h
    {
      assert comps[best][j] in Elems(comps[best]);
    }
    r := Paint(w * h, comps[best]);
  }
}

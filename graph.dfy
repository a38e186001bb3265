/** The 8-connected pixel graph of a mask, on flat indices: foreground pixels are the nodes, and
    two distinct pixels whose columns and rows each differ by at most one are adjacent. */
module Graph {
  import opened Grid

  predicate Fg(m: seq<int>, i: int) { 0 <= i < |m| && m[i] != 0 }

  /** i and j are distinct pixels of a w-by-h image that touch at a side or a corner. */
  predicate Adj(w: nat, h: nat, i: int, j: int) {
    0 <= i < w * h && 0 <= j < w * h && i != j &&
    -1 <= j % w - i % w <= 1 && -1 <= j / w - i / w <= 1
  }

  /** A walk through foreground pixels, each step to an adjacent pixel. */
  ghost predicate IsPath(m: seq<int>, w: nat, h: nat, p: seq<int>) {
    |p| > 0 && (forall k :: 0 <= k < |p| ==> Fg(m, p[k])) &&
    forall k :: 0 <= k < |p| - 1 ==> Adj(w, h, p[k], p[k + 1])
  }

  ghost predicate Connected(m: seq<int>, w: nat, h: nat, i: int, j: int) {
    exists p :: IsPath(m, w, h, p) && p[0] == i && p[|p| - 1] == j
  }

  /** The 8-connected component of s: every pixel a foreground walk from s reaches. */
  ghost function Component(m: seq<int>, w: nat, h: nat, s: int): set<int> {
    set j | 0 <= j < w * h && Connected(m, w, h, s, j)
  }

  /** No foreground pixel adjacent to a member of S is missing from S. */
  ghost predicate ClosedSet(m: seq<int>, w: nat, h: nat, S: set<int>) {
    forall k, j :: k in S && Adj(w, h, k, j) && Fg(m, j) ==> j in S
  }

  lemma AdjSym(w: nat, h: nat, i: int, j: int)
    ensures Adj(w, h, i, j) <==> Adj(w, h, j, i)
  {
  }

  /** Adjacency in pixel coordinates: (x, y) and (x + a, y + b) for an offset other than (0, 0). */
  lemma AdjCoords(w: nat, h: nat, x: int, y: int, a: int, b: int)
    requires InBounds(w, h, x, y) && InBounds(w, h, x + a, y + b)
    ensures 0 <= Idx(w, x, y) < w * h && 0 <= Idx(w, x + a, y + b) < w * h
    ensures Adj(w, h, Idx(w, x, y), Idx(w, x + a, y + b)) <==> Near(0, 0, a, b) && (a, b) != (0, 0)
  {
    IdxRange(w, h, x, y);
    IdxRange(w, h, x + a, y + b);
    IdxCoords(w, x, y);
    IdxCoords(w, x + a, y + b);
  }

  lemma ConnectedRefl(m: seq<int>, w: nat, h: nat, i: int)
    requires Fg(m, i)
    ensures Connected(m, w, h, i, i)
  {
    assert IsPath(m, w, h, [i]);
  }

  /** A walk to k extends by one step to an adjacent foreground pixel j. */
  lemma ConnectedStep(m: seq<int>, w: nat, h: nat, i: int, k: int, j: int)
    requires Connected(m, w, h, i, k) && Adj(w, h, k, j) && Fg(m, j)
    ensures Connected(m, w, h, i, j)
  {
    var p :| IsPath(m, w, h, p) && p[0] == i && p[|p| - 1] == k;
    var q := p + [j];
    assert IsPath(m, w, h, q) && q[0] == i && q[|q| - 1] == j;
  }

  /** The walk read backwards (also `Array.prototype.reverse` on a list). */
  function Reverse<T>(p: seq<T>): (r: seq<T>)
    ensures |r| == |p| && forall k :: 0 <= k < |p| ==> r[k] == p[|p| - 1 - k]
  {
    if |p| == 0 then [] else Reverse(p[1..]) + [p[0]]
  }

  lemma ConnectedSym(m: seq<int>, w: nat, h: nat, i: int, j: int)
    requires Connected(m, w, h, i, j)
    ensures Connected(m, w, h, j, i)
  {
    var p :| IsPath(m, w, h, p) && p[0] == i && p[|p| - 1] == j;
    var q := Reverse(p);
    forall k | 0 <= k < |q| - 1
      ensures Adj(w, h, q[k], q[k + 1])
    {
      AdjSym(w, h, p[|p| - 1 - k], p[|p| - 2 - k]);
    }
    assert IsPath(m, w, h, q) && q[0] == j && q[|q| - 1] == i;
  }

  lemma ConnectedTrans(m: seq<int>, w: nat, h: nat, i: int, k: int, j: int)
    requires Connected(m, w, h, i, k) && Connected(m, w, h, k, j)
    ensures Connected(m, w, h, i, j)
  {
    var p :| IsPath(m, w, h, p) && p[0] == i && p[|p| - 1] == k;
    var q :| IsPath(m, w, h, q) && q[0] == k && q[|q| - 1] == j;
    var r := p + q[1..];
    assert r[..|p|] == p;
    forall t | 0 <= t < |r| - 1
      ensures Adj(w, h, r[t], r[t + 1])
    {
      if t < |p| - 1 {
        assert r[t] == p[t] && r[t + 1] == p[t + 1];
      } else {
        assert r[t] == q[t - |p| + 1] && r[t + 1] == q[t - |p| + 2];
      }
    }
    assert IsPath(m, w, h, r) && r[0] == i && r[|r| - 1] == j;
  }

  /** Every pixel of a walk that starts in a closed set lies in it. */
  lemma {:induction false} PathInClosed(m: seq<int>, w: nat, h: nat, S: set<int>, p: seq<int>)
    requires ClosedSet(m, w, h, S) && IsPath(m, w, h, p) && p[0] in S
    ensures p[|p| - 1] in S
    decreases |p|
  {
    if |p| > 1 {
      var q := p[..|p| - 1];
      assert IsPath(m, w, h, q);
      PathInClosed(m, w, h, S, q);
      assert Adj(w, h, q[|q| - 1], p[|p| - 1]);
    }
  }

  /** A closed set contains the whole component of each of its members. */
  lemma ClosedContains(m: seq<int>, w: nat, h: nat, S: set<int>, s: int)
    requires ClosedSet(m, w, h, S) && s in S
    ensures Component(m, w, h, s) <= S
  {
    forall j | j in Component(m, w, h, s)
      ensures j in S
    {
      var p :| IsPath(m, w, h, p) && p[0] == s && p[|p| - 1] == j;
      PathInClosed(m, w, h, S, p);
    }
  }

  /** A pixel of a component has that same component; so two components are equal or disjoint. */
  lemma ComponentOfMember(m: seq<int>, w: nat, h: nat, s: int, k: int)
    requires k in Component(m, w, h, s)
    ensures Component(m, w, h, k) == Component(m, w, h, s)
  {
    forall j | j in Component(m, w, h, k)
      ensures j in Component(m, w, h, s)
    {
      ConnectedTrans(m, w, h, s, k, j);
    }
    forall j | j in Component(m, w, h, s)
      ensures j in Component(m, w, h, k)
    {
      ConnectedSym(m, w, h, s, k);
      ConnectedTrans(m, w, h, k, s, j);
    }
  }

  /** A component consists of foreground pixels, contains its pixel when that is foreground, and
      is closed under adjacency. */
  lemma ComponentShape(m: seq<int>, w: nat, h: nat, s: int)
    requires |m| == w * h
    ensures forall j :: j in Component(m, w, h, s) ==> Fg(m, j)
    ensures Fg(m, s) <==> s in Component(m, w, h, s)
    ensures ClosedSet(m, w, h, Component(m, w, h, s))
  {
    forall j | j in Component(m, w, h, s)
      ensures Fg(m, j)
    {
      var p :| IsPath(m, w, h, p) && p[0] == s && p[|p| - 1] == j;
    }
    if Fg(m, s) {
      ConnectedRefl(m, w, h, s);
    }
    if s in Component(m, w, h, s) {
      var p :| IsPath(m, w, h, p) && p[0] == s && p[|p| - 1] == s;
    }
    forall k, j | k in Component(m, w, h, s) && Adj(w, h, k, j) && Fg(m, j)
      ensures j in Component(m, w, h, s)
    {
      ConnectedStep(m, w, h, s, k, j);
    }
  }
}

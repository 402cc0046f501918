/**
  The maze as an undirected graph on cells, read straight from the wall
  flags: a cell and its right neighbour are joined when the cell has no
  right wall, a cell and the one below when it has no down wall. This is
  the reference meaning of "open passage" used by the solver and by the
  generator's connectivity theorem.

  A grid is a `seq<seq<Flags>>` of `|g|` rows, each `cols` cells wide.
 */
module Grid {
  import opened Walls

  type Cell = (int, int)

  predicate WellFormed(g: seq<seq<Flags>>, cols: int) {
    cols >= 0 && forall i :: 0 <= i < |g| ==> |g[i]| == cols
  }

  predicate InBounds(g: seq<seq<Flags>>, cols: int, c: Cell) {
    0 <= c.0 < |g| && 0 <= c.1 < cols
  }

  /** One step through an open passage, in either direction. */
  predicate Adjacent(g: seq<seq<Flags>>, cols: int, a: Cell, b: Cell)
    requires WellFormed(g, cols)
  {
    && InBounds(g, cols, a)
    && InBounds(g, cols, b)
    && (|| (b.0 == a.0 && b.1 == a.1 + 1 && !g[a.0][a.1].right)
        || (b.0 == a.0 && b.1 == a.1 - 1 && !g[b.0][b.1].right)
        || (b.1 == a.1 && b.0 == a.0 + 1 && !g[a.0][a.1].down)
        || (b.1 == a.1 && b.0 == a.0 - 1 && !g[b.0][b.1].down))
  }

  /** A sequence of cells, each one step from the previous. */
  predicate IsWalk(g: seq<seq<Flags>>, cols: int, p: seq<Cell>)
    requires WellFormed(g, cols)
  {
    && |p| >= 1
    && (forall k :: 0 <= k < |p| ==> InBounds(g, cols, p[k]))
    && (forall k :: 0 <= k < |p| - 1 ==> Adjacent(g, cols, p[k], p[k + 1]))
  }

  ghost predicate Connected(g: seq<seq<Flags>>, cols: int, a: Cell, b: Cell)
    requires WellFormed(g, cols)
  {
    exists p :: IsWalk(g, cols, p) && p[0] == a && p[|p| - 1] == b
  }

  /** Every pair of cells is joined by some walk. */
  ghost predicate AllConnected(g: seq<seq<Flags>>, cols: int)
    requires WellFormed(g, cols)
  {
    forall a, b :: InBounds(g, cols, a) && InBounds(g, cols, b) ==> Connected(g, cols, a, b)
  }

  lemma AdjacentSymmetric(g: seq<seq<Flags>>, cols: int, a: Cell, b: Cell)
    requires WellFormed(g, cols)
    ensures Adjacent(g, cols, a, b) <==> Adjacent(g, cols, b, a)
  {
  }

  lemma ConnectedRefl(g: seq<seq<Flags>>, cols: int, a: Cell)
    requires WellFormed(g, cols) && InBounds(g, cols, a)
    ensures Connected(g, cols, a, a)
  {
    assert IsWalk(g, cols, [a]);
  }

  lemma ConnectedStep(g: seq<seq<Flags>>, cols: int, a: Cell, b: Cell)
    requires WellFormed(g, cols) && Adjacent(g, cols, a, b)
    ensures Connected(g, cols, a, b)
  {
    assert IsWalk(g, cols, [a, b]);
  }

  function Reverse<T>(p: seq<T>): (r: seq<T>)
    ensures |r| == |p|
    ensures forall k :: 0 <= k < |p| ==> r[k] == p[|p| - 1 - k]
  {
    if |p| == 0 then [] else Reverse(p[1..]) + [p[0]]
  }

  lemma ConnectedSym(g: seq<seq<Flags>>, cols: int, a: Cell, b: Cell)
    requires WellFormed(g, cols) && Connected(g, cols, a, b)
    ensures Connected(g, cols, b, a)
  {
    var p :| IsWalk(g, cols, p) && p[0] == a && p[|p| - 1] == b;
    var q := Reverse(p);
    forall k | 0 <= k < |q| - 1
      ensures Adjacent(g, cols, q[k], q[k + 1])
    {
      AdjacentSymmetric(g, cols, p[|p| - 2 - k], p[|p| - 1 - k]);
    }
    assert IsWalk(g, cols, q);
  }

  lemma ConnectedTrans(g: seq<seq<Flags>>, cols: int, a: Cell, b: Cell, c: Cell)
    requires WellFormed(g, cols)
    requires Connected(g, cols, a, b) && Connected(g, cols, b, c)
    ensures Connected(g, cols, a, c)
  {
    var p :| IsWalk(g, cols, p) && p[0] == a && p[|p| - 1] == b;
    var q :| IsWalk(g, cols, q) && q[0] == b && q[|q| - 1] == c;
    var w := p + q[1..];
    forall k | 0 <= k < |w| - 1
      ensures Adjacent(g, cols, w[k], w[k + 1])
    {
      if k < |p| - 1 {
        assert w[k] == p[k] && w[k + 1] == p[k + 1];
      } else {
        assert w[k] == q[k - |p| + 1] && w[k + 1] == q[k - |p| + 2];
      }
    }
    assert IsWalk(g, cols, w);
  }

  /** Cells joined by a passage are connected. */
  lemma AdjacentConnected(g: seq<seq<Flags>>, cols: int, a: Cell, b: Cell)
    requires WellFormed(g, cols)
    ensures Adjacent(g, cols, a, b) ==> Connected(g, cols, a, b)
  {
    if Adjacent(g, cols, a, b) {
      ConnectedStep(g, cols, a, b);
    }
  }

  /** A shortest walk between two distinct cells joined by a passage is the single step between them. */
  lemma ShortestStep(g: seq<seq<Flags>>, cols: int, path: seq<Cell>, a: Cell, b: Cell)
    requires WellFormed(g, cols) && a != b && Adjacent(g, cols, a, b)
    requires IsWalk(g, cols, path) && path[0] == a && path[|path| - 1] == b
    requires forall w :: IsWalk(g, cols, w) && w[0] == a && w[|w| - 1] == b ==> |path| <= |w|
    ensures path == [a, b]
  {
    assert IsWalk(g, cols, [a, b]);
  }

  /**
    Walks of a grid are walks of every grid that extends it by more rows:
    a passage is read from the cells it joins, which the extension keeps.
   */
  lemma ConnectedExtend(h: seq<seq<Flags>>, g: seq<seq<Flags>>, cols: int, a: Cell, b: Cell)
    requires WellFormed(h, cols) && WellFormed(g, cols)
    requires |h| <= |g| && g[..|h|] == h
    requires Connected(h, cols, a, b)
    ensures Connected(g, cols, a, b)
  {
    var p: seq<Cell> :| IsWalk(h, cols, p) && p[0] == a && p[|p| - 1] == b;
    forall k | 0 <= k < |p| - 1
      ensures Adjacent(g, cols, p[k], p[k + 1])
    {
      assert Adjacent(h, cols, p[k], p[k + 1]);
      assert g[p[k].0] == h[p[k].0] && g[p[k + 1].0] == h[p[k + 1].0];
    }
    assert IsWalk(g, cols, p);
  }

  /** Number of `a` with `j <= a < |row| - 1` and no wall between `a` and `a + 1`. */
  function OpenRight(row: seq<Flags>, j: nat): nat
    decreases |row| - j
  {
    if j + 1 >= |row| then 0
    else (if row[j].right then 0 else 1) + OpenRight(row, j + 1)
  }

  /** Number of `a` with `j <= a < |row|` and no down wall. */
  function OpenDown(row: seq<Flags>, j: nat): nat
    decreases |row| - j
  {
    if j >= |row| then 0
    else (if row[j].down then 0 else 1) + OpenDown(row, j + 1)
  }

  /**
    Number of open passages of a grid: the horizontal ones inside each
    row, and the vertical ones from each row into the next (the bottom
    row's down flags lead nowhere and are not counted).
   */
  function Passages(g: seq<seq<Flags>>): nat {
    if |g| == 0 then 0
    else if |g| == 1 then OpenRight(g[0], 0)
    else Passages(g[..|g| - 1]) + OpenDown(g[|g| - 2], 0) + OpenRight(g[|g| - 1], 0)
  }

  /** `OpenRight` from `j` on reads only the right walls from `j` on. */
  lemma {:induction false} OpenRightFrame(r1: seq<Flags>, r2: seq<Flags>, j: nat)
    requires |r1| == |r2|
    requires forall a :: j <= a < |r1| ==> r1[a].right == r2[a].right
    ensures OpenRight(r1, j) == OpenRight(r2, j)
    decreases |r1| - j
  {
    if j + 1 < |r1| {
      OpenRightFrame(r1, r2, j + 1);
    }
  }

  /**
    A grid grown by one row gains the down passages out of its old last
    row and the horizontal passages of the new one.
   */
  lemma PassagesSnoc(pre: seq<seq<Flags>>, row: seq<Flags>)
    ensures Passages(pre + [row]) ==
      (if |pre| == 0 then 0 else Passages(pre) + OpenDown(pre[|pre| - 1], 0)) + OpenRight(row, 0)
  {
    var g := pre + [row];
    assert g[..|g| - 1] == pre;
    assert g[|g| - 1] == row;
  }
}

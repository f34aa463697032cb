/** Breadth-first layers of the grassfire planner, stated on the grid as it was
    before the search: which cells are reachable from the start cell in at most
    k orthogonal moves through free cells, and what that says about walks. */
module Layers {

  /** Grid size of grassfire.c */
  const ROWS: int := 36
  const COLS: int := 20

  /** Cell codes of grassfire.c */
  const START: int := 0
  const FREE: int := -1
  const DESTINATION: int := -2
  const OBSTACLE: int := -3
  const INVALID: int := -4

  type Cell = (int, int)

  /** The grid before the search: the code held by each coordinate (only
      in-bounds coordinates matter). */
  type Layout = (int, int) -> int

  predicate InBounds(row: int, col: int) {
    0 <= row < ROWS && 0 <= col < COLS
  }

  /** a and b share a side */
  predicate Adjacent(a: Cell, b: Cell) {
    (a.0 == b.0 && (a.1 == b.1 + 1 || a.1 + 1 == b.1)) ||
    (a.1 == b.1 && (a.0 == b.0 + 1 || a.0 + 1 == b.0))
  }

  /** A free cell of the initial grid */
  ghost predicate Open(g: Layout, row: int, col: int) {
    InBounds(row, col) && g(row, col) == FREE
  }

  /** Cell (row, col) can be reached from the start cell in at most k
      orthogonal moves, every cell after the start being free. */
  ghost predicate Within(g: Layout, row: int, col: int, k: int)
    decreases k
  {
    if k < 0 then false
    else if k == 0 then InBounds(row, col) && g(row, col) == START
    else
      Within(g, row, col, k - 1) ||
      (Open(g, row, col) &&
       (Within(g, row, col + 1, k - 1) || Within(g, row - 1, col, k - 1) ||
        Within(g, row, col - 1, k - 1) || Within(g, row + 1, col, k - 1)))
  }

  /** The shortest distance from the start cell to (row, col) is exactly v */
  ghost predicate ShortestIs(g: Layout, row: int, col: int, v: int) {
    Within(g, row, col, v) && !Within(g, row, col, v - 1)
  }

  /** Some neighbour of the destination cell is within k moves of the start */
  ghost predicate NearGoal(g: Layout, goal: Cell, k: int) {
    Within(g, goal.0, goal.1 + 1, k) || Within(g, goal.0 - 1, goal.1, k) ||
    Within(g, goal.0, goal.1 - 1, k) || Within(g, goal.0 + 1, goal.1, k)
  }

  /** A walk: starts on a start cell, then moves one orthogonal step at a
      time, always onto a free cell. */
  ghost predicate IsWalk(g: Layout, w: seq<Cell>) {
    |w| > 0 && InBounds(w[0].0, w[0].1) && g(w[0].0, w[0].1) == START &&
    forall i :: 1 <= i < |w| ==> Open(g, w[i].0, w[i].1) && Adjacent(w[i - 1], w[i])
  }

  /** One shortest path to the destination: a walk whose v-th cell lies at
      distance exactly v, whose last cell touches the destination, while no
      cell nearer to the start does. */
  ghost predicate ShortestPath(g: Layout, goal: Cell, path: seq<Cell>) {
    IsWalk(g, path) && Adjacent(path[|path| - 1], goal) &&
    !NearGoal(g, goal, |path| - 2) &&
    forall v :: 0 <= v < |path| ==> ShortestIs(g, path[v].0, path[v].1, v)
  }

  lemma {:induction false} WithinMonotone(g: Layout, row: int, col: int, j: int, k: int)
    requires j <= k && Within(g, row, col, j)
    ensures Within(g, row, col, k)
    decreases k - j
  {
    if j < k {
      WithinMonotone(g, row, col, j, k - 1);
    }
  }

  /** Only the start cell and free cells are ever reached */
  lemma {:induction false} WithinCell(g: Layout, row: int, col: int, k: int)
    requires Within(g, row, col, k)
    ensures InBounds(row, col)
    ensures g(row, col) == START || Open(g, row, col)
    decreases k
  {
    if k > 0 && Within(g, row, col, k - 1) {
      WithinCell(g, row, col, k - 1);
    }
  }

  /** A cell has at most one distance */
  lemma ShortestUnique(g: Layout, row: int, col: int, a: int, b: int)
    requires ShortestIs(g, row, col, a) && ShortestIs(g, row, col, b)
    ensures a == b
  {
    if a < b {
      WithinMonotone(g, row, col, a, b - 1);
    } else if b < a {
      WithinMonotone(g, row, col, b, a - 1);
    }
  }

  /** A cell at distance v >= 1 is free and has a neighbour at distance v - 1 */
  lemma Predecessor(g: Layout, row: int, col: int, v: int) returns (n: Cell)
    requires v >= 1 && ShortestIs(g, row, col, v)
    ensures Open(g, row, col)
    ensures Adjacent((row, col), n) && ShortestIs(g, n.0, n.1, v - 1)
  {
    if Within(g, row, col + 1, v - 1) {
      n := (row, col + 1);
    } else if Within(g, row - 1, col, v - 1) {
      n := (row - 1, col);
    } else if Within(g, row, col - 1, v - 1) {
      n := (row, col - 1);
    } else {
      n := (row + 1, col);
    }
  }

  /** A destination first touched at distance d has a neighbour at distance d */
  lemma GoalPredecessor(g: Layout, goal: Cell, d: int) returns (n: Cell)
    requires NearGoal(g, goal, d) && !NearGoal(g, goal, d - 1)
    ensures Adjacent(goal, n) && ShortestIs(g, n.0, n.1, d)
  {
    if Within(g, goal.0, goal.1 + 1, d) {
      n := (goal.0, goal.1 + 1);
    } else if Within(g, goal.0 - 1, goal.1, d) {
      n := (goal.0 - 1, goal.1);
    } else if Within(g, goal.0, goal.1 - 1, d) {
      n := (goal.0, goal.1 - 1);
    } else {
      n := (goal.0 + 1, goal.1);
    }
  }

  /** A free cell beside a cell within d moves is within d + 1 moves */
  lemma NeighbourWithin(g: Layout, row: int, col: int, n: Cell, d: int)
    requires Open(g, row, col) && Adjacent((row, col), n) && Within(g, n.0, n.1, d)
    ensures Within(g, row, col, d + 1)
  {
  }

  /** A destination beside a cell within k moves is near at k */
  lemma BesideGoal(g: Layout, goal: Cell, n: Cell, k: int)
    requires Adjacent(goal, n) && Within(g, n.0, n.1, k)
    ensures NearGoal(g, goal, k)
  {
  }

  /** A walk of n cells reaches its last cell within n - 1 moves */
  lemma {:induction false} WalkWithin(g: Layout, w: seq<Cell>)
    requires IsWalk(g, w)
    ensures Within(g, w[|w| - 1].0, w[|w| - 1].1, |w| - 1)
    decreases |w|
  {
    if |w| > 1 {
      var prefix := w[..|w| - 1];
      assert IsWalk(g, prefix) by {
        forall i | 1 <= i < |prefix|
          ensures Open(g, prefix[i].0, prefix[i].1) && Adjacent(prefix[i - 1], prefix[i])
        {
          assert prefix[i] == w[i] && prefix[i - 1] == w[i - 1];
        }
      }
      WalkWithin(g, prefix);
      assert w[|w| - 2] == prefix[|prefix| - 1];
    }
  }

  /** Every cell within k moves is the end of a walk of at most k + 1 cells */
  lemma {:induction false} WithinWalk(g: Layout, row: int, col: int, k: int) returns (w: seq<Cell>)
    requires Within(g, row, col, k)
    ensures IsWalk(g, w) && |w| <= k + 1 && w[|w| - 1] == (row, col)
    decreases k
  {
    if k == 0 {
      w := [(row, col)];
    } else if Within(g, row, col, k - 1) {
      w := WithinWalk(g, row, col, k - 1);
    } else {
      var n: Cell;
      if Within(g, row, col + 1, k - 1) {
        n := (row, col + 1);
      } else if Within(g, row - 1, col, k - 1) {
        n := (row - 1, col);
      } else if Within(g, row, col - 1, k - 1) {
        n := (row, col - 1);
      } else {
        n := (row + 1, col);
      }
      var prefix := WithinWalk(g, n.0, n.1, k - 1);
      w := prefix + [(row, col)];
      forall i | 1 <= i < |w|
        ensures Open(g, w[i].0, w[i].1) && Adjacent(w[i - 1], w[i])
      {
        if i < |prefix| {
          assert w[i] == prefix[i] && w[i - 1] == prefix[i - 1];
        }
      }
    }
  }

  /** BFS correctness: the distance of a cell is the number of moves of its
      shortest walk — a walk of v moves reaches it, and none shorter does. */
  lemma LayerIsWalkLength(g: Layout, row: int, col: int, v: int) returns (w: seq<Cell>)
    requires ShortestIs(g, row, col, v)
    ensures IsWalk(g, w) && |w| == v + 1 && w[|w| - 1] == (row, col)
    ensures forall u :: IsWalk(g, u) && u[|u| - 1] == (row, col) ==> |u| >= v + 1
  {
    w := WithinWalk(g, row, col, v);
    WalkWithin(g, w);
    if |w| < v + 1 {
      WithinMonotone(g, row, col, |w| - 1, v - 1);
    }
    forall u | IsWalk(g, u) && u[|u| - 1] == (row, col)
      ensures |u| >= v + 1
    {
      WalkWithin(g, u);
      if |u| < v + 1 {
        WithinMonotone(g, row, col, |u| - 1, v - 1);
      }
    }
  }

  /** Once one more move reaches nothing new, no number of moves does */
  lemma {:induction false} StableLayers(g: Layout, d: int, k: int, row: int, col: int)
    requires forall r, c :: Within(g, r, c, d + 1) ==> Within(g, r, c, d)
    requires 0 <= d <= k && Within(g, row, col, k)
    ensures Within(g, row, col, d)
    decreases k - d
  {
    if k > d {
      if Within(g, row, col, k - 1) {
        StableLayers(g, d, k - 1, row, col);
      } else {
        if Within(g, row, col + 1, k - 1) {
          StableLayers(g, d, k - 1, row, col + 1);
        } else if Within(g, row - 1, col, k - 1) {
          StableLayers(g, d, k - 1, row - 1, col);
        } else if Within(g, row, col - 1, k - 1) {
          StableLayers(g, d, k - 1, row, col - 1);
        } else {
          StableLayers(g, d, k - 1, row + 1, col);
        }
        assert Within(g, row, col, d + 1);
      }
    }
  }

  /** Path optimality: no walk that ends beside the destination is shorter
      than a shortest path. */
  lemma ShortestPathIsShortest(g: Layout, goal: Cell, path: seq<Cell>, w: seq<Cell>)
    requires ShortestPath(g, goal, path)
    requires IsWalk(g, w) && Adjacent(w[|w| - 1], goal)
    ensures |w| >= |path|
  {
    WalkWithin(g, w);
    var last := w[|w| - 1];
    assert NearGoal(g, goal, |w| - 1);
    if |w| < |path| {
      var k := |w| - 1;
      if last == (goal.0, goal.1 + 1) {
        WithinMonotone(g, last.0, last.1, k, |path| - 2);
      } else if last == (goal.0 - 1, goal.1) {
        WithinMonotone(g, last.0, last.1, k, |path| - 2);
      } else if last == (goal.0, goal.1 - 1) {
        WithinMonotone(g, last.0, last.1, k, |path| - 2);
      } else {
        WithinMonotone(g, last.0, last.1, k, |path| - 2);
      }
    }
  }

  /** No path: when the destination is never touched, no walk ends beside it */
  lemma NoWalkToGoal(g: Layout, goal: Cell, w: seq<Cell>)
    requires forall k :: !NearGoal(g, goal, k)
    requires IsWalk(g, w)
    ensures !Adjacent(w[|w| - 1], goal)
  {
    WalkWithin(g, w);
    assert !NearGoal(g, goal, |w| - 1);
  }
}

/** The grassfire path planner: a layered breadth-first search over a dense
    grid of cell codes, followed by a backward walk that keeps one shortest
    path and frees every other stamped cell. */
module Grassfire {
  import opened Layers

  /** Neighbour k (0..3) of (row, col) in the order the expansion scans them:
      col+1, row-1, col-1, row+1. */
  function ExpandNeighbour(row: int, col: int, k: int): (n: Cell)
    requires 0 <= k < 4
    ensures Adjacent((row, col), n)
  {
    if k == 0 then (row, col + 1)
    else if k == 1 then (row - 1, col)
    else if k == 2 then (row, col - 1)
    else (row + 1, col)
  }

  /** Position of (r, c) in the expansion's scan of the neighbours of
      (row, col); 4 when it is not one of them. */
  function ExpandRank(row: int, col: int, r: int, c: int): (k: int)
    ensures 0 <= k <= 4
  {
    if r == row && c == col + 1 then 0
    else if r == row - 1 && c == col then 1
    else if r == row && c == col - 1 then 2
    else if r == row + 1 && c == col then 3
    else 4
  }

  /** ExpandRank and ExpandNeighbour are inverse on the four neighbours */
  lemma ExpandRankNeighbour(row: int, col: int, r: int, c: int)
    ensures ExpandRank(row, col, r, c) < 4 <==> Adjacent((row, col), (r, c))
    ensures ExpandRank(row, col, r, c) < 4 ==> ExpandNeighbour(row, col, ExpandRank(row, col, r, c)) == (r, c)
  {
  }

  /** (r, c) comes before (pi, pj) in a row-major scan of the grid */
  predicate Before(r: int, c: int, pi: int, pj: int) {
    r < pi || (r == pi && c < pj)
  }

  function Min(a: int, b: int): int {
    if a <= b then a else b
  }

  class Planner {
    /** grid[row, col] holds a cell code or, once stamped, a layer number */
    const grid: array2<int>
    var currentDepth: int
    var destinationRow: int
    var destinationCol: int

    /** The grid as populated before the search, its start and destination */
    ghost const initial: Layout
    ghost const start: Cell
    ghost const goal: Cell

    /** The shortest path backtrack_grid leaves labelled: route[v] holds v */
    ghost var route: seq<Cell>

    /** The initial grid holds one start cell, one destination cell, and
        otherwise free cells and obstacles. */
    ghost predicate Valid() {
      grid.Length0 == ROWS && grid.Length1 == COLS &&
      InBounds(start.0, start.1) && InBounds(goal.0, goal.1) &&
      forall r, c :: InBounds(r, c) ==>
        OBSTACLE <= initial(r, c) <= START &&
        (initial(r, c) == START <==> (r, c) == start) &&
        (initial(r, c) == DESTINATION <==> (r, c) == goal)
    }

    /** The grid still is the initial grid */
    ghost predicate Pristine()
      reads grid
      requires Valid()
    {
      forall r, c :: InBounds(r, c) ==> grid[r, c] == initial(r, c)
    }

    /** The start, the destination and the obstacles keep their codes */
    ghost predicate FixedKept()
      reads grid
      requires Valid()
    {
      forall r, c :: InBounds(r, c) && initial(r, c) != FREE ==> grid[r, c] == initial(r, c)
    }

    constructor (g: array2<int>, ghost layout: Layout, ghost s: Cell, ghost d: Cell)
      requires g.Length0 == ROWS && g.Length1 == COLS
      requires InBounds(s.0, s.1) && InBounds(d.0, d.1)
      requires forall r, c :: InBounds(r, c) ==>
        g[r, c] == layout(r, c) && OBSTACLE <= layout(r, c) <= START &&
        (layout(r, c) == START <==> (r, c) == s) &&
        (layout(r, c) == DESTINATION <==> (r, c) == d)
      ensures Valid() && Pristine()
      ensures grid == g && initial == layout && start == s && goal == d
      ensures currentDepth == 0 && destinationRow == 0 && destinationCol == 0
    {
      grid := g;
      initial, start, goal := layout, s, d;
      currentDepth, destinationRow, destinationCol := 0, 0, 0;
      route := [];
    }

    /** Bounds-checked lookup: the code at (row, col), INVALID off the grid */
    function CellInfo(row: int, col: int): (v: int)
      reads grid
      requires Valid()
      ensures InBounds(row, col) ==> v == grid[row, col]
      ensures !InBounds(row, col) ==> v == INVALID
    {
      if row >= ROWS || row < 0 || col >= COLS || col < 0 then INVALID
      else grid[row, col]
    }

    /** The code of neighbour k of (row, col), in the expansion's scan order
        col+1, row-1, col-1, row+1 */
    function Around(row: int, col: int, k: int): int
      reads grid
      requires Valid() && 0 <= k < 4
    {
      var n := ExpandNeighbour(row, col, k);
      CellInfo(n.0, n.1)
    }

    /** Scan position of the first neighbour of (row, col) that is the
        destination; 4 when none is */
    function FirstGoal(row: int, col: int): (k: int)
      reads grid
      requires Valid()
      ensures 0 <= k <= 4
      ensures k < 4 ==> Around(row, col, k) == DESTINATION
      ensures forall i :: 0 <= i < k ==> Around(row, col, i) != DESTINATION
    {
      if Around(row, col, 0) == DESTINATION then 0
      else if Around(row, col, 1) == DESTINATION then 1
      else if Around(row, col, 2) == DESTINATION then 2
      else if Around(row, col, 3) == DESTINATION then 3
      else 4
    }

    /** Some neighbour of (row, col) is free */
    predicate FreeAround(row: int, col: int)
      reads grid
      requires Valid()
    {
      Around(row, col, 0) == FREE || Around(row, col, 1) == FREE ||
      Around(row, col, 2) == FREE || Around(row, col, 3) == FREE
    }

    /** Stamps the free neighbours of (row, col) with currentDepth + 1, in the
        order col+1, row-1, col-1, row+1, stopping at the first neighbour that
        is the destination: then it records that neighbour and returns
        DESTINATION. Otherwise returns 1 when something was stamped, else 0. */
    method ModifyAdjacent(row: int, col: int) returns (ret: int)
      requires Valid()
      modifies this`destinationRow, this`destinationCol, grid
      ensures ret == DESTINATION || ret == 0 || ret == 1
      ensures ret == DESTINATION <==> old(FirstGoal(row, col)) < 4
      ensures ret == 1 <==> old(FirstGoal(row, col)) == 4 && old(FreeAround(row, col))
      ensures ret == DESTINATION ==> (destinationRow, destinationCol) == ExpandNeighbour(row, col, old(FirstGoal(row, col)))
      ensures ret != DESTINATION ==> destinationRow == old(destinationRow) && destinationCol == old(destinationCol)
      ensures StampedUpTo(row, col, old(FirstGoal(row, col)))
      ensures ret == 0 ==> unchanged(grid)
    {
      var adjacentModifiable := false;
      var cellRetVal;
      ghost var a0, a1, a2, a3 := Around(row, col, 0), Around(row, col, 1), Around(row, col, 2), Around(row, col, 3);

      cellRetVal := StampIfFree(row, col + 1);
      assert cellRetVal == a0;
      if cellRetVal == DESTINATION {
        destinationRow, destinationCol := row, col + 1;
        return DESTINATION;
      }
      adjacentModifiable := adjacentModifiable || cellRetVal == FREE;
      assert !adjacentModifiable ==> unchanged(grid);

      cellRetVal := StampIfFree(row - 1, col);
      assert cellRetVal == a1;
      if cellRetVal == DESTINATION {
        destinationRow, destinationCol := row - 1, col;
        return DESTINATION;
      }
      adjacentModifiable := adjacentModifiable || cellRetVal == FREE;
      assert !adjacentModifiable ==> unchanged(grid);

      cellRetVal := StampIfFree(row, col - 1);
      assert cellRetVal == a2;
      if cellRetVal == DESTINATION {
        destinationRow, destinationCol := row, col - 1;
        return DESTINATION;
      }
      adjacentModifiable := adjacentModifiable || cellRetVal == FREE;
      assert !adjacentModifiable ==> unchanged(grid);

      cellRetVal := StampIfFree(row + 1, col);
      assert cellRetVal == a3;
      if cellRetVal == DESTINATION {
        destinationRow, destinationCol := row + 1, col;
        return DESTINATION;
      }
      adjacentModifiable := adjacentModifiable || cellRetVal == FREE;
      assert !adjacentModifiable ==> unchanged(grid);

      if adjacentModifiable {
        return 1;
      } else {
        return 0;
      }
    }

    /** One neighbour check of ModifyAdjacent: looks (r, c) up and, when it is
        free, stamps it with currentDepth + 1. */
    method StampIfFree(r: int, c: int) returns (code: int)
      requires Valid()
      modifies grid
      ensures code == old(CellInfo(r, c))
      ensures code != FREE ==> unchanged(grid)
      ensures forall i, j :: InBounds(i, j) ==>
        grid[i, j] == if i == r && j == c && code == FREE then currentDepth + 1 else old(grid[i, j])
    {
      code := CellInfo(r, c);
      if code == FREE {
        grid[r, c] := currentDepth + 1;
      }
    }

    /** The free neighbours of (row, col) among the first m in the
        expansion's scan order now hold currentDepth + 1; nothing else changed */
    twostate predicate StampedUpTo(row: int, col: int, m: int)
      reads this`currentDepth, grid
      requires Valid()
    {
      forall r, c :: InBounds(r, c) ==>
        grid[r, c] == if ExpandRank(row, col, r, c) < m && old(grid[r, c]) == FREE
                      then currentDepth + 1 else old(grid[r, c])
    }

    /** Frees every cell holding currentDepth, except (rowToKeep, colToKeep) */
    method ScrubDepth(rowToKeep: int, colToKeep: int)
      requires Valid()
      modifies grid
      ensures Scrubbed((rowToKeep, colToKeep), currentDepth)
    {
      var i := 0;
      while i < ROWS
        invariant 0 <= i <= ROWS
        invariant forall r, c :: InBounds(r, c) ==>
          grid[r, c] == if r < i && (r, c) != (rowToKeep, colToKeep) && old(grid[r, c]) == currentDepth
                        then FREE else old(grid[r, c])
      {
        var j := 0;
        while j < COLS
          invariant 0 <= j <= COLS
          invariant forall r, c :: InBounds(r, c) ==>
            grid[r, c] == if Before(r, c, i, j) && (r, c) != (rowToKeep, colToKeep) && old(grid[r, c]) == currentDepth
                          then FREE else old(grid[r, c])
        {
          if !(i == rowToKeep && j == colToKeep) && grid[i, j] == currentDepth {
            grid[i, j] := FREE;
          }
          j := j + 1;
        }
        i := i + 1;
      }
    }

    // ----- The expansion (the search loop of main) -----

    /** (r, c) lies at distance d and pass d has already scanned it */
    ghost predicate ScannedLayer(r: int, c: int, d: int, pi: int, pj: int) {
      InBounds(r, c) && Before(r, c, pi, pj) && ShortestIs(initial, r, c, d)
    }

    /** (r, c) has a neighbour at distance d that pass d has already scanned */
    ghost predicate Touched(r: int, c: int, d: int, pi: int, pj: int) {
      ScannedLayer(r, c + 1, d, pi, pj) || ScannedLayer(r - 1, c, d, pi, pj) ||
      ScannedLayer(r, c - 1, d, pi, pj) || ScannedLayer(r + 1, c, d, pi, pj)
    }

    /** What pass d leaves in free cell (r, c) once every cell before (pi, pj)
        has been scanned: its distance if at most d, d + 1 if a scanned
        neighbour lies at distance d, FREE otherwise */
    ghost predicate PassLabel(r: int, c: int, v: int, d: int, pi: int, pj: int) {
      if Within(initial, r, c, d) then ShortestIs(initial, r, c, v)
      else if Touched(r, c, d, pi, pj) then v == d + 1
      else v == FREE
    }

    /** The grid during pass d of the expansion, before (pi, pj) is scanned;
        the destination has not been met */
    ghost predicate InPass(d: int, pi: int, pj: int)
      reads grid
      requires Valid()
    {
      d >= 0 && FixedKept() &&
      !NearGoal(initial, goal, d - 1) && !Touched(goal.0, goal.1, d, pi, pj) &&
      forall r, c {:trigger grid[r, c]} :: Open(initial, r, c) ==> PassLabel(r, c, grid[r, c], d, pi, pj)
    }

    /** Every free cell within d moves holds its distance, the others are free */
    ghost predicate Labelled(d: int)
      reads grid
      requires Valid()
    {
      FixedKept() &&
      forall r, c {:trigger grid[r, c]} :: Open(initial, r, c) ==>
        if Within(initial, r, c, d) then ShortestIs(initial, r, c, grid[r, c]) else grid[r, c] == FREE
    }

    /** The expansion met the destination while scanning layer d: the
        destination lies at distance d + 1, every free cell within d moves
        holds its distance, the rest are free or hold d + 1, their distance */
    ghost predicate Found(d: int)
      reads this`destinationRow, this`destinationCol, grid
      requires Valid()
    {
      d >= 0 && FixedKept() && (destinationRow, destinationCol) == goal &&
      NearGoal(initial, goal, d) && !NearGoal(initial, goal, d - 1) &&
      forall r, c {:trigger grid[r, c]} :: Open(initial, r, c) ==>
        if Within(initial, r, c, d) then ShortestIs(initial, r, c, grid[r, c])
        else grid[r, c] == FREE || (grid[r, c] == d + 1 && ShortestIs(initial, r, c, d + 1))
    }

    /** How the search ended: found while scanning layer d, or exhausted
        after layer d without touching the destination */
    ghost predicate Outcome(reached: bool, d: int)
      reads this`destinationRow, this`destinationCol, grid
      requires Valid()
    {
      if reached then Found(d) else Labelled(d) && Closed(d) && NoPath()
    }

    /** No cell is reached in any number of moves that is not reached in d */
    ghost predicate Closed(d: int) {
      forall r, c, k :: Within(initial, r, c, k) ==> Within(initial, r, c, d)
    }

    /** No walk from the start ever touches the destination */
    ghost predicate NoPath() {
      forall k :: !NearGoal(initial, goal, k)
    }

    /** Free cells not reachable within k moves */
    ghost function Unreached(k: int): set<Cell> {
      set r, c | 0 <= r < ROWS && 0 <= c < COLS && Open(initial, r, c) && !Within(initial, r, c, k) :: (r, c)
    }

    /** Whether pass d stamped anything: a witness cell holding d + 1, or no
        cell holding d + 1 at all */
    ghost predicate Stamps(stamped: bool, w: Cell, d: int)
      reads grid
      requires Valid()
    {
      (stamped ==> InBounds(w.0, w.1) && grid[w.0, w.1] == d + 1) &&
      (!stamped ==> forall r, c :: InBounds(r, c) ==> grid[r, c] != d + 1)
    }

    /** The effect of ModifyAdjacent(cell) at the current depth: free
        neighbours before the first destination now hold currentDepth + 1 */
    twostate predicate StampedAround(cell: Cell)
      reads this`currentDepth, grid
      requires Valid()
    {
      currentDepth == old(currentDepth) &&
      StampedUpTo(cell.0, cell.1, old(FirstGoal(cell.0, cell.1)))
    }

    lemma InitialPass()
      requires Valid() && Pristine()
      ensures InPass(0, 0, 0)
    {
    }

    /** During pass d a cell holds d exactly when it lies at distance d; only
        the destination holds DESTINATION; a FREE cell is free and beyond d */
    lemma LayerCode(d: int, pi: int, pj: int, r: int, c: int)
      requires Valid() && InPass(d, pi, pj) && InBounds(r, c)
      ensures grid[r, c] == d <==> ShortestIs(initial, r, c, d)
      ensures grid[r, c] == DESTINATION <==> (r, c) == goal
      ensures grid[r, c] == FREE ==> Open(initial, r, c) && !Within(initial, r, c, d)
    {
      if initial(r, c) == FREE {
        if Within(initial, r, c, d) {
          if ShortestIs(initial, r, c, d) {
            ShortestUnique(initial, r, c, d, grid[r, c]);
          }
        }
      } else if ShortestIs(initial, r, c, d) {
        WithinCell(initial, r, c, d);
        assert (r, c) == start;
        ShortestUnique(initial, r, c, d, 0);
      } else {
        assert (r, c) == start ==> Within(initial, r, c, 0);
        if (r, c) == start && d > 0 {
          WithinMonotone(initial, r, c, 0, d - 1);
        }
      }
    }

    /** During a pass only the destination holds DESTINATION */
    lemma GoalCode(d: int, pi: int, pj: int)
      requires Valid() && InPass(d, pi, pj)
      ensures forall r, c :: InBounds(r, c) ==> (grid[r, c] == DESTINATION <==> (r, c) == goal)
    {
      forall r, c | InBounds(r, c) ensures grid[r, c] == DESTINATION <==> (r, c) == goal {
        LayerCode(d, pi, pj, r, c);
      }
    }

    /** Scanning a cell that does not hold d changes nothing */
    lemma SkipCell(d: int, i: int, j: int)
      requires Valid() && InPass(d, i, j) && InBounds(i, j) && grid[i, j] != d
      ensures InPass(d, i, j + 1)
    {
      LayerCode(d, i, j, i, j);
      TouchedNext(d, i, j, goal.0, goal.1);
      forall r, c | Open(initial, r, c) ensures PassLabel(r, c, grid[r, c], d, i, j + 1) {
        TouchedNext(d, i, j, r, c);
      }
    }

    /** Scanning (i, j) in pass d touches exactly its neighbours, and only
        when it lies at distance d */
    lemma TouchedNext(d: int, i: int, j: int, r: int, c: int)
      requires InBounds(i, j)
      ensures Touched(r, c, d, i, j + 1) ==
        (Touched(r, c, d, i, j) || (Adjacent((i, j), (r, c)) && ShortestIs(initial, i, j, d)))
    {
      forall n: Cell ensures ScannedLayer(n.0, n.1, d, i, j + 1) ==
        (ScannedLayer(n.0, n.1, d, i, j) || (n == (i, j) && ShortestIs(initial, i, j, d)))
      {
      }
    }

    /** The end of a row of the scan is the start of the next */
    lemma RowDone(d: int, i: int)
      requires Valid() && InPass(d, i, COLS)
      ensures InPass(d, i + 1, 0)
    {
      forall r, c ensures Touched(r, c, d, i, COLS) == Touched(r, c, d, i + 1, 0) {
      }
    }

    /** ModifyAdjacent(cell) stamps currentDepth + 1 on each free neighbour
        before the first destination */
    twostate lemma StampNew(cell: Cell)
      requires Valid() && StampedAround(cell)
      ensures forall k :: 0 <= k < old(FirstGoal(cell.0, cell.1)) && old(Around(cell.0, cell.1, k)) == FREE ==>
        InBounds(ExpandNeighbour(cell.0, cell.1, k).0, ExpandNeighbour(cell.0, cell.1, k).1) &&
        grid[ExpandNeighbour(cell.0, cell.1, k).0, ExpandNeighbour(cell.0, cell.1, k).1] == currentDepth + 1
    {
      var i, j := cell.0, cell.1;
      forall k | 0 <= k < old(FirstGoal(i, j)) && old(Around(i, j, k)) == FREE
        ensures InBounds(ExpandNeighbour(i, j, k).0, ExpandNeighbour(i, j, k).1) &&
          grid[ExpandNeighbour(i, j, k).0, ExpandNeighbour(i, j, k).1] == currentDepth + 1
      {
        var n := ExpandNeighbour(i, j, k);
        assert old(CellInfo(n.0, n.1)) == FREE;
        ExpandRankNeighbour(i, j, n.0, n.1);
      }
    }

    /** ModifyAdjacent(cell) changes only free cells, and nothing at all
        when no neighbour was free */
    twostate lemma StampKeeps(cell: Cell)
      requires Valid() && StampedAround(cell)
      ensures forall r, c :: InBounds(r, c) && old(grid[r, c]) != FREE ==> grid[r, c] == old(grid[r, c])
      ensures !old(FreeAround(cell.0, cell.1)) ==> forall r, c :: InBounds(r, c) ==> grid[r, c] == old(grid[r, c])
    {
      var i, j := cell.0, cell.1;
      if !old(FreeAround(i, j)) {
        forall r, c | InBounds(r, c) ensures grid[r, c] == old(grid[r, c]) {
          ExpandRankNeighbour(i, j, r, c);
          var k := ExpandRank(i, j, r, c);
          if k < 4 {
            assert old(Around(i, j, k)) == old(CellInfo(r, c));
          }
        }
      }
    }

    /** How expanding (i, j), a cell at distance d, relabels a free cell
        (r, c): a touched free neighbour gets d + 1, everything else keeps its
        label. The result is a label of the pass once (i, j) is scanned, and a
        label the search may stop with when it met the destination. */
    lemma Relabel(d: int, i: int, j: int, r: int, c: int, before: int, after: int, touched: bool)
      requires Open(initial, r, c) && InBounds(i, j) && ShortestIs(initial, i, j, d)
      requires PassLabel(r, c, before, d, i, j)
      requires touched ==> Adjacent((i, j), (r, c))
      requires after == if touched && before == FREE then d + 1 else before
      ensures touched == Adjacent((i, j), (r, c)) ==> PassLabel(r, c, after, d, i, j + 1)
      ensures Within(initial, r, c, d) ==> ShortestIs(initial, r, c, after)
      ensures !Within(initial, r, c, d) ==>
        after == FREE || (after == d + 1 && ShortestIs(initial, r, c, d + 1))
    {
      TouchedNext(d, i, j, r, c);
      if !Within(initial, r, c, d) && after == d + 1 {
        if touched {
          NeighbourWithin(initial, r, c, (i, j), d);
        } else {
          TouchedWithin(d, i, j, r, c);
        }
      }
    }

    /** Expanding a cell at distance d whose neighbours hold no destination
        moves the pass past it */
    twostate lemma ScanStep(cell: Cell)
      requires Valid() && old(InPass(currentDepth, cell.0, cell.1)) && InBounds(cell.0, cell.1)
      requires ShortestIs(initial, cell.0, cell.1, currentDepth)
      requires StampedAround(cell) && old(FirstGoal(cell.0, cell.1)) == 4
      ensures InPass(currentDepth, cell.0, cell.1 + 1)
    {
      var i, j, d := cell.0, cell.1, currentDepth;
      ExpandRankNeighbour(i, j, goal.0, goal.1);
      if Adjacent((i, j), goal) {
        assert false;
      }
      TouchedNext(d, i, j, goal.0, goal.1);
      forall r, c | InBounds(r, c) && initial(r, c) != FREE ensures grid[r, c] == initial(r, c) {
      }
      ScanStepLabels(cell);
    }

    /** The free cells carry the labels of the pass once cell is scanned */
    twostate lemma ScanStepLabels(cell: Cell)
      requires Valid() && old(InPass(currentDepth, cell.0, cell.1)) && InBounds(cell.0, cell.1)
      requires ShortestIs(initial, cell.0, cell.1, currentDepth)
      requires StampedAround(cell) && old(FirstGoal(cell.0, cell.1)) == 4
      ensures forall r, c :: Open(initial, r, c) ==> PassLabel(r, c, grid[r, c], currentDepth, cell.0, cell.1 + 1)
    {
      var i, j, d := cell.0, cell.1, currentDepth;
      forall r, c | Open(initial, r, c) ensures PassLabel(r, c, grid[r, c], d, i, j + 1) {
        ExpandRankNeighbour(i, j, r, c);
        Relabel(d, i, j, r, c, old(grid[r, c]), grid[r, c], ExpandRank(i, j, r, c) < 4);
      }
    }

    /** The neighbour ModifyAdjacent(cell) recorded is the destination, which
        a cell at distance d touches */
    twostate lemma GoalMet(cell: Cell)
      requires Valid() && InBounds(cell.0, cell.1) && ShortestIs(initial, cell.0, cell.1, currentDepth)
      requires forall r, c :: InBounds(r, c) ==> (old(grid[r, c]) == DESTINATION <==> (r, c) == goal)
      requires old(FirstGoal(cell.0, cell.1)) < 4
      requires (destinationRow, destinationCol) == ExpandNeighbour(cell.0, cell.1, old(FirstGoal(cell.0, cell.1)))
      ensures (destinationRow, destinationCol) == goal
      ensures NearGoal(initial, goal, currentDepth)
    {
      var n := (destinationRow, destinationCol);
      assert old(CellInfo(n.0, n.1)) == DESTINATION;
      BesideGoal(initial, goal, cell, currentDepth);
    }

    /** Expanding a cell at distance d beside the destination: the search
        has found it */
    twostate lemma ScanFound(cell: Cell)
      requires Valid() && old(InPass(currentDepth, cell.0, cell.1)) && InBounds(cell.0, cell.1)
      requires ShortestIs(initial, cell.0, cell.1, currentDepth)
      requires forall r, c :: InBounds(r, c) ==> (old(grid[r, c]) == DESTINATION <==> (r, c) == goal)
      requires StampedAround(cell) && old(FirstGoal(cell.0, cell.1)) < 4
      requires (destinationRow, destinationCol) == ExpandNeighbour(cell.0, cell.1, old(FirstGoal(cell.0, cell.1)))
      ensures Found(currentDepth)
    {
      var i, j, d := cell.0, cell.1, currentDepth;
      GoalMet(cell);
      forall r, c | InBounds(r, c) && initial(r, c) != FREE ensures grid[r, c] == initial(r, c) {
      }
      forall r, c | Open(initial, r, c)
        ensures if Within(initial, r, c, d) then ShortestIs(initial, r, c, grid[r, c])
          else grid[r, c] == FREE || (grid[r, c] == d + 1 && ShortestIs(initial, r, c, d + 1))
      {
        ExpandRankNeighbour(i, j, r, c);
        Relabel(d, i, j, r, c, old(grid[r, c]), grid[r, c],
          ExpandRank(i, j, r, c) < old(FirstGoal(i, j)));
      }
    }

    /** A free cell beside a scanned cell at distance d is within d + 1 */
    lemma TouchedWithin(d: int, pi: int, pj: int, r: int, c: int)
      requires Open(initial, r, c) && Touched(r, c, d, pi, pj)
      ensures Within(initial, r, c, d + 1)
    {
    }

    /** A neighbour scanned at layer d touches the cell */
    lemma TouchedBy(d: int, pi: int, pj: int, r: int, c: int, n: Cell)
      requires Adjacent((r, c), n) && ScannedLayer(n.0, n.1, d, pi, pj)
      ensures Touched(r, c, d, pi, pj)
    {
    }

    lemma PassEndCell(d: int, r: int, c: int)
      requires Valid() && InPass(d, ROWS, 0) && Open(initial, r, c) && !Within(initial, r, c, d)
      ensures grid[r, c] == d + 1 <==> Within(initial, r, c, d + 1)
    {
      assert PassLabel(r, c, grid[r, c], d, ROWS, 0);
      if Within(initial, r, c, d + 1) {
        var n := Predecessor(initial, r, c, d + 1);
        WithinCell(initial, n.0, n.1, d);
        TouchedBy(d, ROWS, 0, r, c, n);
      } else if Touched(r, c, d, ROWS, 0) {
        TouchedWithin(d, ROWS, 0, r, c);
      }
    }

    /** After a whole pass, a free cell beyond d holds d + 1 exactly when it is
        within d + 1 moves, and the destination is still not near at d */
    lemma PassEnd(d: int)
      requires Valid() && InPass(d, ROWS, 0)
      ensures !NearGoal(initial, goal, d)
      ensures forall r, c :: Open(initial, r, c) && !Within(initial, r, c, d) ==>
        (grid[r, c] == d + 1 <==> Within(initial, r, c, d + 1))
    {
      forall r, c | Open(initial, r, c) && !Within(initial, r, c, d)
        ensures grid[r, c] == d + 1 <==> Within(initial, r, c, d + 1)
      {
        PassEndCell(d, r, c);
      }
      NotNearAfterPass(d);
    }

    /** After a whole pass that did not meet the destination, it is not
        near at d */
    lemma NotNearAfterPass(d: int)
      requires Valid() && InPass(d, ROWS, 0)
      ensures !NearGoal(initial, goal, d)
    {
      var g := goal;
      GoalSide(d, (g.0, g.1 + 1));
      GoalSide(d, (g.0 - 1, g.1));
      GoalSide(d, (g.0, g.1 - 1));
      GoalSide(d, (g.0 + 1, g.1));
    }

    /** No neighbour of the destination is within d moves once pass d is
        over without meeting it */
    lemma GoalSide(d: int, n: Cell)
      requires !NearGoal(initial, goal, d - 1) && !Touched(goal.0, goal.1, d, ROWS, 0) && Adjacent(goal, n)
      ensures !Within(initial, n.0, n.1, d)
    {
      if Within(initial, n.0, n.1, d) {
        WithinCell(initial, n.0, n.1, d);
        if Within(initial, n.0, n.1, d - 1) {
          BesideGoal(initial, goal, n, d - 1);
        } else {
          TouchedBy(d, ROWS, 0, goal.0, goal.1, n);
        }
      }
    }

    /** A pass that met no destination leaves the grid ready for the next */
    lemma NextPass(d: int)
      requires Valid() && InPass(d, ROWS, 0)
      ensures InPass(d + 1, 0, 0)
    {
      PassEnd(d);
      forall r, c | Open(initial, r, c) ensures PassLabel(r, c, grid[r, c], d + 1, 0, 0) {
        NextLabel(d, r, c, grid[r, c]);
      }
    }

    /** The label a free cell ends pass d with is its label at the start of
        pass d + 1 */
    lemma NextLabel(d: int, r: int, c: int, v: int)
      requires PassLabel(r, c, v, d, ROWS, 0)
      requires !Within(initial, r, c, d) ==> (v == d + 1 <==> Within(initial, r, c, d + 1))
      ensures PassLabel(r, c, v, d + 1, 0, 0)
    {
      if Within(initial, r, c, d) {
        WithinMonotone(initial, r, c, d, d + 1);
      }
    }

    /** A pass that stamped nothing: no cell is ever reached beyond layer d,
        so the destination is never touched */
    lemma Exhausted(d: int)
      requires Valid() && InPass(d, ROWS, 0) && Stamps(false, (0, 0), d)
      ensures Labelled(d) && Closed(d) && NoPath()
    {
      PassEnd(d);
      forall r, c | Within(initial, r, c, d + 1) ensures Within(initial, r, c, d) {
        WithinCell(initial, r, c, d + 1);
        if !Open(initial, r, c) {
          assert Within(initial, r, c, 0);
          WithinMonotone(initial, r, c, 0, d);
        }
      }
      forall r, c, k | Within(initial, r, c, k) ensures Within(initial, r, c, d) {
        if k <= d {
          WithinMonotone(initial, r, c, k, d);
        } else {
          StableLayers(initial, d, k, r, c);
        }
      }
      forall k ensures !NearGoal(initial, goal, k) {
        if NearGoal(initial, goal, k) {
          var n := GoalNeighbourAt(k);
          if k <= d {
            WithinMonotone(initial, n.0, n.1, k, d);
          } else {
            StableLayers(initial, d, k, n.0, n.1);
          }
          BesideGoal(initial, goal, n, d);
        }
      }
    }

    /** After an exhausted search every free cell reached in any number of
        moves holds its distance */
    lemma ExhaustedLabels(d: int)
      requires Valid() && Labelled(d) && Closed(d)
      ensures forall r, c, k :: Open(initial, r, c) && Within(initial, r, c, k) ==> ShortestIs(initial, r, c, grid[r, c])
    {
      forall r, c, k | Open(initial, r, c) && Within(initial, r, c, k) ensures ShortestIs(initial, r, c, grid[r, c]) {
        assert Within(initial, r, c, d);
      }
    }

    /** The neighbour of the destination that NearGoal speaks of */
    lemma GoalNeighbourAt(k: int) returns (n: Cell)
      requires NearGoal(initial, goal, k)
      ensures Adjacent(goal, n) && Within(initial, n.0, n.1, k)
    {
      if Within(initial, goal.0, goal.1 + 1, k) {
        n := (goal.0, goal.1 + 1);
      } else if Within(initial, goal.0 - 1, goal.1, k) {
        n := (goal.0 - 1, goal.1);
      } else if Within(initial, goal.0, goal.1 - 1, k) {
        n := (goal.0, goal.1 - 1);
      } else {
        n := (goal.0 + 1, goal.1);
      }
    }

    /** A pass that stamped a cell reached a free cell never reached before */
    lemma Progress(d: int, w: Cell)
      requires Valid() && InPass(d, ROWS, 0) && InBounds(w.0, w.1) && grid[w.0, w.1] == d + 1
      ensures Unreached(d + 1) < Unreached(d)
    {
      PassEnd(d);
      LayerCode(d, ROWS, 0, w.0, w.1);
      assert Open(initial, w.0, w.1);
      assert PassLabel(w.0, w.1, grid[w.0, w.1], d, ROWS, 0);
      forall x | x in Unreached(d + 1) ensures x in Unreached(d) {
        if Within(initial, x.0, x.1, d) {
          WithinMonotone(initial, x.0, x.1, d, d + 1);
        }
      }
      assert w in Unreached(d);
    }

    /** What expanding a cell at distance currentDepth leaves: the search
        found the destination when a neighbour was the destination; otherwise
        the pass moves past the cell, a stamped neighbour newCell now holds
        currentDepth + 1 when some neighbour was free, and only free cells
        changed */
    twostate lemma ExpandCell(cell: Cell) returns (newCell: Cell)
      requires Valid() && InBounds(cell.0, cell.1) && old(InPass(currentDepth, cell.0, cell.1))
      requires ShortestIs(initial, cell.0, cell.1, currentDepth)
      requires forall r, c :: InBounds(r, c) ==> (old(grid[r, c]) == DESTINATION <==> (r, c) == goal)
      requires StampedAround(cell)
      requires old(FirstGoal(cell.0, cell.1)) < 4 ==>
        (destinationRow, destinationCol) == ExpandNeighbour(cell.0, cell.1, old(FirstGoal(cell.0, cell.1)))
      ensures old(FirstGoal(cell.0, cell.1)) < 4 ==> Found(currentDepth)
      ensures old(FirstGoal(cell.0, cell.1)) == 4 ==> InPass(currentDepth, cell.0, cell.1 + 1)
      ensures old(FirstGoal(cell.0, cell.1)) == 4 && old(FreeAround(cell.0, cell.1)) ==>
        InBounds(newCell.0, newCell.1) && grid[newCell.0, newCell.1] == currentDepth + 1
      ensures forall r, c :: InBounds(r, c) && old(grid[r, c]) != FREE ==> grid[r, c] == old(grid[r, c])
    {
      StampKeeps(cell);
      newCell := cell;
      if old(FirstGoal(cell.0, cell.1)) < 4 {
        ScanFound(cell);
      } else {
        ScanStep(cell);
        if old(FreeAround(cell.0, cell.1)) {
          var k :| 0 <= k < 4 && old(Around(cell.0, cell.1, k)) == FREE;
          StampNew(cell);
          newCell := ExpandNeighbour(cell.0, cell.1, k);
        }
      }
    }

    /** The body of the scan of main for one cell: a cell holding the
        current depth is expanded with ModifyAdjacent, any other is passed
        over (and reported as 0, which changes no flag). */
    method ScanCell(i: int, j: int) returns (ret: int, ghost newCell: Cell)
      requires Valid() && InBounds(i, j) && InPass(currentDepth, i, j)
      modifies this`destinationRow, this`destinationCol, grid
      ensures ret == DESTINATION || ret == 0 || ret == 1
      ensures ret == DESTINATION ==> Found(currentDepth)
      ensures ret != DESTINATION ==> InPass(currentDepth, i, j + 1)
      ensures ret == 1 ==> InBounds(newCell.0, newCell.1) && grid[newCell.0, newCell.1] == currentDepth + 1
      ensures ret != DESTINATION ==>
        forall r, c :: InBounds(r, c) && old(grid[r, c]) != FREE ==> grid[r, c] == old(grid[r, c])
      ensures ret == 0 ==> forall r, c :: InBounds(r, c) ==> grid[r, c] == old(grid[r, c])
      ensures ret != DESTINATION ==> destinationRow == old(destinationRow) && destinationCol == old(destinationCol)
    {
      ghost var d, cell, dest := currentDepth, (i, j), (destinationRow, destinationCol);
      newCell := (0, 0);
      if grid[i, j] == currentDepth {
        LayerCode(d, i, j, i, j);
        GoalCode(d, i, j);
        ret := ModifyAdjacent(i, j);
        newCell := ExpandCell(cell);
      } else {
        ret := 0;
        SkipCell(d, i, j);
      }
    }

    /** One pass of the search loop of main: scans the grid row by row for
        cells holding currentDepth and expands each with ModifyAdjacent,
        stopping at the first that reaches the destination. */
    method ExpandPass() returns (destinationReached: bool, continueChecking: bool, ghost newCell: Cell)
      requires Valid() && InPass(currentDepth, 0, 0)
      modifies this`destinationRow, this`destinationCol, grid
      ensures destinationReached ==> !continueChecking && Found(currentDepth)
      ensures !destinationReached ==> InPass(currentDepth, ROWS, 0) && Stamps(continueChecking, newCell, currentDepth)
      ensures !destinationReached ==> destinationRow == old(destinationRow) && destinationCol == old(destinationCol)
    {
      destinationReached, continueChecking := false, false;
      newCell := (0, 0);
      var i, j, modifyAdjacentRetVal;
      i := 0;
      while i < ROWS
        invariant 0 <= i <= ROWS
        invariant !destinationReached ==> InPass(currentDepth, i, 0) && Stamps(continueChecking, newCell, currentDepth)
        invariant !destinationReached ==> destinationRow == old(destinationRow) && destinationCol == old(destinationCol)
        invariant destinationReached ==> !continueChecking && Found(currentDepth)
      {
        if destinationReached {
          break;
        }
        j := 0;
        while j < COLS
          invariant 0 <= j <= COLS
          invariant !destinationReached ==> InPass(currentDepth, i, j) && Stamps(continueChecking, newCell, currentDepth)
          invariant !destinationReached ==> destinationRow == old(destinationRow) && destinationCol == old(destinationCol)
          invariant destinationReached ==> !continueChecking && Found(currentDepth)
        {
          if destinationReached {
            break;
          }
          ghost var cell;
          modifyAdjacentRetVal, cell := ScanCell(i, j);
          if modifyAdjacentRetVal == DESTINATION {
            destinationReached := true;
            continueChecking := false;
          } else if modifyAdjacentRetVal == 1 {
            continueChecking := true;
            newCell := cell;
          }
          j := j + 1;
        }
        if !destinationReached {
          RowDone(currentDepth, i);
        }
        i := i + 1;
      }
    }

    /** What a pass leaves: the next pass can start on a grid that reached a
        new cell; otherwise the search is over, found or exhausted */
    lemma AfterPass(d: int, next: int, reached: bool, stamped: bool, newCell: Cell)
      requires Valid() && next == d + 1
      requires reached ==> !stamped && Found(d)
      requires !reached ==> InPass(d, ROWS, 0) && Stamps(stamped, newCell, d)
      ensures stamped ==> !reached && InPass(next, 0, 0) && Unreached(next) < Unreached(d)
      ensures !stamped ==> Outcome(reached, next - 1)
    {
      if !reached {
        if stamped {
          NextPass(d);
          Progress(d, newCell);
        } else {
          Exhausted(d);
        }
      }
    }

    /** The search loop of main: one pass per layer, each expanding the
        cells at distance currentDepth, until a pass reaches the destination
        or stamps nothing. */
    method Expand() returns (destinationReached: bool)
      requires Valid() && Pristine() && currentDepth == 0
      modifies this`currentDepth, this`destinationRow, this`destinationCol, grid
      ensures currentDepth >= 1
      ensures Outcome(destinationReached, currentDepth - 1)
    {
      var continueChecking := true;
      destinationReached := false;
      InitialPass();
      while continueChecking
        invariant currentDepth >= 0
        invariant continueChecking ==> !destinationReached && InPass(currentDepth, 0, 0)
        invariant !continueChecking ==> currentDepth >= 1 && Outcome(destinationReached, currentDepth - 1)
        decreases continueChecking, Unreached(currentDepth)
      {
        ghost var d := currentDepth;
        ghost var newCell;
        destinationReached, continueChecking, newCell := ExpandPass();
        currentDepth := currentDepth + 1;
        AfterPass(d, currentDepth, destinationReached, continueChecking, newCell);
      }
    }

    // ----- Backtracking (backtrack_grid) -----

    /** What backtracking at depth cd leaves in free cell (r, c): a cell
        within min(cd, D) moves keeps its distance; any other is free, or is
        the path cell whose index it holds, an index above cd */
    ghost predicate BackLabel(r: int, c: int, v: int, cd: int, D: int, path: seq<Cell>) {
      if Within(initial, r, c, Min(cd, D)) then ShortestIs(initial, r, c, v)
      else v == FREE || (0 <= cd < v <= D && v < |path| && path[v] == (r, c))
    }

    /** path[v] lies at distance v, holds v, and touches the next path cell
        (the destination after the last one) */
    ghost predicate OnPath(v: int, D: int, path: seq<Cell>)
      reads grid
      requires Valid() && 0 <= v <= D < |path|
    {
      InBounds(path[v].0, path[v].1) && ShortestIs(initial, path[v].0, path[v].1, v) &&
      grid[path[v].0, path[v].1] == v &&
      Adjacent(path[v], if v == D then goal else path[v + 1])
    }

    /** The path cells above index cd are fixed */
    ghost predicate PathFixed(cd: int, D: int, path: seq<Cell>)
      reads grid
      requires Valid() && 0 <= cd && |path| == D + 1
    {
      forall v :: cd < v <= D ==> OnPath(v, D, path)
    }

    /** Every free cell of the initial grid is labelled as backtracking at
        depth cd leaves it */
    ghost predicate Labels(cd: int, D: int, path: seq<Cell>)
      reads grid
      requires Valid()
    {
      forall r, c {:trigger grid[r, c]} :: Open(initial, r, c) ==> BackLabel(r, c, grid[r, c], cd, D, path)
    }

    /** The destination is first touched at distance D */
    ghost predicate FirstNear(D: int) {
      NearGoal(initial, goal, D) && !NearGoal(initial, goal, D - 1)
    }

    /** The grid while backtracking from a destination first touched at
        distance D: the path from index cd + 1 on is fixed, each of its cells
        holds its index, is adjacent to the next one, and the current cell
        is the last one fixed (the destination before any) */
    ghost predicate Backtracking(cd: int, D: int, cur: Cell, path: seq<Cell>)
      reads grid
      requires Valid()
    {
      0 <= D && 0 <= cd <= D + 1 && |path| == D + 1 && path[0] == start && FixedKept() &&
      cur == (if cd >= D then goal else path[cd + 1]) &&
      PathFixed(cd, D, path) && Labels(cd, D, path)
    }

    /** The first scrub of backtrack_grid frees the partial layer D + 1 */
    twostate lemma BacktrackStart(path: seq<Cell>)
      requires Valid() && currentDepth >= 1 && currentDepth == old(currentDepth) && old(Found(currentDepth - 1))
      requires |path| == currentDepth && path[0] == start
      requires Scrubbed(goal, currentDepth)
      ensures Backtracking(currentDepth, currentDepth - 1, goal, path)
    {
      var D := currentDepth - 1;
      forall r, c | Open(initial, r, c) ensures BackLabel(r, c, grid[r, c], D + 1, D, path) {
        if Within(initial, r, c, D) {
          assert ShortestIs(initial, r, c, old(grid[r, c]));
        }
      }
    }

    /** Scrubbing layer k around the chosen path cell n relabels free cell
        (r, c) as backtracking at depth k - 1 expects */
    lemma BackRelabel(r: int, c: int, before: int, after: int, k: int, D: int, path: seq<Cell>, n: Cell)
      requires Open(initial, r, c) && 1 <= k <= D && |path| == D + 1
      requires ShortestIs(initial, n.0, n.1, k)
      requires BackLabel(r, c, before, k, D, path)
      requires after == if (r, c) != n && before == k then FREE else before
      ensures BackLabel(r, c, after, k - 1, D, path[k := n])
    {
      if Within(initial, r, c, k - 1) {
        WithinMonotone(initial, r, c, k - 1, k);
      } else if Within(initial, r, c, k) {
        ShortestUnique(initial, r, c, before, k);
        if (r, c) == n {
          assert path[k := n][k] == (r, c);
        }
      } else if (r, c) == n {
        assert false;
      }
    }

    /** A neighbour of the current cell holds k exactly when backtracking is
        still inside the reached layers (k <= D) */
    lemma BackNeighbour(k: int, D: int, cur: Cell, path: seq<Cell>)
      requires Valid() && 1 <= k && FirstNear(D) && Backtracking(k, D, cur, path)
      ensures k <= D <==> HeldAround(cur, k)
    {
      if k == D {
        var n := GoalPredecessor(initial, goal, D);
        HoldsDistance(k, D, path, n);
        HeldBy(cur, n, k);
      } else if k < D {
        NextOnPath(k, D, cur, path);
      } else {
        NoneAboveD(D, path);
      }
    }

    /** Below the last fixed path cell, at distance k + 1, some neighbour holds k */
    lemma NextOnPath(k: int, D: int, cur: Cell, path: seq<Cell>)
      requires Valid() && 1 <= k < D && Backtracking(k, D, cur, path)
      ensures HeldAround(cur, k)
    {
      assert OnPath(k + 1, D, path);
      var n := Predecessor(initial, cur.0, cur.1, k + 1);
      HoldsDistance(k, D, path, n);
      HeldBy(cur, n, k);
    }

    /** A neighbour holding k is seen by HeldAround */
    lemma HeldBy(at: Cell, n: Cell, k: int)
      requires Valid() && Adjacent(at, n) && InBounds(n.0, n.1) && grid[n.0, n.1] == k
      ensures HeldAround(at, k)
    {
    }

    /** A cell at distance k <= D, within the layers still kept, holds k */
    lemma HoldsDistance(k: int, D: int, path: seq<Cell>, n: Cell)
      requires Valid() && 1 <= k <= D && Labels(k, D, path)
      requires ShortestIs(initial, n.0, n.1, k)
      ensures InBounds(n.0, n.1) && grid[n.0, n.1] == k
    {
      WithinCell(initial, n.0, n.1, k);
      assert BackLabel(n.0, n.1, grid[n.0, n.1], k, D, path);
      ShortestUnique(initial, n.0, n.1, k, grid[n.0, n.1]);
    }

    /** Past the reached layers no cell holds the backtracking depth */
    lemma NoneAboveD(D: int, path: seq<Cell>)
      requires Valid() && 0 <= D && FixedKept() && Labels(D + 1, D, path)
      ensures forall r, c :: InBounds(r, c) ==> grid[r, c] != D + 1
    {
      forall r, c | InBounds(r, c) ensures grid[r, c] != D + 1 {
        if Open(initial, r, c) {
          assert BackLabel(r, c, grid[r, c], D + 1, D, path);
          if Within(initial, r, c, D) {
            ShortestCap(r, c, grid[r, c], D);
          }
        }
      }
    }

    /** A distance of a cell within D moves is at most D */
    lemma ShortestCap(r: int, c: int, v: int, D: int)
      requires Within(initial, r, c, D) && ShortestIs(initial, r, c, v)
      ensures v <= D
    {
      if v > D {
        WithinMonotone(initial, r, c, D, v - 1);
      }
    }

    /** Every cell that held k, but keep, has been freed; nothing else changed */
    twostate predicate Scrubbed(keep: Cell, k: int)
      reads grid
      requires Valid()
    {
      forall r, c :: InBounds(r, c) ==>
        grid[r, c] == if (r, c) != keep && old(grid[r, c]) == k then FREE else old(grid[r, c])
    }

    /** Some neighbour of (row, col) holds k */
    predicate HeldAround(at: Cell, k: int)
      reads grid
      requires Valid()
    {
      CellInfo(at.0, at.1 + 1) == k || CellInfo(at.0 + 1, at.1) == k ||
      CellInfo(at.0, at.1 - 1) == k || CellInfo(at.0 - 1, at.1) == k
    }

    /** One step of backtracking, from cur at depth k = old(currentDepth):
        either a neighbour held k, became route[k] and the rest of layer k was
        freed, or (k = D + 1) nothing changed; the depth is now k - 1. */
    twostate lemma BackTurn(cur: Cell)
      requires Valid() && 1 <= old(currentDepth) && currentDepth == old(currentDepth) - 1
      requires |route| == |old(route)| && old(Backtracking(currentDepth, |route| - 1, cur, route))
      requires old(currentDepth <= |route| - 1 <==> HeldAround(cur, currentDepth))
      requires route == if old(currentDepth) < |old(route)|
        then old(route)[old(currentDepth) := old(BackNext(cur, currentDepth))] else old(route)
      requires old(HeldAround(cur, currentDepth)) ==>
        Scrubbed(old(BackNext(cur, currentDepth)), old(currentDepth))
      requires !old(HeldAround(cur, currentDepth)) ==> unchanged(grid)
      ensures Backtracking(currentDepth, |route| - 1, old(BackNext(cur, currentDepth)), route)
    {
      if old(HeldAround(cur, currentDepth)) {
        TurnDown(cur);
      } else {
        TurnLast(cur);
      }
    }

    /** BackTurn inside the reached layers: the neighbour n that held k joins
        the path, and the rest of layer k is free */
    twostate lemma TurnDown(cur: Cell)
      requires Valid() && 1 <= old(currentDepth) < |route| && currentDepth == old(currentDepth) - 1
      requires old(Backtracking(currentDepth, |route| - 1, cur, route)) && old(HeldAround(cur, currentDepth))
      requires route == old(route)[old(currentDepth) := old(BackNext(cur, currentDepth))]
      requires Scrubbed(old(BackNext(cur, currentDepth)), old(currentDepth))
      ensures Backtracking(currentDepth, |route| - 1, old(BackNext(cur, currentDepth)), route)
    {
      var k, D := old(currentDepth), |route| - 1;
      var n := old(BackNext(cur, currentDepth));
      assert old(BackLabel(n.0, n.1, grid[n.0, n.1], k, D, route));
      ScrubLabels(n);
      KeepPath(n);
      KeepFixed(n);
    }

    /** BackTurn on the first pass, one above the reached layers: nothing
        changes but the depth */
    twostate lemma TurnLast(cur: Cell)
      requires Valid() && old(currentDepth) == |route| && currentDepth == old(currentDepth) - 1
      requires old(Backtracking(currentDepth, |route| - 1, cur, route)) && !old(HeldAround(cur, currentDepth))
      requires route == old(route) && unchanged(grid)
      ensures Backtracking(currentDepth, |route| - 1, old(BackNext(cur, currentDepth)), route)
    {
      StayLabels();
    }

    /** Scrubbing layer k = old(currentDepth) around its path cell n leaves
        the labels backtracking at depth k - 1 expects */
    twostate lemma ScrubLabels(n: Cell)
      requires Valid() && 1 <= old(currentDepth) < |route| && |old(route)| == |route|
      requires route == old(route)[old(currentDepth) := n]
      requires ShortestIs(initial, n.0, n.1, old(currentDepth))
      requires old(Labels(currentDepth, |route| - 1, route))
      requires Scrubbed(n, old(currentDepth))
      ensures Labels(old(currentDepth) - 1, |route| - 1, route)
    {
      var k, D := old(currentDepth), |route| - 1;
      forall r, c | Open(initial, r, c) ensures BackLabel(r, c, grid[r, c], k - 1, D, route) {
        BackRelabel(r, c, old(grid[r, c]), grid[r, c], k, D, old(route), n);
      }
    }

    /** The path cells above k = old(currentDepth) stay fixed, and n, which
        held k and touches the last one fixed, joins them */
    twostate lemma KeepPath(n: Cell)
      requires Valid() && 1 <= old(currentDepth) < |route| && |old(route)| == |route|
      requires route == old(route)[old(currentDepth) := n]
      requires old(PathFixed(currentDepth, |route| - 1, route))
      requires InBounds(n.0, n.1) && old(grid[n.0, n.1]) == old(currentDepth)
      requires ShortestIs(initial, n.0, n.1, old(currentDepth))
      requires Adjacent(n, if old(currentDepth) == |route| - 1 then goal else route[old(currentDepth) + 1])
      requires Scrubbed(n, old(currentDepth))
      ensures PathFixed(old(currentDepth) - 1, |route| - 1, route)
    {
      var k, D := old(currentDepth), |route| - 1;
      forall v | k <= v <= D ensures OnPath(v, D, route) {
        if v > k {
          assert old(OnPath(v, D, route));
        }
      }
    }

    /** Scrubbing a layer k >= 1 leaves the start, the destination and the
        obstacles alone */
    twostate lemma KeepFixed(n: Cell)
      requires Valid() && 1 <= old(currentDepth) && old(FixedKept())
      requires Scrubbed(n, old(currentDepth))
      ensures FixedKept()
    {
      forall r, c | InBounds(r, c) && initial(r, c) != FREE ensures grid[r, c] == initial(r, c) {
        assert old(grid[r, c]) == initial(r, c);
      }
    }

    /** The first pass above the reached layers changes no label */
    twostate lemma StayLabels()
      requires Valid() && 0 <= currentDepth && old(currentDepth) == currentDepth + 1
      requires old(Labels(currentDepth, currentDepth - 1, route))
      requires route == old(route) && unchanged(grid)
      ensures Labels(currentDepth, currentDepth, route)
    {
      var D := currentDepth;
      forall r, c | Open(initial, r, c) ensures BackLabel(r, c, grid[r, c], D, D, route) {
        assert old(BackLabel(r, c, grid[r, c], D + 1, D, route));
      }
    }

    /** The neighbour of (row, col) backtracking moves to at depth k: the
        first, in the order col+1, row+1, col-1, row-1, that holds k; (row, col)
        itself when none does. */
    function BackNext(at: Cell, k: int): (n: Cell)
      reads grid
      requires Valid()
      ensures k >= 0 && HeldAround(at, k) ==> Adjacent(at, n) && InBounds(n.0, n.1) && grid[n.0, n.1] == k
      ensures !HeldAround(at, k) ==> n == at
    {
      var (row, col) := at;
      if CellInfo(row, col + 1) == k then (row, col + 1)
      else if CellInfo(row + 1, col) == k then (row + 1, col)
      else if CellInfo(row, col - 1) == k then (row, col - 1)
      else if CellInfo(row - 1, col) == k then (row - 1, col)
      else at
    }

    /** The neighbour checks of backtrack_grid's loop: moves to BackNext and
        frees every other cell holding the current depth; changes nothing when
        no neighbour holds it. */
    method MoveBack(row: int, col: int) returns (nextRow: int, nextCol: int)
      requires Valid() && currentDepth > 0
      modifies grid
      ensures (nextRow, nextCol) == old(BackNext((row, col), currentDepth))
      ensures old(HeldAround((row, col), currentDepth)) ==> Scrubbed((nextRow, nextCol), currentDepth)
      ensures !old(HeldAround((row, col), currentDepth)) ==> unchanged(grid)
    {
      nextRow, nextCol := row, col;
      if CellInfo(row, col + 1) == currentDepth {
        ScrubDepth(row, col + 1);
        nextCol := col + 1;
      } else if CellInfo(row + 1, col) == currentDepth {
        ScrubDepth(row + 1, col);
        nextRow := row + 1;
      } else if CellInfo(row, col - 1) == currentDepth {
        ScrubDepth(row, col - 1);
        nextCol := col - 1;
      } else if CellInfo(row - 1, col) == currentDepth {
        ScrubDepth(row - 1, col);
        nextRow := row - 1;
      }
    }

    /** One pass of backtrack_grid's loop: moves to the first neighbour, in
        the order col+1, row+1, col-1, row-1, that holds the current depth,
        frees every other cell of that depth, records the cell on the route,
        and lowers the depth; stays put when no neighbour holds it (the first
        pass, one above the destination's layer). */
    method BackStep(row: int, col: int) returns (nextRow: int, nextCol: int)
      requires Valid() && currentDepth > 0 && FirstNear(|route| - 1)
      requires Backtracking(currentDepth, |route| - 1, (row, col), route)
      modifies this`currentDepth, this`route, grid
      ensures currentDepth == old(currentDepth) - 1 && |route| == |old(route)|
      ensures Backtracking(currentDepth, |route| - 1, (nextRow, nextCol), route)
    {
      ghost var cur := (row, col);
      BackNeighbour(currentDepth, |route| - 1, cur, route);
      nextRow, nextCol := MoveBack(row, col);
      currentDepth, route := currentDepth - 1,
        if currentDepth < |route| then route[currentDepth := (nextRow, nextCol)] else route;
      BackTurn(cur);
    }

    /** backtrack_grid: walks back from the destination through cells holding
        decreasing depths, freeing every other cell of each layer; what is left
        labelled is one shortest path, route. */
    method BacktrackGrid()
      requires Valid() && currentDepth >= 1 && Found(currentDepth - 1)
      modifies this`currentDepth, this`route, grid
      ensures currentDepth == 0 && |route| == old(currentDepth)
      ensures ShortestPath(initial, goal, route)
      ensures forall v :: 0 <= v < |route| ==> grid[route[v].0, route[v].1] == v
      ensures forall r, c :: Open(initial, r, c) ==>
        grid[r, c] == FREE || (1 <= grid[r, c] < |route| && route[grid[r, c]] == (r, c))
      ensures FixedKept()
    {
      var currentRow, currentCol;
      currentRow := destinationRow;
      currentCol := destinationCol;
      route := seq(currentDepth, _ => start);
      ScrubDepth(currentRow, currentCol);
      BacktrackStart(route);
      while currentDepth > 0
        invariant |route| == old(currentDepth) && FirstNear(|route| - 1)
        invariant Backtracking(currentDepth, |route| - 1, (currentRow, currentCol), route)
        decreases currentDepth
      {
        currentRow, currentCol := BackStep(currentRow, currentCol);
      }
      BacktrackEnd(|route| - 1, (currentRow, currentCol), route);
    }

    /** The search of main: expand until the destination is touched or no
        layer grows; on success backtrack, leaving one shortest path labelled
        with its distances and every other free cell free. */
    method Search() returns (destinationReached: bool)
      requires Valid() && Pristine() && currentDepth == 0
      modifies this`currentDepth, this`destinationRow, this`destinationCol, this`route, grid
      ensures destinationReached ==> ShortestPath(initial, goal, route)
      ensures destinationReached ==> forall v :: 0 <= v < |route| ==> grid[route[v].0, route[v].1] == v
      ensures destinationReached ==> forall r, c :: Open(initial, r, c) ==>
        grid[r, c] == FREE || (1 <= grid[r, c] < |route| && route[grid[r, c]] == (r, c))
      ensures !destinationReached ==> NoPath() && Labelled(currentDepth - 1) && Closed(currentDepth - 1)
      ensures !destinationReached ==> forall r, c, k :: Open(initial, r, c) && Within(initial, r, c, k) ==>
        ShortestIs(initial, r, c, grid[r, c])
      ensures FixedKept()
    {
      destinationReached := Expand();
      if destinationReached {
        BacktrackGrid();
      } else {
        ExhaustedLabels(currentDepth - 1);
      }
    }

    /** When backtracking reaches depth 0 the path is complete */
    lemma BacktrackEnd(D: int, cur: Cell, path: seq<Cell>)
      requires Valid() && FirstNear(D) && Backtracking(0, D, cur, path)
      ensures ShortestPath(initial, goal, path)
      ensures forall v :: 0 <= v < |path| ==> grid[path[v].0, path[v].1] == v
      ensures forall r, c :: Open(initial, r, c) ==>
        grid[r, c] == FREE || (1 <= grid[r, c] < |path| && path[grid[r, c]] == (r, c))
    {
      assert Within(initial, start.0, start.1, 0);
      PathStart(D, cur, path);
      if D > 0 {
        assert OnPath(D, D, path);
      }
      forall v | 0 < v < |path| ensures Open(initial, path[v].0, path[v].1) && Adjacent(path[v - 1], path[v]) {
        assert OnPath(v, D, path);
        var p := Predecessor(initial, path[v].0, path[v].1, v);
        if v > 1 {
          assert OnPath(v - 1, D, path);
        }
      }
      forall v | 0 <= v < |path| ensures ShortestIs(initial, path[v].0, path[v].1, v) && grid[path[v].0, path[v].1] == v {
        if v > 0 {
          assert OnPath(v, D, path);
        }
      }
      forall r, c | Open(initial, r, c)
        ensures grid[r, c] == FREE || (1 <= grid[r, c] < |path| && path[grid[r, c]] == (r, c))
      {
        assert BackLabel(r, c, grid[r, c], 0, D, path);
        if Within(initial, r, c, 0) {
          WithinCell(initial, r, c, 0);
        }
      }
    }

    /** The cell before the first fixed path cell is the start cell */
    lemma PathStart(D: int, cur: Cell, path: seq<Cell>)
      requires Valid() && FirstNear(D) && Backtracking(0, D, cur, path)
      ensures Adjacent(start, if D == 0 then goal else path[1])
    {
      var n: Cell;
      if D == 0 {
        n := GoalPredecessor(initial, goal, 0);
      } else {
        assert OnPath(1, D, path);
        n := Predecessor(initial, path[1].0, path[1].1, 1);
      }
      WithinCell(initial, n.0, n.1, 0);
    }
  }
}

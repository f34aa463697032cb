# Grassfire path planner and brute-force knight's tour

This project models two small C programs and proves what they promise.

**grassfire.c** plans a path on a 36 × 20 grid of integer cell codes:
- 0 is the start cell, -1 a free cell, -2 the destination and -3 an obstacle.
- `get_cell_info` returns -4 for a coordinate off the grid.

The search loop of `main` runs one pass per depth. Each pass scans the grid row by row. For every cell holding the current depth it calls `modify_adjacent`, which does two things:
- It stamps every free neighbour with depth + 1, scanning them in the order col+1, row-1, col-1, row+1.
- It stops at the first neighbour that is the destination and records it in `destinationRow`/`destinationCol`.

The loop ends when a pass meets the destination or stamps nothing.

`backtrack_grid` then walks back from the destination through cells holding decreasing depths, checking neighbours in the order col+1, row+1, col-1, row-1. At each depth, `scrub_depth` frees every other cell holding that depth.

The model (module `Grassfire`, class `Planner`) keeps these as they are in the C:
- the global grid, as an `array2<int>`;
- the globals `currentDepth`, `destinationRow` and `destinationCol`, as fields;
- each function, as a method with the C's loops and branches.

The module `Layers` defines the breadth-first distance on the grid as it was before the search. It also proves what that distance means for walks: a cell at distance v ends a walk of v moves, and no shorter walk reaches it. The main results:
- **Expansion.** Every pass labels each free cell within the current depth with its exact distance. The search ends either with the destination recorded and first touched at the last depth, or having proved that no walk ever reaches it. Termination follows from a measure: the set of free cells not yet reached shrinks with every pass that continues.
- **Backtracking.** It leaves exactly one shortest path labelled with its distances. Every other free cell is free again, and the start, the destination and the obstacles are never altered.

**knightstour.c** searches for a knight's tour of a 7 × 7 board. The board is `visitedSpaces[file][rank]`: 0 means unvisited, n > 0 means the n-th square of the tour. Starting from (0, 0), `jump` works like this:
- It numbers its square.
- It returns at once if `allVisited` holds.
- Otherwise it tries the offset pairs of `jumpCoords = {1, -1, 2, -2}` whose parts differ in size, in order, recursing wherever `jumpValid` allows. It returns the first positive result.
- When every move fails, it clears its square and returns -1.

The model (module `KnightsTour`) proves three things:
- The offsets tried are exactly the eight knight moves.
- A result of -1 leaves the board as it was.
- A result of 49 leaves a complete tour on the board, extending the path so far. A ghost sequence records that path.

`jumpValid` as written reads the square before testing the bounds. This is recorded under Findings; the model uses the corrected test.

Both C programs fill the fixed-size grid step by step, so the model uses arrays and methods with loop invariants. Pure functions are used only where the C merely computes a value.

## Model

| member | source | states |
|---|---|---|
| Grassfire.Planner.constructor | grassfire.c:30-35 | Holds a grid with one start cell, one destination, and otherwise free cells and obstacles. The depth and the recorded destination start at 0. |
| Grassfire.Planner.CellInfo | grassfire.c:107-116 | Returns -4 (INVALID) exactly for coordinates off the 36 × 20 grid, and the cell's code otherwise. |
| Grassfire.ExpandRankNeighbour | grassfire.c:127-169 | The four scan positions of modify_adjacent (col+1, row-1, col-1, row+1) are exactly the four orthogonal neighbours, and a neighbour's position leads back to it. |
| Grassfire.Planner.FirstGoal | grassfire.c:127-169 | The scan position of the first neighbour that is the destination: no earlier neighbour is the destination, or 4 when none is. |
| Grassfire.Planner.StampIfFree | grassfire.c:128-136 | One neighbour check returns the neighbour's old code. The neighbour becomes currentDepth + 1 exactly when it was free, and no other cell changes; nothing changes when it was not free. |
| Grassfire.Planner.ModifyAdjacent | grassfire.c:119-176 | Returns -2 exactly when some neighbour is the destination, and records the first such neighbour. Returns 1 exactly when none is and some neighbour was free; otherwise returns 0. Only the free neighbours scanned before the first destination become currentDepth + 1. The recorded destination changes only on -2, and a result of 0 leaves the grid unchanged. |
| Grassfire.Planner.ScrubDepth | grassfire.c:179-189 | Every cell holding currentDepth, except the one to keep, becomes free. No other cell changes. |
| Grassfire.Planner.LayerCode | grassfire.c:244 | During pass d, a cell holds d exactly when its shortest distance from the start is d. Only the destination holds -2, and a cell holding -1 is free and beyond d. |
| Grassfire.Planner.StampNew | grassfire.c:127-169 | Expanding a cell stamps currentDepth + 1 on each free neighbour scanned before the first destination. |
| Grassfire.Planner.StampKeeps | grassfire.c:127-169 | Expanding a cell changes only free cells, and changes nothing when no neighbour is free. |
| Grassfire.Planner.ExpandCell | grassfire.c:244-251 | Expanding a cell at distance d beside the destination leaves the search in its found state. Otherwise the pass moves past the cell, and some neighbour holds d + 1 when one was free. Only free cells change. |
| Grassfire.Planner.ScanCell | grassfire.c:244-252 | Scanning one cell either meets the destination (found state) or keeps the pass invariant. Every free cell within d holds its distance, and a free cell beside an already-scanned cell at distance d holds d + 1. A result of 1 comes with a cell holding d + 1; only free cells change unless the destination is met. A result of 0 leaves the grid unchanged, and any result but -2 leaves the recorded destination unchanged. |
| Grassfire.Planner.ExpandPass | grassfire.c:233-254 | A pass either reaches the destination and stops checking; the destination is then recorded, first touched from distance d, and every free cell within d holds its distance. Or the pass ends with every free cell within d at its distance and every free cell beside a cell at distance d holding d + 1. It then reports truthfully whether any cell holds d + 1, and the recorded destination is unchanged. |
| Grassfire.Planner.NextPass | grassfire.c:232-257 | A full pass that did not meet the destination leaves the grid labelled as the next pass expects. |
| Grassfire.Planner.Exhausted | grassfire.c:249-257 | A pass that stamps nothing means every cell reached in any number of moves is reached within d, so no walk from the start ever touches the destination. |
| Grassfire.Planner.ExhaustedLabels | grassfire.c:232-257 | When the search ends without a path, every free cell reached in any number of moves holds its exact distance. |
| Grassfire.Planner.Progress | grassfire.c:249-256 | A pass that stamps a cell shrinks the set of free cells not yet reached, so the search loop terminates. |
| Grassfire.Planner.AfterPass | grassfire.c:246-257 | After a pass and the depth increment, either another pass can start with fewer unreached cells, or the search is over: found, or exhausted with no path. |
| Grassfire.Planner.Expand | grassfire.c:229-257 | The search loop terminates. Either the destination is recorded, first touched at depth currentDepth - 1, with every free cell within that depth holding its distance; or no walk reaches the destination, no cell is reached beyond currentDepth - 1, and every free cell within it holds its distance. |
| Grassfire.Planner.BacktrackStart | grassfire.c:195-198 | The first scrub frees the partly stamped layer beyond the destination's, so backtracking starts at the destination with every label an exact distance. |
| Grassfire.Planner.BackNext | grassfire.c:200-216 | The cell backtracking moves to is a neighbour holding the current depth whenever some neighbour holds it; otherwise it is the current cell. |
| Grassfire.Planner.BackNeighbour | grassfire.c:199-216 | Some neighbour of the current cell holds the depth exactly while backtracking is inside the reached layers. The first iteration, one layer above the destination's, finds none. |
| Grassfire.Planner.MoveBack | grassfire.c:200-216 | Moves to BackNext and frees every other cell of the current depth. Changes nothing when no neighbour holds it. |
| Grassfire.Planner.BackTurn | grassfire.c:200-217 | One iteration keeps the backtracking invariant: the new cell joins the path at its distance, and the rest of its layer is free. |
| Grassfire.Planner.BackStep | grassfire.c:200-217 | One loop iteration lowers the depth by one and keeps the backtracking invariant. |
| Grassfire.Planner.BacktrackEnd | grassfire.c:199-219 | At depth 0 the kept cells form a shortest path from the start to the destination. Each path cell holds its index, and every other free cell is free. |
| Grassfire.Planner.BacktrackGrid | grassfire.c:191-219 | Leaves depth 0 and one shortest path labelled 1, 2, … from the start to beside the destination. Every other free cell is free again; the start, the destination and the obstacles are unchanged. |
| Grassfire.Planner.Search | grassfire.c:229-264 | When the destination is reached, the grid ends holding exactly one shortest path labelled with its distances. Otherwise no walk from the start touches the destination, and every free cell reached in any number of moves holds its distance. |
| Layers.LayerIsWalkLength | grassfire.c:11-13 | A cell's label, its breadth-first distance, is the number of moves of a shortest walk to it through free cells. |
| Layers.ShortestPathIsShortest | grassfire.c:3-5 | No walk from the start that ends beside the destination is shorter than the path backtracking keeps. |
| Layers.NoWalkToGoal | grassfire.c:5-6 | When the destination is never touched, no walk from the start ends beside it. |
| Layers.StableLayers | grassfire.c:249-250 | Once one more move reaches no new cell, no number of moves does. |
| KnightsTour.KnightOffsets | knightstour.c:108-113 | The offset pairs from jumpCoords whose parts differ in absolute value are exactly the eight knight moves. |
| KnightsTour.OffsetMove | knightstour.c:108-113 | Each offset pair jump tries is a knight move. |
| KnightsTour.JumpValidAsWritten | knightstour.c:44-55 | The evaluation of the C reads outside the board exactly when the target square is off the board. |
| KnightsTour.OffBoardRead | knightstour.c:50 | From the starting square, the offset pair (-1, 2), which jump tries, makes the C read visitedSpaces[-1][2]. |
| KnightsTour.AsWrittenAgrees | knightstour.c:50-54 | Wherever the evaluation of the C stays on the board, it agrees with JumpValid. |
| KnightsTour.JumpValid | knightstour.c:44-55 | A jump is valid exactly when the target is on the board and not yet visited. |
| KnightsTour.AllVisited | knightstour.c:58-68 | True exactly when no square of the board holds 0. |
| KnightsTour.SetSquare | knightstour.c:93 | Writing a square changes that square and no other. |
| KnightsTour.TourExtend | knightstour.c:88-93 | Numbering a fresh square, a knight's move after the last one, with depth extends the path numbered on the board. |
| KnightsTour.TourLength | knightstour.c:95-96 | A path numbered on the board has at most 49 squares, and exactly 49 when no square is left at 0. So allVisited holds exactly when the depth is 49. |
| KnightsTour.Jump | knightstour.c:87-128 | Returns -1 or 49. On -1 the board is exactly as before the call, since the square's own write is undone. On 49 the board holds a complete knight's tour extending the path so far with the new square. |
| KnightsTour.TryMoves | knightstour.c:106-124 | Tries the knight moves in order and stops at the first that completes a tour. When none does, it returns -1 with the board unchanged. |
| KnightsTour.NewBoard | knightstour.c:140-144 | The board starts with every square 0. |
| KnightsTour.SolveTour | knightstour.c:136-150 | Either the board holds a complete knight's tour that starts on (0, 0) with move 1, or the result is -1 and the board is all 0. |

## Left out

- randomize_grid and initialize_number_generator depend on `rand` and `time`. The constructor of `Planner` instead takes any grid with one start cell, one destination, and free cells and obstacles elsewhere.
- print_grid, printBoard and the messages and run times printed by both `main` functions are terminal output and are not modelled. `clock` is not modelled either.
- The C `int` width: every value stored is between -4 and 36 · 20 in grassfire.c and between -1 and 49 in knightstour.c, so no arithmetic can overflow. Dafny's unbounded `int` gives the same results.
- The structure of the loop bodies. The body of backtrack_grid's loop is split into MoveBack and BackStep, and the body of main's scan into ScanCell and ExpandPass. The loops of jump are TryMoves, and the board initialisation of main is NewBoard. Each keeps the C's statements and their order.
- The ghost `route` of `Planner` and the ghost path of `Jump` exist only to state the results; the C has neither.
- In knightstour.c the board is passed to each function as its rows; in the model it is one `array2<int>` shared by every call.
- That a tour from (0, 0) exists on the 7 × 7 board is not proved. `SolveTour` states what each outcome means, not which one occurs.
- The scan orders differ: expansion checks col+1, row-1, col-1, row+1, and backtracking checks col+1, row+1, col-1, row-1. The comments in backtrack_grid call row+1 "top". The model follows the code. Any fixed order keeps the proved properties.

## Findings

| source | as written | input that shows it | evidently intended | confidence | as-written member | corrected member |
|---|---|---|---|---|---|---|
| knightstour.c:50 | jumpValid reads `visitedSpaces[newFile][newRank]` before it tests that the square is on the board | jumpValid(board, 0, 0, -1, 2) from the starting square: reads visitedSpaces[-1][2], outside the array | test the bounds first and read the square only when it is on the board | not executed | KnightsTour.JumpValidAsWritten | KnightsTour.JumpValid |

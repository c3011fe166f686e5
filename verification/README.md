# Maze generators and solvers, modelled in Dafny

This project models the grid algorithms of a small maze toolkit. Two
generators carve mazes out of a wall-filled grid. The iterative generator
carves one spanning tree over the lattice cells. The recursive carver runs
its `visit` twice from (1, 1), so its maze is the union of two such trees
and may hold loops. Three solvers turn a maze into a 0/1 solution mask:

- `large_maze_generator.py` is the iterative, stack-based generator. The module is `Generator`.
- `maze.py` is the recursive `visit` carver behind the fixed 39 x 19 maze script. The module is `Carver`.
- `dead_end_solver.py` solves by dead-end filling. The module is `DeadEnd`.
- `left_hand_algo.py` is the left-hand wall follower. The module is `LeftHand`.
- `recursive_backtracking.py` is the depth-first backtracking solver. The module is `Backtracking`.

Shared material lives in three modules:

- `Grid` holds the grid type, cell sets and sequence helpers.
- `Lattice` holds the odd/odd "lattice" cells that both generators carve between, including the fact that the lattice is connected and its size.
- `Wrappers` holds `Option` and `Result`.

A grid is a `seq<seq<int>>` indexed `g[y][x]`. 0 is open, 1 is wall, and the dead-end solver writes 2 into filled cells. The generators name cells `(x, y)`, as their source does. The solvers name cells `(y, x)`, as theirs do.

Randomness (`random.choice`) is an oracle parameter `nat -> nat`. The chosen index is the oracle's value modulo the number of candidates, so every property proved holds for every sequence of random choices. Exceptions become `Err` values of a per-module error type.

## Model

| member | source | states |
|---|---|---|
| Generator.OddDimension | large_maze_generator.py:11-15 | An even dimension is raised by one and an odd one kept: the result is odd and is n or n + 1 |
| Generator.Candidates | large_maze_generator.py:92-105 | A direction is listed exactly when the cell two steps that way is strictly inside the border and unvisited; entries keep the N, S, W, E order of `directions` |
| Generator.Init | large_maze_generator.py:33-38 | The starting grid is all wall except (1, 1); the stack and the visited set hold only (1, 1) |
| Generator.Carve | large_maze_generator.py:108-116 | Carving towards a candidate opens exactly the wall between and the target, adds the target to visited, pushes it and counts one step; no other cell changes |
| Generator.Step | large_maze_generator.py:90-148 | One loop iteration pops the stack when the top has no candidate, and otherwise carves towards one of the candidates |
| Generator.InitInv | large_maze_generator.py:33-40 | The initial state satisfies the loop invariant: 0/1 cells, open cells are visited lattice points or walls between two of them, open count 2V - 1, step V - 1, popped points have no unvisited lattice neighbour |
| Generator.CarveInv | large_maze_generator.py:107-116 | The carve branch preserves the loop invariant |
| Generator.StepInv | large_maze_generator.py:83-148 | Every iteration preserves the invariant, and either visits a new lattice point or shrinks the stack |
| Generator.StepDecreasesMeasure | large_maze_generator.py:83-148 | The loop terminates: twice the unvisited lattice points plus the stack height strictly decreases and stays non-negative |
| Generator.OpenTwoCount | large_maze_generator.py:110-111 | Opening two distinct wall cells adds exactly two open cells |
| Generator.InvBorderWalls | large_maze_generator.py:33 | Under the invariant, every border cell is still a wall |
| Generator.GenerateIterative | large_maze_generator.py:30-178 | The returned maze holds only 0 and 1, keeps a solid border, opens every lattice point, and has exactly 2 * (H//2) * (W//2) - 1 open cells, the count of a spanning tree over the `total_passages` points |
| Generator.Generate | large_maze_generator.py:11-40 | After odd coercion, construction fails exactly when a dimension is below 3 (the `maze[1, 1]` write cannot happen); otherwise both corners (1, 1) and (W-2, H-2) are open and the open count is that of a spanning tree |
| Lattice.PointsCard | large_maze_generator.py:40 | An odd W x H grid has (H//2) * (W//2) lattice points, the source's `total_passages` |
| Lattice.ClosedCoversLattice | large_maze_generator.py:83-148 | A lattice set containing (1, 1) in which every point's lattice neighbours are present is the whole lattice: a finished carve reaches every point |
| Carver.ConfiguredDimsValid | maze.py:7-10 | The fixed WIDTH 39 and HEIGHT 19 pass the module's odd-and-at-least-3 assertions |
| Carver.InitialBoard | maze.py:17-20 | The board before carving has a key for every (x, y) in range, all walls |
| Carver.UnvisitedNeighbours | maze.py:38-49 | A direction is listed exactly when its guard holds and the cell two steps away is not in `hasVisited`; listed directions keep the N, S, W, E order |
| Carver.CanGoLattice | maze.py:39-49 | From a lattice point, a direction's guard plus the unvisited test holds exactly when the jump lands on an unvisited lattice point |
| Carver.NoneLeftSurrounded | maze.py:51-52 | `visit` returns exactly when every lattice neighbour of the cell is visited |
| Carver.Visit | maze.py:32-74 | `visit` opens its cell, never walls an empty tile, carves only interior tiles, only appends to `hasVisited`, and every cell it appends ends empty with all its lattice neighbours visited |
| Carver.CarvedLattice | maze.py:77-78 | After the first full `visit(1, 1)`, every lattice point of the board is empty |
| Carver.CarveTwice | maze.py:77-82 | The first pass opens the whole lattice and carves only interior tiles; the second pass only opens more interior tiles |
| Carver.ToArray | maze.py:86-92 | The array conversion puts 1 exactly at wall tiles and 0 elsewhere, in an H x W grid |
| Carver.ToArrayRoundTrip | maze.py:86-92 | Reading the array back gives the same board |
| Carver.FromArrayRoundTrip | maze.py:86-92 | A 0/1 grid converted to a board and back is unchanged |
| Carver.CarvedArray | maze.py:86-92 | The carved board's array has a solid border and every lattice cell open |
| Carver.Script | maze.py:77-105 | The saved data has shape (H, W), start (1, 1) and end (H-2, W-2), both open; the maze is 0/1 with a solid border and every lattice cell open |
| Carver.MazeScript | maze.py:7-105 | With the configured 39 x 19 size, the saved start and end cells are open |
| DeadEnd.CountOpenNeighbours | dead_end_solver.py:81-90 | The count equals the list length, at most 4; a cell is listed exactly when it is an in-grid orthogonal neighbour holding 0 |
| DeadEnd.OpenNeighboursDistinct | dead_end_solver.py:84-89 | No neighbour is listed twice, so the count is the number of distinct open neighbours |
| DeadEnd.DeadEnds | dead_end_solver.py:174-181 | The scan lists exactly the open cells, other than start and end, with one open neighbour, in row-major order |
| DeadEnd.FillAll | dead_end_solver.py:187-188 | Filling writes 2 into exactly the listed cells and leaves every other cell as it was |
| DeadEnd.FillAllCounts | dead_end_solver.py:183-188 | Filling k distinct open cells removes k open cells and adds k filled ones |
| DeadEnd.Pass | dead_end_solver.py:172-188 | One pass fills exactly the dead ends of the grid it starts from |
| DeadEnd.PassCounts | dead_end_solver.py:183-188 | One pass's `cells_filled` increment is the number of open cells it removes and of filled cells it adds |
| DeadEnd.PathNoDeadEnd | dead_end_solver.py:178-180 | No cell on an open start-to-end path is a dead end |
| DeadEnd.PassKeepsPath | dead_end_solver.py:172-188 | A pass never fills a cell of an open start-to-end path |
| DeadEnd.PassSteps | dead_end_solver.py:171-201 | The loop invariant survives a pass: only open cells were filled, start and end stay open, and open paths survive |
| DeadEnd.Mask | dead_end_solver.py:203-206 | The solution holds 1 exactly where the working grid is still open, and 0 elsewhere |
| DeadEnd.Settle | dead_end_solver.py:169-188 | The loop's final grid, defined pass by pass: a pass that finds nothing ends it. A pass over that grid finds no dead end, and it differs from the starting grid only where open cells became filled |
| DeadEnd.PassCount | dead_end_solver.py:169-183 | The number of loop turns, counting the last one that finds nothing: at least 1, and at most one more than the number of cells filled, since every other turn fills a cell |
| DeadEnd.SettleFillsOnlyDeadEnds | dead_end_solver.py:169-188 | The loop changes a cell exactly when the cell is a dead end at the start of some pass that fills something |
| DeadEnd.SettleKeeps | dead_end_solver.py:169-188 | Along the passes, filled cells were open, start and end stay open, every open start-to-end path stays open, and cells with no open neighbour in the maze stay open |
| DeadEnd.SettleResult | dead_end_solver.py:169-201 | Starting from the maze, the final grid keeps all of the above, has no dead end, and changed exactly the cells that were dead ends at some pass |
| DeadEnd.SolveDeadEndFilling | dead_end_solver.py:33-289 | The returned grid is the loop's final grid and `iterations` is its number of passes. No dead end remains. A cell changed exactly when it was a dead end at the start of some pass, and only open cells were filled. Start and end stay open if they were, every open start-to-end path survives, and cells with no open neighbour in the maze stay open. `cells_filled` counts the filled cells, passes number from 1 to `cells_filled` + 1, and the mask marks the remaining open cells |
| DeadEnd.PassKeeps | dead_end_solver.py:171-188 | A pass keeps all that the loop promises of the maze, and moves as many cells from open to filled as it lists |
| DeadEnd.PassKeepsIsolated | dead_end_solver.py:178-188 | A pass never fills a cell that had no open neighbour in the maze |
| DeadEnd.IsolatedStaysOpen | dead_end_solver.py:178-180 | A cell with no open neighbour is never a dead end, so filling never reaches it |
| DeadEnd.SettledNoDeadEnd | dead_end_solver.py:174-183 | A grid on which a pass finds nothing has no dead end |
| LeftHand.InitialHeading | left_hand_algo.py:64-73 | The first heading is the first of UP, RIGHT, DOWN, LEFT with an open neighbour; there is none exactly when every neighbour is closed |
| LeftHand.WrapMod | left_hand_algo.py:120 | The heading arithmetic is Python's `(direction + turn) % 4` |
| LeftHand.Turn | left_hand_algo.py:119-120 | Turn k of left, forward, right, back has rank k relative to the heading |
| LeftHand.TryTurnsSpec | left_hand_algo.py:119-126 | The turn loop leaves the walker in place exactly when no remaining turn is open; otherwise it moves to the open neighbour of lowest rank |
| LeftHand.StepSpec | left_hand_algo.py:118-126 | A step moves to the open neighbour that comes first in left, forward, right, back order, and stays put only when every neighbour is closed |
| LeftHand.StepMoves | left_hand_algo.py:118-126 | With an open neighbour, a step reaches an adjacent open cell, and the reverse heading leads back |
| LeftHand.WalkInBounds | left_hand_algo.py:113-126 | The walker never leaves the grid |
| LeftHand.WalkOpen | left_hand_algo.py:113-126 | After the first step the walker always stands on an open cell |
| LeftHand.WalkMoves | left_hand_algo.py:113-126 | From an open cell with an open neighbour, every step moves to an adjacent open cell |
| LeftHand.MarksOneMore | left_hand_algo.py:128-129 | Marking the new cell and appending it keeps the mask's ones exactly the path's cells |
| LeftHand.LeftHandAlgo | left_hand_algo.py:43-216 | Out-of-bounds start and out-of-bounds end are rejected, in that order, and an enclosed start after them, each exactly when its condition holds. On success, `end` is first reached after `steps` moves, within `max_steps`, the path lists the cells entered, and the mask marks exactly them. The step-limit error is raised only when `end` is not reached in `max_steps` moves |
| Backtracking.Backtrack | recursive_backtracking.py:119-156 | The goal test comes first and marks `end`; a visited or wall cell fails with nothing changed; the visited set only grows |
| Backtracking.BacktrackCounts | recursive_backtracking.py:135-156 | `steps` counts the visited cells, all open, in the grid and not `end`; a failed call restores the solution marks |
| Backtracking.BacktrackFinds | recursive_backtracking.py:129-153 | A successful call marks exactly a duplicate-free route from `pos` to `end` through cells it had not visited before |
| Backtracking.BacktrackCloses | recursive_backtracking.py:135-156 | After a failed call, every visited cell off the current chain has all in-grid neighbours visited or walls, none of them `end` |
| Backtracking.TryMovesCloses | recursive_backtracking.py:146-153 | When the remaining moves all fail, each of their in-grid targets is visited or a wall and is not `end` |
| Backtracking.RouteStaysInside | recursive_backtracking.py:146-156 | No route escapes a searched-out region that does not hold `end` |
| Backtracking.SolveMaze | recursive_backtracking.py:36-187 | The solver fails exactly when the start lies outside the grid |
| Backtracking.SolveMazeCorrect | recursive_backtracking.py:80-187 | The mask is non-empty exactly when a route from start to end exists; it then marks exactly a duplicate-free route from `start` whose cells are open except possibly `end` itself, because the goal test comes first, and `steps` is at most the number of open cells |

## Left out

- Drawing, pygame windows, event loops, frame timing and progress prints in every file: these are presentation only.
- JSON and `.npy` loading and saving, file names, timestamps, prompts and `main`: this is I/O.
- `time.time()` and the returned `solve_time`: clocks are not modelled.
- `printMaze` in maze.py: console output.
- export_maze_image.py is not part of this model.
- `sys.setrecursionlimit` and Python's recursion depth limit: the recursive `visit` and `backtrack` are modelled without a depth bound.
- The left-hand solver's `backtracks` and `turns_made` counters and its `prev_direction` (left_hand_algo.py:108-111): they are set and never used afterwards.
- The dead-end solver's `iterations` count: the source only prints it (dead_end_solver.py:212) and does not return it. The model returns it so that its contract can say it.
- The left-hand solver's "not a 2-D array" `ValueError`: the grid type is always two-dimensional.
- Backtracking.SolveMaze: a negative start index, which numpy would wrap to the far edge, is reported as `IndexError` like any other out-of-range start.
- Exception classes become per-module error enums. In `LeftHandError`, `StartOutOfBounds` and `EndOutOfBounds` are the `ValueError`s of left_hand_algo.py:47-51, and `Enclosed` and `StepLimitExceeded` are the `RuntimeError`s of lines 73 and 116. `BacktrackError.IndexError` stands for the `IndexError` that numpy would raise on an out-of-range start; the source does not raise it explicitly. `GenError.InvalidDimensions` stands for the `IndexError` at `maze[1, 1]` or numpy's `ValueError` for a negative size; neither is raised explicitly.
- Generator.Generate: `np.ones` with a negative size raises a different exception from the `IndexError` at `maze[1, 1]`; both are `InvalidDimensions`.
- Generator.GenerateIterative: the open count is the edge count of a spanning tree, but that the open cells are connected and acyclic is not proved.
- Carver.Visit: states that a visit only opens interior tiles and opens every cell it appends, not that each choice opens exactly the one wall between the cell and its target; the board is a map and the step-by-step write is left to the body.
- Carver.CarveTwice: the second `visit(1, 1)` restarts with a fresh `hasVisited` on an already carved board. The model proves it only adds interior openings, not what shape the second tree gives the maze.
- Carver.UnvisitedNeighbours: the order is stated for neighbouring entries, which implies but does not spell out the order of every pair.
- DeadEnd.SolveDeadEndFilling: it proves that no dead end remains and every open path survives, not that the open cells form only the path. It also returns the final working grid, which the source keeps local, and the pass count, which the source only prints.
- LeftHand.LeftHandAlgo: the result also carries the list of entered cells, which the source keeps local.
- Backtracking.SolveMazeCorrect: the result also carries the found route, which the source only holds in the solution mask.
- When no route exists, the backtracking solver returns an all-zero mask and does not raise. The model follows the code.

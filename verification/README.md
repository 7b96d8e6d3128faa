# 8-puzzle board and A* solver, modelled in Dafny

This project models the n-by-n sliding-tile puzzle: `Board.java` and `Solver.java`.

A board is an immutable grid of labels in which 0 is the blank. It offers the following operations:
- the Hamming and Manhattan heuristics;
- the goal test;
- structural equality;
- the boards one slide away;
- a "twin" board, in which two non-blank tiles of the bottom-right 2x2 block are exchanged.

The solver advances two best-first searches in lockstep, one from the initial board and one from its twin. Each track has its own priority queue and its own stack of covered nodes. The search stops when one of the extracted nodes is a goal, checking the primary track first. The solution is then rebuilt from the parent links of the last covered primary node.

Files:
- `wrappers.dfy` (module `Wrappers`): `Option` stands for Java's `null` and `Result` for thrown exceptions.
- `board.dfy` (module `Boards`): the board as a value `Board(tiles, zeroRow, zeroCol)` over `seq<seq<int>>`.
  - `getNeighbor` and `twin` build a new grid instead of mutating and restoring the board's own, since grids are values. For a well-formed board the two agree; "## Left out" names the case where they do not.
  - `WellFormed` is the class invariant: the grid is square, its labels lie in 0..n*n-1 and are pairwise distinct, and the cached blank position holds 0.
  - Java's truncating `/` and `%` are written out as `JavaDiv` and `JavaRem`.
- `solver.dfy` (module `Solving`): the search with node lists as arenas.
  - Each track keeps every queued node in a list; index 0 is the root, and `previous` is the index of the parent.
  - The priority queue is a sequence of node indices. `IsMinPos` describes every entry that `delMin` may remove when priorities tie.
  - `Run` drives the loop with the first minimum as a concrete tie-break, for at most `fuel` iterations.

## Model

| member | source | states |
|---|---|---|
| `Boards.NewBoard` | Board.java:11-24 | The board holds exactly the given grid as its own value, so later changes to the caller's grid cannot reach it. The recorded blank is the last 0 in row-major order, or (0, 0) when the grid has no 0. |
| `Boards.NewBoardWellFormed` | Board.java:11-24 | On a square permutation grid the constructor records the one blank, and the board satisfies the class invariant. |
| `Boards.Hamming` | Board.java:45-62 | The count is 0 exactly when no non-blank cell has row-major index `i*n+j` different from `label-1`. It is at most n*n, and at most n*n-1 on a well-formed board. |
| `Boards.Manhattan` | Board.java:65-85 | The sum is 0 exactly when every non-blank tile stands at the row `(e-1)/n` and the column `(e-1)%n` its label names, with Java's truncating division. |
| `Boards.HammingAtMostManhattan` | Board.java:45-85 | On every square board `hamming() <= manhattan()`: a misplaced tile is at least one step from its goal cell. |
| `Boards.IsGoal` | Board.java:105-121 | The test holds exactly when cell (n-1, n-1) is 0 and every other cell (i, j) holds `i*n+j+1`. |
| `Boards.GoalIffHammingZero` | Board.java:45-62 | On a well-formed board, the goal test holds exactly when `hamming()` is 0. |
| `Boards.GoalIffManhattanZero` | Board.java:65-85 | On a well-formed board, the goal test holds exactly when `manhattan()` is 0. |
| `Boards.Equals` | Board.java:91-103 | Boards of different dimension differ. Otherwise they are equal exactly when their grids agree cell by cell, so the relation is reflexive and symmetric. The cached blank is not compared. |
| `Boards.GetNeighbor` | Board.java:152-161 | On a well-formed board, with a target cell other than the blank: the result is well formed, its blank is at the target cell, and its grid is the source grid with those two cells exchanged. |
| `Boards.Targets` | Board.java:128-147 | The candidate cells are inside the grid and adjacent to the blank. They come strictly in the order up, down, left, right, and every adjacent in-grid cell is among them. |
| `Boards.TargetCounts` | Board.java:128-147 | The blank has two in-grid neighbours in a corner, three elsewhere on the border and four in the interior. |
| `Boards.Neighbors` | Board.java:124-150 | `neighbors()` yields 2 boards when the blank is in a corner, 3 elsewhere on the border and 4 in the interior. |
| `Boards.NeighborsAreSlides` | Board.java:124-161 | Each neighbour of a well-formed board is one slide of the blank, with all other cells unchanged. The neighbours come strictly in the order up, down, left, right. |
| `Boards.NeighborsAreMoves` | Board.java:124-161 | A board is a neighbour exactly when it is one slide of the blank away. |
| `Boards.NeighborsDistinct` | Board.java:124-161 | The neighbours of a well-formed board have pairwise different grids. |
| `Boards.Twin` | Board.java:164-183 | On a well-formed board with n >= 2, `twin()` never returns null and never reaches the row n-2 pass. It exchanges cells (n-1, c) and (n-2, c), both non-blank, where c = n-1 unless one of them is the blank, and then c = n-2. The result is well formed and differs from the source, and the blank stays in place. With n <= 1 the scan reaches index -1. |
| `Boards.TwinOutcomes` | Board.java:164-183 | The scan reaches index -1 on boards of dimension 0 or 1, and on well-formed larger boards it swaps the last two rows of column `TwinColumn`. |
| `Boards.TwinFound` | Board.java:164-183 | On a well-formed board of dimension at least 2 the scan ends in the swap that `TwinSwapsLastRows` describes. |
| `Boards.SwapTilesWellFormed` | Board.java:171-173 | Exchanging two distinct non-blank tiles of a well-formed board gives a well-formed board with a different grid and the blank in the same place. |
| `Boards.TwinScanTiny` | Board.java:165-169 | On a 0x0 or 1x1 grid the scan reads row or column -1. |
| `Boards.TwinScanFindsLastRow` | Board.java:165-178 | On a well-formed board, the last or second-to-last column of the last row starts a vertical pair of two tiles, and the scan swaps that pair. |
| `Solving.Priority` | Solver.java:106-111 | A node's priority is at least its move count, and equals it exactly when its board's Manhattan distance is 0. |
| `Solving.Compare` | Solver.java:114-118 | The comparator is negative exactly when the first priority is lower, and zero exactly on equal priorities, which are then unordered. |
| `Solving.Start` | Solver.java:32-36 | A root node has no parent and 0 moves, and the queue holds it alone with nothing covered. |
| `Solving.TopHasParent` | Solver.java:76-79 | With two or more nodes covered, the top of the covered stack has a parent, so `peek().previous` is never null. |
| `Solving.Extract` | Solver.java:39-43 | `delMin` followed by `push`: the chosen entry leaves the queue as a multiset and becomes the new top of the covered stack, so `peek()` returns it. The node list is unchanged and the track keeps its structure. |
| `Solving.FirstMin` | Solver.java:39-40 | The position chosen by the driver is a minimum-priority entry of the queue. |
| `Solving.Grandparent` | Solver.java:76-79 | A grandparent exists only when at least two nodes are covered. It is then the board of the covered top's parent. |
| `Solving.Contains` | Solver.java:76-79 | `contains` is false while fewer than two nodes are covered. Otherwise it is true exactly when the candidate's board equals the board of the covered top's parent. |
| `Solving.EnqueueAll` | Solver.java:54-58 | The loop over the neighbours appends to the node list exactly the fresh children (`FreshChildren`), in neighbour order. It appends to the queue exactly their indices, the next free ones. |
| `Solving.Expand` | Solver.java:54-58 | Expanding a list of neighbours keeps the covered stack, the root and the grandparent. The node list grows by exactly the fresh children in neighbour order, and the queue by exactly their indices. The result is again a well-structured track. |
| `Solving.FreshChildrenSound` | Solver.java:55-57 | Every queued child points at the covered top, has one more move, carries a board from the neighbour list, and that board differs from the grandparent's: `contains` lets no stale board through. |
| `Solving.FreshChildrenComplete` | Solver.java:55-57 | Every neighbour whose board differs from the grandparent's has its child among the queued ones: `contains` drops nothing else. |
| `Solving.FreshChildrenCons` | Solver.java:54-57 | The first neighbour contributes a child exactly when it differs from the grandparent, ahead of the children of the rest. |
| `Solving.ChildrenKeepTrack` | Solver.java:54-58 | Appending the fresh children of the covered top, with their indices queued, keeps the parent links a tree and the queue entries in range and non-root. The grandparent is unchanged. |
| `Solving.KidsKeepTree` | Solver.java:55 | Children of an existing node with one more move and a neighbouring board, appended to a tree, keep it a tree. |
| `Solving.CountFresh` | Solver.java:56-57 | The number of neighbours that pass the duplicate check is at most the number of neighbours. |
| `Solving.AllFresh` | Solver.java:56-57 | When no neighbour equals the grandparent, every neighbour is queued. |
| `Solving.DistinctMostlyFresh` | Solver.java:56-57 | Among neighbours with pairwise different grids at most one equals the grandparent, so all but at most one are queued. |
| `Solving.ExpandTop` | Solver.java:54-64 | Expanding the covered top over its `neighbors()` changes the track exactly as `Expanded` describes: the fresh children appended, their indices queued, the stack kept. The track keeps its structure, and its queue is never empty afterwards. |
| `Solving.NeighborsMostlyFresh` | Solver.java:54-57 | A well-formed board of size at least 2 always has a neighbour that `contains` does not reject, whatever the grandparent. |
| `Solving.Iterate` | Solver.java:38-65 | One iteration extracts one node per track. The verdict is solvable exactly when the primary node is a goal. It is unsolvable exactly when the primary node is not a goal and the twin node is. On a verdict both tracks are just the extractions. Otherwise each track is its extraction expanded as `Expanded` describes, and the state stays consistent, with both queues non-empty. |
| `Solving.IterateCovers` | Solver.java:39-43 | Each iteration pushes exactly the entry it removed from each queue onto that track's covered stack, whatever the verdict. |
| `Solving.Advance` | Solver.java:39-64 | A track whose extracted node is not a goal covers that entry and is then expanded as `Expanded` describes. Its queue is non-empty afterwards. |
| `Solving.Begin` | Solver.java:23-36 | The primary track is rooted at the initial board and the twin track at `twin()` of it, which exists. |
| `Solving.Run` | Solver.java:38-65 | The loop keeps the search state consistent and both roots in place. Once a verdict is reached nothing changes. |
| `Solving.Chain` | Solver.java:67-73 | The boards from the root to a node along the parent links. There is one more board than the node's move count, so `moves` is the length of the parent chain. The chain starts at the root's board and ends at the node's board. |
| `Solving.ChainIsPath` | Solver.java:54-73 | Consecutive boards of a parent chain are related by `neighbors()`. |
| `Solving.Reconstruct` | Solver.java:67-73 | The stack built by walking `previous` links lists the parent chain from the root to the covered top. The result starts at the root board, ends at the top node's board, has `moves + 1` boards, and each board is a neighbour of the one before. |
| `Solving.ChainStep` | Solver.java:70-72 | A node's chain is its parent's chain followed by its own board, or its board alone at the root. The parent comes earlier in the node list. |
| `Solving.PathExtend` | Solver.java:54-55 | A path extended by a neighbour of its last board is still a path. |
| `Solving.AppendKeepsGrandparent` | Solver.java:76-79 | Adding nodes and queue entries does not change the board that `contains` compares against. |
| `Solving.UnsolvableWitness` | Solver.java:49-52 | An unsolvable verdict means the primary top is not a goal while the twin top is a goal, reached from the twin root by single slides. |
| `Solving.GoalSolvedAtOnce` | Solver.java:45-47 | An initial board that is already the goal is solved in the first iteration, with the one-board solution. |
| `Solving.IsSolvable` | Solver.java:82-84 | On a finished solver the verdict is true exactly when the solution ends in a goal. |
| `Solving.Moves` | Solver.java:87-91 | On a finished solver, `moves()` is -1 exactly when unsolvable. Otherwise it is the number of slides in the solution, and the board at that index is a goal. |
| `Solving.SolutionOf` | Solver.java:94-98 | On a finished solver, `solution()` is absent exactly when unsolvable. Otherwise it is the whole board sequence, a non-empty path of single slides whose last board is a goal. |
| `Solving.StoppedSearchFinishes` | Solver.java:45-73 | When the loop stops, the chain from the primary root to the covered top is a non-empty path of single slides. Its last board is a goal exactly when the verdict is solvable. |
| `Solving.Solve` | Solver.java:21-74 | A missing board raises IllegalArgument before any search, and a board of dimension below 2 hits the index error in `twin()`. Otherwise the search finishes or runs out of fuel. A constructed solver is finished: its solution starts at the initial board, moves one slide at a time, and ends at a goal exactly when the verdict is solvable. The verdict is the loop's, the solution is the primary chain, and `moves()` is the final node's move count. |

## Left out

- `toString` and both `main` methods (Board.java:27-37, 186-229; Solver.java:121-137): string formatting and console test drivers.
- `dimension()` has no member of its own. It is the length of the grid, `|b.tiles|`, written inline.
- The algs4 `MinPQ` and `Stack` are a foreign library whose source is not part of this model.
  - The queue is a sequence of node indices, and any minimum-priority entry may be removed (`IsMinPos`).
  - `Run` fixes one such choice, the first minimum.
  - The stack is a sequence whose last entry is the top.
- Solving.Run: termination of the search loop is not modelled. The loop runs for at most `fuel` iterations, and a search still going then ends in `OutOfFuel`.
- Optimality of the returned path (A* admissibility and consistency of `manhattan`) is not stated.
- The parity theorem, that exactly one of a board and its twin is solvable, is not stated. It is a fact about permutations that the code never checks.
- The pigeonhole step from "n*n pairwise distinct labels in 0..n*n-1" to "each label occurs exactly once" is not proved. `WellFormed` states the first form.
- Java object identity, `null` arguments and `getClass` in `equals` are not modelled. `Equals` compares two square boards.
- Java `int` overflow in the heuristics, in the move counts and in the comparator's subtraction is not modelled (boards are tiny). All arithmetic is unbounded.
- Neighbour boards that `contains` rejects are not stored in the node list: Java builds them and drops them, which cannot be observed.
- Boards.Neighbors: the counts 2/3/4 are stated for n >= 2. On a 1x1 board, `neighbors()` yields nothing, and that case is not stated.
- Boards.IsGoal: requires dimension at least 1. On a 0x0 board `isGoal()` reads index -1 and throws; the solver never calls it there, because `twin()` has already thrown.
- Boards.Equals: requires both grids to be square. A ragged argument grid would make `equals` index past a short row, and that is not modelled.
- Boards.GetNeighbor: on a grid with no 0 the constructor records (0, 0) as the blank. Java's `getNeighbor` then writes the target's label into cell (0, 0) of the source board and overwrites that cell with 0 when it restores (Board.java:153-158), so `neighbors()` corrupts the source board. The model treats grids as values and never changes the source; this case, outside `WellFormed`, is not modelled.
- Boards.Hamming, Boards.Manhattan, Boards.IsGoal, Boards.Targets, Boards.Neighbors and Boards.Twin require a square grid. Java's constructor (Board.java:11-24) accepts ragged rows, and the methods then read past a short row or ignore the cells of a long one. That behaviour is not modelled.
- Solving.Solve: requires a well-formed initial board, which Java does not check. The behaviour on a malformed grid is not modelled.

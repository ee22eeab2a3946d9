# A* grid search

This project models the A* search of the `astar` crate. `find_path` searches a
rectangular board of passable and blocked cells for a route between two cells.
It moves like a chess king, so each step is orthogonal or diagonal. It returns
the route goal-first, or nothing. The model covers the board types of the
library root (`Cell`, `GameData`) and the whole of `find_path`:

- the search nodes and their by-value predecessor chains;
- the neighbour tables and the step costs (10 orthogonal, 14 diagonal);
- the unscaled Manhattan heuristic;
- the first-minimum selection over the open set;
- the neighbour filter and the insertion of new open entries;
- the reconstruction of the path from the goal node's chain.

Modules:

- `Wrappers`: the `Option` type.
- `Grid` (`src/lib.rs`): `Cell`, whose equality is structural over
  `x`, `y` and `solid`; `GameData`, with its board indexed `board[y][x]`; and the
  defaults of both. Cell coordinates are `nat`, because they are `usize` in the program.
- `Pathfinding` (`src/pathfinding.rs`, declarations): `PathNode` holds its
  predecessor as `Option<PathNode>`, as the program's `Box<Option<PathNode>>`
  does. This module also holds the direction tables, the costs, the heuristic,
  the predecessor chain, and what a route is.
- `Search` (`src/pathfinding.rs`, `find_path`): selection, lookup in the open
  set, expansion, reconstruction, the main loop and its invariant.

`Search.FindPath` requires a well-formed board. The whole rectangle of
`board_size_y` rows by `board_size_x` cells must exist in `board`. The
program reads `board[y][x]` only for in-bounds neighbours of the cells it
expands, and it panics only when the search reaches a missing cell. The model
asks for the whole rectangle rather than tracking which part the search
reaches. The board must also be coherent: `board[y][x]` carries the
coordinates `(x, y)`. This is the grid's own invariant, and without it the
neighbours the program computes are not king moves. Under these conditions
the model proves the following:

- The search terminates.
- It returns `Some([start])` when start and goal are equal.
- Any path it returns lists the goal first and the start last, and its
  consecutive cells are king moves apart.
- Every cell of a returned path except the start is an in-bounds, passable
  board cell, and no cell repeats.
- It returns `None` exactly when no such route exists.

Neither endpoint is checked for solidity. The goal is matched by full cell
equality, so a goal whose `solid` flag disagrees with the board is never found
unless it is the start.

Points where the code departs from textbook A*, all modelled as written:

- An open entry reached by a cheaper route is never updated
  (`src/pathfinding.rs:85-99`). `Search.Expand` keeps every existing entry
  unchanged.
- The goal is matched by full cell equality, not by coordinates
  (`src/pathfinding.rs:53`).
- The diagonal cost is the truncated square root of 200, which is 14. This
  equals 10·√2 rounded to the nearest integer (`Pathfinding.FloorSqrt`).
- Minimum cost is not claimed. Because open entries are never improved, the
  code does not guarantee it.

## Model

| member | source | states |
|---|---|---|
| Grid.CellEqualityIsStructural | src/lib.rs:9-14 | two cells are equal exactly when x, y and solid all agree; the same coordinates with different solid flags are different cells |
| Grid.DefaultCellIsOpenOrigin | src/lib.rs:16-24 | on a well-formed board the default cell is an open board cell exactly when the origin is in bounds and passable |
| Grid.DefaultGameData | src/lib.rs:26-33 | the default game data is well formed, has no in-bounds cell and no endpoints |
| Pathfinding.EmptyBoardRoutes | src/lib.rs:26-33 | on the default game data a goal is reachable from a start exactly when the two cells are equal |
| Pathfinding.Heuristic | src/pathfinding.rs:16-21 | the heuristic is non-negative and is zero exactly when the two cells have the same coordinates, whatever their solid flags |
| Pathfinding.HeuristicSymmetric | src/pathfinding.rs:16-21 | the heuristic is symmetric |
| Pathfinding.HeuristicAdmissible | src/pathfinding.rs:16-21 | along any walk by king moves the movement cost is at least the heuristic between its ends |
| Pathfinding.RouteCostBoundsHeuristic | src/pathfinding.rs:16-21 | no route from start to goal costs less than the heuristic between them |
| Pathfinding.DirectionsAreKingOffsets | src/pathfinding.rs:12-13 | the two direction tables list exactly the eight king offsets: an offset is in the tables if and only if it is a king move |
| Pathfinding.DirectionOf | src/pathfinding.rs:12-13 | every king offset has an index below 8 at which the two tables hold it |
| Pathfinding.FloorSqrt | src/pathfinding.rs:82 | the result is the integer square root rounded down: r*r <= n < (r+1)*(r+1) |
| Pathfinding.DiagonalCostIsTruncatedSqrt | src/pathfinding.rs:82 | the diagonal cost 14 is sqrt(10*10*2) truncated to an integer |
| Pathfinding.StepCostIsMoveCost | src/pathfinding.rs:79-83 | a step in table direction d costs 10 exactly when the two cells share a row or a column, and 14 otherwise |
| Pathfinding.ValidNodeChain | src/pathfinding.rs:79-97 | the chain of any node the search can create is a route from the start to the node's cell; the node's g-cost is the sum of the step costs along it |
| Pathfinding.RouteGoalIsOpen | src/pathfinding.rs:66-76 | a route between two different cells ends on an in-bounds open board cell |
| Pathfinding.UnmatchableGoal | src/pathfinding.rs:53 | a goal other than the start is unreachable when it is solid, out of bounds, or unequal to its board cell |
| Search.SelectLowest | src/pathfinding.rs:45-51 | the selected index holds a minimal f-cost, and every earlier index has a strictly larger f-cost, so ties go to the lowest index |
| Search.RemoveAtCells | src/pathfinding.rs:51 | removing the selected node from an open set without repeated cells removes exactly that node's cell and keeps the cells unique |
| Search.FindByCell | src/pathfinding.rs:85 | the lookup finds nothing exactly when no open node stands for the cell; otherwise it returns the first index whose node stands for it |
| Search.Expand | src/pathfinding.rs:65-100 | existing open entries are unchanged; each appended entry is a child of current for an in-bounds, open, unclosed and not yet open board cell, with g = parent g + step cost, h = heuristic to the goal, f = g + h; the appended entries follow the order of the direction tables; every passable in-bounds neighbour ends up closed or open; open cells stay unique |
| Search.ReconstructPath | src/pathfinding.rs:54-60 | the path is the goal node's cell followed by the cells of its predecessors, the chain's root last |
| Search.ChildHistory | src/pathfinding.rs:90-98 | a new node's predecessor chain repeats no cell, and every cell after its own is closed |
| Search.ClosedRegionExcludesGoal | src/pathfinding.rs:101-103 | a set of cells that holds the start, lacks the goal and contains every passable neighbour of its members admits no route to the goal |
| Search.InitialInvariant | src/pathfinding.rs:24-42 | the search invariant holds when the start node alone is open and nothing is closed |
| Search.Advance | src/pathfinding.rs:44-102 | an iteration that does not reach the goal keeps the search invariant; either fewer board cells remain unseen or the open set shrinks, so the loop terminates |
| Search.GoalReached | src/pathfinding.rs:53-61 | an open node for the goal spells out a repetition-free route from the start to the goal |
| Search.Exhausted | src/pathfinding.rs:44 | when the open set is empty under the invariant, the goal is unreachable |
| Search.FindPath | src/pathfinding.rs:23-104 | start equal to goal gives Some([start]); Some(path) is a route goal-first to start-last by king moves through open board cells that repeats no cell; None exactly when no such route exists |

## Left out

- `src/main.rs`: the GUI, the random board generation and point placement are
  left out. They are presentation and interaction, and they do not match the
  library's current signatures.
- `src/style.rs`: colours and button styles are floating-point presentation.
- `consts::MAX_BOARD_HEIGHT` and `MAX_BOARD_WIDTH` are not used by the search.
- `GameData.point_a` and `point_b` are carried but not read by the search.
- The f32 square root at `src/pathfinding.rs:82` is modelled as the integer
  square root of 200. For this argument it agrees with the truncated float.
- Integer widths: g, h and f costs and the board sizes are `i32` in the
  program, and coordinates are `usize`, cast to `i32` before arithmetic. The
  model uses unbounded integers, and `Search.FindPath` puts no bound on the
  endpoints. It does not model these overflows:
  - cost overflow on boards with more than about 10^8 cells;
  - an endpoint coordinate of about 2^30 or more, where the heuristic's sum
    (`src/pathfinding.rs:20`) or the neighbour arithmetic (`:66-67`)
    overflows `i32`, or the cast to `i32` wraps. A debug build panics there,
    and a release build wraps.
- Lifetimes, references and the `Box` deep copies of predecessors are not
  modelled. A node holds its predecessor by value, which is observably the same.
- Search.FindPath: the contract does not say which route the tie-breaking
  picks when several exist. It states only that the result is a valid,
  repetition-free route, and that it is absent exactly when none exists.
  Minimum cost is not claimed, because the code never improves an open entry.

# Grid pathfinding core: a Dafny model

This project models the engine of a grid pathfinding visualiser. It has four parts:

- **`Node`**: one cell of the grid. Its row and column are fixed. It has mutable search fields `g`, `h`, the derived `f = g + h`, a parent link, a visit order and an explored flag. It also has a terrain `weight`.
- **`Grid`**: a fixed `rows x cols` matrix of nodes with a parallel wall matrix and optional start and goal references. It offers:
  - bounds-checked wall updates;
  - the four-way neighbour query in the order up, down, left, right;
  - the movement cost;
  - two resets;
  - a text rendering.
- **`AStarAlgorithm`**: A* search with the Manhattan heuristic. It uses a frontier polled by least `f`, a closed set and parent links. It keeps the list of explored nodes in visiting order, and it rebuilds the path from the goal's parent chain. `PathfindingAlgorithm` is the interface this class implements.
- **`MazeGenerator`**: a recursive-backtracker maze carver. It walls the whole grid and carves rooms with odd coordinates, joined by doors. Then it reopens the start and goal cells.

The Dafny modules follow that structure:

- `Common`: costs with an explicit infinity, cells, the Manhattan metric, walks over open cells, and error results.
- `Nodes`: class `Node`.
- `Grids`: class `Grid` over two `array2`s.
- `AStarSpec`: the search invariant over values, and one lemma per step of the search.
- `AStar`: class `AStarAlgorithm`, whose methods run on the grid's nodes.
- `Mazes`: `generate` and `carve` as methods that set walls on the grid. A function `CarveFrom` gives what `carve` opens, and lemmas state the maze's shape.

The search is proved against a specification:

- Every step of `findPath` keeps an invariant (`AStarSpec.Inv`) over a snapshot of all node fields, the frontier, the closed set and the explored list.
- `AStar.AStarAlgorithm.FindPath` ends with `AStarSpec.SearchResult`:
  - a non-empty path is a walk over open cells from the start to the goal, with no repeated cell;
  - the goal's `g` is the path's cost;
  - with weights of at least 1, no walk from the start to the goal costs less;
  - an empty path means that every cell reachable from the start was explored, and the goal was not;
  - with weights of at least 1, the explored nodes come out in non-decreasing `f`;
  - every node with a parent got its `g` through that parent: the parent is an adjacent explored cell, and `g` is the parent's `g` plus the node's weight;
  - the explored list has no repeats, begins with the start, and its k-th entry has visit order k + 1 and the explored flag set.

Exceptions (`IllegalArgumentException`) become `Result`/`Outcome` values. `Double` costs become integers with an explicit infinity (`Common.Cost`). Random choices become parameters:

- the two draws that pick the maze root;
- the direction order tried at each room;
- the per-cell density draws of `randomWalls`.

## Model

| member | source | states |
|---|---|---|
| Common.Cost.Plus | src/core/Node.java:57 | A sum of costs is finite exactly when both parts are finite, and then it is their sum (infinity absorbs). |
| Common.Cost.Less | src/core/AStarAlgorithm.java:85 | `tentativeG < nbr.getG()` on costs with infinity: a finite cost is below infinity, two finite costs compare by value, an infinite cost is below nothing, and no cost is below itself. |
| Common.Cost.AtMost | src/core/Node.java:85-87 | "Not above": holds exactly when the other cost is not strictly below this one. |
| Common.CostTransitive | src/core/Node.java:85-87 | The cost order is transitive, also when mixing strict and non-strict steps. |
| Common.CostTrichotomy | src/core/Node.java:85-87 | The cost order used by `Double.compare` is total and strict: exactly one of less, equal or greater holds. |
| Common.ManhattanTriangle | src/core/AStarAlgorithm.java:106-108 | The Manhattan distance the heuristic uses satisfies the triangle inequality. |
| Common.WalkSpan | src/core/AStarAlgorithm.java:106-108 | A walk with k steps covers a Manhattan distance of at most k. |
| Common.RemoveAtContents | src/core/AStarAlgorithm.java:61 | `poll` drops exactly the polled entry: one fewer entry, the others in their order, and the same multiset once it is added back. |
| Common.RemoveFirst | src/core/AStarAlgorithm.java:95 | `open.remove(nbr)`: the entry is dropped if it was present (length one less), nothing else is lost or added, and an absent entry leaves the frontier unchanged. |
| Common.RemoveFirstNoRepeats | src/core/AStarAlgorithm.java:95-96 | Removing from a frontier without repeats removes the node entirely and keeps the frontier free of repeats. |
| Nodes.ClearSearch | src/core/Node.java:75-82 | A reset state has all search fields pristine and keeps the weight. |
| Nodes.Reinitialized | src/core/Grid.java:113-117 | A state reset by `resetAll` is pristine and has weight 1. |
| Nodes.Wrap32 | src/core/Node.java:97-99 | Java `int` arithmetic: the result lies in the 32-bit range and agrees with the exact value modulo 2^32. |
| Nodes.Node.constructor | src/core/Node.java:26-43 | A new node has the given coordinates, `g` and `f` infinite, `h` 0, no parent, visit order -1, not explored, weight 1, and `f == g + h`. |
| Nodes.Node.SetG | src/core/Node.java:51 | `g` takes the new value and `f == g + h` holds again; nothing else changes. |
| Nodes.Node.SetH | src/core/Node.java:54 | `h` takes the new value and `f == g + h` holds again; nothing else changes. |
| Nodes.Node.UpdateF | src/core/Node.java:57 | Only `f` changes, and `f == g + h` holds afterwards. |
| Nodes.Node.SetWeight | src/core/Node.java:61 | Only the weight changes, to the given value. |
| Nodes.Node.SetParent | src/core/Node.java:65 | The parent link becomes the given node's coordinates, or none for null. |
| Nodes.Node.SetVisitOrder | src/core/Node.java:69 | Only the visit order changes, to the given value. |
| Nodes.Node.SetExplored | src/core/Node.java:72 | Only the explored flag changes, to the given value. |
| Nodes.Node.ResetSearchState | src/core/Node.java:75-82 | The new state is `ClearSearch` of the old one: search fields pristine, weight and coordinates kept, and `f == g + h`. |
| Nodes.Node.CompareTo | src/core/Node.java:85-87 | The result is -1, 0 or 1, and it is negative, zero or positive exactly when this `f` is below, equal to or above the other's. Only `f` takes part. |
| Nodes.EqualsIsEquivalence | src/core/Node.java:90-94 | `equals` holds exactly when row and column match, whatever the other fields, and it is reflexive, symmetric and transitive. |
| Nodes.Node.HashCode | src/core/Node.java:97-99 | `Objects.hash(row, col)` in 32-bit arithmetic: 961 + 31 * row + col, wrapped. |
| Nodes.HashAgreesWithEquals | src/core/Node.java:90-99 | Equal nodes have equal hash codes. |
| Grids.FilterOpen | src/core/Grid.java:131-136 | The kept candidates are exactly the listed cells that are open, and there are no more of them than candidates. |
| Grids.FilterStep | src/core/Grid.java:131-135 | One more pass of the neighbour loop appends the candidate exactly when it is open. |
| Grids.NeighborCellsSpec | src/core/Grid.java:125-138 | The neighbour cells are at most four, are exactly the open cells sharing a side with the node, and none repeats. |
| Grids.FilterNoRepeats | src/core/Grid.java:131-136 | Filtering a list without repeats keeps it without repeats. |
| Grids.ToggleTwice | src/core/Grid.java:79-82 | Toggling a cell twice restores the set of open cells. |
| Grids.Grid.constructor | src/core/Grid.java:41-48 | The new grid has the given size, every cell open, a fresh pristine node of weight 1 at every cell with matching coordinates, and no start or goal. |
| Grids.Grid.InitNodes | src/core/Grid.java:50-57 | Every cell gets a fresh node with its own row and column, pristine search fields and weight 1, and no wall. |
| Grids.Grid.Create | src/core/Grid.java:41-48 | Construction fails exactly when rows < 1 or cols < 1. Otherwise the grid has the given size, every cell open, no start or goal, and a fresh, well-formed node matrix whose node at every cell is pristine with weight 1. |
| Grids.Grid.InBounds | src/core/Grid.java:100-102 | True exactly for the cells of the `rows x cols` box. |
| Grids.Grid.GetNodeAt | src/core/Grid.java:63-66 | Null exactly outside the grid; otherwise the grid's node with those coordinates. |
| Grids.Grid.IsWall | src/core/Grid.java:69-72 | True exactly when the cell is not an open cell of the grid, so every cell outside the grid counts as a wall. |
| Grids.Grid.SetWall | src/core/Grid.java:74-77 | Outside the grid nothing changes; inside it only that cell's flag changes, and the open cells gain or lose exactly that cell. |
| Grids.Grid.ToggleWall | src/core/Grid.java:79-82 | Outside the grid nothing changes; inside it only that cell's flag flips. |
| Grids.Grid.RandomWalls | src/core/Grid.java:147-154 | Each cell becomes a wall exactly when its draw is below the density; the open cells are the other cells of the grid; nothing but walls changes. |
| Grids.Grid.SetStartNode | src/core/Grid.java:88-92 | Fails exactly for a non-null node outside the grid, and then leaves the start unchanged. Otherwise it stores the node (null clears it), with no wall check. |
| Grids.Grid.SetGoalNode | src/core/Grid.java:94-98 | As SetStartNode, for the goal. |
| Grids.Grid.ResetSearchState | src/core/Grid.java:105-109 | Every node's state becomes `ClearSearch` of its old state: weights, walls and start and goal kept. |
| Grids.Grid.ResetAll | src/core/Grid.java:112-122 | Every wall cleared; every node reset with weight 1; start and goal cleared exactly when asked and kept otherwise. |
| Grids.Grid.ReinitRow | src/core/Grid.java:113-117 | One row of `resetAll`: that row opened and reinitialised, every other row as before. |
| Grids.Grid.ReinitCell | src/core/Grid.java:114-116 | One cell of `resetAll`: opened, its node reset with weight 1; no other wall changes. |
| Grids.Grid.GetNeighbors | src/core/Grid.java:125-138 | Empty for null. Otherwise the grid's nodes at exactly the open up, down, left and right cells, in that order (see NeighborCellsSpec). |
| Grids.Grid.MovementCost | src/core/Grid.java:141-144 | Infinite exactly when either node is null; otherwise the target's weight. |
| Grids.Grid.CellChar | src/core/Grid.java:165-168 | One of S, G, # and ., in that priority, each stated both ways: 'S' exactly at the start; 'G' exactly at the goal when it is not the start, even on a wall; '#' exactly off the open cells when neither endpoint is there; '.' exactly at an open cell that is neither endpoint. |
| Grids.Grid.RenderLine | src/core/Grid.java:163-170 | One line has cols + 1 characters: the cell characters (S, else G, else #, else .), then a newline. |
| Grids.Grid.RenderRowsLength | src/core/Grid.java:161-173 | The first k lines hold k * (cols + 1) characters. |
| Grids.Grid.RenderRowsChar | src/core/Grid.java:161-173 | Character c of line r is 'S' at the start, else 'G' at the goal, else '#' for a wall, else '.', and a newline at c == cols. |
| Grids.Grid.ToString | src/core/Grid.java:161-173 | The string built row by row is the full rendering of all rows. |
| Grids.AppendRow | src/core/Grid.java:161-173 | In k rows of width w laid end to end, index r * w + c falls in row r at column c. |
| Grids.PositionsRemoveAt | src/core/AStarAlgorithm.java:61 | Removing the polled node from the frontier removes its cell at the same index from the frontier's cells, and keeps the rest grid nodes. |
| Grids.PositionsRemoveFirst | src/core/AStarAlgorithm.java:95 | Removing a grid node from the frontier removes its cell from the frontier's cells. |
| Grids.PositionsRequeue | src/core/AStarAlgorithm.java:95-96 | Remove-then-add of a node moves its cell to the back of the frontier's cells. |
| Grids.SameCellSameNode | src/core/Node.java:90-94 | Two grid nodes at the same cell are the same node, so coordinate equality is identity within a grid. |
| AStarSpec.WalkCostSplit | src/core/AStarAlgorithm.java:82 | The cost of a walk splits additively at any of its cells. |
| AStarSpec.WalkCostAtLeastSteps | src/core/AStarAlgorithm.java:82 | With weights of at least 1, a walk costs at least its number of steps. |
| AStarSpec.UnitWalkCost | src/core/Node.java:31 | With every weight 1, a walk costs exactly its number of steps. |
| AStarSpec.ShortestWithUnitWeights | src/core/AStarAlgorithm.java:106-108 | With default weights, a found path has no more cells than any walk from start to goal: it is a shortest 4-connected path. |
| AStarSpec.InitStep | src/core/AStarAlgorithm.java:46-58 | Resetting every node and initialising the start establishes the search invariant, with the start alone on the frontier. |
| AStarSpec.CrossingOnFrontier | src/core/AStarAlgorithm.java:60-99 | Where a walk from the start first leaves the closed set, it meets the frontier at a cell whose `g` is at most the cost of the walk so far. |
| AStarSpec.ThroughFrontier | src/core/AStarAlgorithm.java:61 | The consistency step of A*: f(u) <= f(y) and g(y) bounded by a walk through y give g(u) bounded by the whole walk. |
| AStarSpec.WalkTail | src/core/AStarAlgorithm.java:106-108 | The tail of a walk costs at least the Manhattan distance it covers, and the two parts add up to the whole cost. |
| AStarSpec.PolledIsOptimal | src/core/AStarAlgorithm.java:61 | The node of least `f` on the frontier has a `g` no greater than the cost of any walk to it. |
| AStarSpec.CloseTrace | src/core/AStarAlgorithm.java:67-69 | Stamping and recording the polled cell keeps the explored list without repeats, starting at the start, with visit orders k + 1. |
| AStarSpec.CloseQueue | src/core/AStarAlgorithm.java:61-78 | Polling and closing a cell other than the goal keeps the frontier well formed. |
| AStarSpec.CloseCells | src/core/AStarAlgorithm.java:67-78 | Closing the polled cell keeps every per-cell fact: `f == g + h`, parent links, and the heuristic. |
| AStarSpec.CloseEdges | src/core/AStarAlgorithm.java:78-80 | After closing, every edge out of the closed set is relaxed, except those from the polled cell, which are pending. |
| AStarSpec.CloseOptimal | src/core/AStarAlgorithm.java:78 | Closing the polled cell keeps every closed cell's `g` at most the cost of any walk to it. |
| AStarSpec.CloseStep | src/core/AStarAlgorithm.java:61-80 | Polling, stamping and closing a cell other than the goal keeps the search invariant, with its open neighbours pending. |
| AStarSpec.GoalStep | src/core/AStarAlgorithm.java:71-76 | Polling the goal leaves a state where the goal's parent chain is a cheapest path; when start equals goal, nothing was explored before. |
| AStarSpec.GoalTrace | src/core/AStarAlgorithm.java:67-71 | Stamping the goal appends it to the recorded explored list. |
| AStarSpec.GoalCell | src/core/AStarAlgorithm.java:67-76 | After the goal is stamped, every visited cell has a finite `g` and, unless it is the start, a visited parent of smaller visit order. |
| AStarSpec.RelaxAllStep | src/core/AStarAlgorithm.java:80-97 | Relaxing one more neighbour of the list extends the relaxation of the earlier ones by one `Relaxed` step. |
| AStarSpec.KeepStep | src/core/AStarAlgorithm.java:81-87 | A closed neighbour, or one not reached strictly more cheaply, is left alone and the invariant still holds. |
| AStarSpec.ImproveQueue | src/core/AStarAlgorithm.java:95-96 | Moving the improved neighbour to the back keeps the frontier well formed. |
| AStarSpec.ImproveStep | src/core/AStarAlgorithm.java:85-96 | A neighbour reached strictly more cheaply takes the current cell as parent, gets the new `g` and the heuristic, moves to the back of the frontier, and the invariant still holds. |
| AStarSpec.ImproveCells | src/core/AStarAlgorithm.java:89-92 | An improvement keeps every per-cell fact. |
| AStarSpec.ImproveCell | src/core/AStarAlgorithm.java:89-92 | An improvement keeps the facts of one cell, including `g = parent.g + weight`. |
| AStarSpec.ExhaustedStep | src/core/AStarAlgorithm.java:60-102 | When the frontier is empty, every cell a walk from the start reaches is closed, and none of them is the goal. |
| AStarSpec.ChainIsPath | src/core/AStarAlgorithm.java:111-120 | The goal's parent chain, read from the start, is a walk from the start to the goal without repeats, and the goal's `g` is its cost. |
| AStarSpec.ChainPrefix | src/core/AStarAlgorithm.java:111-120 | Each prefix of the parent chain is a walk from the start whose cost is its last cell's `g`, with visit orders increasing along it. |
| AStarSpec.OrderedClose | src/core/AStarAlgorithm.java:61-69 | Polling the entry of least `f` and recording it keeps the explored `f` values non-decreasing, and no frontier entry is below the new last explored cell. |
| AStarSpec.OrderedImprove | src/core/AStarAlgorithm.java:85-96 | With weights of at least 1, an improved neighbour's new `f` is at least that of the cell being expanded, so the order invariant survives the re-queue. |
| AStarSpec.ParentsFromInv | src/core/AStarAlgorithm.java:89-92 | In every search state, each node with a parent has an adjacent explored parent, and its `g` is the parent's `g` plus its weight. |
| AStarSpec.ParentsAtGoal | src/core/AStarAlgorithm.java:67-71 | Stamping and recording the polled goal keeps those parent links. |
| AStarSpec.FoundResult | src/core/AStarAlgorithm.java:71-76 | Once the goal is found, its parent chain keeps every promise of SearchResult. |
| AStarSpec.ExhaustedResult | src/core/AStarAlgorithm.java:101-102 | When the frontier runs empty, the empty path keeps every promise of SearchResult. |
| AStar.HeuristicAdmissible | src/core/AStarAlgorithm.java:106-108 | With positive weights, no walk to the goal costs less than the heuristic. |
| AStar.HeuristicConsistent | src/core/AStarAlgorithm.java:106-108 | One step changes the heuristic by at most one. |
| AStar.ResultEndpoints | src/core/PathfindingAlgorithm.java:17-21 | A non-empty result begins with the start node and ends with the goal node; for start == goal, path and explored list are that node alone. |
| AStar.StartSearching | src/core/AStarAlgorithm.java:54-58 | After preparation, the loop state holds: the frontier is the start, nothing is explored, and the visit counter is 1. |
| AStar.NodesFormChain | src/core/AStarAlgorithm.java:111-120 | Nodes linked by their parent fields in the heap form a parent chain of the grid's snapshot. |
| AStar.EnterRelaxing | src/core/AStarAlgorithm.java:61-80 | Closing the polled cell of least `f` starts the neighbour loop with both invariants and its open neighbours pending; the cell was open and not yet closed. |
| AStar.KeepRelaxing | src/core/AStarAlgorithm.java:81-87 | A closed neighbour, or one not reached strictly more cheaply, leaves the loop state as it is, with that neighbour no longer pending. |
| AStar.ImproveRelaxing | src/core/AStarAlgorithm.java:85-96 | An improvement keeps the search invariant and the order invariant for the new node map and the re-queued frontier. |
| AStar.AStarAlgorithm.constructor | src/core/AStarAlgorithm.java:28-34 | A new algorithm holds the grid and an empty explored list. |
| AStar.AStarAlgorithm.Create | src/core/AStarAlgorithm.java:31-34 | Fails with `IllegalArgumentException` exactly for a null grid; otherwise the explored list is empty before any search. |
| AStar.AStarAlgorithm.Chosen | src/core/AStarAlgorithm.java:38 | The grid searched is the argument when it is non-null and the algorithm's own grid otherwise. |
| AStar.AStarAlgorithm.Heuristic | src/core/AStarAlgorithm.java:106-108 | Non-negative; zero exactly at the goal's cell; one for adjacent cells. |
| AStar.AStarAlgorithm.GetExploredNodes | src/core/AStarAlgorithm.java:122-125 | The nodes the last search explored, as recorded. |
| AStar.AStarAlgorithm.PollIndex | src/core/AStarAlgorithm.java:61 | `poll`: an index of the frontier whose `f` no other entry's `f` is below. |
| AStar.AStarAlgorithm.PolledHasMinF | src/core/AStarAlgorithm.java:61 | The polled node has the least `f` of the frontier's cells in the grid's snapshot. |
| AStar.AStarAlgorithm.ReconstructPath | src/core/AStarAlgorithm.java:111-120 | The loop returns grid nodes that form the parent chain ending at `end`, in start-to-end order; it ends because each step lowers the visit order. |
| AStar.AStarAlgorithm.InitStart | src/core/AStarAlgorithm.java:48-52 | The start gets `g = 0`, the heuristic, visit order 0 and the explored flag; no other node changes. |
| AStar.AStarAlgorithm.Improve | src/core/AStarAlgorithm.java:89-92 | The neighbour gets the current node as parent, the new `g`, the heuristic and `f = g + h`; no other node changes. |
| AStar.AStarAlgorithm.Prepare | src/core/AStarAlgorithm.java:45-52 | After reset and start initialisation the search invariant holds, with the start alone on the frontier; walls are unchanged. |
| AStar.AStarAlgorithm.Visit | src/core/AStarAlgorithm.java:66-69 | The polled node gets its visit order and the explored flag and is appended to the explored list; nothing else changes. |
| AStar.AStarAlgorithm.Relax | src/core/AStarAlgorithm.java:81-97 | A closed neighbour is skipped. Otherwise the neighbour is improved exactly when the current `g` plus its weight is strictly below its `g`: it gets the new parent, `g`, `h` and `f` and moves to the back of the frontier. On a tie or a higher cost, node map, frontier and open list stay unchanged (`Relaxed`). Both invariants hold again, with that neighbour no longer pending. |
| AStar.AStarAlgorithm.ExpandNeighbors | src/core/AStarAlgorithm.java:80-98 | After the loop over `getNeighbors`, the node map and frontier are the open neighbours relaxed one after the other in up, down, left, right order (`RelaxAll`), and both invariants hold with no neighbour pending. |
| AStar.AStarAlgorithm.Finish | src/core/AStarAlgorithm.java:71-76 | At the goal, the rebuilt path and the explored list keep every promise of SearchResult. |
| AStar.AStarAlgorithm.Close | src/core/AStarAlgorithm.java:78-98 | Closing and expanding a polled node keeps the search invariant and the order invariant, and strictly shrinks the set of open cells not yet closed. |
| AStar.AStarAlgorithm.Step | src/core/AStarAlgorithm.java:60-98 | One pass of the main loop either finishes with a SearchResult or keeps the loop state with one more cell closed. The skip of a closed node is proved unreachable. |
| AStar.AStarAlgorithm.Search | src/core/AStarAlgorithm.java:45-102 | The search over checked endpoints returns a path and explored list satisfying SearchResult for the problem as posed before the call. |
| AStar.AStarAlgorithm.FindPath | src/core/AStarAlgorithm.java:37-103 | A null, out-of-bounds or wall endpoint gives an empty path and explored list, with no node changed. Otherwise the result satisfies SearchResult: a cheapest start-to-goal path over open cells, or empty exactly when no walk reaches the goal. With weights of at least 1 the explored nodes have non-decreasing `f`, and every node with a parent has an adjacent explored parent through which it got its `g`. Its ends are the start and goal nodes, and start == goal gives `[start]` twice. |
| Mazes.Max | src/utils/MazeGenerator.java:27-28 | `Math.max`: at least both arguments and equal to one of them. |
| Mazes.Root | src/utils/MazeGenerator.java:25-29 | The root has odd row and column. It lies inside the grid exactly when the grid has at least two rows and columns; otherwise it is (1, 1) and no cell two steps away is inside. |
| Mazes.DoorRooms | src/utils/MazeGenerator.java:64-65 | A door lies between two rooms of the lattice, each adjacent to it and two steps apart. |
| Mazes.CountOpened | src/utils/MazeGenerator.java:46-65 | Opening a closed cell adds one to the open rooms or to the open doors, according to what it is. |
| Mazes.CarveStart | src/utils/MazeGenerator.java:46 | Opening the room itself starts a carve: one room more than doors, and every opened cell is reachable. |
| Mazes.CarveDoor | src/utils/MazeGenerator.java:59-65 | For an open room and a wall room two steps away inside the grid, the door between is an in-bounds wall door of the lattice, adjacent to both. |
| Mazes.CarveJoin | src/utils/MazeGenerator.java:64-66 | A door plus a carve from the room behind it keeps one more room than doors since the carve began. |
| Mazes.SpansJoin | src/utils/MazeGenerator.java:64-66 | The cells carved behind a door stay reachable from the room that opened it. |
| Mazes.FewerWalls | src/utils/MazeGenerator.java:46-66 | Opening cells never adds walls. |
| Mazes.OpenWall | src/utils/MazeGenerator.java:62-66 | Opening a wall cell of the grid strictly lowers the wall count: the termination measure of `carve`. |
| Mazes.CarveFrom | src/utils/MazeGenerator.java:45-67 | What `carve` opens; carving never closes a cell. |
| Mazes.CarveDirs | src/utils/MazeGenerator.java:52-67 | What the rest of `carve`'s direction loop opens; it never closes a cell. |
| Mazes.CarveDirsSkip | src/utils/MazeGenerator.java:61-62 | A direction whose room is outside the grid or already open is skipped. |
| Mazes.CarveDirsDoor | src/utils/MazeGenerator.java:64-66 | A direction whose room is an in-bounds wall opens the door and carves from that room before the rest of the loop. |
| Mazes.CarveFromOk | src/utils/MazeGenerator.java:45-67 | A carve from a wall room opens only rooms and doors of its lattice, one more room than doors, every open door between two open rooms, and every opened cell reachable from the room. |
| Mazes.CarveDirsOk | src/utils/MazeGenerator.java:52-67 | The rest of the direction loop keeps those carve properties. |
| Mazes.CarveDoorOk | src/utils/MazeGenerator.java:64-66 | Opening a door and carving behind it keeps those carve properties and does not add walls. |
| Mazes.MazeShape | src/utils/MazeGenerator.java:20-31 | The maze from the root of a walled grid is a spanning tree of rooms (rooms = doors + 1, every door between two open rooms, everything reachable from the root); nothing is open when the root is outside; no cell with two even coordinates is open. |
| Mazes.OddLattice | src/utils/MazeGenerator.java:27-29 | Rooms and doors of a lattice through an odd-odd root have an odd coordinate. |
| Mazes.Endpoints | src/utils/MazeGenerator.java:34-41 | Exactly the cells of the start and goal nodes that are set. |
| Mazes.Reopened | src/utils/MazeGenerator.java:34-41 | Opening the start cell and then the goal cell adds exactly the endpoints to the maze. |
| Mazes.Generate | src/utils/MazeGenerator.java:17-42 | Null does nothing. Otherwise the open cells afterwards are the maze carved from the root plus the start and goal cells, so a cell with two even coordinates is open only if it is an endpoint. Only walls change. |
| Mazes.Carve | src/utils/MazeGenerator.java:45-67 | The recursive carve on the grid opens exactly `CarveFrom` of the open cells before. |
| Mazes.CarveToward | src/utils/MazeGenerator.java:52-62 | One pass of the direction loop (the direction chain, the bounds check and the wall check) does what `CarveDirs` does for one direction, and adds no walls. |
| Mazes.CarveThrough | src/utils/MazeGenerator.java:64-66 | Opening the door and recursing does what `CarveDirs` does for that direction, and adds no walls. |
| Mazes.DoorWalls | src/utils/MazeGenerator.java:64-66 | The door plus the room behind it lowers the wall count strictly, and the carve behind it does not raise it. This is the decreasing measure of the recursion. |

## Left out

- Doubles: `g`, `h`, `f` and `weight` are integers with an explicit infinity. Fractional weights and `NaN` are not modelled, and `Node.toString`'s `%.2f` formatting is left out.
- Randomness: `java.util.Random` and `Collections.shuffle` become parameters. Each room's direction order is any sequence of direction codes. This is more general than a shuffle of the four directions. Each room is carved at most once, so one order per room is enough.
- Grids.Grid.RandomWalls: the density comparison is a parameter. The two overloads and the seed handling are not modelled.
- The Swing user interface, the visualiser and its worker thread are not part of this model.
- Interface `PathfindingAlgorithm`: it has no trait, because traits are not used here. Its contract is stated on `AStarAlgorithm.FindPath` and `GetExploredNodes`.
- `PriorityQueue` internals:
  - the frontier is a sequence, and `poll` takes the first entry of least `f` in the current frontier order, where a re-inserted entry goes last; Java's heap may break ties differently;
  - the properties do not depend on the tie order, since `IsMinF` is all they use.
- AStar.AStarAlgorithm.FindPath: requires that an in-bounds start or goal be the grid's own node. Java compares by coordinates, so it also accepts a foreign `Node` at the same cell.
- AStar.AStarAlgorithm.FindPath: the `g == null` branch is not modelled. It cannot arise, because the constructor rejects a null grid.
- Mazes.Generate: requires the two root draws to lie in the ranges `Random.nextInt` draws them from.
- Mazes.CarveThrough: does not state the new open cells directly. It states them through `CarveDirs`, and `Carve` states the resulting set.
- Getters (`getRow`, `getG`, `getRows`, ...) are plain field reads: the model reads the fields.

# Informed grid search: Greedy Best-First and A*

This project models the heuristic path-finding engine of
`TP2/busquedaHeuristica.py`. The engine searches a 4-connected occupancy
grid. The grid is a list of strings in which `'#'` marks an obstacle. Two
strategies share one skeleton:

- **Greedy Best-First** orders its frontier by the Manhattan distance to the goal.
- **A\*** orders its frontier by `g + h`, with unit move cost.

The two also share:

- a frontier keyed by `(priority, tie, node)` with a strictly increasing tie
  counter;
- lazy deletion of stale entries, which are skipped when popped;
- a `came_from` map from which `reconstruct_path` rebuilds the route;
- an empty path at infinite cost when the frontier runs dry.

The model also covers `render`, which draws a path onto the map, and the two
fixed maps of `run_demo`.

Module layout:

- `Grid`: cells, `manhattan` and `neighbors`, walks and reachability.
- `Frontier`: frontier entries and the pop of the least `(priority, tie)` key.
- `Paths`: `reconstruct_path`.
- `Results`: the `SearchResult` record and the outcome predicates both
  searches promise. The datatype `SearchResult` is the dataclass of lines
  11-17 without `runtime_ms`. The datatype `Cost` is its `cost` field:
  `Finite(n)` for the integer costs the searches compute, and `Infinite`
  for `float("inf")`.
- `Greedy`: `greedy_best_first`.
- `AStar`: `astar`.
- `Render`: `render`.
- `Demo`: `run_demo`'s maps and what both searches return on them.

The searches are methods whose `while pq` loops carry the invariants. Each
inner `for nb in neighbors(...)` loop is its own `Expand` method. Their
contracts say:

- **Expansions.** The expanded cells, listed in order, start at `start`,
  never repeat, and are all reachable from `start`. `expanded` is their
  number.
- **Success.** The path is a walk of legal moves from `start` to `goal` with
  no repeated cell, and its cost is its number of moves. The goal was expanded
  exactly once, last. For A\*, no walk from `start` to `goal` is shorter.
- **Failure.** The cost is infinite. The expanded cells are exactly the cells
  reachable from `start`, and the goal is not reachable.

On the corridor map the free cells form one snake 32 cells long, so both
searches return that route at cost 31. The scenario's own description
expects Greedy to stray there, but it has no other way through. On the maze,
A\* returns a 20-move route. Greedy returns a route that is no shorter.

## Model

| member | source | states |
|---|---|---|
| Grid.Manhattan | TP2/busquedaHeuristica.py:19-20 | the distance is a natural number, and it is 0 exactly when the two cells are equal |
| Grid.ManhattanSymmetric | TP2/busquedaHeuristica.py:19-20 | manhattan(a, b) == manhattan(b, a) |
| Grid.ManhattanTriangle | TP2/busquedaHeuristica.py:19-20 | the triangle inequality, which makes the heuristic consistent for unit moves |
| Grid.Neighbors | TP2/busquedaHeuristica.py:30-38 | the loop over the four candidates returns exactly the free in-bounds candidates, in order |
| Grid.FilterPassableMembers | TP2/busquedaHeuristica.py:35-37 | a cell is kept by the filter iff it is a candidate and passable; the filter never grows the list |
| Grid.CandidatesAreAdjacent | TP2/busquedaHeuristica.py:33 | the candidates are exactly the cells at Manhattan distance 1 |
| Grid.NeighborsOfExactly | TP2/busquedaHeuristica.py:30-38 | `x` is returned iff it is in bounds, not '#', and one move from `p`; at most 4 cells are returned |
| Grid.FilterPrefixOrdered | TP2/busquedaHeuristica.py:33-37 | after k candidates, the kept cells come from the first k directions in increasing direction order |
| Grid.NeighborsOfOrdered | TP2/busquedaHeuristica.py:33-37 | the result follows the fixed order up, down, left, right |
| Grid.WalkStaysInside | TP2/busquedaHeuristica.py:30-38 | a walk starting in a set that no move leaves stays in that set |
| Grid.ReachableInside | TP2/busquedaHeuristica.py:30-38 | every cell reachable from inside a set that no move leaves is inside it |
| Grid.HeuristicAlongWalk | TP2/busquedaHeuristica.py:19-20 | along a walk, the heuristic drops by at most one per move |
| Grid.ShrinkRemaining | TP2/busquedaHeuristica.py:49-54 | closing a new cell strictly shrinks the set of cells left to close, which is why both loops end |
| Frontier.PopMin | TP2/busquedaHeuristica.py:50 | `heappop` returns an entry of the frontier whose (priority, tie) key is least, and leaves the other entries as a multiset |
| Frontier.MinUnique | TP2/busquedaHeuristica.py:42-44 | with distinct ties, the least key belongs to exactly one entry, so the pop is deterministic |
| Frontier.RemovedIndices | TP2/busquedaHeuristica.py:50 | the rest after a pop is the frontier with exactly one position removed |
| Frontier.PopKeeps | TP2/busquedaHeuristica.py:50 | every entry other than the popped one is still in the frontier |
| Frontier.PopKeepsTies | TP2/busquedaHeuristica.py:50 | a pop adds no entry, so every remaining tie is still below the counter |
| Paths.DistinctPairwise | TP2/busquedaHeuristica.py:22-28 | the one-cell-at-a-time `Distinct` holds iff any two positions hold different cells |
| Paths.DistinctSnoc | TP2/busquedaHeuristica.py:53 | appending keeps a sequence distinct iff the appended cell is new |
| Paths.IndexedDistinct | TP2/busquedaHeuristica.py:53 | a sequence whose cells each record their own position repeats no cell |
| Paths.Reversed | TP2/busquedaHeuristica.py:27 | `path.reverse()`: same length, position k holds the element at position len-1-k |
| Paths.ChainTo | TP2/busquedaHeuristica.py:22-28 | with an acyclic `came_from`, a chain of links exists that ends at any ranked cell |
| Paths.ReconstructPath | TP2/busquedaHeuristica.py:22-28 | non-empty, ends at `current`, its first cell has no predecessor, `came_from[path[k+1]] == path[k]`, and no cell repeats |
| Paths.ChainUnique | TP2/busquedaHeuristica.py:22-28 | two chains ending at the same cell are equal, so the path is determined by `came_from` and `current` |
| Paths.ChainIsWalk | TP2/busquedaHeuristica.py:22-28 | a chain whose links are moves is a walk of legal moves |
| Results.OutcomeByCost | TP2/busquedaHeuristica.py:11-17 | given what both searches promise, the cost is finite exactly when a path came back, it then counts that path's moves, and it is infinite exactly when the goal is unreachable |
| Paths.RankedAreReachable | TP2/busquedaHeuristica.py:22-28 | every cell reached by links from `start` is reachable from `start` |
| Greedy.PushWaiting | TP2/busquedaHeuristica.py:67 | the pushed cell waits in the frontier, and every cell that waited before still waits |
| Greedy.PushFrontier | TP2/busquedaHeuristica.py:64-67 | pushing (h(nb), tie + 1, nb) keeps ties fresh and priorities equal to the heuristic |
| Greedy.PushLinks | TP2/busquedaHeuristica.py:64-65 | `came_from[nb]` is set to `current` only when `nb` has no entry yet; recorded predecessors are never overwritten |
| Greedy.PushGrows | TP2/busquedaHeuristica.py:66-67 | the frontier only grows, by entries with fresh ties for unvisited neighbours of `current` |
| Greedy.PushSeen | TP2/busquedaHeuristica.py:61-67 | after neighbour i, neighbours 0..i are visited or waiting |
| Greedy.PushOne | TP2/busquedaHeuristica.py:61-67 | one pass of the neighbour loop that pushes an unvisited neighbour preserves its invariant |
| Greedy.SkipOne | TP2/busquedaHeuristica.py:62-63 | one pass of the neighbour loop that skips a visited neighbour preserves its invariant |
| Greedy.Pushes | TP2/busquedaHeuristica.py:61-67 | the entries the neighbour loop appends: at most one per neighbour |
| Greedy.PushesEntries | TP2/busquedaHeuristica.py:61-67 | the k-th appended entry is (h(nb), tie + k + 1, nb) for an unvisited neighbour nb in the list, and every unvisited neighbour in the list gets an entry |
| Greedy.PushesStep | TP2/busquedaHeuristica.py:61-67 | looking at one more neighbour appends nothing if it is visited and exactly (h(nb), tie + 1, nb) otherwise |
| Greedy.LookAt | TP2/busquedaHeuristica.py:61-67 | one pass of the neighbour loop, skip or push, keeps its invariant, and the frontier is the old one followed by the entries `Pushes` lists so far |
| Greedy.DiscoveredAfterLoop | TP2/busquedaHeuristica.py:61-67 | after the loop, every free neighbour of every visited cell is visited or waiting in the frontier, and every unvisited neighbour of `current` has a predecessor |
| Greedy.Expand | TP2/busquedaHeuristica.py:61-67 | the frontier becomes the old one followed by exactly one entry (h(nb), tie + k, nb) per unvisited neighbour, in up, down, left, right order, and the counter advances by their number; every unvisited neighbour ends with a predecessor; a predecessor is recorded on first discovery only and never overwritten |
| Greedy.ExpandKeepsInv | TP2/busquedaHeuristica.py:61-67 | after the neighbour loop the `while pq` invariant holds again |
| Greedy.DiscardKeepsInv | TP2/busquedaHeuristica.py:50-52 | lazy deletion: skipping a popped cell that is already visited keeps the loop invariant |
| Greedy.VisitKeepsInv | TP2/busquedaHeuristica.py:50-54 | visiting a popped cell for the first time counts it once, appends it to the expansion order and shrinks the work left |
| Greedy.PopKeepsDiscovered | TP2/busquedaHeuristica.py:50 | removing the popped entry leaves every other discovered cell waiting |
| Greedy.VisitKeepsOrder | TP2/busquedaHeuristica.py:53-54 | `expanded` stays equal to the size of the visited set, and predecessors rank below their successors |
| Greedy.AppendRanks | TP2/busquedaHeuristica.py:53-54 | the expansion rank stays the inverse of the expansion order |
| Greedy.AppendLinks | TP2/busquedaHeuristica.py:53-54 | every predecessor was expanded before the cells it points to, so `came_from` stays acyclic |
| Greedy.GreedyBestFirst | TP2/busquedaHeuristica.py:40-70 | each cell is expanded at most once, only cells reachable from `start` are expanded, and `expanded` counts them; on success the path is a walk from `start` to `goal` with `cost == len(path) - 1`; on failure the cost is infinite, the expanded cells are exactly those reachable from `start`, and `goal` is not among them |
| Greedy.FoundResult | TP2/busquedaHeuristica.py:56-59 | the result returned once the goal is popped meets the success contract |
| Greedy.ExhaustedIsReachable | TP2/busquedaHeuristica.py:69-70 | when the frontier runs dry, the visited cells are exactly the cells reachable from `start` |
| AStar.ChainCosts | TP2/busquedaHeuristica.py:76-98 | along a chain of links, `g` grows by one per link from `g[start] == 0`, and the chain is a walk from `start` |
| AStar.CostsRanked | TP2/busquedaHeuristica.py:94-98 | costs drop along `came_from` links, so the links have no cycle |
| AStar.CostWalk | TP2/busquedaHeuristica.py:94-98 | every recorded `g[v]` is achieved by a walk of `g[v]` moves from `start` |
| AStar.FirstOpen | TP2/busquedaHeuristica.py:82-101 | a walk from `start` to an open cell meets an open cell whose `g` is at most its position on the walk |
| AStar.PoppedOptimal | TP2/busquedaHeuristica.py:82-87 | with the consistent heuristic, the popped cell's `g` is the true shortest distance from `start` |
| AStar.ClosedNotImproved | TP2/busquedaHeuristica.py:94-97 | a closed neighbour is never lowered |
| AStar.RelaxCosts | TP2/busquedaHeuristica.py:95-98 | writing `g[nb]` and `came_from[nb]` together, only on a strict improvement, keeps costs and predecessors in agreement and closed costs optimal |
| AStar.RelaxFrontier | TP2/busquedaHeuristica.py:99-101 | pushing (g + h, tie + 1, nb) keeps ties fresh and gives the lowered cell a live frontier entry |
| AStar.LowerStep | TP2/busquedaHeuristica.py:94-101 | one relaxation lowers a cost only strictly, only to `g[current] + 1`, and with `current` as the new predecessor |
| AStar.RelaxOne | TP2/busquedaHeuristica.py:94-101 | one pass that lowers a cost preserves the neighbour loop's invariant |
| AStar.SkipOne | TP2/busquedaHeuristica.py:96 | a neighbour whose cost does not drop leaves everything as it was |
| AStar.RelaxedMonotone | TP2/busquedaHeuristica.py:96-97 | lowering costs keeps earlier relaxations valid |
| AStar.Relaxations | TP2/busquedaHeuristica.py:94-101 | the entries the neighbour loop pushes: at most one per neighbour |
| AStar.RelaxationsEntries | TP2/busquedaHeuristica.py:94-101 | the k-th pushed entry is (c + h(nb), tie + k + 1, nb) for a neighbour nb in the list whose cost c strictly beats its recorded one, and every such neighbour gets an entry |
| AStar.SameTest | TP2/busquedaHeuristica.py:94-96 | as `neighbors` repeats no cell, testing a neighbour against the costs updated so far gives the same answer as testing it against the costs the loop started from |
| AStar.AppendStep | TP2/busquedaHeuristica.py:96-101 | one pass of the neighbour loop appends exactly what `Relaxations` lists for that neighbour and advances the counter by as much |
| AStar.RelaxLoopStep | TP2/busquedaHeuristica.py:94-101 | one pass of the neighbour loop, relax or skip, keeps costs, predecessors and frontier consistent |
| AStar.RelaxStep | TP2/busquedaHeuristica.py:94-101 | one pass of the neighbour loop, relax or skip, keeps its invariant, and the frontier is the old one followed by the entries `Relaxations` lists so far |
| AStar.Expand | TP2/busquedaHeuristica.py:94-101 | the frontier becomes the old one followed by exactly one entry (g[current] + 1 + h(nb), tie + k, nb) per neighbour whose cost strictly drops, in up, down, left, right order, and the counter advances by their number; no `g` entry ever increases; a cost and a predecessor change together, only on a strict improvement, and only for open neighbours of `current`; every neighbour ends relaxed |
| AStar.RelaxedAfterLoop | TP2/busquedaHeuristica.py:94-101 | after the loop, every neighbour of every closed cell costs at most one more than that cell |
| AStar.AStarSearch | TP2/busquedaHeuristica.py:72-104 | each cell is expanded at most once, only cells reachable from `start` are expanded, and `expanded` counts them; on success the path is a walk from `start` to `goal`, `cost == g[goal] == len(path) - 1`, and no walk is shorter; on failure the cost is infinite and exactly the reachable cells were expanded |
| AStar.DiscardKeepsInv | TP2/busquedaHeuristica.py:83-85 | lazy deletion: skipping a popped cell that is already closed keeps the loop invariant |
| AStar.GoalReached | TP2/busquedaHeuristica.py:89-92 | once the goal is closed, the rebuilt path is a shortest walk from `start` and its length minus one is `g[goal]` |
| AStar.FoundResult | TP2/busquedaHeuristica.py:89-92 | the result returned once the goal is popped meets the success contract, shortest included |
| AStar.VisitKeepsInv | TP2/busquedaHeuristica.py:83-87 | closing a popped open cell keeps the invariant, counts it once and shrinks the work left |
| AStar.VisitKeepsFrontier | TP2/busquedaHeuristica.py:83-86 | closing the popped cell keeps the rest of the frontier consistent |
| AStar.VisitKeepsCounted | TP2/busquedaHeuristica.py:86-87 | `expanded` stays equal to the size of the closed set, and the trace gains only the new cell |
| AStar.ExhaustedIsReachable | TP2/busquedaHeuristica.py:103-104 | when the frontier runs dry, the closed cells are exactly those reachable from `start`, and the goal is not among them |
| Render.PyIndex | TP2/busquedaHeuristica.py:110-113 | Python indexing: an index in [-n, n) lands in [0, n), and a non-negative index is unchanged |
| Render.Target | TP2/busquedaHeuristica.py:110-113 | the cell `g[i][j]` writes lies inside the grid, and it is the cell itself when in bounds |
| Render.Put | TP2/busquedaHeuristica.py:110-113 | overwriting one cell keeps the dimensions |
| Render.StarStep | TP2/busquedaHeuristica.py:108-110 | one pass of the path loop stars `path[k]` unless it is the start or the goal |
| Render.MarkEnds | TP2/busquedaHeuristica.py:111-114 | marking 'S' and then 'G' over the starred copy gives the drawn map |
| Render.Render | TP2/busquedaHeuristica.py:106-114 | same dimensions; 'G' on the goal; 'S' on the start unless it is the goal; '*' on every other path cell; all other cells unchanged |
| Demo.RunDemo | TP2/busquedaHeuristica.py:116-143 | "corridor" gives the 5x10 corridor, (0,0) to (4,9); anything else gives the 6x10 maze, (5,0) to (4,9); both are rectangular with free endpoints |
| Demo.CorridorRoute | TP2/busquedaHeuristica.py:122-131 | the corridor's route has 32 cells |
| Demo.PassableOnSnake | TP2/busquedaHeuristica.py:123-129 | the corridor's free cells are exactly rows 0, 2 and 4, plus (1,9) and (3,0) |
| Demo.PhiBijection | TP2/busquedaHeuristica.py:123-129 | the position along the snake is a bijection between the free cells and 0..31 |
| Demo.MoveStepsPhi | TP2/busquedaHeuristica.py:123-129 | every legal move in the corridor steps exactly one place along the snake |
| Demo.WalkAhead | TP2/busquedaHeuristica.py:122-131 | after k moves from (0,0), a walk is at most k places along the snake |
| Demo.WalkBehind | TP2/busquedaHeuristica.py:122-131 | m moves before reaching (4,9), a walk is at least 31 - m places along the snake |
| Demo.RouteIsWalk | TP2/busquedaHeuristica.py:122-131 | the 32-cell route is a walk from (0,0) to (4,9) |
| Demo.CorridorShortest | TP2/busquedaHeuristica.py:122-131 | every walk from (0,0) to (4,9) has at least 32 cells, and the only one with 32 is the route |
| Demo.SimpleWalkAdvances | TP2/busquedaHeuristica.py:122-131 | a walk that repeats no cell never turns back along the snake |
| Demo.CorridorOnlyRoute | TP2/busquedaHeuristica.py:122-131 | the route is the only walk from (0,0) to (4,9) that repeats no cell |
| Demo.PassableInMaze | TP2/busquedaHeuristica.py:133-140 | the maze's free cells are exactly the in-bounds cells off its four wall segments |
| Demo.MazeRoute | TP2/busquedaHeuristica.py:132-143 | a 21-cell route through the maze |
| Demo.MazeRouteIsWalk | TP2/busquedaHeuristica.py:132-143 | that route is a walk from (5,0) to (4,9) |
| Demo.MazeGaps | TP2/busquedaHeuristica.py:133-140 | column 3 is open only in row 0, and column 6 only in row 5 |
| Demo.WalkCovers | TP2/busquedaHeuristica.py:19-20 | a walk makes at least as many moves as the Manhattan distance between any two of its cells |
| Demo.FirstAtColumn | TP2/busquedaHeuristica.py:30-38 | a walk that starts left of column c and ends at or right of it enters column c at a free cell |
| Demo.MazeShortest | TP2/busquedaHeuristica.py:132-143 | every walk from (5,0) to (4,9) has at least 21 cells |
| Demo.CorridorAStar | TP2/busquedaHeuristica.py:72-104 | on the corridor, `astar` returns the 32-cell route at cost 31 |
| Demo.CorridorGreedy | TP2/busquedaHeuristica.py:40-70 | on the corridor, `greedy_best_first` returns the same route at cost 31 |
| Demo.MazeAStar | TP2/busquedaHeuristica.py:72-104 | on the maze, `astar` returns a 21-cell path at cost 20 |
| Demo.MazeGreedy | TP2/busquedaHeuristica.py:40-70 | on the maze, `greedy_best_first` returns a path of at least 21 cells, and its cost is its length minus one |

## Left out

- `runtime_ms` and `time.perf_counter()`: wall-clock timing has no specifiable behaviour.
- `compare_and_print`, `main`, the `argparse` options and the JSON report: these are command-line handling and printing.
- The `heapq` binary-heap layout. The frontier is a sequence: a push appends and a pop is a linear scan for the least `(priority, tie)` key. This is the same order in which `heappop` returns entries, because all keys are distinct.
- `float("inf")` is modelled as the `Infinite` case of `Cost`, not as a floating-point value.
- Greedy.GreedyBestFirst: the model requires a grid with a first row and no row shorter than it (`WideRows`), so that `neighbors` can index every in-bounds candidate. The source asks less. When `start == goal` it returns `[start]` at cost 0 without calling `neighbors`, even on an empty grid. A row shorter than the first only raises IndexError if the search looks at one of its missing cells. Those inputs are not covered.
- Grid.Neighbors: requires `WideRows`, which is more than `neighbors` needs: it raises IndexError only on an empty grid or when an in-bounds candidate falls past the end of a shorter row.
- AStar.AStarSearch: the same grid requirement as `Greedy.GreedyBestFirst`, for the same reason.
- Render.Render: every cell it writes must be addressable. The IndexError that Python raises for a path cell, start or goal outside the grid is not modelled.
- Demo.MazeGreedy: the exact route Greedy returns on the maze is not derived; the contract states only that the route is no shorter than A*'s.
- The expansion counts both searches reach on the demo maps are not derived.
- `TP2/bsquedaExhaustiva.py` is not part of this model. It works on floating-point positions and is driven by a sensor callback.
- `TP3/hopfield_prototipo.py` is not part of this model. It is floating-point matrix algebra driven by a random generator.
- `TP4/hough-rectas.py` is not part of this model. It is floating-point trigonometric voting and plotting.

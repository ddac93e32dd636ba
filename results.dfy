/** The record both searches return (`SearchResult`,
    busquedaHeuristica.py lines 11-17), without the wall-clock `runtime_ms`,
    and what each search promises about it. */
module Results {
  import opened Grid
  import opened Paths

  /** A path cost: a number of moves, or `float("inf")` when no path was found. */
  datatype Cost = Finite(moves: nat) | Infinite

  datatype SearchResult = SearchResult(name: string, path: seq<Coord>, cost: Cost, expanded: nat)

  /** `trace` lists the expanded cells in order: the start first, no cell
      twice, only cells reachable from the start, and `expanded` counts them. */
  ghost predicate Expansions(grid: Grid, start: Coord, r: SearchResult, trace: seq<Coord>)
  {
    && r.expanded == |trace| && |trace| > 0 && trace[0] == start && Distinct(trace)
    && (forall v :: v in trace ==> Reachable(grid, start, v))
  }

  /** A found path: a walk of legal moves from `start` to `goal` with no
      repeated cell, costed by its number of moves, returned as soon as the
      goal was expanded for the first time. */
  ghost predicate PathFound(grid: Grid, start: Coord, goal: Coord, r: SearchResult, trace: seq<Coord>)
  {
    && IsWalk(grid, r.path) && r.path[0] == start && r.path[|r.path| - 1] == goal
    && Distinct(r.path)
    && r.cost == Finite(|r.path| - 1)
    && |trace| > 0 && trace[|trace| - 1] == goal && goal !in trace[..|trace| - 1]
  }

  /** No walk from `start` to `goal` has fewer cells than `path`. */
  ghost predicate Shortest(grid: Grid, start: Coord, goal: Coord, path: seq<Coord>)
  {
    forall w {:trigger IsWalk(grid, w)} :: IsWalk(grid, w) && w[0] == start && w[|w| - 1] == goal ==> |path| <= |w|
  }

  /** Given what both searches promise, the returned record tells the two
      outcomes apart by its cost alone: the cost is finite exactly when a
      path came back, it then counts that path's moves, and it is infinite
      exactly when the goal cannot be reached. */
  lemma OutcomeByCost(grid: Grid, start: Coord, goal: Coord, r: SearchResult, trace: seq<Coord>)
    requires r.path != [] ==> PathFound(grid, start, goal, r, trace)
    requires r.path == [] ==> NoPath(grid, start, goal, r, trace)
    ensures r.cost.Finite? <==> r.path != []
    ensures r.cost.Finite? ==> r.cost.moves + 1 == |r.path|
    ensures r.cost.Infinite? <==> !Reachable(grid, start, goal)
  {
    if r.path != [] {
      assert IsWalk(grid, r.path);
    }
  }

  /** No path: the cost is infinite and the expanded cells are exactly the
      cells reachable from `start`, which the goal is not among. */
  ghost predicate NoPath(grid: Grid, start: Coord, goal: Coord, r: SearchResult, trace: seq<Coord>)
  {
    && r.cost == Infinite
    && (forall v :: v in trace <==> Reachable(grid, start, v))
    && !Reachable(grid, start, goal)
  }
}

/** The two fixed scenarios of `run_demo` (busquedaHeuristica.py lines
    116-143), and what both searches do on the corridor: its free cells form
    a single snake from (0, 0) to (4, 9), so the only route is the whole
    snake, 32 cells long. */
module Demo {
  import opened Grid
  import opened Paths
  import opened Results
  import Greedy
  import AStar

  function Corridor(): Grid
  {
    [ "..........",
      "#########.",
      "..........",
      ".#########",
      ".........." ]
  }

  function Maze(): Grid
  {
    [ ".#....#...",
      ".#.#..#.#.",
      ".#.#..#.#.",
      ".#.#..#.#.",
      "...#..#..G",
      "S..#......" ]
  }

  /** `run_demo(kind)`: the corridor for "corridor", the maze for anything else.
      Both maps are what the searches need: rectangular, with free endpoints. */
  function RunDemo(kind: string): (r: (Grid, Coord, Coord))
    ensures Rectangular(r.0) && Passable(r.0, r.1) && Passable(r.0, r.2)
    ensures kind == "corridor" ==> |r.0| == 5 && |r.0[0]| == 10 && r.1 == Coord(0, 0) && r.2 == Coord(4, 9)
    ensures kind != "corridor" ==> |r.0| == 6 && |r.0[0]| == 10 && r.1 == Coord(5, 0) && r.2 == Coord(4, 9)
  {
    if kind == "corridor" then (Corridor(), Coord(0, 0), Coord(4, 9))
    else (Maze(), Coord(5, 0), Coord(4, 9))
  }

  /** The free cells of the corridor, written out. */
  predicate OnSnake(p: Coord)
  {
    || (p.row in {0, 2, 4} && 0 <= p.col < 10)
    || p == Coord(1, 9)
    || p == Coord(3, 0)
  }

  /** Position of a free corridor cell along the snake. */
  function Phi(p: Coord): int
  {
    if p.row == 0 then p.col
    else if p.row == 1 then 10
    else if p.row == 2 then 20 - p.col
    else if p.row == 3 then 21
    else 22 + p.col
  }

  /** The cell at position `i` of the snake. */
  function SnakeCell(i: int): Coord
  {
    if i < 10 then Coord(0, i)
    else if i == 10 then Coord(1, 9)
    else if i < 21 then Coord(2, 20 - i)
    else if i == 21 then Coord(3, 0)
    else Coord(4, i - 22)
  }

  /** The corridor's route, (0, 0) to (4, 9). */
  function CorridorRoute(): (route: seq<Coord>)
    ensures |route| == 32
  {
    seq(32, i => SnakeCell(i))
  }

  lemma PassableOnSnake(p: Coord)
    ensures Passable(Corridor(), p) <==> OnSnake(p)
  {
    var c := Corridor();
    if 0 <= p.row < 5 && 0 <= p.col < 10 {
      assert |c[p.row]| == 10;
    }
  }

  lemma PhiBijection(p: Coord, i: int)
    ensures OnSnake(p) ==> 0 <= Phi(p) < 32 && SnakeCell(Phi(p)) == p
    ensures 0 <= i < 32 ==> OnSnake(SnakeCell(i)) && Phi(SnakeCell(i)) == i
  {
  }

  /** Every move between free cells steps one place along the snake. */
  lemma MoveStepsPhi(p: Coord, q: Coord)
    requires Passable(Corridor(), p) && IsNeighbor(Corridor(), p, q)
    ensures Phi(q) == Phi(p) + 1 || Phi(q) == Phi(p) - 1
  {
    PassableOnSnake(p);
    PassableOnSnake(q);
  }

  /** Along a walk from (0, 0), every cell is free and at most `k` places along the snake after `k` moves. */
  lemma {:induction false} WalkAhead(w: seq<Coord>, k: nat)
    requires IsWalk(Corridor(), w) && w[0] == Coord(0, 0) && k < |w|
    ensures Passable(Corridor(), w[k]) && 0 <= Phi(w[k]) <= k
  {
    if k == 0 {
      PassableOnSnake(w[0]);
    } else {
      WalkAhead(w, k - 1);
      assert IsNeighbor(Corridor(), w[k - 1], w[k]);
      MoveStepsPhi(w[k - 1], w[k]);
      PassableOnSnake(w[k]);
      PhiBijection(w[k], 0);
    }
  }

  /** Along a walk ending at (4, 9), the cell `m` moves before the end is at
      least position 31 - m. */
  lemma {:induction false} WalkBehind(w: seq<Coord>, k: nat)
    requires IsWalk(Corridor(), w) && w[0] == Coord(0, 0) && w[|w| - 1] == Coord(4, 9) && k < |w|
    ensures Phi(w[k]) >= 31 - (|w| - 1 - k)
    decreases |w| - k
  {
    if k < |w| - 1 {
      WalkBehind(w, k + 1);
      WalkAhead(w, k);
      assert IsNeighbor(Corridor(), w[k], w[k + 1]);
      MoveStepsPhi(w[k], w[k + 1]);
    }
  }

  lemma RouteIsWalk()
    ensures IsWalk(Corridor(), CorridorRoute())
    ensures CorridorRoute()[0] == Coord(0, 0) && CorridorRoute()[31] == Coord(4, 9)
  {
    var route := CorridorRoute();
    forall k | 0 <= k < 31 ensures IsNeighbor(Corridor(), route[k], route[k + 1]) {
      PhiBijection(route[k + 1], k + 1);
      PassableOnSnake(route[k + 1]);
    }
  }

  /** Every walk from (0, 0) to (4, 9) makes at least 31 moves, and the only
      one that makes exactly 31 is the route. */
  lemma CorridorShortest(w: seq<Coord>)
    requires IsWalk(Corridor(), w) && w[0] == Coord(0, 0) && w[|w| - 1] == Coord(4, 9)
    ensures |w| >= 32
    ensures |w| == 32 ==> w == CorridorRoute()
  {
    WalkAhead(w, |w| - 1);
    if |w| == 32 {
      forall k | 0 <= k < 32 ensures w[k] == CorridorRoute()[k] {
        WalkAhead(w, k);
        WalkBehind(w, k);
        PassableOnSnake(w[k]);
        PhiBijection(w[k], k);
      }
    }
  }

  /** A walk with no repeated cell never turns back along the snake. */
  lemma {:induction false} SimpleWalkAdvances(w: seq<Coord>, k: nat)
    requires IsWalk(Corridor(), w) && w[0] == Coord(0, 0) && Distinct(w) && k < |w|
    ensures Phi(w[k]) == k
  {
    if k > 0 {
      SimpleWalkAdvances(w, k - 1);
      WalkAhead(w, k);
      WalkAhead(w, k - 1);
      assert IsNeighbor(Corridor(), w[k - 1], w[k]);
      MoveStepsPhi(w[k - 1], w[k]);
      if k > 1 && Phi(w[k]) == k - 2 {
        SimpleWalkAdvances(w, k - 2);
        WalkAhead(w, k - 2);
        PassableOnSnake(w[k]);
        PassableOnSnake(w[k - 2]);
        PhiBijection(w[k], 0);
        PhiBijection(w[k - 2], 0);
        DistinctPairwise(w);
        assert false;
      }
    }
  }

  /** The route is the only walk from (0, 0) to (4, 9) that repeats no cell. */
  lemma CorridorOnlyRoute(w: seq<Coord>)
    requires IsWalk(Corridor(), w) && w[0] == Coord(0, 0) && w[|w| - 1] == Coord(4, 9) && Distinct(w)
    ensures w == CorridorRoute()
  {
    var route := CorridorRoute();
    assert |w| == |route| by {
      SimpleWalkAdvances(w, |w| - 1);
      assert Phi(Coord(4, 9)) == 31;
    }
    forall k | 0 <= k < |w| ensures w[k] == route[k] {
      SimpleWalkAdvances(w, k);
      WalkAhead(w, k);
      PassableOnSnake(w[k]);
      PhiBijection(w[k], k);
    }
  }

  /** The maze's walls, written out: column 1 in rows 0-3, column 3 in rows
      1-5, column 6 in rows 0-4 and column 8 in rows 1-3. */
  predicate MazeWall(p: Coord)
  {
    || (p.col == 1 && p.row <= 3)
    || (p.col == 3 && 1 <= p.row)
    || (p.col == 6 && p.row <= 4)
    || (p.col == 8 && 1 <= p.row <= 3)
  }

  lemma PassableInMaze(p: Coord)
    ensures Passable(Maze(), p) <==> 0 <= p.row < 6 && 0 <= p.col < 10 && !MazeWall(p)
  {
    var m := Maze();
    if 0 <= p.row < 6 && 0 <= p.col < 10 {
      assert |m[p.row]| == 10;
    }
  }

  /** The cell at position `i` of a shortest route through the maze: up the
      left, over the first wall at the top, down to the bottom row, under the
      second wall and along row 4 to the goal. */
  function MazeCell(i: int): Coord
  {
    if i == 0 then Coord(5, 0)
    else if i < 4 then Coord(4, i - 1)
    else if i < 8 then Coord(7 - i, 2)
    else if i < 10 then Coord(0, i - 5)
    else if i < 15 then Coord(i - 9, 4)
    else if i < 18 then Coord(5, i - 10)
    else Coord(4, i - 11)
  }

  /** A shortest route through the maze, 21 cells, (5, 0) to (4, 9). */
  function MazeRoute(): (route: seq<Coord>)
    ensures |route| == 21
  {
    seq(21, i => MazeCell(i))
  }

  lemma MazeRouteIsWalk()
    ensures IsWalk(Maze(), MazeRoute())
    ensures MazeRoute()[0] == Coord(5, 0) && MazeRoute()[20] == Coord(4, 9)
  {
    var route := MazeRoute();
    forall k | 0 <= k < 20 ensures IsNeighbor(Maze(), route[k], route[k + 1]) {
      PassableInMaze(route[k + 1]);
    }
  }

  /** Column 3 is open only in row 0, column 6 only in row 5. */
  lemma MazeGaps(p: Coord)
    ensures Passable(Maze(), p) && p.col == 3 ==> p.row == 0
    ensures Passable(Maze(), p) && p.col == 6 ==> p.row == 5
  {
    PassableInMaze(p);
  }

  /** A walk covers at least the Manhattan distance between any two of its cells. */
  lemma {:induction false} WalkCovers(grid: Grid, w: seq<Coord>, i: nat, j: nat)
    requires IsWalk(grid, w) && i <= j < |w|
    ensures Manhattan(w[i], w[j]) <= j - i
  {
    if i < j {
      WalkCovers(grid, w, i, j - 1);
      assert IsNeighbor(grid, w[j - 1], w[j]);
      ManhattanTriangle(w[i], w[j - 1], w[j]);
    }
  }

  /** The first cell of a walk at column `c` or beyond, when the walk starts
      left of `c`, lies exactly on column `c`. */
  lemma {:induction false} FirstAtColumn(grid: Grid, w: seq<Coord>, c: int, k: nat) returns (i: nat)
    requires IsWalk(grid, w) && k < |w| && w[|w| - 1].col >= c
    requires forall m :: 0 <= m <= k ==> w[m].col < c
    ensures k < i < |w| && w[i].col == c && Passable(grid, w[i])
    ensures forall m :: 0 <= m < i ==> w[m].col < c
    decreases |w| - k
  {
    assert IsNeighbor(grid, w[k], w[k + 1]);
    if w[k + 1].col >= c {
      i := k + 1;
    } else {
      i := FirstAtColumn(grid, w, c, k + 1);
    }
  }

  /** Every walk from (5, 0) to (4, 9) passes (0, 3) and then (5, 6), so it
      makes at least 8 + 8 + 4 = 20 moves. */
  lemma MazeShortest(w: seq<Coord>)
    requires IsWalk(Maze(), w) && w[0] == Coord(5, 0) && w[|w| - 1] == Coord(4, 9)
    ensures |w| >= 21
  {
    var i := FirstAtColumn(Maze(), w, 3, 0);
    var j := FirstAtColumn(Maze(), w, 6, i);
    MazeGaps(w[i]);
    MazeGaps(w[j]);
    WalkCovers(Maze(), w, 0, i);
    WalkCovers(Maze(), w, i, j);
    WalkCovers(Maze(), w, j, |w| - 1);
  }

  /** A* on the corridor returns the route at cost 31. */
  method CorridorAStar() returns (r: SearchResult)
    ensures r.path == CorridorRoute() && r.cost == Finite(31)
  {
    var (grid, start, goal) := RunDemo("corridor");
    ghost var trace;
    r, trace := AStar.AStarSearch(grid, start, goal);
    RouteIsWalk();
    if r.path == [] {
      assert Reachable(grid, start, goal) by {
        assert IsWalk(grid, CorridorRoute());
      }
      assert false;
    }
    CorridorOnlyRoute(r.path);
  }

  /** Greedy Best-First on the corridor returns the same route: there is no
      other way through, so the heuristic cannot lead it astray here. */
  method CorridorGreedy() returns (r: SearchResult)
    ensures r.path == CorridorRoute() && r.cost == Finite(31)
  {
    var (grid, start, goal) := RunDemo("corridor");
    ghost var trace;
    r, trace := Greedy.GreedyBestFirst(grid, start, goal);
    RouteIsWalk();
    if r.path == [] {
      assert Reachable(grid, start, goal) by {
        assert IsWalk(grid, CorridorRoute());
      }
      assert false;
    }
    CorridorOnlyRoute(r.path);
  }

  /** A* on the maze finds a shortest route: 20 moves. */
  method MazeAStar() returns (r: SearchResult)
    ensures |r.path| == 21 && r.cost == Finite(20)
  {
    var (grid, start, goal) := RunDemo("maze");
    ghost var trace;
    r, trace := AStar.AStarSearch(grid, start, goal);
    MazeRouteIsWalk();
    if r.path == [] {
      assert Reachable(grid, start, goal) by {
        assert IsWalk(grid, MazeRoute());
      }
      assert false;
    }
    MazeShortest(r.path);
  }

  /** Greedy Best-First on the maze finds a route, never a shorter one than A*'s. */
  method MazeGreedy() returns (r: SearchResult)
    ensures |r.path| >= 21 && r.cost == Finite(|r.path| - 1)
  {
    var (grid, start, goal) := RunDemo("maze");
    ghost var trace;
    r, trace := Greedy.GreedyBestFirst(grid, start, goal);
    MazeRouteIsWalk();
    if r.path == [] {
      assert Reachable(grid, start, goal) by {
        assert IsWalk(grid, MazeRoute());
      }
      assert false;
    }
    MazeShortest(r.path);
  }
}

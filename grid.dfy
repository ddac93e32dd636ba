/** The occupancy grid: coordinates, the Manhattan heuristic, 4-connected
    adjacency and walks over free cells (busquedaHeuristica.py lines 9-38). */
module Grid {

  /** A cell as (row, column). */
  datatype Coord = Coord(row: int, col: int)

  /** Rows of characters; '#' marks an obstacle. */
  type Grid = seq<string>

  function Abs(x: int): nat
  {
    if x < 0 then -x else x
  }

  /** |Δrow| + |Δcolumn| (`manhattan`). */
  function Manhattan(a: Coord, b: Coord): (d: nat)
    ensures d == 0 <==> a == b
  {
    Abs(a.row - b.row) + Abs(a.col - b.col)
  }

  lemma ManhattanSymmetric(a: Coord, b: Coord)
    ensures Manhattan(a, b) == Manhattan(b, a)
  {
  }

  lemma ManhattanTriangle(a: Coord, b: Coord, c: Coord)
    ensures Manhattan(a, c) <= Manhattan(a, b) + Manhattan(b, c)
  {
  }

  /** Every row as wide as the first, as both demo maps are. */
  predicate Rectangular(grid: Grid)
  {
    |grid| > 0 && forall i :: 0 <= i < |grid| ==> |grid[i]| == |grid[0]|
  }

  /** What `neighbors` needs: a first row to take the width from, and no row
      shorter than it, so that every in-bounds cell can be indexed. */
  predicate WideRows(grid: Grid)
  {
    |grid| > 0 && forall i :: 0 <= i < |grid| ==> |grid[i]| >= |grid[0]|
  }

  /** Inside [0, height) x [0, width), the width taken from the first row. */
  predicate InBounds(grid: Grid, c: Coord)
  {
    0 <= c.row < |grid| && 0 <= c.col < |grid[0]|
  }

  /** The test `neighbors` applies to each candidate. */
  predicate Passable(grid: Grid, c: Coord)
  {
    InBounds(grid, c) && c.col < |grid[c.row]| && grid[c.row][c.col] != '#'
  }

  /** One legal move: `q` is free and orthogonally adjacent to `p`. */
  predicate IsNeighbor(grid: Grid, p: Coord, q: Coord)
  {
    Passable(grid, q) && Manhattan(p, q) == 1
  }

  /** The four candidates, in the fixed order up, down, left, right. */
  function Candidates(p: Coord): seq<Coord>
  {
    [Coord(p.row - 1, p.col), Coord(p.row + 1, p.col), Coord(p.row, p.col - 1), Coord(p.row, p.col + 1)]
  }

  /** Position of `q` among the candidates of `p` (0 up, 1 down, 2 left, 3 right). */
  function DirIndex(p: Coord, q: Coord): nat
  {
    if q == Coord(p.row - 1, p.col) then 0
    else if q == Coord(p.row + 1, p.col) then 1
    else if q == Coord(p.row, p.col - 1) then 2
    else 3
  }

  /** The passable elements of `s`, in order. */
  function FilterPassable(grid: Grid, s: seq<Coord>): seq<Coord>
  {
    if s == [] then []
    else FilterPassable(grid, s[..|s| - 1]) + (if Passable(grid, s[|s| - 1]) then [s[|s| - 1]] else [])
  }

  /** What `neighbors(p, grid)` returns. */
  function NeighborsOf(grid: Grid, p: Coord): seq<Coord>
  {
    FilterPassable(grid, Candidates(p))
  }

  /** `neighbors`: collect the free in-bounds candidates in a loop. */
  method Neighbors(p: Coord, grid: Grid) returns (out: seq<Coord>)
    requires WideRows(grid)
    ensures out == NeighborsOf(grid, p)
  {
    var h, w := |grid|, |grid[0]|;
    var cand := Candidates(p);
    out := [];
    var k := 0;
    while k < |cand|
      invariant 0 <= k <= |cand|
      invariant out == FilterPassable(grid, cand[..k])
    {
      var c := cand[k];
      assert cand[..k + 1][..k] == cand[..k];
      if 0 <= c.row < h && 0 <= c.col < w && grid[c.row][c.col] != '#' {
        out := out + [c];
      }
      k := k + 1;
    }
    assert cand[..k] == cand;
  }

  lemma {:induction false} FilterPassableMembers(grid: Grid, s: seq<Coord>, x: Coord)
    ensures x in FilterPassable(grid, s) <==> x in s && Passable(grid, x)
    ensures |FilterPassable(grid, s)| <= |s|
  {
    if s != [] {
      var init := s[..|s| - 1];
      FilterPassableMembers(grid, init, x);
      assert s == init + [s[|s| - 1]];
    }
  }

  lemma CandidatesAreAdjacent(p: Coord, x: Coord)
    ensures x in Candidates(p) <==> Manhattan(p, x) == 1
  {
  }

  /** Soundness and completeness of `neighbors`: it returns exactly the free
      in-bounds cells at Manhattan distance 1, and never more than four. */
  lemma NeighborsOfExactly(grid: Grid, p: Coord, x: Coord)
    ensures x in NeighborsOf(grid, p) <==> IsNeighbor(grid, p, x)
    ensures |NeighborsOf(grid, p)| <= 4
  {
    FilterPassableMembers(grid, Candidates(p), x);
    CandidatesAreAdjacent(p, x);
  }

  lemma {:induction false} FilterPrefixOrdered(grid: Grid, p: Coord, k: nat)
    requires k <= 4
    ensures forall i :: 0 <= i < |FilterPassable(grid, Candidates(p)[..k])| ==>
              DirIndex(p, FilterPassable(grid, Candidates(p)[..k])[i]) < k
    ensures forall i, j :: 0 <= i < j < |FilterPassable(grid, Candidates(p)[..k])| ==>
              DirIndex(p, FilterPassable(grid, Candidates(p)[..k])[i]) < DirIndex(p, FilterPassable(grid, Candidates(p)[..k])[j])
  {
    if k > 0 {
      var c := Candidates(p);
      FilterPrefixOrdered(grid, p, k - 1);
      assert c[..k][..k - 1] == c[..k - 1];
      assert DirIndex(p, c[k - 1]) == k - 1;
    }
  }

  /** `neighbors` keeps the fixed order up, down, left, right. */
  lemma NeighborsOfOrdered(grid: Grid, p: Coord)
    ensures forall i, j :: 0 <= i < j < |NeighborsOf(grid, p)| ==>
              DirIndex(p, NeighborsOf(grid, p)[i]) < DirIndex(p, NeighborsOf(grid, p)[j])
  {
    FilterPrefixOrdered(grid, p, 4);
    assert Candidates(p)[..4] == Candidates(p);
  }

  /** A sequence of cells each one move from the previous one. The first cell
      is not checked: the searches expand their start whatever it holds. */
  predicate IsWalk(grid: Grid, w: seq<Coord>)
  {
    |w| > 0 && forall k :: 0 <= k < |w| - 1 ==> IsNeighbor(grid, w[k], w[k + 1])
  }

  ghost predicate Reachable(grid: Grid, s: Coord, v: Coord)
  {
    exists w {:trigger IsWalk(grid, w)} :: IsWalk(grid, w) && w[0] == s && w[|w| - 1] == v
  }

  /** No move leaves `S`. */
  ghost predicate ClosedUnderMoves(grid: Grid, S: set<Coord>)
  {
    forall v, nb {:trigger IsNeighbor(grid, v, nb)} :: v in S && IsNeighbor(grid, v, nb) ==> nb in S
  }

  /** A walk that starts inside a set no move leaves stays inside it. */
  lemma {:induction false} WalkStaysInside(grid: Grid, S: set<Coord>, w: seq<Coord>)
    requires IsWalk(grid, w) && w[0] in S && ClosedUnderMoves(grid, S)
    ensures forall k :: 0 <= k < |w| ==> w[k] in S
  {
    if |w| > 1 {
      var init := w[..|w| - 1];
      assert IsWalk(grid, init) by {
        forall k | 0 <= k < |init| - 1 ensures IsNeighbor(grid, init[k], init[k + 1]) {
          assert init[k] == w[k] && init[k + 1] == w[k + 1];
        }
      }
      WalkStaysInside(grid, S, init);
      assert w[|w| - 2] == init[|init| - 1];
      assert IsNeighbor(grid, w[|w| - 2], w[|w| - 1]);
    }
  }

  /** Everything reachable from inside a set no move leaves is inside it. */
  lemma ReachableInside(grid: Grid, S: set<Coord>, s: Coord, v: Coord)
    requires s in S && ClosedUnderMoves(grid, S) && Reachable(grid, s, v)
    ensures v in S
  {
    var w :| IsWalk(grid, w) && w[0] == s && w[|w| - 1] == v;
    WalkStaysInside(grid, S, w);
  }

  /** The heuristic is consistent along a walk: it drops by at most one per move. */
  lemma {:induction false} HeuristicAlongWalk(grid: Grid, w: seq<Coord>, i: nat, goal: Coord)
    requires IsWalk(grid, w) && i < |w|
    ensures Manhattan(w[i], goal) <= (|w| - 1 - i) + Manhattan(w[|w| - 1], goal)
    decreases |w| - i
  {
    if i < |w| - 1 {
      HeuristicAlongWalk(grid, w, i + 1, goal);
      assert IsNeighbor(grid, w[i], w[i + 1]);
      ManhattanTriangle(w[i], w[i + 1], goal);
    }
  }

  /** The cells inside the grid's bounds, a finite set. */
  ghost function Cells(grid: Grid): set<Coord>
  {
    if |grid| == 0 then {}
    else set i, j | 0 <= i < |grid| && 0 <= j < |grid[0]| :: Coord(i, j)
  }

  /** Marking a cell of `Cells(grid) + {start}` done shrinks what is left
      to do: the measure by which both search loops terminate. */
  lemma ShrinkRemaining(grid: Grid, start: Coord, done: set<Coord>, c: Coord)
    requires c in Cells(grid) + {start} && c !in done
    ensures Cells(grid) + {start} - (done + {c}) < Cells(grid) + {start} - done
  {
    assert c in Cells(grid) + {start} - done;
  }

  lemma InBoundsInCells(grid: Grid, c: Coord)
    requires InBounds(grid, c)
    ensures c in Cells(grid)
  {
    assert c == Coord(c.row, c.col);
  }
}

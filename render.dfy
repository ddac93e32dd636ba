/** Drawing a path onto the map (`render`, busquedaHeuristica.py lines
    106-114): path cells become '*', then the start 'S' and the goal 'G'.
    Cells are addressed the way Python lists address them, so a negative
    row or column counts from the end. */
module Render {
  import opened Grid

  /** Python's `xs[i]` for a list of length `n`: negative indices count from the end. */
  function PyIndex(i: int, n: nat): (k: int)
    ensures -(n as int) <= i < n ==> 0 <= k < n
    ensures 0 <= i ==> k == i
  {
    if i < 0 then i + n else i
  }

  /** `g[i][j]` does not raise IndexError. */
  predicate Addressable(grid: Grid, p: Coord)
  {
    -|grid| <= p.row < |grid| && -|grid[PyIndex(p.row, |grid|)]| <= p.col < |grid[PyIndex(p.row, |grid|)]|
  }

  /** The cell `g[i][j]` denotes. */
  function Target(grid: Grid, p: Coord): (t: Coord)
    requires Addressable(grid, p)
    ensures 0 <= t.row < |grid| && 0 <= t.col < |grid[t.row]|
    ensures InBounds(grid, p) ==> t == p
  {
    var r := PyIndex(p.row, |grid|);
    Coord(r, PyIndex(p.col, |grid[r]|))
  }

  /** Some cell among `path[..k]` other than `start` and `goal` denotes (r, c). */
  predicate Starred(grid: Grid, path: seq<Coord>, k: nat, start: Coord, goal: Coord, r: int, c: int)
    requires k <= |path| && forall i :: 0 <= i < |path| ==> Addressable(grid, path[i])
  {
    exists i :: 0 <= i < k && path[i] != start && path[i] != goal && Target(grid, path[i]) == Coord(r, c)
  }

  /** `rows` with the cell `p` overwritten by `ch`. */
  function Put(rows: seq<string>, p: Coord, ch: char): (out: seq<string>)
    requires 0 <= p.row < |rows| && 0 <= p.col < |rows[p.row]|
    ensures |out| == |rows| && forall r :: 0 <= r < |rows| ==> |out[r]| == |rows[r]|
  {
    rows[p.row := rows[p.row][p.col := ch]]
  }

  /** `rows` is a copy of `grid` in which exactly the cells starred by
      `path[..k]` hold '*'. */
  ghost predicate StarredCopy(grid: Grid, path: seq<Coord>, k: nat, start: Coord, goal: Coord, rows: seq<string>)
    requires k <= |path| && forall i :: 0 <= i < |path| ==> Addressable(grid, path[i])
  {
    && |rows| == |grid|
    && (forall r :: 0 <= r < |grid| ==> |rows[r]| == |grid[r]|)
    && (forall r, c :: 0 <= r < |grid| && 0 <= c < |grid[r]| ==>
          rows[r][c] == if Starred(grid, path, k, start, goal, r, c) then '*' else grid[r][c])
  }

  /** What `render` returns: the input's dimensions, 'G' on the goal, 'S' on
      the start unless the goal covers it, '*' on every other path cell, and
      every remaining cell as it was. */
  ghost predicate Drawn(grid: Grid, path: seq<Coord>, start: Coord, goal: Coord, out: seq<string>)
    requires forall i :: 0 <= i < |path| ==> Addressable(grid, path[i])
    requires Addressable(grid, start) && Addressable(grid, goal)
  {
    && |out| == |grid| && (forall r :: 0 <= r < |grid| ==> |out[r]| == |grid[r]|)
    && out[Target(grid, goal).row][Target(grid, goal).col] == 'G'
    && (Target(grid, start) != Target(grid, goal) ==> out[Target(grid, start).row][Target(grid, start).col] == 'S')
    && (forall i :: 0 <= i < |path| && Target(grid, path[i]) != Target(grid, start) && Target(grid, path[i]) != Target(grid, goal) ==>
          out[Target(grid, path[i]).row][Target(grid, path[i]).col] == '*')
    && (forall r, c ::
          (&& 0 <= r < |grid| && 0 <= c < |grid[r]|
           && Coord(r, c) != Target(grid, start) && Coord(r, c) != Target(grid, goal)
           && (forall i :: 0 <= i < |path| ==> Target(grid, path[i]) != Coord(r, c)))
          ==> out[r][c] == grid[r][c])
  }

  /** One pass of the starring loop: `path[k]` is starred unless it is the start or the goal. */
  lemma StarStep(grid: Grid, path: seq<Coord>, k: nat, start: Coord, goal: Coord, rows: seq<string>)
    requires k < |path| && forall i :: 0 <= i < |path| ==> Addressable(grid, path[i])
    requires StarredCopy(grid, path, k, start, goal, rows)
    ensures path[k] != start && path[k] != goal ==>
              StarredCopy(grid, path, k + 1, start, goal, Put(rows, Target(grid, path[k]), '*'))
    ensures path[k] == start || path[k] == goal ==> StarredCopy(grid, path, k + 1, start, goal, rows)
  {
    forall r, c | 0 <= r < |grid| && 0 <= c < |grid[r]|
      ensures Starred(grid, path, k + 1, start, goal, r, c) <==>
                Starred(grid, path, k, start, goal, r, c) || (path[k] != start && path[k] != goal && Target(grid, path[k]) == Coord(r, c))
    {
      if Starred(grid, path, k + 1, start, goal, r, c) && !Starred(grid, path, k, start, goal, r, c) {
        var i :| 0 <= i < k + 1 && path[i] != start && path[i] != goal && Target(grid, path[i]) == Coord(r, c);
        assert i == k;
      }
    }
  }

  /** Marking the start, then the goal, over the fully starred copy draws the map. */
  lemma MarkEnds(grid: Grid, path: seq<Coord>, start: Coord, goal: Coord, rows: seq<string>)
    requires forall i :: 0 <= i < |path| ==> Addressable(grid, path[i])
    requires Addressable(grid, start) && Addressable(grid, goal)
    requires StarredCopy(grid, path, |path|, start, goal, rows)
    ensures Drawn(grid, path, start, goal, Put(Put(rows, Target(grid, start), 'S'), Target(grid, goal), 'G'))
  {
    var s, t := Target(grid, start), Target(grid, goal);
    var out := Put(Put(rows, s, 'S'), t, 'G');
    forall i | 0 <= i < |path| && Target(grid, path[i]) != s && Target(grid, path[i]) != t
      ensures out[Target(grid, path[i]).row][Target(grid, path[i]).col] == '*'
    {
      var q := Target(grid, path[i]);
      assert Starred(grid, path, |path|, start, goal, q.row, q.col) by {
        assert path[i] != start && path[i] != goal;
      }
    }
  }

  /** `render(grid, path, start, goal)`: copy the rows, star the path, then
      mark the start and the goal. Every cell it writes must be addressable,
      or Python raises IndexError. */
  method Render(grid: Grid, path: seq<Coord>, start: Coord, goal: Coord) returns (out: seq<string>)
    requires forall i :: 0 <= i < |path| ==> Addressable(grid, path[i])
    requires Addressable(grid, start) && Addressable(grid, goal)
    ensures Drawn(grid, path, start, goal, out)
  {
    var g := new string[|grid|](i requires 0 <= i < |grid| => grid[i]);
    var k := 0;
    while k < |path|
      invariant 0 <= k <= |path|
      invariant StarredCopy(grid, path, k, start, goal, g[..])
    {
      ghost var before := g[..];
      StarStep(grid, path, k, start, goal, before);
      var p := path[k];
      if p != start && p != goal {
        var t := Target(grid, p);
        g[t.row] := g[t.row][t.col := '*'];
        assert g[..] == Put(before, t, '*');
      }
      k := k + 1;
    }
    ghost var starred := g[..];
    var s := Target(grid, start);
    g[s.row] := g[s.row][s.col := 'S'];
    ghost var marked := g[..];
    assert marked == Put(starred, s, 'S');
    var t := Target(grid, goal);
    g[t.row] := g[t.row][t.col := 'G'];
    out := g[..];
    assert out == Put(marked, t, 'G');
    MarkEnds(grid, path, start, goal, starred);
  }
}

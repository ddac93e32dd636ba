/** Path reconstruction from the predecessor map `came_from`
    (`reconstruct_path`, busquedaHeuristica.py lines 22-28). */
module Paths {
  import opened Grid

  /** `came_from` is acyclic, witnessed by a rank that strictly drops from a
      ranked node to its predecessor. */
  predicate Ranked(cameFrom: map<Coord, Coord>, rank: map<Coord, nat>)
  {
    forall k :: k in cameFrom && k in rank ==> cameFrom[k] in rank && rank[cameFrom[k]] < rank[k]
  }

  /** `p` follows `came_from` link by link, and its first cell has no predecessor. */
  predicate IsChain(cameFrom: map<Coord, Coord>, p: seq<Coord>)
  {
    && |p| > 0
    && p[0] !in cameFrom
    && forall k :: 0 < k < |p| ==> p[k] in cameFrom && cameFrom[p[k]] == p[k - 1]
  }

  /** Every recorded predecessor is one move away from its node. */
  predicate LinksAreMoves(grid: Grid, cameFrom: map<Coord, Coord>)
  {
    forall k :: k in cameFrom ==> IsNeighbor(grid, cameFrom[k], k)
  }

  /** No cell occurs twice in `s`, stated one appended cell at a time. */
  predicate Distinct(s: seq<Coord>)
  {
    |s| == 0 || (s[|s| - 1] !in s[..|s| - 1] && Distinct(s[..|s| - 1]))
  }

  /** `Distinct` means that any two positions hold different cells. */
  lemma {:induction false} DistinctPairwise(s: seq<Coord>)
    ensures Distinct(s) <==> forall i, j :: 0 <= i < j < |s| ==> s[i] != s[j]
  {
    if |s| > 0 {
      var init := s[..|s| - 1];
      DistinctPairwise(init);
      assert forall i :: 0 <= i < |init| ==> init[i] == s[i];
      if s[|s| - 1] in init {
        var i :| 0 <= i < |init| && init[i] == s[|s| - 1];
        assert s[i] == s[|s| - 1];
      }
    }
  }

  /** Appending a cell keeps a sequence distinct exactly when the cell is new. */
  lemma DistinctSnoc(s: seq<Coord>, x: Coord)
    ensures Distinct(s + [x]) <==> Distinct(s) && x !in s
  {
    assert (s + [x])[..|s|] == s;
  }

  /** A sequence whose cells each record their own position holds no cell twice. */
  lemma IndexedDistinct(s: seq<Coord>, pos: map<Coord, nat>)
    requires forall i :: 0 <= i < |s| ==> s[i] in pos && pos[s[i]] == i
    ensures Distinct(s)
  {
    DistinctPairwise(s);
  }

  function Reversed(s: seq<Coord>): (r: seq<Coord>)
    ensures |r| == |s|
    ensures forall k :: 0 <= k < |s| ==> r[k] == s[|s| - 1 - k]
  {
    if s == [] then [] else Reversed(s[1..]) + [s[0]]
  }

  /** The chain ending at `v`, built by recursion on the rank. */
  ghost function ChainTo(cameFrom: map<Coord, Coord>, rank: map<Coord, nat>, v: Coord): (p: seq<Coord>)
    requires Ranked(cameFrom, rank) && v in rank
    ensures IsChain(cameFrom, p) && p[|p| - 1] == v
    ensures forall k :: 0 <= k < |p| ==> p[k] in rank
    decreases rank[v]
  {
    if v in cameFrom then ChainTo(cameFrom, rank, cameFrom[v]) + [v] else [v]
  }

  /** `reconstruct_path`: walk `came_from` back from `current`, appending each
      predecessor, then reverse. The result is the chain ending at
      `current`; ranks strictly increase along it, so no cell repeats. */
  method ReconstructPath(cameFrom: map<Coord, Coord>, current: Coord, ghost rank: map<Coord, nat>)
    returns (path: seq<Coord>)
    requires Ranked(cameFrom, rank) && current in rank
    ensures IsChain(cameFrom, path) && path[|path| - 1] == current
    ensures forall k :: 0 <= k < |path| ==> path[k] in rank
    ensures Distinct(path)
  {
    var walk := [current];
    var cur := current;
    while cur in cameFrom
      invariant cur in rank
      invariant |walk| > 0 && walk[0] == current && walk[|walk| - 1] == cur
      invariant forall k :: 0 <= k < |walk| ==> walk[k] in rank && rank[walk[k]] >= rank[cur]
      invariant forall k :: 0 <= k < |walk| - 1 ==> walk[k] in cameFrom && cameFrom[walk[k]] == walk[k + 1]
      invariant forall i, j :: 0 <= i < j < |walk| ==> rank[walk[i]] > rank[walk[j]]
      decreases rank[cur]
    {
      cur := cameFrom[cur];
      walk := walk + [cur];
    }
    path := Reversed(walk);
    DistinctPairwise(path);
    forall i, j | 0 <= i < j < |path| ensures path[i] != path[j] {
      assert path[i] == walk[|walk| - 1 - i] && path[j] == walk[|walk| - 1 - j];
    }
  }

  /** Two chains that end at the same cell are the same chain: the path
      `reconstruct_path` returns is determined by `came_from` and `current`. */
  lemma {:induction false} ChainUnique(cameFrom: map<Coord, Coord>, p: seq<Coord>, q: seq<Coord>)
    requires IsChain(cameFrom, p) && IsChain(cameFrom, q)
    requires p[|p| - 1] == q[|q| - 1]
    ensures p == q
    decreases |p|
  {
    assert |p| > 1 ==> p[|p| - 1] in cameFrom;
    assert |q| > 1 ==> q[|q| - 1] in cameFrom;
    if |p| > 1 {
      var p', q' := p[..|p| - 1], q[..|q| - 1];
      assert IsChain(cameFrom, p');
      assert IsChain(cameFrom, q');
      assert p'[|p'| - 1] == cameFrom[p[|p| - 1]];
      ChainUnique(cameFrom, p', q');
      assert p == p' + [p[|p| - 1]];
      assert q == q' + [q[|q| - 1]];
    }
  }

  /** A chain whose links are moves is a walk. */
  lemma ChainIsWalk(grid: Grid, cameFrom: map<Coord, Coord>, p: seq<Coord>)
    requires IsChain(cameFrom, p) && LinksAreMoves(grid, cameFrom)
    ensures IsWalk(grid, p)
  {
    forall k | 0 <= k < |p| - 1 ensures IsNeighbor(grid, p[k], p[k + 1]) {
      assert p[k + 1] in cameFrom && cameFrom[p[k + 1]] == p[k];
    }
  }

  /** Every ranked node whose chain starts at `start` is reachable from it by legal moves. */
  lemma RankedAreReachable(grid: Grid, cameFrom: map<Coord, Coord>, rank: map<Coord, nat>, start: Coord, v: Coord)
    requires Ranked(cameFrom, rank) && LinksAreMoves(grid, cameFrom) && v in rank
    requires forall u :: u in rank && u !in cameFrom ==> u == start
    ensures Reachable(grid, start, v)
  {
    var p := ChainTo(cameFrom, rank, v);
    ChainIsWalk(grid, cameFrom, p);
  }
}

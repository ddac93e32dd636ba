/** A* search (`astar`, busquedaHeuristica.py lines 72-104): the frontier is
    ordered by g + h with unit move cost and the Manhattan heuristic; a
    neighbour's cost and predecessor are replaced together whenever a
    strictly cheaper route to it is found, and stale frontier entries are
    skipped when popped. */
module AStar {
  import opened Grid
  import opened Frontier
  import opened Paths
  import opened Results

  const Name: string := "A*"

  /** `g` and `came_from` agree: the start costs 0 and has no predecessor,
      every other recorded cell has a closed predecessor one move away and
      costs one more than it. */
  ghost predicate CostsOk(grid: Grid, start: Coord, g: map<Coord, nat>, cameFrom: map<Coord, Coord>, closed: set<Coord>)
  {
    && start in g && g[start] == 0 && start !in cameFrom
    && (forall v :: v in cameFrom ==> v in g && v != start)
    && (forall v {:trigger v in g, v in cameFrom} :: v in g && v !in cameFrom ==> v == start)
    && (forall v :: v in cameFrom ==> cameFrom[v] in closed && cameFrom[v] in g && g[v] == g[cameFrom[v]] + 1)
    && LinksAreMoves(grid, cameFrom)
    && closed <= g.Keys
  }

  /** No walk from the start reaches a closed cell in fewer moves than its `g`. */
  ghost predicate ClosedOptimal(grid: Grid, start: Coord, g: map<Coord, nat>, closed: set<Coord>)
  {
    forall w {:trigger IsWalk(grid, w)} :: IsWalk(grid, w) && w[0] == start && w[|w| - 1] in closed ==>
      w[|w| - 1] in g && g[w[|w| - 1]] <= |w| - 1
  }

  /** Every neighbour of a cell in `done` has been relaxed from it. */
  ghost predicate Relaxed(grid: Grid, g: map<Coord, nat>, done: set<Coord>)
  {
    forall c, nb {:trigger IsNeighbor(grid, c, nb)} :: c in done && IsNeighbor(grid, c, nb) ==> c in g && nb in g && g[nb] <= g[c] + 1
  }

  /** `v` has the frontier entry with priority `gv` + h that `live` remembers. */
  ghost predicate Live(goal: Coord, pq: seq<Entry>, live: map<Coord, nat>, v: Coord, gv: nat)
  {
    v in live && Entry(gv + Manhattan(v, goal), live[v], v) in pq
  }

  /** Frontier entries have fresh ties and never promise less than the current
      g + h of their cell; every open cell has an up-to-date entry. */
  ghost predicate FrontierOk(goal: Coord, pq: seq<Entry>, tie: nat, g: map<Coord, nat>, closed: set<Coord>, live: map<Coord, nat>)
  {
    && TiesBelow(pq, tie)
    && (forall e {:trigger e in pq} :: e in pq ==> e.node in g && e.priority >= g[e.node] + Manhattan(e.node, goal))
    && (forall v {:trigger v in g} :: v in g && v !in closed ==> Live(goal, pq, live, v, g[v]))
  }

  /** `trace` lists the expanded cells in order, each once. */
  ghost predicate Counted(start: Coord, closed: set<Coord>, expanded: nat, trace: seq<Coord>)
  {
    && expanded == |closed| == |trace|
    && (|trace| > 0 ==> trace[0] == start)
    && (forall v :: v in trace <==> v in closed)
    && Distinct(trace)
  }

  /** What holds at the head of the `while pq` loop. */
  ghost predicate Inv(grid: Grid, start: Coord, goal: Coord, pq: seq<Entry>, tie: nat, g: map<Coord, nat>,
                      cameFrom: map<Coord, Coord>, closed: set<Coord>, expanded: nat, trace: seq<Coord>, live: map<Coord, nat>)
  {
    && Consistent(grid, start, goal, pq, tie, g, cameFrom, closed, live)
    && Relaxed(grid, g, closed)
    && goal !in closed
    && Counted(start, closed, expanded, trace)
    && (closed == {} ==> pq == [Entry(Manhattan(start, goal), 0, start)])
  }

  /** Along a chain of `came_from` links the cost grows by one per link from 0
      at the start, so a chain is a walk whose length is its last cell's cost plus one. */
  lemma {:induction false} ChainCosts(grid: Grid, start: Coord, g: map<Coord, nat>, cameFrom: map<Coord, Coord>,
                                      closed: set<Coord>, p: seq<Coord>)
    requires CostsOk(grid, start, g, cameFrom, closed)
    requires IsChain(cameFrom, p) && p[|p| - 1] in g
    ensures p[0] == start && IsWalk(grid, p)
    ensures forall k :: 0 <= k < |p| ==> p[k] in g && g[p[k]] == k
    decreases |p|
  {
    ChainIsWalk(grid, cameFrom, p);
    if |p| > 1 {
      var p' := p[..|p| - 1];
      assert IsChain(cameFrom, p');
      assert p[|p| - 1] in cameFrom && cameFrom[p[|p| - 1]] == p'[|p'| - 1];
      ChainCosts(grid, start, g, cameFrom, closed, p');
      assert forall k :: 0 <= k < |p'| ==> p[k] == p'[k];
    }
  }

  /** Costs drop along `came_from` links, so they rank it: it has no cycles. */
  lemma CostsRanked(grid: Grid, start: Coord, g: map<Coord, nat>, cameFrom: map<Coord, Coord>, closed: set<Coord>)
    requires CostsOk(grid, start, g, cameFrom, closed)
    ensures Ranked(cameFrom, g)
  {
  }

  /** Every recorded cost is achieved by a walk from the start. */
  lemma CostWalk(grid: Grid, start: Coord, g: map<Coord, nat>, cameFrom: map<Coord, Coord>, closed: set<Coord>, v: Coord)
    returns (w: seq<Coord>)
    requires CostsOk(grid, start, g, cameFrom, closed) && v in g
    ensures IsWalk(grid, w) && w[0] == start && w[|w| - 1] == v && |w| == g[v] + 1
  {
    CostsRanked(grid, start, g, cameFrom, closed);
    w := ChainTo(cameFrom, g, v);
    ChainCosts(grid, start, g, cameFrom, closed, w);
  }

  /** A walk from the start that ends outside the closed set meets an open
      cell whose recorded cost is no more than its position on the walk. */
  lemma {:induction false} FirstOpen(grid: Grid, start: Coord, g: map<Coord, nat>, cameFrom: map<Coord, Coord>,
                                     closed: set<Coord>, w: seq<Coord>)
    returns (i: nat)
    requires CostsOk(grid, start, g, cameFrom, closed)
    requires ClosedOptimal(grid, start, g, closed) && Relaxed(grid, g, closed)
    requires IsWalk(grid, w) && w[0] == start && w[|w| - 1] !in closed
    ensures i < |w| && w[i] !in closed && w[i] in g && g[w[i]] <= i
    decreases |w|
  {
    if |w| == 1 {
      i := 0;
    } else {
      var w' := w[..|w| - 1];
      assert IsWalk(grid, w') by {
        forall k | 0 <= k < |w'| - 1 ensures IsNeighbor(grid, w'[k], w'[k + 1]) {
          assert w'[k] == w[k] && w'[k + 1] == w[k + 1];
        }
      }
      if w'[|w'| - 1] !in closed {
        i := FirstOpen(grid, start, g, cameFrom, closed, w');
      } else {
        assert IsNeighbor(grid, w[|w| - 2], w[|w| - 1]);
        i := |w| - 1;
      }
    }
  }

  /** The heart of A*'s optimality: with the consistent Manhattan heuristic,
      the cell whose entry has the least g + h already has its shortest cost. */
  lemma PoppedOptimal(grid: Grid, start: Coord, goal: Coord, pq: seq<Entry>, tie: nat, g: map<Coord, nat>,
                      cameFrom: map<Coord, Coord>, closed: set<Coord>, live: map<Coord, nat>, e: Entry)
    requires CostsOk(grid, start, g, cameFrom, closed)
    requires ClosedOptimal(grid, start, g, closed) && Relaxed(grid, g, closed)
    requires FrontierOk(goal, pq, tie, g, closed, live)
    requires e in pq && (forall x :: x in pq ==> KeyLe(e, x)) && e.node !in closed
    ensures ClosedOptimal(grid, start, g, closed + {e.node})
  {
    var u := e.node;
    forall w | IsWalk(grid, w) && w[0] == start && w[|w| - 1] in closed + {u}
      ensures w[|w| - 1] in g && g[w[|w| - 1]] <= |w| - 1
    {
      if w[|w| - 1] == u {
        var i := FirstOpen(grid, start, g, cameFrom, closed, w);
        var n := w[i];
        assert KeyLe(e, Entry(g[n] + Manhattan(n, goal), live[n], n));
        HeuristicAlongWalk(grid, w, i, goal);
      }
    }
  }

  /** Closed cells keep their cost: a closed neighbour is never improved. */
  lemma ClosedNotImproved(grid: Grid, start: Coord, g: map<Coord, nat>, cameFrom: map<Coord, Coord>,
                          closed: set<Coord>, current: Coord, nb: Coord)
    requires CostsOk(grid, start, g, cameFrom, closed) && ClosedOptimal(grid, start, g, closed)
    requires current in g && IsNeighbor(grid, current, nb)
    ensures nb in closed ==> nb in g && g[nb] <= g[current] + 1
  {
    var w := CostWalk(grid, start, g, cameFrom, closed, current);
    var w' := w + [nb];
    assert IsWalk(grid, w') by {
      forall k | 0 <= k < |w'| - 1 ensures IsNeighbor(grid, w'[k], w'[k + 1]) {
        if k < |w| - 1 {
          assert w'[k] == w[k] && w'[k + 1] == w[k + 1];
        }
      }
    }
  }

  /** The bookkeeping the relaxation loop keeps consistent. */
  ghost predicate Consistent(grid: Grid, start: Coord, goal: Coord, pq: seq<Entry>, tie: nat, g: map<Coord, nat>,
                             cameFrom: map<Coord, Coord>, closed: set<Coord>, live: map<Coord, nat>)
  {
    && CostsOk(grid, start, g, cameFrom, closed)
    && ClosedOptimal(grid, start, g, closed)
    && FrontierOk(goal, pq, tie, g, closed, live)
    && g.Keys <= Cells(grid) + {start}
  }

  /** How relaxing the neighbours of `current` may change (g, came_from, frontier):
      a cost never increases; a cost changes only when strictly lowered, only
      for an open neighbour of `current`, to g[current] + 1 and together with
      its predecessor, which becomes `current`; other predecessors stay; the
      frontier only grows. */
  ghost predicate Lowered(grid: Grid, current: Coord, closed: set<Coord>,
                          g: map<Coord, nat>, cameFrom: map<Coord, Coord>, pq: seq<Entry>, tie: nat,
                          g': map<Coord, nat>, cameFrom': map<Coord, Coord>, pq': seq<Entry>, tie': nat)
    requires current in g
  {
    && (forall k {:trigger k in g} :: k in g ==> k in g' && g'[k] <= g[k])
    && (forall k {:trigger k in g', k in g} :: k in g' && (k !in g || g'[k] < g[k]) ==>
          g'[k] == g[current] + 1 && k !in closed && IsNeighbor(grid, current, k)
          && k in cameFrom' && cameFrom'[k] == current)
    && (forall k {:trigger k in cameFrom} :: k in cameFrom && k in g && g'[k] == g[k] ==> k in cameFrom' && cameFrom'[k] == cameFrom[k])
    && tie' >= tie && |pq'| >= |pq| && pq'[..|pq|] == pq
  }

  /** Setting g[nb] = g[current] + 1 and came_from[nb] = current keeps costs
      and predecessors in agreement and closed cells optimal. */
  lemma RelaxCosts(grid: Grid, start: Coord, g: map<Coord, nat>, cameFrom: map<Coord, Coord>, closed: set<Coord>,
                   current: Coord, nb: Coord, cost: nat)
    requires CostsOk(grid, start, g, cameFrom, closed) && ClosedOptimal(grid, start, g, closed)
    requires g.Keys <= Cells(grid) + {start}
    requires current in closed && IsNeighbor(grid, current, nb)
    requires cost == g[current] + 1 && (nb !in g || cost < g[nb])
    ensures nb !in closed && nb != start
    ensures CostsOk(grid, start, g[nb := cost], cameFrom[nb := current], closed)
    ensures ClosedOptimal(grid, start, g[nb := cost], closed)
    ensures g[nb := cost].Keys <= Cells(grid) + {start}
  {
    ClosedNotImproved(grid, start, g, cameFrom, closed, current, nb);
    InBoundsInCells(grid, nb);
    var g', cameFrom' := g[nb := cost], cameFrom[nb := current];
    forall v | v in cameFrom'
      ensures cameFrom'[v] in closed && cameFrom'[v] in g' && g'[v] == g'[cameFrom'[v]] + 1
    {
      if v != nb {
        assert cameFrom[v] in closed;
      }
    }
    forall w | IsWalk(grid, w) && w[0] == start && w[|w| - 1] in closed
      ensures w[|w| - 1] in g' && g'[w[|w| - 1]] <= |w| - 1
    {
      assert w[|w| - 1] in g && g[w[|w| - 1]] <= |w| - 1;
    }
  }

  /** Pushing the entry (g[nb] + h(nb), tie + 1, nb) for a lowered cost keeps the frontier consistent. */
  lemma RelaxFrontier(goal: Coord, pq: seq<Entry>, tie: nat, g: map<Coord, nat>, closed: set<Coord>,
                      live: map<Coord, nat>, nb: Coord, cost: nat)
    requires FrontierOk(goal, pq, tie, g, closed, live)
    requires nb !in g || cost < g[nb]
    ensures FrontierOk(goal, pq + [Entry(cost + Manhattan(nb, goal), tie + 1, nb)], tie + 1,
                       g[nb := cost], closed, live[nb := tie + 1])
  {
    var g', live' := g[nb := cost], live[nb := tie + 1];
    var entry := Entry(cost + Manhattan(nb, goal), tie + 1, nb);
    var pq' := pq + [entry];
    assert pq'[|pq|] == entry;
    forall x | x in pq' ensures x.node in g' && x.priority >= g'[x.node] + Manhattan(x.node, goal) {
      if x != entry {
        assert x in pq;
      }
    }
    forall v | v in g' && v !in closed ensures Live(goal, pq', live', v, g'[v]) {
      if v != nb {
        assert Live(goal, pq, live, v, g[v]);
        var j :| 0 <= j < |pq| && pq[j] == Entry(g[v] + Manhattan(v, goal), live[v], v);
        assert pq'[j] == pq[j];
      }
    }
    assert forall x :: x in pq ==> x.tie < entry.tie;
  }

  /** One relaxation of an open neighbour extends `Lowered`. */
  lemma LowerStep(grid: Grid, current: Coord, closed: set<Coord>,
                  g: map<Coord, nat>, cameFrom: map<Coord, Coord>, pq: seq<Entry>, tie: nat,
                  g': map<Coord, nat>, cameFrom': map<Coord, Coord>, pq': seq<Entry>, tie': nat,
                  nb: Coord, cost: nat, e: Entry)
    requires current in g && Lowered(grid, current, closed, g, cameFrom, pq, tie, g', cameFrom', pq', tie')
    requires nb !in closed && IsNeighbor(grid, current, nb)
    requires cost == g[current] + 1 && (nb !in g' || cost < g'[nb])
    ensures Lowered(grid, current, closed, g, cameFrom, pq, tie,
                    g'[nb := cost], cameFrom'[nb := current], pq' + [e], tie' + 1)
  {
    var g'', cameFrom'' := g'[nb := cost], cameFrom'[nb := current];
    assert (pq' + [e])[..|pq|] == pq'[..|pq|];
    forall k | k in g ensures k in g'' && g''[k] <= g[k] {
      assert k in g' && g'[k] <= g[k];
    }
    forall k | k in g'' && (k !in g || g''[k] < g[k])
      ensures g''[k] == g[current] + 1 && k !in closed && IsNeighbor(grid, current, k)
              && k in cameFrom'' && cameFrom''[k] == current
    {
      if k != nb {
        assert k in g' && g'[k] == g''[k];
        assert k in g' && (k !in g || g'[k] < g[k]);
      }
    }
    forall k | k in cameFrom && k in g && g''[k] == g[k] ensures k in cameFrom'' && cameFrom''[k] == cameFrom[k] {
      assert k in g' && g'[k] <= g[k];
      if k != nb {
        assert k in cameFrom && g'[k] == g[k];
      }
    }
  }

  /** The invariant of the relaxation loop in `Expand` after the first `i` neighbours in `nbs`. */
  ghost predicate RelaxLoop(grid: Grid, start: Coord, goal: Coord, current: Coord, closed: set<Coord>,
                            g: map<Coord, nat>, cameFrom: map<Coord, Coord>, pq: seq<Entry>, tie: nat,
                            g': map<Coord, nat>, cameFrom': map<Coord, Coord>, pq': seq<Entry>, tie': nat,
                            live': map<Coord, nat>, nbs: seq<Coord>, i: nat)
    requires current in g && i <= |nbs|
  {
    && Consistent(grid, start, goal, pq', tie', g', cameFrom', closed, live')
    && Lowered(grid, current, closed, g, cameFrom, pq, tie, g', cameFrom', pq', tie')
    && current in g' && g'[current] == g[current]
    && (forall j :: 0 <= j < i ==> nbs[j] in g' && g'[nbs[j]] <= g[current] + 1)
  }

  /** One pass of the relaxation loop that lowers the cost of `nb` keeps the loop invariant. */
  lemma RelaxOne(grid: Grid, start: Coord, goal: Coord, current: Coord, closed: set<Coord>,
                 g: map<Coord, nat>, cameFrom: map<Coord, Coord>, pq: seq<Entry>, tie: nat,
                 g': map<Coord, nat>, cameFrom': map<Coord, Coord>, pq': seq<Entry>, tie': nat, live': map<Coord, nat>,
                 nbs: seq<Coord>, i: nat, nb: Coord, cost: nat)
    requires current in closed && current in g && i < |nbs| && nb == nbs[i]
    requires RelaxLoop(grid, start, goal, current, closed, g, cameFrom, pq, tie, g', cameFrom', pq', tie', live', nbs, i)
    requires IsNeighbor(grid, current, nb) && cost == g[current] + 1 && (nb !in g' || cost < g'[nb])
    ensures RelaxLoop(grid, start, goal, current, closed, g, cameFrom, pq, tie, g'[nb := cost], cameFrom'[nb := current],
                      pq' + [Entry(cost + Manhattan(nb, goal), tie' + 1, nb)], tie' + 1, live'[nb := tie' + 1], nbs, i + 1)
  {
    RelaxCosts(grid, start, g', cameFrom', closed, current, nb, cost);
    RelaxFrontier(goal, pq', tie', g', closed, live', nb, cost);
    LowerStep(grid, current, closed, g, cameFrom, pq, tie, g', cameFrom', pq', tie', nb, cost,
              Entry(cost + Manhattan(nb, goal), tie' + 1, nb));
  }

  /** A neighbour whose cost does not drop leaves everything as it was. */
  lemma SkipOne(grid: Grid, start: Coord, goal: Coord, current: Coord, closed: set<Coord>,
                g: map<Coord, nat>, cameFrom: map<Coord, Coord>, pq: seq<Entry>, tie: nat,
                g': map<Coord, nat>, cameFrom': map<Coord, Coord>, pq': seq<Entry>, tie': nat, live': map<Coord, nat>,
                nbs: seq<Coord>, i: nat)
    requires current in g && i < |nbs|
    requires RelaxLoop(grid, start, goal, current, closed, g, cameFrom, pq, tie, g', cameFrom', pq', tie', live', nbs, i)
    requires nbs[i] in g' && g'[nbs[i]] <= g[current] + 1
    ensures RelaxLoop(grid, start, goal, current, closed, g, cameFrom, pq, tie, g', cameFrom', pq', tie', live', nbs, i + 1)
  {
  }

  /** Lower costs keep earlier relaxations valid. */
  lemma RelaxedMonotone(grid: Grid, g: map<Coord, nat>, g': map<Coord, nat>, done: set<Coord>)
    requires Relaxed(grid, g, done)
    requires forall k :: k in g ==> k in g' && g'[k] <= g[k]
    requires forall c :: c in done && c in g ==> g'[c] == g[c]
    ensures Relaxed(grid, g', done)
  {
  }

  /** The entries the relaxation loop in `Expand` appends while walking `nbs`
      with the tentative cost `cost`, judged against the costs `g` it started
      from: one per neighbour with no cost yet or a higher one, with priority
      `cost + h(nb)` and the next tie after `tie`. */
  function Relaxations(goal: Coord, nbs: seq<Coord>, g: map<Coord, nat>, cost: nat, tie: nat): (p: seq<Entry>)
    ensures |p| <= |nbs|
  {
    if nbs == [] then []
    else
      var p := Relaxations(goal, nbs[..|nbs| - 1], g, cost, tie);
      var nb := nbs[|nbs| - 1];
      if nb !in g || cost < g[nb] then p + [Entry(cost + Manhattan(nb, goal), tie + |p| + 1, nb)] else p
  }

  /** The `k`-th appended entry is for a neighbour in `nbs` that `cost`
      improves, priced `cost + h`, with tie `tie + k + 1`; every neighbour in
      `nbs` that `cost` improves gets an entry. */
  lemma {:induction false} RelaxationsEntries(goal: Coord, nbs: seq<Coord>, g: map<Coord, nat>, cost: nat, tie: nat)
    ensures forall k :: 0 <= k < |Relaxations(goal, nbs, g, cost, tie)| ==>
              var e := Relaxations(goal, nbs, g, cost, tie)[k];
              && e == Entry(cost + Manhattan(e.node, goal), tie + k + 1, e.node)
              && e.node in nbs && (e.node !in g || cost < g[e.node])
    ensures forall nb :: nb in nbs && (nb !in g || cost < g[nb]) ==>
              exists e :: e in Relaxations(goal, nbs, g, cost, tie) && e.node == nb
  {
    if nbs != [] {
      var init, last := nbs[..|nbs| - 1], nbs[|nbs| - 1];
      var p := Relaxations(goal, nbs, g, cost, tie);
      RelaxationsEntries(goal, init, g, cost, tie);
      assert nbs == init + [last];
      forall nb | nb in nbs && (nb !in g || cost < g[nb])
        ensures exists e :: e in p && e.node == nb
      {
        if nb in init {
          var e :| e in Relaxations(goal, init, g, cost, tie) && e.node == nb;
          assert e in p;
        } else {
          assert p[|p| - 1].node == nb;
        }
      }
    }
  }

  /** After the first `i` neighbours: the frontier is the old one followed by
      the entries `Relaxations` lists for them, the counter has advanced by
      their number, costs have only dropped, and only those neighbours have
      had their cost changed. */
  ghost predicate Appended(goal: Coord, nbs: seq<Coord>, i: nat, g: map<Coord, nat>, cost: nat, pq: seq<Entry>, tie: nat,
                           g': map<Coord, nat>, pq': seq<Entry>, tie': nat)
    requires i <= |nbs|
  {
    && pq' == pq + Relaxations(goal, nbs[..i], g, cost, tie)
    && tie' == tie + |Relaxations(goal, nbs[..i], g, cost, tie)|
    && (forall k :: k in g' && (k !in g || g'[k] < g[k]) ==> k in nbs[..i])
  }

  /** As `neighbors` repeats no cell, a neighbour the loop has not reached
      yet still has the cost the loop started from, so testing it against the
      updated costs is testing it against the original ones. */
  lemma SameTest(grid: Grid, current: Coord, g: map<Coord, nat>, g0: map<Coord, nat>, nbs: seq<Coord>, i: nat, cost: nat)
    requires nbs == NeighborsOf(grid, current) && i < |nbs|
    requires forall k :: k in g ==> k in g0 && g0[k] <= g[k]
    requires forall k :: k in g0 && (k !in g || g0[k] < g[k]) ==> k in nbs[..i]
    ensures (nbs[i] !in g0 || cost < g0[nbs[i]]) <==> (nbs[i] !in g || cost < g[nbs[i]])
  {
    NeighborsOfOrdered(grid, current);
    assert nbs[i] !in nbs[..i] by {
      forall j | 0 <= j < i ensures nbs[j] != nbs[i] {
        assert DirIndex(current, nbs[j]) < DirIndex(current, nbs[i]);
      }
    }
  }

  /** Looking at `nbs[i]`, lowering its cost to `cost` when that beats the
      updated costs, extends what has been appended as `Relaxations` says. */
  lemma AppendStep(grid: Grid, current: Coord, goal: Coord, nbs: seq<Coord>, i: nat, g: map<Coord, nat>, cost: nat,
                   pq: seq<Entry>, tie: nat, g0: map<Coord, nat>, pq0: seq<Entry>, tie0: nat,
                   g1: map<Coord, nat>, pq1: seq<Entry>, tie1: nat)
    requires nbs == NeighborsOf(grid, current) && i < |nbs| && Appended(goal, nbs, i, g, cost, pq, tie, g0, pq0, tie0)
    requires forall k :: k in g ==> k in g0 && g0[k] <= g[k]
    requires nbs[i] !in g0 || cost < g0[nbs[i]] ==>
               g1 == g0[nbs[i] := cost] && tie1 == tie0 + 1 && pq1 == pq0 + [Entry(cost + Manhattan(nbs[i], goal), tie1, nbs[i])]
    requires !(nbs[i] !in g0 || cost < g0[nbs[i]]) ==> g1 == g0 && pq1 == pq0 && tie1 == tie0
    ensures Appended(goal, nbs, i + 1, g, cost, pq, tie, g1, pq1, tie1)
  {
    SameTest(grid, current, g, g0, nbs, i, cost);
    assert nbs[..i + 1][..i] == nbs[..i];
    assert nbs[..i + 1] == nbs[..i] + [nbs[i]];
  }

  /** A pass of the relaxation loop in `Expand` over `nbs[i]`, which lowers
      its cost when `g[current] + 1` beats it and skips it otherwise, keeps
      the costs, predecessors and frontier consistent. */
  lemma RelaxLoopStep(grid: Grid, start: Coord, goal: Coord, current: Coord, closed: set<Coord>,
                  g: map<Coord, nat>, cameFrom: map<Coord, Coord>, pq: seq<Entry>, tie: nat,
                  g0: map<Coord, nat>, cameFrom0: map<Coord, Coord>, pq0: seq<Entry>, tie0: nat, live0: map<Coord, nat>,
                  g1: map<Coord, nat>, cameFrom1: map<Coord, Coord>, pq1: seq<Entry>, tie1: nat, live1: map<Coord, nat>,
                  nbs: seq<Coord>, i: nat, nb: Coord, cost: nat)
    requires current in closed && current in g && i < |nbs| && nb == nbs[i] && IsNeighbor(grid, current, nb)
    requires RelaxLoop(grid, start, goal, current, closed, g, cameFrom, pq, tie, g0, cameFrom0, pq0, tie0, live0, nbs, i)
    requires cost == g[current] + 1
    requires nb !in g0 || cost < g0[nb] ==>
               && g1 == g0[nb := cost] && cameFrom1 == cameFrom0[nb := current] && tie1 == tie0 + 1
               && pq1 == pq0 + [Entry(cost + Manhattan(nb, goal), tie1, nb)] && live1 == live0[nb := tie1]
    requires !(nb !in g0 || cost < g0[nb]) ==>
               g1 == g0 && cameFrom1 == cameFrom0 && pq1 == pq0 && tie1 == tie0 && live1 == live0
    ensures RelaxLoop(grid, start, goal, current, closed, g, cameFrom, pq, tie, g1, cameFrom1, pq1, tie1, live1, nbs, i + 1)
  {
    if nb !in g0 || cost < g0[nb] {
      RelaxOne(grid, start, goal, current, closed, g, cameFrom, pq, tie, g0, cameFrom0, pq0, tie0, live0, nbs, i, nb, cost);
    } else {
      SkipOne(grid, start, goal, current, closed, g, cameFrom, pq, tie, g0, cameFrom0, pq0, tie0, live0, nbs, i);
    }
  }

  /** One whole pass of the relaxation loop in `Expand` over `nbs[i]` keeps
      the loop invariant, and the frontier grows as `Relaxations` says. */
  lemma RelaxStep(grid: Grid, start: Coord, goal: Coord, current: Coord, closed: set<Coord>,
                  g: map<Coord, nat>, cameFrom: map<Coord, Coord>, pq: seq<Entry>, tie: nat,
                  g0: map<Coord, nat>, cameFrom0: map<Coord, Coord>, pq0: seq<Entry>, tie0: nat, live0: map<Coord, nat>,
                  g1: map<Coord, nat>, cameFrom1: map<Coord, Coord>, pq1: seq<Entry>, tie1: nat, live1: map<Coord, nat>,
                  nbs: seq<Coord>, i: nat, nb: Coord, cost: nat)
    requires current in closed && current in g && nbs == NeighborsOf(grid, current) && i < |nbs| && nb == nbs[i]
    requires RelaxLoop(grid, start, goal, current, closed, g, cameFrom, pq, tie, g0, cameFrom0, pq0, tie0, live0, nbs, i)
    requires Appended(goal, nbs, i, g, g[current] + 1, pq, tie, g0, pq0, tie0)
    requires current in g0 && cost == g0[current] + 1
    requires nb !in g0 || cost < g0[nb] ==>
               && g1 == g0[nb := cost] && cameFrom1 == cameFrom0[nb := current] && tie1 == tie0 + 1
               && pq1 == pq0 + [Entry(cost + Manhattan(nb, goal), tie1, nb)] && live1 == live0[nb := tie1]
    requires !(nb !in g0 || cost < g0[nb]) ==>
               g1 == g0 && cameFrom1 == cameFrom0 && pq1 == pq0 && tie1 == tie0 && live1 == live0
    ensures RelaxLoop(grid, start, goal, current, closed, g, cameFrom, pq, tie, g1, cameFrom1, pq1, tie1, live1, nbs, i + 1)
    ensures Appended(goal, nbs, i + 1, g, g[current] + 1, pq, tie, g1, pq1, tie1)
  {
    NeighborsOfExactly(grid, current, nb);
    RelaxLoopStep(grid, start, goal, current, closed, g, cameFrom, pq, tie, g0, cameFrom0, pq0, tie0, live0,
                  g1, cameFrom1, pq1, tie1, live1, nbs, i, nb, cost);
    AppendStep(grid, current, goal, nbs, i, g, cost, pq, tie, g0, pq0, tie0, g1, pq1, tie1);
  }

  /** The body of `for nb in neighbors(current, grid)`: a neighbour whose cost
      drops to g[current] + 1 gets that cost, `current` as predecessor and a
      new frontier entry, all at once; afterwards every neighbour of
      `current` is relaxed. */
  method Expand(grid: Grid, start: Coord, goal: Coord, current: Coord, closed: set<Coord>,
                g: map<Coord, nat>, cameFrom: map<Coord, Coord>, pq: seq<Entry>, tie: nat, ghost live: map<Coord, nat>)
    returns (g': map<Coord, nat>, cameFrom': map<Coord, Coord>, pq': seq<Entry>, tie': nat, ghost live': map<Coord, nat>)
    requires WideRows(grid) && current in closed
    requires Consistent(grid, start, goal, pq, tie, g, cameFrom, closed, live)
    requires Relaxed(grid, g, closed - {current})
    ensures Consistent(grid, start, goal, pq', tie', g', cameFrom', closed, live')
    ensures Relaxed(grid, g', closed)
    ensures Lowered(grid, current, closed, g, cameFrom, pq, tie, g', cameFrom', pq', tie')
    ensures pq' == pq + Relaxations(goal, NeighborsOf(grid, current), g, g[current] + 1, tie)
    ensures tie' == tie + |Relaxations(goal, NeighborsOf(grid, current), g, g[current] + 1, tie)|
  {
    var nbs := Neighbors(current, grid);
    g', cameFrom', pq', tie', live' := g, cameFrom, pq, tie, live;
    assert pq'[..|pq|] == pq;
    for i := 0 to |nbs|
      invariant RelaxLoop(grid, start, goal, current, closed, g, cameFrom, pq, tie, g', cameFrom', pq', tie', live', nbs, i)
      invariant Appended(goal, nbs, i, g, g[current] + 1, pq, tie, g', pq', tie')
    {
      var nb := nbs[i];
      var tentative := g'[current] + 1;
      ghost var g0, cameFrom0, pq0, tie0, live0 := g', cameFrom', pq', tie', live';
      if nb !in g' || tentative < g'[nb] {
        g' := g'[nb := tentative];
        cameFrom' := cameFrom'[nb := current];
        tie' := tie' + 1;
        pq' := pq' + [Entry(tentative + Manhattan(nb, goal), tie', nb)];
        live' := live'[nb := tie'];
      }
      RelaxStep(grid, start, goal, current, closed, g, cameFrom, pq, tie, g0, cameFrom0, pq0, tie0, live0,
                g', cameFrom', pq', tie', live', nbs, i, nb, tentative);
    }
    assert nbs[..|nbs|] == nbs;
    RelaxedAfterLoop(grid, current, closed, g, cameFrom, pq, tie, g', cameFrom', pq', tie', nbs);
  }

  /** Once every neighbour of `current` has been looked at, all of the closed set is relaxed. */
  lemma RelaxedAfterLoop(grid: Grid, current: Coord, closed: set<Coord>,
                         g: map<Coord, nat>, cameFrom: map<Coord, Coord>, pq: seq<Entry>, tie: nat,
                         g': map<Coord, nat>, cameFrom': map<Coord, Coord>, pq': seq<Entry>, tie': nat, nbs: seq<Coord>)
    requires current in closed && current in g && Relaxed(grid, g, closed - {current})
    requires Lowered(grid, current, closed, g, cameFrom, pq, tie, g', cameFrom', pq', tie')
    requires current in g' && g'[current] == g[current]
    requires nbs == NeighborsOf(grid, current)
    requires forall j :: 0 <= j < |nbs| ==> nbs[j] in g' && g'[nbs[j]] <= g[current] + 1
    ensures Relaxed(grid, g', closed)
  {
    RelaxedMonotone(grid, g, g', closed - {current});
    forall c, nb | c in closed && IsNeighbor(grid, c, nb)
      ensures c in g' && nb in g' && g'[nb] <= g'[c] + 1
    {
      if c == current {
        NeighborsOfExactly(grid, current, nb);
        var j :| 0 <= j < |nbs| && nbs[j] == nb;
      }
    }
  }

  /** `astar`. On success the path is a walk of legal moves from `start` to
      `goal` with no repeated cell, its cost is g[goal] = its number of
      moves, and no walk from `start` to `goal` is shorter. On failure the
      cost is infinite and the expanded cells are exactly those reachable
      from `start`, so the goal is not reachable. Either way `trace` lists the
      expansions: no cell is expanded twice and `expanded` counts them. */
  method AStarSearch(grid: Grid, start: Coord, goal: Coord) returns (r: SearchResult, ghost trace: seq<Coord>)
    requires WideRows(grid)
    ensures r.name == Name && Expansions(grid, start, r, trace)
    ensures r.path != [] ==> PathFound(grid, start, goal, r, trace) && Shortest(grid, start, goal, r.path)
    ensures r.path == [] ==> NoPath(grid, start, goal, r, trace)
  {
    var pq: seq<Entry> := [];
    var tie := 0;
    var g: map<Coord, nat> := map[start := 0];
    var cameFrom: map<Coord, Coord> := map[];
    pq := pq + [Entry(Manhattan(start, goal), tie, start)];
    var closed: set<Coord> := {};
    var expanded := 0;
    ghost var live: map<Coord, nat> := map[start := 0];
    trace := [];

    while |pq| > 0
      invariant Inv(grid, start, goal, pq, tie, g, cameFrom, closed, expanded, trace, live)
      decreases Cells(grid) + {start} - closed, |pq|
    {
      var e, rest := PopMin(pq);
      var current := e.node;
      if current in closed {
        DiscardKeepsInv(grid, start, goal, pq, tie, g, cameFrom, closed, expanded, trace, live, e, rest);
        pq := rest;
        continue;
      }
      VisitKeepsInv(grid, start, goal, pq, tie, g, cameFrom, closed, expanded, trace, live, e, rest, current);
      pq := rest;
      closed := closed + {current};
      expanded := expanded + 1;
      trace := trace + [current];

      if current == goal {
        var path := ReconstructPath(cameFrom, current, g);
        r := SearchResult(Name, path, Finite(g[current]), expanded);
        FoundResult(grid, start, goal, g, cameFrom, closed, expanded, trace, path, r);
        return;
      }

      g, cameFrom, pq, tie, live := Expand(grid, start, goal, current, closed, g, cameFrom, pq, tie, live);
    }

    r := SearchResult(Name, [], Infinite, expanded);
    ExhaustedIsReachable(grid, start, goal, g, cameFrom, closed, tie, live, expanded, trace, r);
  }

  /** Lazy deletion: discarding a popped entry for a closed cell keeps the loop invariant. */
  lemma DiscardKeepsInv(grid: Grid, start: Coord, goal: Coord, pq: seq<Entry>, tie: nat, g: map<Coord, nat>,
                        cameFrom: map<Coord, Coord>, closed: set<Coord>, expanded: nat, trace: seq<Coord>,
                        live: map<Coord, nat>, e: Entry, rest: seq<Entry>)
    requires Inv(grid, start, goal, pq, tie, g, cameFrom, closed, expanded, trace, live)
    requires e in pq && Removed(pq, e, rest)
    requires e.node in closed
    ensures Inv(grid, start, goal, rest, tie, g, cameFrom, closed, expanded, trace, live)
  {
    PopKeepsTies(pq, rest, e, tie);
    forall v | v in g && v !in closed ensures Live(goal, rest, live, v, g[v]) {
      PopKeeps(pq, rest, e, Entry(g[v] + Manhattan(v, goal), live[v], v));
    }
  }

  /** The path rebuilt from the goal once it is closed: a walk of legal moves
      from the start of g[goal] moves, and no walk
      from the start to the goal is shorter. */
  lemma GoalReached(grid: Grid, start: Coord, goal: Coord, g: map<Coord, nat>, cameFrom: map<Coord, Coord>,
                    closed: set<Coord>, path: seq<Coord>)
    requires CostsOk(grid, start, g, cameFrom, closed) && ClosedOptimal(grid, start, g, closed)
    requires goal in closed && IsChain(cameFrom, path) && path[|path| - 1] == goal
    ensures IsWalk(grid, path) && path[0] == start && g[goal] == |path| - 1
    ensures Shortest(grid, start, goal, path)
  {
    ChainCosts(grid, start, g, cameFrom, closed, path);
  }

  /** What `astar` returns once the goal is closed meets its success contract. */
  lemma FoundResult(grid: Grid, start: Coord, goal: Coord, g: map<Coord, nat>, cameFrom: map<Coord, Coord>,
                    closed: set<Coord>, expanded: nat, trace: seq<Coord>, path: seq<Coord>, r: SearchResult)
    requires CostsOk(grid, start, g, cameFrom, closed) && ClosedOptimal(grid, start, g, closed)
    requires Counted(start, closed, expanded, trace) && |trace| > 0
    requires trace[|trace| - 1] == goal && goal !in trace[..|trace| - 1]
    requires IsChain(cameFrom, path) && path[|path| - 1] == goal && Distinct(path)
    requires r == SearchResult(Name, path, Finite(g[goal]), expanded)
    ensures r.path != [] && Expansions(grid, start, r, trace)
    ensures PathFound(grid, start, goal, r, trace) && Shortest(grid, start, goal, r.path)
  {
    assert goal in closed;
    GoalReached(grid, start, goal, g, cameFrom, closed, path);
    forall v | v in trace ensures Reachable(grid, start, v) {
      RankedAreReachable(grid, cameFrom, g, start, v);
    }
  }

  /** Closing the popped cell: its cost is optimal, it is counted once, and
      everything but its own relaxation holds of the new state. */
  lemma VisitKeepsInv(grid: Grid, start: Coord, goal: Coord, pq: seq<Entry>, tie: nat, g: map<Coord, nat>,
                      cameFrom: map<Coord, Coord>, closed: set<Coord>, expanded: nat, trace: seq<Coord>,
                      live: map<Coord, nat>, e: Entry, rest: seq<Entry>, current: Coord)
    requires Inv(grid, start, goal, pq, tie, g, cameFrom, closed, expanded, trace, live)
    requires e in pq && (forall x :: x in pq ==> KeyLe(e, x)) && Removed(pq, e, rest)
    requires current == e.node && current !in closed
    ensures Cells(grid) + {start} - (closed + {current}) < Cells(grid) + {start} - closed
    ensures Consistent(grid, start, goal, rest, tie, g, cameFrom, closed + {current}, live)
    ensures Relaxed(grid, g, closed + {current} - {current})
    ensures Counted(start, closed + {current}, expanded + 1, trace + [current])
    ensures (trace + [current])[..|trace|] == trace && current !in trace
    ensures Ranked(cameFrom, g) && current in g
  {
    ShrinkRemaining(grid, start, closed, current);
    PoppedOptimal(grid, start, goal, pq, tie, g, cameFrom, closed, live, e);
    VisitKeepsFrontier(goal, pq, tie, g, closed, live, e, rest);
    if closed == {} {
      assert e == pq[0];
    }
    VisitKeepsCounted(start, closed, expanded, trace, current);
    assert closed + {current} - {current} == closed;
  }

  /** Closing the popped cell keeps the frontier consistent with the rest of the queue. */
  lemma VisitKeepsFrontier(goal: Coord, pq: seq<Entry>, tie: nat, g: map<Coord, nat>, closed: set<Coord>,
                           live: map<Coord, nat>, e: Entry, rest: seq<Entry>)
    requires FrontierOk(goal, pq, tie, g, closed, live)
    requires Removed(pq, e, rest)
    ensures FrontierOk(goal, rest, tie, g, closed + {e.node}, live)
  {
    PopKeepsTies(pq, rest, e, tie);
    forall v | v in g && v !in closed + {e.node} ensures Live(goal, rest, live, v, g[v]) {
      PopKeeps(pq, rest, e, Entry(g[v] + Manhattan(v, goal), live[v], v));
    }
  }

  /** Appending a newly closed cell to the trace keeps the count. */
  lemma VisitKeepsCounted(start: Coord, closed: set<Coord>, expanded: nat, trace: seq<Coord>, current: Coord)
    requires Counted(start, closed, expanded, trace)
    requires current !in closed && (closed == {} ==> current == start)
    ensures Counted(start, closed + {current}, expanded + 1, trace + [current])
    ensures (trace + [current])[..|trace|] == trace && current !in trace
  {
    var trace' := trace + [current];
    assert forall i :: 0 <= i < |trace| ==> trace'[i] == trace[i];
    DistinctSnoc(trace, current);
  }

  /** When the frontier runs dry every recorded cell is closed, the closed set
      is closed under moves and contains the start, and so it is exactly the
      set of cells reachable from the start. */
  lemma ExhaustedIsReachable(grid: Grid, start: Coord, goal: Coord, g: map<Coord, nat>, cameFrom: map<Coord, Coord>,
                             closed: set<Coord>, tie: nat, live: map<Coord, nat>, expanded: nat, trace: seq<Coord>,
                             r: SearchResult)
    requires Inv(grid, start, goal, [], tie, g, cameFrom, closed, expanded, trace, live)
    requires r == SearchResult(Name, [], Infinite, expanded)
    ensures Expansions(grid, start, r, trace) && NoPath(grid, start, goal, r, trace)
  {
    assert forall v :: v in g ==> v in closed;
    assert start in closed;
    assert Ranked(cameFrom, g);
    forall v ensures v in trace <==> Reachable(grid, start, v) {
      if v in trace {
        RankedAreReachable(grid, cameFrom, g, start, v);
      }
      if Reachable(grid, start, v) {
        ReachableInside(grid, closed, start, v);
      }
    }
  }
}

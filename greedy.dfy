/** Greedy Best-First Search (`greedy_best_first`, busquedaHeuristica.py
    lines 40-70): the frontier is ordered by the Manhattan distance to the
    goal alone, and a cell's predecessor is the cell that discovered it first. */
module Greedy {
  import opened Grid
  import opened Frontier
  import opened Paths
  import opened Results

  const Name: string := "Greedy Best-First"

  /** `v` has an entry in the frontier, the one whose tie `live` remembers. */
  ghost predicate Waiting(goal: Coord, pq: seq<Entry>, live: map<Coord, nat>, v: Coord)
  {
    v in live && Entry(Manhattan(v, goal), live[v], v) in pq
  }

  /** Pushing `nb` with tie `t` makes it wait, and keeps every cell that waited before waiting. */
  lemma PushWaiting(goal: Coord, pq: seq<Entry>, live: map<Coord, nat>, nb: Coord, t: nat)
    ensures Waiting(goal, pq + [Entry(Manhattan(nb, goal), t, nb)], live[nb := t], nb)
    ensures forall v :: Waiting(goal, pq, live, v) ==> Waiting(goal, pq + [Entry(Manhattan(nb, goal), t, nb)], live[nb := t], v)
  {
    var pq' := pq + [Entry(Manhattan(nb, goal), t, nb)];
    assert pq'[|pq|] == Entry(Manhattan(nb, goal), t, nb);
    forall v | Waiting(goal, pq, live, v) && v != nb
      ensures Waiting(goal, pq', live[nb := t], v)
    {
      var j :| 0 <= j < |pq| && pq[j] == Entry(Manhattan(v, goal), live[v], v);
      assert pq'[j] == pq[j];
    }
  }

  /** Frontier entries: fresh ties, heuristic priorities, nodes that are the
      start or were discovered (and so have a predecessor), inside the grid. */
  ghost predicate FrontierOk(grid: Grid, start: Coord, goal: Coord, pq: seq<Entry>, tie: nat, cameFrom: map<Coord, Coord>)
  {
    && TiesBelow(pq, tie)
    && forall e {:trigger e in pq} :: e in pq ==>
         && e.priority == Manhattan(e.node, goal)
         && e.node in Cells(grid) + {start}
         && (e.node == start || e.node in cameFrom)
  }

  /** The predecessor map: never an entry for the start, every predecessor
      already visited and one move away. */
  ghost predicate LinksOk(grid: Grid, start: Coord, cameFrom: map<Coord, Coord>, visited: set<Coord>)
  {
    && start !in cameFrom
    && LinksAreMoves(grid, cameFrom)
    && forall k :: k in cameFrom ==> cameFrom[k] in visited
  }

  /** Every free neighbour of a visited cell outside `pending` is visited or
      waiting in the frontier. */
  ghost predicate Discovered(grid: Grid, goal: Coord, pq: seq<Entry>, live: map<Coord, nat>, visited: set<Coord>, pending: set<Coord>)
  {
    forall v, nb {:trigger IsNeighbor(grid, v, nb)} :: v in visited && v !in pending && IsNeighbor(grid, v, nb) ==> nb in visited || Waiting(goal, pq, live, nb)
  }

  /** `trace` lists the expanded cells in order and `rank` gives each one's
      position: the expansion counter is the size of the visited set. */
  ghost predicate Order(start: Coord, cameFrom: map<Coord, Coord>, visited: set<Coord>, expanded: nat, trace: seq<Coord>, rank: map<Coord, nat>)
  {
    && rank.Keys == visited
    && expanded == |visited| == |trace|
    && (|trace| > 0 ==> trace[0] == start)
    && (forall v :: v in rank ==> rank[v] < |trace| && trace[rank[v]] == v)
    && (forall i :: 0 <= i < |trace| ==> trace[i] in rank && rank[trace[i]] == i)
    && (forall k :: k in cameFrom && k in visited ==> cameFrom[k] in rank && rank[cameFrom[k]] < rank[k])
  }

  /** What holds at the head of the `while pq` loop. */
  ghost predicate Inv(grid: Grid, start: Coord, goal: Coord, pq: seq<Entry>, tie: nat, cameFrom: map<Coord, Coord>,
                      visited: set<Coord>, expanded: nat, trace: seq<Coord>, rank: map<Coord, nat>, live: map<Coord, nat>)
  {
    && FrontierOk(grid, start, goal, pq, tie, cameFrom)
    && LinksOk(grid, start, cameFrom, visited)
    && visited <= Cells(grid) + {start}
    && (forall v {:trigger v in visited, v in cameFrom} :: v in visited && v !in cameFrom ==> v == start)
    && (visited == {} ==> pq == [Entry(Manhattan(start, goal), 0, start)])
    && (visited != {} ==> start in visited)
    && goal !in visited
    && Order(start, cameFrom, visited, expanded, trace, rank)
    && Discovered(grid, goal, pq, live, visited, {})
  }

  /** A predecessor, once recorded, is never overwritten; new predecessors
      point at `current` and are recorded for unvisited neighbours only. */
  ghost predicate Extends(grid: Grid, current: Coord, visited: set<Coord>,
                          cameFrom: map<Coord, Coord>, cameFrom': map<Coord, Coord>)
  {
    && (forall k :: k in cameFrom ==> k in cameFrom' && cameFrom'[k] == cameFrom[k])
    && (forall k :: k in cameFrom' && k !in cameFrom ==>
          cameFrom'[k] == current && IsNeighbor(grid, current, k) && k !in visited)
  }

  /** The frontier only grows, by entries for unvisited neighbours of
      `current` with fresh ties. */
  ghost predicate Grows(grid: Grid, current: Coord, visited: set<Coord>, pq: seq<Entry>, tie: nat, pq': seq<Entry>, tie': nat)
  {
    && tie' >= tie && |pq'| >= |pq| && pq'[..|pq|] == pq
    && (forall j :: |pq| <= j < |pq'| ==>
          pq'[j].tie > tie && pq'[j].node !in visited && IsNeighbor(grid, current, pq'[j].node))
  }

  /** The first `i` neighbours in `nbs` are visited or waiting, and every cell
      that waited before still waits. */
  ghost predicate Seen(goal: Coord, visited: set<Coord>, pq: seq<Entry>, live: map<Coord, nat>,
                       pq': seq<Entry>, live': map<Coord, nat>, nbs: seq<Coord>, i: nat)
    requires i <= |nbs|
  {
    && (forall v :: Waiting(goal, pq, live, v) ==> Waiting(goal, pq', live', v))
    && (forall j :: 0 <= j < i ==> nbs[j] in visited || Waiting(goal, pq', live', nbs[j]))
  }

  /** The invariant of the loop in `Expand` after the first `i` neighbours in `nbs`. */
  ghost predicate PushLoop(grid: Grid, start: Coord, goal: Coord, current: Coord, visited: set<Coord>,
                           cameFrom: map<Coord, Coord>, pq: seq<Entry>, tie: nat, live: map<Coord, nat>,
                           cameFrom': map<Coord, Coord>, pq': seq<Entry>, tie': nat, live': map<Coord, nat>,
                           nbs: seq<Coord>, i: nat)
    requires i <= |nbs|
  {
    && FrontierOk(grid, start, goal, pq', tie', cameFrom')
    && LinksOk(grid, start, cameFrom', visited)
    && Extends(grid, current, visited, cameFrom, cameFrom')
    && Grows(grid, current, visited, pq, tie, pq', tie')
    && Seen(goal, visited, pq, live, pq', live', nbs, i)
  }

  /** Pushing `nb` with a fresh tie keeps the frontier consistent with a map
      of predecessors that has gained `nb`. */
  lemma PushFrontier(grid: Grid, start: Coord, goal: Coord, pq: seq<Entry>, tie: nat,
                     cameFrom: map<Coord, Coord>, cameFrom': map<Coord, Coord>, nb: Coord)
    requires FrontierOk(grid, start, goal, pq, tie, cameFrom)
    requires (forall k :: k in cameFrom ==> k in cameFrom') && nb in cameFrom' && InBounds(grid, nb)
    ensures FrontierOk(grid, start, goal, pq + [Entry(Manhattan(nb, goal), tie + 1, nb)], tie + 1, cameFrom')
  {
    var entry := Entry(Manhattan(nb, goal), tie + 1, nb);
    var pq' := pq + [entry];
    InBoundsInCells(grid, nb);
    assert forall x :: x in pq ==> x.tie < entry.tie;
    forall x | x in pq' ensures x == entry || x in pq {
      var j :| 0 <= j < |pq'| && pq'[j] == x;
      if j < |pq| {
        assert pq[j] == x;
      }
    }
  }

  /** Recording `current` as the predecessor of an unvisited neighbour that
      has none keeps the links valid. */
  lemma PushLinks(grid: Grid, start: Coord, current: Coord, visited: set<Coord>,
                  cameFrom: map<Coord, Coord>, cameFrom': map<Coord, Coord>, cameFrom'': map<Coord, Coord>, nb: Coord)
    requires LinksOk(grid, start, cameFrom', visited) && Extends(grid, current, visited, cameFrom, cameFrom')
    requires current in visited && start in visited && nb !in visited && IsNeighbor(grid, current, nb)
    requires cameFrom'' == if nb in cameFrom' then cameFrom' else cameFrom'[nb := current]
    ensures LinksOk(grid, start, cameFrom'', visited) && Extends(grid, current, visited, cameFrom, cameFrom'')
  {
  }

  /** Appending an entry for an unvisited neighbour with a fresh tie keeps the frontier growing as promised. */
  lemma PushGrows(grid: Grid, current: Coord, visited: set<Coord>, pq: seq<Entry>, tie: nat, pq': seq<Entry>, tie': nat,
                  e: Entry)
    requires Grows(grid, current, visited, pq, tie, pq', tie')
    requires e.tie == tie' + 1 && e.node !in visited && IsNeighbor(grid, current, e.node)
    ensures Grows(grid, current, visited, pq, tie, pq' + [e], tie' + 1)
  {
    assert (pq' + [e])[..|pq|] == pq'[..|pq|];
  }

  /** After pushing `nbs[i]` the first `i + 1` neighbours are visited or waiting. */
  lemma PushSeen(goal: Coord, visited: set<Coord>, pq: seq<Entry>, live: map<Coord, nat>,
                 pq': seq<Entry>, live': map<Coord, nat>, nbs: seq<Coord>, i: nat, t: nat)
    requires i < |nbs| && Seen(goal, visited, pq, live, pq', live', nbs, i)
    ensures Seen(goal, visited, pq, live, pq' + [Entry(Manhattan(nbs[i], goal), t, nbs[i])], live'[nbs[i] := t], nbs, i + 1)
  {
    var nb := nbs[i];
    var pq'', live'' := pq' + [Entry(Manhattan(nb, goal), t, nb)], live'[nb := t];
    PushWaiting(goal, pq', live', nb, t);
    forall j | 0 <= j < i + 1 && nbs[j] !in visited
      ensures Waiting(goal, pq'', live'', nbs[j])
    {
      if j < i {
        assert Waiting(goal, pq', live', nbs[j]);
      }
    }
  }

  /** One pass of the loop in `Expand` that pushes the unvisited neighbour
      `nbs[i]`, recording `current` as its predecessor if it has none. */
  lemma PushOne(grid: Grid, start: Coord, goal: Coord, current: Coord, visited: set<Coord>,
                cameFrom: map<Coord, Coord>, pq: seq<Entry>, tie: nat, live: map<Coord, nat>,
                cameFrom0: map<Coord, Coord>, pq0: seq<Entry>, tie0: nat, live0: map<Coord, nat>,
                cameFrom1: map<Coord, Coord>, pq1: seq<Entry>, tie1: nat, live1: map<Coord, nat>,
                nbs: seq<Coord>, i: nat, nb: Coord)
    requires i < |nbs| && nb == nbs[i] && current in visited && start in visited
    requires IsNeighbor(grid, current, nb) && nb !in visited
    requires PushLoop(grid, start, goal, current, visited, cameFrom, pq, tie, live, cameFrom0, pq0, tie0, live0, nbs, i)
    requires cameFrom1 == if nb in cameFrom0 then cameFrom0 else cameFrom0[nb := current]
    requires tie1 == tie0 + 1 && pq1 == pq0 + [Entry(Manhattan(nb, goal), tie1, nb)] && live1 == live0[nb := tie1]
    ensures PushLoop(grid, start, goal, current, visited, cameFrom, pq, tie, live, cameFrom1, pq1, tie1, live1, nbs, i + 1)
  {
    PushFrontier(grid, start, goal, pq0, tie0, cameFrom0, cameFrom1, nb);
    PushLinks(grid, start, current, visited, cameFrom, cameFrom0, cameFrom1, nb);
    PushGrows(grid, current, visited, pq, tie, pq0, tie0, Entry(Manhattan(nb, goal), tie1, nb));
    PushSeen(goal, visited, pq, live, pq0, live0, nbs, i, tie1);
  }

  /** A pass of the loop in `Expand` that skips the visited neighbour `nbs[i]`. */
  lemma SkipOne(grid: Grid, start: Coord, goal: Coord, current: Coord, visited: set<Coord>,
                cameFrom: map<Coord, Coord>, pq: seq<Entry>, tie: nat, live: map<Coord, nat>,
                cameFrom': map<Coord, Coord>, pq': seq<Entry>, tie': nat, live': map<Coord, nat>,
                nbs: seq<Coord>, i: nat)
    requires i < |nbs| && nbs[i] in visited
    requires PushLoop(grid, start, goal, current, visited, cameFrom, pq, tie, live, cameFrom', pq', tie', live', nbs, i)
    ensures PushLoop(grid, start, goal, current, visited, cameFrom, pq, tie, live, cameFrom', pq', tie', live', nbs, i + 1)
  {
  }

  /** A pass of the loop in `Expand` over `nbs[i]`, which skips it when
      visited and pushes it otherwise, keeps the loop invariant, and the
      entries appended so far are those `Pushes` lists. */
  lemma LookAt(grid: Grid, start: Coord, goal: Coord, current: Coord, visited: set<Coord>,
               cameFrom: map<Coord, Coord>, pq: seq<Entry>, tie: nat, live: map<Coord, nat>,
               cameFrom0: map<Coord, Coord>, pq0: seq<Entry>, tie0: nat, live0: map<Coord, nat>,
               cameFrom1: map<Coord, Coord>, pq1: seq<Entry>, tie1: nat, live1: map<Coord, nat>,
               nbs: seq<Coord>, i: nat, nb: Coord)
    requires i < |nbs| && nb == nbs[i] && current in visited && start in visited && IsNeighbor(grid, current, nb)
    requires PushLoop(grid, start, goal, current, visited, cameFrom, pq, tie, live, cameFrom0, pq0, tie0, live0, nbs, i)
    requires pq0 == pq + Pushes(goal, nbs[..i], visited, tie) && tie0 == tie + |Pushes(goal, nbs[..i], visited, tie)|
    requires nb in visited ==> cameFrom1 == cameFrom0 && pq1 == pq0 && tie1 == tie0 && live1 == live0
    requires nb !in visited ==>
               && cameFrom1 == (if nb in cameFrom0 then cameFrom0 else cameFrom0[nb := current])
               && tie1 == tie0 + 1 && pq1 == pq0 + [Entry(Manhattan(nb, goal), tie1, nb)] && live1 == live0[nb := tie1]
    ensures PushLoop(grid, start, goal, current, visited, cameFrom, pq, tie, live, cameFrom1, pq1, tie1, live1, nbs, i + 1)
    ensures pq1 == pq + Pushes(goal, nbs[..i + 1], visited, tie) && tie1 == tie + |Pushes(goal, nbs[..i + 1], visited, tie)|
  {
    if nb in visited {
      SkipOne(grid, start, goal, current, visited, cameFrom, pq, tie, live, cameFrom0, pq0, tie0, live0, nbs, i);
    } else {
      PushOne(grid, start, goal, current, visited, cameFrom, pq, tie, live, cameFrom0, pq0, tie0, live0,
              cameFrom1, pq1, tie1, live1, nbs, i, nb);
    }
    PushesStep(goal, nbs, i, visited, tie, pq, pq0, tie0, pq1, tie1);
  }

  /** Once every neighbour of `current` has been looked at, every free
      neighbour of a visited cell is visited or waiting again. */
  lemma DiscoveredAfterLoop(grid: Grid, start: Coord, goal: Coord, current: Coord, visited: set<Coord>,
                            pq: seq<Entry>, live: map<Coord, nat>, pq': seq<Entry>, tie': nat,
                            cameFrom': map<Coord, Coord>, live': map<Coord, nat>, nbs: seq<Coord>)
    requires Discovered(grid, goal, pq, live, visited, {current})
    requires forall v :: Waiting(goal, pq, live, v) ==> Waiting(goal, pq', live', v)
    requires nbs == NeighborsOf(grid, current)
    requires forall j :: 0 <= j < |nbs| ==> nbs[j] in visited || Waiting(goal, pq', live', nbs[j])
    requires FrontierOk(grid, start, goal, pq', tie', cameFrom') && start in visited
    ensures Discovered(grid, goal, pq', live', visited, {})
    ensures forall nb :: IsNeighbor(grid, current, nb) && nb !in visited ==> nb in cameFrom'
  {
    forall v, nb | v in visited && IsNeighbor(grid, v, nb)
      ensures nb in visited || Waiting(goal, pq', live', nb)
    {
      if v == current {
        NeighborsOfExactly(grid, current, nb);
        var j :| 0 <= j < |nbs| && nbs[j] == nb;
      }
    }
    forall nb | IsNeighbor(grid, current, nb) && nb !in visited
      ensures nb in cameFrom'
    {
      NeighborsOfExactly(grid, current, nb);
      var j :| 0 <= j < |nbs| && nbs[j] == nb;
      assert Entry(Manhattan(nb, goal), live'[nb], nb) in pq';
    }
  }

  /** The entries the loop in `Expand` appends while walking `nbs`, in order:
      one per unvisited neighbour, with its heuristic priority and the next
      tie after `tie`. */
  function Pushes(goal: Coord, nbs: seq<Coord>, visited: set<Coord>, tie: nat): (p: seq<Entry>)
    ensures |p| <= |nbs|
  {
    if nbs == [] then []
    else
      var p := Pushes(goal, nbs[..|nbs| - 1], visited, tie);
      var nb := nbs[|nbs| - 1];
      if nb in visited then p else p + [Entry(Manhattan(nb, goal), tie + |p| + 1, nb)]
  }

  /** The `k`-th pushed entry is an unvisited neighbour from `nbs` with its
      heuristic priority and tie `tie + k + 1`, and every unvisited
      neighbour in `nbs` is pushed. */
  lemma {:induction false} PushesEntries(goal: Coord, nbs: seq<Coord>, visited: set<Coord>, tie: nat)
    ensures forall k :: 0 <= k < |Pushes(goal, nbs, visited, tie)| ==>
              var e := Pushes(goal, nbs, visited, tie)[k];
              e == Entry(Manhattan(e.node, goal), tie + k + 1, e.node) && e.node in nbs && e.node !in visited
    ensures forall nb :: nb in nbs && nb !in visited ==> exists e :: e in Pushes(goal, nbs, visited, tie) && e.node == nb
  {
    if nbs != [] {
      var init := nbs[..|nbs| - 1];
      PushesEntries(goal, init, visited, tie);
      assert nbs == init + [nbs[|nbs| - 1]];
    }
  }

  /** Looking at `nbs[i]` extends the appended entries as `Pushes` says. */
  lemma PushesStep(goal: Coord, nbs: seq<Coord>, i: nat, visited: set<Coord>, tie: nat,
                   pq: seq<Entry>, pq0: seq<Entry>, tie0: nat, pq1: seq<Entry>, tie1: nat)
    requires i < |nbs|
    requires pq0 == pq + Pushes(goal, nbs[..i], visited, tie) && tie0 == tie + |Pushes(goal, nbs[..i], visited, tie)|
    requires if nbs[i] in visited then pq1 == pq0 && tie1 == tie0
             else tie1 == tie0 + 1 && pq1 == pq0 + [Entry(Manhattan(nbs[i], goal), tie1, nbs[i])]
    ensures pq1 == pq + Pushes(goal, nbs[..i + 1], visited, tie) && tie1 == tie + |Pushes(goal, nbs[..i + 1], visited, tie)|
  {
    assert nbs[..i + 1][..i] == nbs[..i];
  }

  /** The body of `for nb in neighbors(current, grid)`: every neighbour not yet
      visited is pushed with its heuristic priority, and gets `current` as its
      predecessor only if it has none yet. */
  method Expand(grid: Grid, start: Coord, goal: Coord, current: Coord, visited: set<Coord>,
                cameFrom: map<Coord, Coord>, pq: seq<Entry>, tie: nat, ghost live: map<Coord, nat>)
    returns (cameFrom': map<Coord, Coord>, pq': seq<Entry>, tie': nat, ghost live': map<Coord, nat>)
    requires WideRows(grid)
    requires current in visited && start in visited
    requires FrontierOk(grid, start, goal, pq, tie, cameFrom)
    requires LinksOk(grid, start, cameFrom, visited)
    requires Discovered(grid, goal, pq, live, visited, {current})
    ensures FrontierOk(grid, start, goal, pq', tie', cameFrom')
    ensures LinksOk(grid, start, cameFrom', visited)
    ensures Discovered(grid, goal, pq', live', visited, {})
    ensures Extends(grid, current, visited, cameFrom, cameFrom')
    ensures Grows(grid, current, visited, pq, tie, pq', tie')
    ensures pq' == pq + Pushes(goal, NeighborsOf(grid, current), visited, tie)
    ensures tie' == tie + |Pushes(goal, NeighborsOf(grid, current), visited, tie)|
    ensures forall nb :: IsNeighbor(grid, current, nb) && nb !in visited ==> nb in cameFrom'
  {
    var nbs := Neighbors(current, grid);
    cameFrom', pq', tie', live' := cameFrom, pq, tie, live;
    assert pq'[..|pq|] == pq;
    for i := 0 to |nbs|
      invariant PushLoop(grid, start, goal, current, visited, cameFrom, pq, tie, live, cameFrom', pq', tie', live', nbs, i)
      invariant pq' == pq + Pushes(goal, nbs[..i], visited, tie) && tie' == tie + |Pushes(goal, nbs[..i], visited, tie)|
    {
      var nb := nbs[i];
      NeighborsOfExactly(grid, current, nb);
      ghost var cameFrom0, pq0, tie0, live0 := cameFrom', pq', tie', live';
      if nb !in visited {
        if nb !in cameFrom' {
          cameFrom' := cameFrom'[nb := current];
        }
        tie' := tie' + 1;
        pq' := pq' + [Entry(Manhattan(nb, goal), tie', nb)];
        live' := live'[nb := tie'];
      }
      LookAt(grid, start, goal, current, visited, cameFrom, pq, tie, live, cameFrom0, pq0, tie0, live0,
             cameFrom', pq', tie', live', nbs, i, nb);
    }
    assert nbs[..|nbs|] == nbs;
    DiscoveredAfterLoop(grid, start, goal, current, visited, pq, live, pq', tie', cameFrom', live', nbs);
  }

  /** Lazy deletion: discarding a popped entry for a visited cell keeps the loop invariant. */
  lemma DiscardKeepsInv(grid: Grid, start: Coord, goal: Coord, pq: seq<Entry>, tie: nat, cameFrom: map<Coord, Coord>,
                        visited: set<Coord>, expanded: nat, trace: seq<Coord>, rank: map<Coord, nat>, live: map<Coord, nat>,
                        e: Entry, rest: seq<Entry>)
    requires Inv(grid, start, goal, pq, tie, cameFrom, visited, expanded, trace, rank, live)
    requires e in pq && Removed(pq, e, rest)
    requires e.node in visited
    ensures Inv(grid, start, goal, rest, tie, cameFrom, visited, expanded, trace, rank, live)
  {
    PopKeepsTies(pq, rest, e, tie);
    forall v, nb | v in visited && IsNeighbor(grid, v, nb) && nb !in visited
      ensures Waiting(goal, rest, live, nb)
    {
      PopKeeps(pq, rest, e, Entry(Manhattan(nb, goal), live[nb], nb));
    }
  }

  /** Visiting the popped cell: the invariant holds of the new state except
      that the cell's own neighbours are not pushed yet. */
  lemma VisitKeepsInv(grid: Grid, start: Coord, goal: Coord, pq: seq<Entry>, tie: nat, cameFrom: map<Coord, Coord>,
                      visited: set<Coord>, expanded: nat, trace: seq<Coord>, rank: map<Coord, nat>, live: map<Coord, nat>,
                      e: Entry, rest: seq<Entry>, current: Coord)
    requires Inv(grid, start, goal, pq, tie, cameFrom, visited, expanded, trace, rank, live)
    requires e in pq && Removed(pq, e, rest)
    requires current == e.node && current !in visited
    ensures Cells(grid) + {start} - (visited + {current}) < Cells(grid) + {start} - visited
    ensures FrontierOk(grid, start, goal, rest, tie, cameFrom)
    ensures LinksOk(grid, start, cameFrom, visited + {current})
    ensures visited + {current} <= Cells(grid) + {start}
    ensures forall v :: v in visited + {current} ==> v == start || v in cameFrom
    ensures start in visited + {current}
    ensures Order(start, cameFrom, visited + {current}, expanded + 1, trace + [current], rank[current := expanded])
    ensures (trace + [current])[..|trace|] == trace && current !in trace
    ensures Discovered(grid, goal, rest, live, visited + {current}, {current})
  {
    ShrinkRemaining(grid, start, visited, current);
    PopKeepsTies(pq, rest, e, tie);
    PopKeepsDiscovered(grid, goal, pq, live, visited, e, rest, current);
    if visited == {} {
      assert e == Entry(Manhattan(start, goal), 0, start);
    }
    VisitKeepsOrder(start, cameFrom, visited, expanded, trace, rank, current);
  }

  /** Removing `current`'s entry leaves every other discovered cell waiting. */
  lemma PopKeepsDiscovered(grid: Grid, goal: Coord, pq: seq<Entry>, live: map<Coord, nat>, visited: set<Coord>,
                           e: Entry, rest: seq<Entry>, current: Coord)
    requires Discovered(grid, goal, pq, live, visited, {})
    requires Removed(pq, e, rest) && current == e.node
    ensures Discovered(grid, goal, rest, live, visited + {current}, {current})
  {
    forall v, nb | v in visited && IsNeighbor(grid, v, nb) && nb !in visited && nb != current
      ensures Waiting(goal, rest, live, nb)
    {
      PopKeeps(pq, rest, e, Entry(Manhattan(nb, goal), live[nb], nb));
    }
  }

  /** Appending a newly visited cell to the expansion order. */
  lemma VisitKeepsOrder(start: Coord, cameFrom: map<Coord, Coord>, visited: set<Coord>, expanded: nat,
                        trace: seq<Coord>, rank: map<Coord, nat>, current: Coord)
    requires Order(start, cameFrom, visited, expanded, trace, rank)
    requires current !in visited && (visited == {} ==> current == start)
    requires forall k :: k in cameFrom ==> cameFrom[k] in visited
    ensures Order(start, cameFrom, visited + {current}, expanded + 1, trace + [current], rank[current := expanded])
  {
    var trace', rank' := trace + [current], rank[current := expanded];
    AppendRanks(trace, rank, current, trace', rank');
    AppendLinks(cameFrom, visited, rank, current, expanded, rank');
    assert |visited + {current}| == |visited| + 1;
  }

  /** `rank` stays the inverse of `trace` when a new cell is appended. */
  lemma AppendRanks(trace: seq<Coord>, rank: map<Coord, nat>, current: Coord, trace': seq<Coord>, rank': map<Coord, nat>)
    requires forall v :: v in rank ==> rank[v] < |trace| && trace[rank[v]] == v
    requires forall i :: 0 <= i < |trace| ==> trace[i] in rank && rank[trace[i]] == i
    requires current !in rank && trace' == trace + [current] && rank' == rank[current := |trace|]
    ensures forall v :: v in rank' ==> rank'[v] < |trace'| && trace'[rank'[v]] == v
    ensures forall i :: 0 <= i < |trace'| ==> trace'[i] in rank' && rank'[trace'[i]] == i
  {
    assert forall i :: 0 <= i < |trace| ==> trace'[i] == trace[i];
  }

  /** Predecessors keep ranking below their successors when a new cell is
      visited after all of them. */
  lemma AppendLinks(cameFrom: map<Coord, Coord>, visited: set<Coord>, rank: map<Coord, nat>, current: Coord, n: nat,
                    rank': map<Coord, nat>)
    requires rank.Keys == visited && (forall v :: v in rank ==> rank[v] < n) && current !in visited
    requires forall k :: k in cameFrom && k in visited ==> cameFrom[k] in rank && rank[cameFrom[k]] < rank[k]
    requires forall k :: k in cameFrom ==> cameFrom[k] in visited
    requires rank' == rank[current := n]
    ensures forall k :: k in cameFrom && k in visited + {current} ==> cameFrom[k] in rank' && rank'[cameFrom[k]] < rank'[k]
  {
  }

  /** After the neighbours are pushed the full invariant holds again. */
  lemma ExpandKeepsInv(grid: Grid, start: Coord, goal: Coord, current: Coord, pq: seq<Entry>, tie: nat,
                       cameFrom: map<Coord, Coord>, cameFrom': map<Coord, Coord>,
                       visited: set<Coord>, expanded: nat, trace: seq<Coord>, rank: map<Coord, nat>, live: map<Coord, nat>)
    requires FrontierOk(grid, start, goal, pq, tie, cameFrom')
    requires LinksOk(grid, start, cameFrom', visited)
    requires visited <= Cells(grid) + {start}
    requires forall v :: v in visited ==> v == start || v in cameFrom
    requires start in visited && current in visited && goal !in visited
    requires Order(start, cameFrom, visited, expanded, trace, rank)
    requires Discovered(grid, goal, pq, live, visited, {})
    requires Extends(grid, current, visited, cameFrom, cameFrom')
    ensures Inv(grid, start, goal, pq, tie, cameFrom', visited, expanded, trace, rank, live)
  {
  }

  /** `greedy_best_first`. On success the path is a walk of legal moves from
      `start` to `goal` with no repeated cell and the cost is its number of
      moves; on failure the cost is infinite and the expanded cells are exactly
      those reachable from `start`, so the goal is not reachable. Either way
      `trace` lists the expansions: no cell is expanded twice and `expanded`
      counts them. */
  method GreedyBestFirst(grid: Grid, start: Coord, goal: Coord) returns (r: SearchResult, ghost trace: seq<Coord>)
    requires WideRows(grid)
    ensures r.name == Name && Expansions(grid, start, r, trace)
    ensures r.path != [] ==> PathFound(grid, start, goal, r, trace)
    ensures r.path == [] ==> NoPath(grid, start, goal, r, trace)
  {
    var pq: seq<Entry> := [];
    var tie := 0;
    pq := pq + [Entry(Manhattan(start, goal), tie, start)];
    var cameFrom: map<Coord, Coord> := map[];
    var visited: set<Coord> := {};
    var expanded := 0;
    ghost var rank: map<Coord, nat> := map[];
    ghost var live: map<Coord, nat> := map[];
    trace := [];

    while |pq| > 0
      invariant Inv(grid, start, goal, pq, tie, cameFrom, visited, expanded, trace, rank, live)
      decreases Cells(grid) + {start} - visited, |pq|
    {
      var e, rest := PopMin(pq);
      var current := e.node;
      if current in visited {
        DiscardKeepsInv(grid, start, goal, pq, tie, cameFrom, visited, expanded, trace, rank, live, e, rest);
        pq := rest;
        continue;
      }
      VisitKeepsInv(grid, start, goal, pq, tie, cameFrom, visited, expanded, trace, rank, live, e, rest, current);
      pq := rest;
      visited := visited + {current};
      rank := rank[current := expanded];
      expanded := expanded + 1;
      trace := trace + [current];

      if current == goal {
        var path := ReconstructPath(cameFrom, current, rank);
        r := SearchResult(Name, path, Finite(|path| - 1), expanded);
        FoundResult(grid, start, goal, cameFrom, visited, expanded, trace, rank, path, r);
        return;
      }

      ghost var cameFromBefore := cameFrom;
      cameFrom, pq, tie, live := Expand(grid, start, goal, current, visited, cameFrom, pq, tie, live);
      ExpandKeepsInv(grid, start, goal, current, pq, tie, cameFromBefore, cameFrom, visited, expanded, trace, rank, live);
    }

    r := SearchResult(Name, [], Infinite, expanded);
    ExhaustedIsReachable(grid, start, goal, tie, cameFrom, visited, expanded, trace, rank, live, r);
  }

  /** What `greedy_best_first` returns once the goal is visited meets its success contract. */
  lemma FoundResult(grid: Grid, start: Coord, goal: Coord, cameFrom: map<Coord, Coord>, visited: set<Coord>,
                    expanded: nat, trace: seq<Coord>, rank: map<Coord, nat>, path: seq<Coord>, r: SearchResult)
    requires LinksOk(grid, start, cameFrom, visited)
    requires forall v :: v in visited ==> v == start || v in cameFrom
    requires Order(start, cameFrom, visited, expanded, trace, rank)
    requires |trace| > 0 && trace[|trace| - 1] == goal && goal !in trace[..|trace| - 1]
    requires IsChain(cameFrom, path) && path[|path| - 1] == goal && Distinct(path)
    requires forall k :: 0 <= k < |path| ==> path[k] in rank
    requires r == SearchResult(Name, path, Finite(|path| - 1), expanded)
    ensures r.path != [] && Expansions(grid, start, r, trace) && PathFound(grid, start, goal, r, trace)
  {
    ChainIsWalk(grid, cameFrom, path);
    IndexedDistinct(trace, rank);
    assert path[0] in rank;
    forall v | v in trace ensures Reachable(grid, start, v) {
      RankedAreReachable(grid, cameFrom, rank, start, v);
    }
  }

  /** When the frontier runs dry the visited set contains the start and no
      move leaves it, and every visited cell was reached from the start by
      legal moves: the visited cells are exactly the reachable ones. */
  lemma ExhaustedIsReachable(grid: Grid, start: Coord, goal: Coord, tie: nat, cameFrom: map<Coord, Coord>,
                             visited: set<Coord>, expanded: nat, trace: seq<Coord>, rank: map<Coord, nat>, live: map<Coord, nat>,
                             r: SearchResult)
    requires Inv(grid, start, goal, [], tie, cameFrom, visited, expanded, trace, rank, live)
    requires r == SearchResult(Name, [], Infinite, expanded)
    ensures Expansions(grid, start, r, trace) && NoPath(grid, start, goal, r, trace)
  {
    IndexedDistinct(trace, rank);
    assert start in visited;
    forall v ensures v in trace <==> Reachable(grid, start, v) {
      if v in trace {
        RankedAreReachable(grid, cameFrom, rank, start, v);
      }
      if Reachable(grid, start, v) {
        ReachableInside(grid, visited, start, v);
      }
    }
  }
}

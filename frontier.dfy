/** The priority frontier shared by both searches: a list of entries
    (priority, tie, node) from which the entry with the smallest
    (priority, tie) pair is taken (`heapq.heappush` / `heapq.heappop`,
    busquedaHeuristica.py lines 42-50 and 74-83). The binary-heap layout is
    abstracted away: pushing appends and popping scans for the minimum. */
module Frontier {
  import opened Grid

  datatype Entry = Entry(priority: int, tie: nat, node: Coord)

  /** Tuple order on (priority, tie). */
  predicate KeyLe(a: Entry, b: Entry)
  {
    a.priority < b.priority || (a.priority == b.priority && a.tie <= b.tie)
  }

  /** The counter hands out a fresh tie to every push, so no two entries share one. */
  predicate DistinctTies(pq: seq<Entry>)
  {
    forall i, j :: 0 <= i < j < |pq| ==> pq[i].tie != pq[j].tie
  }

  /** Every tie in the frontier was handed out by a counter now at `tie`. */
  predicate TiesBelow(pq: seq<Entry>, tie: nat)
  {
    DistinctTies(pq) && forall e {:trigger e in pq} :: e in pq ==> e.tie <= tie
  }

  /** `rest` is `pq` with the entry `e` at some position `m` taken out. */
  predicate Removed(pq: seq<Entry>, e: Entry, rest: seq<Entry>)
  {
    exists m :: 0 <= m < |pq| && pq[m] == e && rest == pq[..m] + pq[m + 1..]
  }

  /** `heappop`: remove and return an entry whose key is the smallest; the
      other entries stay, each as often as before. */
  method PopMin(pq: seq<Entry>) returns (e: Entry, rest: seq<Entry>)
    requires |pq| > 0
    ensures e in pq
    ensures forall x :: x in pq ==> KeyLe(e, x)
    ensures multiset(rest) + multiset{e} == multiset(pq)
    ensures Removed(pq, e, rest) && |rest| == |pq| - 1
  {
    var m := 0;
    var i := 1;
    while i < |pq|
      invariant 0 <= m < i <= |pq|
      invariant forall j :: 0 <= j < i ==> KeyLe(pq[m], pq[j])
    {
      if !KeyLe(pq[m], pq[i]) {
        m := i;
      }
      i := i + 1;
    }
    e := pq[m];
    rest := pq[..m] + pq[m + 1..];
    assert pq == pq[..m] + [e] + pq[m + 1..];
    forall x | x in pq ensures KeyLe(e, x) {
      var j :| 0 <= j < |pq| && pq[j] == x;
    }
  }

  /** With distinct ties the minimum is unique, so the order in which nodes
      leave the frontier is fully determined by its contents. */
  lemma MinUnique(pq: seq<Entry>, a: Entry, b: Entry)
    requires DistinctTies(pq)
    requires a in pq && forall x :: x in pq ==> KeyLe(a, x)
    requires b in pq && forall x :: x in pq ==> KeyLe(b, x)
    ensures a == b
  {
    var i :| 0 <= i < |pq| && pq[i] == a;
    var j :| 0 <= j < |pq| && pq[j] == b;
    assert KeyLe(a, b) && KeyLe(b, a);
    assert i == j;
  }

  /** Where each entry of `rest` sits in `pq`. */
  lemma RemovedIndices(pq: seq<Entry>, e: Entry, rest: seq<Entry>) returns (m: nat)
    requires Removed(pq, e, rest)
    ensures m < |pq| && pq[m] == e && |rest| == |pq| - 1
    ensures forall k :: 0 <= k < |rest| ==> rest[k] == if k < m then pq[k] else pq[k + 1]
  {
    m :| 0 <= m < |pq| && pq[m] == e && rest == pq[..m] + pq[m + 1..];
  }

  /** Removing one entry keeps every other entry. */
  lemma PopKeeps(pq: seq<Entry>, rest: seq<Entry>, e: Entry, x: Entry)
    requires Removed(pq, e, rest)
    requires x in pq && x != e
    ensures x in rest
  {
    var m := RemovedIndices(pq, e, rest);
    var k :| 0 <= k < |pq| && pq[k] == x;
    if k < m {
      assert rest[k] == x;
    } else {
      assert rest[k - 1] == x;
    }
  }

  /** Removing an entry keeps the ties distinct and bounded, and adds nothing. */
  lemma PopKeepsTies(pq: seq<Entry>, rest: seq<Entry>, e: Entry, tie: nat)
    requires Removed(pq, e, rest)
    requires TiesBelow(pq, tie)
    ensures TiesBelow(rest, tie)
    ensures forall x :: x in rest ==> x in pq
  {
    var m := RemovedIndices(pq, e, rest);
    forall x | x in rest ensures x in pq {
      var k :| 0 <= k < |rest| && rest[k] == x;
      if k < m {
        assert pq[k] == x;
      } else {
        assert pq[k + 1] == x;
      }
    }
    forall i, j | 0 <= i < j < |rest| ensures rest[i].tie != rest[j].tie {
      var i' := if i < m then i else i + 1;
      var j' := if j < m then j else j + 1;
      assert rest[i] == pq[i'] && rest[j] == pq[j'] && i' < j';
    }
  }
}

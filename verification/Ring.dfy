/**
 The pointer ring that a latency run chases.

 Memory is a sequence indexed by byte offset from the start of the region: the cell at
 offset `o` is what an aligned-or-not 64-bit load at `o` sees. A 64-bit store covers eight
 bytes, so it tears every word that overlaps it without coinciding with it.
 */
module Ring {
  import opened Arith
  import opened Wrappers

  // What a 64-bit load finds: the zero the region starts with, a pointer to an offset of
  // the region, or a word partly overwritten by a store at another offset.
  datatype Cell = Null | Ptr(offset: nat) | Torn

  const WORD: nat := 8

  // The words at offsets a and b share a byte.
  predicate Overlap(a: nat, b: nat) {
    a < b + WORD && b < a + WORD
  }

  function Store(m: seq<Cell>, o: nat, target: nat): (r: seq<Cell>)
    requires o + WORD <= |m|
  {
    seq(|m|, k requires 0 <= k < |m| =>
      if k == o then Ptr(target) else if Overlap(k, o) then Torn else m[k])
  }

  // Every node is a whole word of the first `limit` bytes.
  predicate Inside(order: seq<nat>, limit: nat) {
    forall k :: 0 <= k < |order| ==> order[k] + WORD <= limit
  }

  // And no two nodes share a byte.
  predicate Spaced(order: seq<nat>, limit: nat) {
    && Inside(order, limit)
    && (forall j, k {:trigger Overlap(order[j], order[k])} ::
         0 <= j < k < |order| ==> !Overlap(order[j], order[k]))
  }

  // The index after k - 1 in a circular list of n entries.
  function Wrap(k: int, n: int): int {
    if k == n then 0 else k
  }

  // Memory after the first `done` links of the circular list `order` have been stored.
  function Link(m: seq<Cell>, order: seq<nat>, done: nat): (r: seq<Cell>)
    requires Inside(order, |m|) && done <= |order|
    ensures |r| == |m|
  {
    if done == 0 then m
    else Store(Link(m, order, done - 1), order[done - 1], order[Wrap(done, |order|)])
  }

  // Node k of the order points to the next one around the ring.
  ghost predicate Points(m: seq<Cell>, order: seq<nat>, k: int)
    requires 0 <= k < |order| && Inside(order, |m|)
  {
    m[order[k]] == Ptr(order[Wrap(k + 1, |order|)])
  }

  // Following the pointers of m from offset 0 runs once through `order` and closes.
  ghost predicate IsRing(m: seq<Cell>, order: seq<nat>) {
    && 0 < |order| && order[0] == 0
    && Distinct(order) && Inside(order, |m|)
    && forall k {:trigger Points(m, order, k)} :: 0 <= k < |order| ==> Points(m, order, k)
  }

  // k dependent loads from p; None when a load leaves the region or finds no pointer.
  function Chase(m: seq<Cell>, p: nat, k: nat): Option<nat> {
    if k == 0 then Some(p)
    else
      var q := Chase(m, p, k - 1);
      if q.Some? && q.value + WORD <= |m| && m[q.value].Ptr? then Some(m[q.value].offset) else None
  }

  // Storing never disturbs a word it does not overlap.
  lemma {:induction false} LinkFrame(m: seq<Cell>, order: seq<nat>, done: nat, o: nat)
    requires Inside(order, |m|) && done <= |order| && o < |m|
    requires forall k :: 0 <= k < done ==> !Overlap(o, order[k])
    ensures Link(m, order, done)[o] == m[o]
  {
    if done > 0 {
      LinkFrame(m, order, done - 1, o);
      assert !Overlap(o, order[done - 1]);
    }
  }

  lemma {:induction false} LinkedNode(m: seq<Cell>, order: seq<nat>, done: nat, k: nat)
    requires Spaced(order, |m|) && k < done <= |order|
    ensures Points(Link(m, order, done), order, k)
  {
    if k < done - 1 {
      LinkedNode(m, order, done - 1, k);
      assert !Overlap(order[k], order[done - 1]);
    }
  }

  lemma SpacedDistinct(order: seq<nat>, limit: nat)
    requires Spaced(order, limit)
    ensures Distinct(order)
  {
    forall j, k | 0 <= j < k < |order|
      ensures order[j] != order[k]
    {
      assert !Overlap(order[j], order[k]);
    }
  }

  // A word once torn stays torn while no link is stored at exactly its offset.
  lemma {:induction false} TornStays(m: seq<Cell>, order: seq<nat>, k: nat, done: nat, o: nat)
    requires Inside(order, |m|) && k < done <= |order| && o < |m|
    requires Overlap(o, order[k]) && forall i :: k <= i < done ==> order[i] != o
    ensures Link(m, order, done)[o] == Torn
  {
    if k < done - 1 {
      TornStays(m, order, k, done - 1, o);
    }
  }

  // A complete linking of nodes that share no byte is a ring, whatever the memory held before.
  lemma LinkMakesRing(m: seq<Cell>, order: seq<nat>)
    requires Spaced(order, |m|) && 0 < |order| && order[0] == 0
    ensures IsRing(Link(m, order, |order|), order)
  {
    SpacedDistinct(order, |m|);
    forall k | 0 <= k < |order|
      ensures Points(Link(m, order, |order|), order, k)
    {
      LinkedNode(m, order, |order|, k);
    }
  }

  lemma TornIsNoRing(m: seq<Cell>, order: seq<nat>, j: nat, k: nat)
    requires Inside(order, |m|) && Distinct(order) && j < k < |order| && Overlap(order[j], order[k])
    ensures !IsRing(Link(m, order, |order|), order)
  {
    TornStays(m, order, k, |order|, order[j]);
    assert !Points(Link(m, order, |order|), order, j);
  }

  // And of distinct nodes, it is a ring exactly when they share no byte.
  lemma LinkIsRingIff(m: seq<Cell>, order: seq<nat>)
    requires Inside(order, |m|) && Distinct(order) && 0 < |order| && order[0] == 0
    ensures IsRing(Link(m, order, |order|), order) <==> Spaced(order, |m|)
  {
    if Spaced(order, |m|) {
      LinkMakesRing(m, order);
    } else {
      var j, k :| 0 <= j < k < |order| && Overlap(order[j], order[k]);
      TornIsNoRing(m, order, j, k);
    }
  }

  // Chasing a ring from its a-th node: hop k lands on node a + k, counted around the ring.
  lemma {:induction false} ChaseAround(m: seq<Cell>, order: seq<nat>, a: nat, k: nat)
    requires IsRing(m, order) && a < |order|
    ensures Chase(m, order[a], k) == Some(order[(a + k) % |order|])
  {
    var n := |order|;
    if k == 0 {
      DivModUnique(0, a, a, n);
    } else {
      ChaseAround(m, order, a, k - 1);
      var at := (a + (k - 1)) % n;
      NextMod(a + (k - 1), n);
      assert Chase(m, order[a], k - 1) == Some(order[at]);
      assert Points(m, order, at);
    }
  }

  lemma {:induction false} ChaseSplit(m: seq<Cell>, p: nat, j: nat, k: nat)
    requires Chase(m, p, j).Some?
    ensures Chase(m, p, j + k) == Chase(m, Chase(m, p, j).value, k)
  {
    if k > 0 {
      ChaseSplit(m, p, j, k - 1);
    }
  }

  // Any |order| consecutive hops visit pairwise distinct nodes.
  lemma HopsDistinct(m: seq<Cell>, order: seq<nat>, i: nat, j: nat)
    requires IsRing(m, order) && i < j < i + |order|
    ensures Chase(m, 0, i) != Chase(m, 0, j)
  {
    var n := |order|;
    ChaseAround(m, order, 0, i);
    ChaseAround(m, order, 0, j);
    ModApart(i, j, n);
  }

  // Offset 0 recurs after |order| hops and not sooner.
  lemma FirstReturn(m: seq<Cell>, order: seq<nat>)
    requires IsRing(m, order)
    ensures Chase(m, 0, |order|) == Some(0)
    ensures forall k :: 0 < k < |order| ==> Chase(m, 0, k) != Some(0)
  {
    ChaseAround(m, order, 0, |order|);
    assert Chase(m, 0, 0) == Some(0);
    forall k | 0 < k < |order|
      ensures Chase(m, 0, k) != Some(0)
    {
      HopsDistinct(m, order, 0, k);
    }
  }

  lemma ChaseWithinLap(m: seq<Cell>, order: seq<nat>, k: nat)
    requires IsRing(m, order) && k < |order|
    ensures Chase(m, 0, k) == Some(order[k])
  {
    ChaseAround(m, order, 0, k);
    DivModUnique(0, k, k, |order|);
  }

  lemma RingNotLonger(m: seq<Cell>, o1: seq<nat>, o2: seq<nat>)
    requires IsRing(m, o1) && IsRing(m, o2)
    ensures |o1| <= |o2|
  {
    FirstReturn(m, o1);
    FirstReturn(m, o2);
  }

  // Memory determines the ring: a region cannot be read as two different rings.
  lemma RingUnique(m: seq<Cell>, o1: seq<nat>, o2: seq<nat>)
    requires IsRing(m, o1) && IsRing(m, o2)
    ensures o1 == o2
  {
    RingNotLonger(m, o1, o2);
    RingNotLonger(m, o2, o1);
    forall k | 0 <= k < |o1|
      ensures o1[k] == o2[k]
    {
      ChaseWithinLap(m, o1, k);
      ChaseWithinLap(m, o2, k);
    }
  }
}

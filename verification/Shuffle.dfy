/**
 The order in which a randomised layout links its nodes: a Fisher-Yates shuffle driven by
 an arbitrary stream of draws, followed by moving offset 0 to the front.
 */
module Shuffle {
  import opened Arith
  import opened Wrappers

  // The successive results of rand(): any stream of non-negative numbers.
  type Stream = nat -> nat

  const UINT32: nat := 0x1_0000_0000
  const UINT64: nat := 0x1_0000_0000_0000_0000

  function Sequential(n: nat, unit: nat): seq<nat> {
    seq(n, i requires 0 <= i < n => i * unit)
  }

  function Swap(s: seq<nat>, i: nat, j: nat): seq<nat>
    requires i < |s| && j < |s|
  {
    s[j := s[i]][i := s[j]]
  }

  // Bitwise exclusive or.
  function Xor(a: nat, b: nat): nat {
    if a == 0 then b
    else if b == 0 then a
    else (a % 2 + b % 2) % 2 + 2 * Xor(a / 2, b / 2)
  }

  // A 64-bit shift to the left drops the bits it moves out.
  function ShiftLeft(x: nat, factor: nat): nat {
    (x * factor) % UINT64
  }

  function Seed(rand: Stream): nat {
    Xor(rand(0), ShiftLeft(rand(1), 1024))
  }

  function Mix(r: nat, draw: nat): nat {
    Xor(ShiftLeft(r, 2), draw)
  }

  // r % (i + 1) of the shuffle.
  function Pick(r: nat, bound: nat): (j: nat)
    requires bound > 0
    ensures j < bound
  {
    r % bound
  }

  // Positions i, i-1, ..., 1 are each swapped with a drawn position not above them.
  function SwapDown(s: seq<nat>, i: nat, r: nat, rand: Stream, t: nat): (p: seq<nat>)
    requires i < |s|
    ensures |p| == |s|
    decreases i
  {
    if i == 0 then s
    else
      var r' := Mix(r, rand(t));
      SwapDown(Swap(s, i, Pick(r', i + 1)), i - 1, r', rand, t + 1)
  }

  // The first position at or after i that holds 0, or |s|.
  function ZeroFrom(s: seq<nat>, i: nat): (z: nat)
    requires i <= |s|
    ensures i <= z <= |s|
    ensures z < |s| ==> s[z] == 0
    ensures forall k :: i <= k < z ==> s[k] != 0
    decreases |s| - i
  {
    if i == |s| || s[i] == 0 then i else ZeroFrom(s, i + 1)
  }

  function StartFirst(s: seq<nat>): seq<nat>
    requires 0 < |s|
  {
    var z := ZeroFrom(s, 1);
    if z == |s| then s else s[z := s[0]][0 := 0]
  }

  function Shuffled(n: nat, unit: nat, rand: Stream): (p: seq<nat>)
    requires 0 < n
    ensures |p| == n
  {
    SwapDown(Sequential(n, unit), n - 1, Seed(rand), rand, 2)
  }

  function RandomOrder(n: nat, unit: nat, rand: Stream): (p: seq<nat>)
    requires 0 < n
    ensures |p| == n
  {
    StartFirst(Shuffled(n, unit, rand))
  }

  ghost predicate IsMultiple(x: nat, n: nat, unit: nat) {
    exists q :: 0 <= q < n && x == q * unit
  }

  ghost predicate Lists(s: seq<nat>, q: nat, unit: nat) {
    q * unit in s
  }

  // s lists 0, unit, ..., (n-1)*unit, each exactly once, with 0 first.
  ghost predicate StartsAndCovers(s: seq<nat>, n: nat, unit: nat) {
    && |s| == n && 0 < n && s[0] == 0
    && Distinct(s)
    && (forall q: nat {:trigger Lists(s, q, unit)} :: q < n ==> Lists(s, q, unit))
    && (forall k :: 0 <= k < n ==> IsMultiple(s[k], n, unit))
  }

  lemma SwapIsPermutation(s: seq<nat>, i: nat, j: nat)
    requires i < |s| && j < |s|
    ensures multiset(Swap(s, i, j)) == multiset(s)
  {
  }

  lemma {:induction false} SwapDownIsPermutation(s: seq<nat>, i: nat, r: nat, rand: Stream, t: nat)
    requires i < |s|
    ensures multiset(SwapDown(s, i, r, rand, t)) == multiset(s)
    decreases i
  {
    if i > 0 {
      var r' := Mix(r, rand(t));
      var j := Pick(r', i + 1);
      SwapIsPermutation(s, i, j);
      SwapDownIsPermutation(Swap(s, i, j), i - 1, r', rand, t + 1);
    }
  }

  lemma SequentialDistinct(n: nat, unit: nat)
    requires 0 < unit
    ensures Distinct(Sequential(n, unit))
  {
    forall j, k | 0 <= j < k < n
      ensures j * unit != k * unit
    {
      MulMono(unit, j + 1, k);
    }
  }

  lemma SamePermutationCovers(p: seq<nat>, n: nat, unit: nat)
    requires 0 < n && 0 < unit && |p| == n && p[0] == 0
    requires multiset(p) == multiset(Sequential(n, unit))
    ensures StartsAndCovers(p, n, unit)
  {
    var base := Sequential(n, unit);
    SequentialDistinct(n, unit);
    PermutationOfDistinct(p, base);
    forall q: nat | q < n
      ensures Lists(p, q, unit)
    {
      assert base[q] in multiset(base);
      assert base[q] in multiset(p);
    }
    forall k | 0 <= k < n
      ensures IsMultiple(p[k], n, unit)
    {
      assert p[k] in multiset(p);
      var q :| 0 <= q < n && base[q] == p[k];
    }
  }

  lemma StartFirstIsPermutation(s: seq<nat>)
    requires 0 in s
    ensures multiset(StartFirst(s)) == multiset(s)
    ensures StartFirst(s)[0] == 0
  {
    var z := ZeroFrom(s, 1);
    if z < |s| {
      SwapIsPermutation(s, 0, z);
    }
  }

  lemma ShuffledIsPermutation(n: nat, unit: nat, rand: Stream)
    requires 0 < n
    ensures multiset(Shuffled(n, unit, rand)) == multiset(Sequential(n, unit))
    ensures 0 in Shuffled(n, unit, rand)
    ensures 0 < unit ==> Distinct(Shuffled(n, unit, rand))
  {
    var base, s := Sequential(n, unit), Shuffled(n, unit, rand);
    SwapDownIsPermutation(base, n - 1, Seed(rand), rand, 2);
    assert base[0] == 0;
    assert 0 in multiset(s);
    if 0 < unit {
      SequentialDistinct(n, unit);
      PermutationOfDistinct(s, base);
    }
  }

  // Whatever the draws, the order lists every unit exactly once and starts at 0.
  lemma RandomOrderCovers(n: nat, unit: nat, rand: Stream)
    requires 0 < n && 0 < unit
    ensures StartsAndCovers(RandomOrder(n, unit, rand), n, unit)
  {
    ShuffledIsPermutation(n, unit, rand);
    StartFirstIsPermutation(Shuffled(n, unit, rand));
    SamePermutationCovers(RandomOrder(n, unit, rand), n, unit);
  }

  // The position the 32-bit scan for the zero looks at on its t-th step.
  function ScanIndex(t: nat): nat {
    (1 + t) % UINT32
  }

  ghost predicate ScanStops(s: seq<nat>, t: nat) {
    ScanIndex(t) >= |s| || s[ScanIndex(t)] == 0
  }

  ghost predicate ScanEnds(s: seq<nat>) {
    exists t: nat :: ScanStops(s, t)
  }

  // The scan index is 32 bits wide while the size is 64: on longer sequences the scan ends
  // exactly when the zero is below the index's range.
  lemma ScanEndsIff(s: seq<nat>, z: nat)
    requires z < |s| && s[z] == 0 && Distinct(s)
    ensures ScanEnds(s) <==> |s| <= UINT32 || z < UINT32
  {
    if |s| < UINT32 {
      var t := |s| - 1;
      assert ScanIndex(t) == |s|;
      assert ScanStops(s, t);
    } else if z < UINT32 {
      var t := if z == 0 then UINT32 - 1 else z - 1;
      assert ScanIndex(t) == z;
      assert ScanStops(s, t);
    } else {
      forall t: nat
        ensures !ScanStops(s, t)
      {
        assert ScanIndex(t) != z;
      }
    }
  }

  // The first swap reduces by i + 1, where i is the size less one, both on 64 bits: the
  // divisor is zero exactly when there is nothing to shuffle.
  function FirstDivisor(n: nat): nat {
    ((n + UINT64 - 1) % UINT64 + 1) % UINT64
  }

  lemma FirstDivisorIff(n: nat)
    requires n < UINT64
    ensures FirstDivisor(n) == 0 <==> n == 0
  {
    DivModUnique(if n == 0 then 0 else 1, if n == 0 then UINT64 - 1 else n - 1, n + UINT64 - 1, UINT64);
  }

  // What the shuffling form of the routine needs in order to end. Up to 2^32 entries any
  // stream will do.
  ghost predicate ShuffleEnds(n: nat, unit: nat, rand: Stream)
    requires 0 < n
  {
    n <= UINT32 || (0 < unit && ScanEnds(Shuffled(n, unit, rand)))
  }

  // Where the scan is when it has met no zero below 2^32.
  lemma ScanComesBack(s: seq<nat>)
    requires 0 in s && (|s| <= UINT32 || (Distinct(s) && ScanEnds(s)))
    ensures ZeroFrom(s, 1) < UINT32 || (ZeroFrom(s, 1) == |s| && s[0] == 0)
  {
    if |s| > UINT32 {
      var z :| 0 <= z < |s| && s[z] == 0;
      ScanEndsIff(s, z);
    }
  }

  // The three loops of randomizeSequence_, then the whole.

  method FillSequential(sequence: array<nat>, unit: nat)
    modifies sequence
    ensures sequence[..] == Sequential(sequence.Length, unit)
  {
    var i := 0;
    while i < sequence.Length
      invariant 0 <= i <= sequence.Length
      invariant forall k :: 0 <= k < i ==> sequence[k] == k * unit
    {
      sequence[i] := i * unit;
      i := i + 1;
    }
  }

  lemma SwapDownStep(s: seq<nat>, i: nat, r: nat, rand: Stream, t: nat)
    requires 0 < i < |s|
    ensures var r' := Mix(r, rand(t));
            SwapDown(s, i, r, rand, t) == SwapDown(Swap(s, i, Pick(r', i + 1)), i - 1, r', rand, t + 1)
  {
  }

  method SwapAt(sequence: array<nat>, i: nat, j: nat)
    requires i < sequence.Length && j < sequence.Length
    modifies sequence
    ensures sequence[..] == Swap(old(sequence[..]), i, j)
  {
    var tmp := sequence[j];
    sequence[j] := sequence[i];
    sequence[i] := tmp;
  }

  method SwapAll(sequence: array<nat>, rand: Stream)
    requires 0 < sequence.Length
    modifies sequence
    ensures sequence[..] == SwapDown(old(sequence[..]), sequence.Length - 1, Seed(rand), rand, 2)
  {
    var r, next := Seed(rand), 2;
    var i := sequence.Length - 1;
    ghost var whole := SwapDown(sequence[..], i, r, rand, next);
    while i > 0
      invariant 0 <= i < sequence.Length
      invariant SwapDown(sequence[..], i, r, rand, next) == whole
    {
      SwapDownStep(sequence[..], i, r, rand, next);
      r := Mix(r, rand(next));
      next := next + 1;
      SwapAt(sequence, i, Pick(r, i + 1));
      i := i - 1;
    }
  }

  // The scan index wraps at 2^32 and then comes back to 0.
  method MoveZeroFirst(sequence: array<nat>)
    requires 0 in sequence[..]
    requires sequence.Length <= UINT32 || (Distinct(sequence[..]) && ScanEnds(sequence[..]))
    modifies sequence
    ensures sequence[..] == StartFirst(old(sequence[..]))
  {
    var size := sequence.Length;
    ghost var s := sequence[..];
    ghost var z := ZeroFrom(s, 1);
    ScanComesBack(s);
    var i := 1;
    while i < size
      invariant 0 <= i < UINT32 && sequence[..] == s
      invariant if i == 0 then z == size && s[0] == 0 else i <= z
      decreases if i == 0 then 0 else UINT32 - i
    {
      if sequence[i] == 0 {
        sequence[i] := sequence[0];
        sequence[0] := 0;
        break;
      }
      i := if i + 1 == UINT32 then 0 else i + 1;
    }
    assert sequence[..] == StartFirst(s);
  }

  method RandomizeSequence(sequence: array<nat>, size: nat, unit: nat, inOrder: bool, rand: Stream)
    requires sequence.Length == size
    requires !inOrder ==> 1 <= size && ShuffleEnds(size, unit, rand)
    modifies sequence
    ensures sequence[..] == if inOrder then Sequential(size, unit) else RandomOrder(size, unit, rand)
  {
    FillSequential(sequence, unit);
    if inOrder {
      return;
    }
    SwapAll(sequence, rand);
    ShuffledIsPermutation(size, unit, rand);
    MoveZeroFirst(sequence);
  }
}

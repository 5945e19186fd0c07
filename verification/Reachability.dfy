/**
 The shuffle can produce every order: no layout that starts at offset 0 is excluded by the
 way the draws are mixed, reduced and swapped. Draws are those rand() can return, 31 bits.
 */
module Reachability {
  import opened Arith
  import opened Shuffle
  import opened Wrappers
  import opened Layouts

  const DRAW: nat := 0x8000_0000

  ghost predicate Draws(rand: Stream) {
    forall t :: rand(t) < DRAW
  }

  lemma XorHalves(a: nat, b: nat)
    ensures Xor(a, b) / 2 == Xor(a / 2, b / 2)
    ensures Xor(a, b) % 2 == (a % 2 + b % 2) % 2
  {
  }

  // The bit of x of weight 2^i.
  function Bit(x: nat, i: nat): nat {
    if i == 0 then x % 2 else Bit(x / 2, i - 1)
  }

  // Exclusive or is bit by bit.
  lemma {:induction false} XorBits(a: nat, b: nat, i: nat)
    ensures Bit(Xor(a, b), i) == (Bit(a, i) + Bit(b, i)) % 2
    decreases i
  {
    XorHalves(a, b);
    if i > 0 {
      XorBits(a / 2, b / 2, i - 1);
    }
  }

  lemma {:induction false} ShiftedBits(x: nat, k: nat, i: nat)
    ensures Bit(x * Pow2(k), i) == if i < k then 0 else Bit(x, i - k)
    decreases i
  {
    if k > 0 {
      var half := x * Pow2(k - 1);
      assert x * Pow2(k) == 2 * half by {
        var w := Pow2(k - 1);
        assert x * (2 * w) == 2 * (x * w);
      }
      if i > 0 {
        ShiftedBits(x, k - 1, i - 1);
      }
    }
  }

  // Cutting to the low k bits keeps them and clears the others.
  lemma {:induction false} CutBits(x: nat, k: nat, i: nat)
    ensures Bit(x % Pow2(k), i) == if i < k then Bit(x, i) else 0
    decreases k
  {
    if k == 0 {
      ZeroBits(i);
    } else {
      CutHalves(x, Pow2(k - 1));
      if i > 0 {
        CutBits(x / 2, k - 1, i - 1);
      }
    }
  }

  lemma {:induction false} ZeroBits(i: nat)
    ensures Bit(0, i) == 0
  {
    if i > 0 {
      ZeroBits(i - 1);
    }
  }

  lemma CutHalves(x: nat, w: nat)
    requires 0 < w
    ensures (x % (2 * w)) % 2 == x % 2 && (x % (2 * w)) / 2 == (x / 2) % w
  {
    var q, r := x / 2 / w, x / 2 % w;
    assert x / 2 == w * q + r;
    assert x == (2 * w) * q + (2 * r + x % 2);
    DivModUnique(q, 2 * r + x % 2, x, 2 * w);
  }

  lemma WordIsPow2()
    ensures UINT64 == Pow2(64)
  {
    assert Pow2(8) == 256;
    assert Pow2(16) == 0x1_0000;
    assert Pow2(24) == 0x100_0000;
    assert Pow2(32) == 0x1_0000_0000;
    assert Pow2(40) == 0x100_0000_0000;
    assert Pow2(48) == 0x1_0000_0000_0000;
    assert Pow2(56) == 0x100_0000_0000_0000;
  }

  // The bits of a 64-bit shift.
  lemma ShiftBits(x: nat, k: nat, i: nat)
    ensures Bit(ShiftLeft(x, Pow2(k)), i) == if i < 64 && k <= i then Bit(x, i - k) else 0
  {
    WordIsPow2();
    CutBits(x * Pow2(k), 64, i);
    ShiftedBits(x, k, i);
  }

  // The bits of the seed: those of the first draw, and of the second 10 places up.
  lemma SeedBits(rand: Stream, i: nat)
    ensures Bit(Seed(rand), i) == (Bit(rand(0), i) + if 10 <= i < 64 then Bit(rand(1), i - 10) else 0) % 2
  {
    assert Pow2(10) == 1024;
    XorBits(rand(0), ShiftLeft(rand(1), 1024), i);
    ShiftBits(rand(1), 10, i);
  }

  // And of the mixed value: those of the one before, one place up, and of the draw.
  lemma MixBits(r: nat, draw: nat, i: nat)
    ensures Bit(Mix(r, draw), i) == ((if 1 <= i < 64 then Bit(r, i - 1) else 0) + Bit(draw, i)) % 2
  {
    assert Pow2(1) == 2;
    XorBits(ShiftLeft(r, 2), draw, i);
    ShiftBits(r, 1, i);
  }

  // A number is made of its half and its last bit.
  lemma FromHalf(x: nat, y: nat, h: nat)
    requires x / 2 == h + y / 2 && x % 2 == y % 2
    ensures x == 2 * h + y
  {
  }

  lemma ParityCancels(x: nat, y: nat)
    requires x < 2 && y < 2
    ensures (x + (x + y) % 2) % 2 == y
  {
  }

  // Exclusive or with the same value twice gives the original back.
  lemma {:induction false} XorCancels(a: nat, b: nat)
    ensures Xor(a, Xor(a, b)) == b
    decreases a
  {
    if a > 0 {
      var c := Xor(a, b);
      XorCancels(a / 2, b / 2);
      assert Xor(a, c) / 2 == b / 2 by {
        XorHalves(a, b);
        XorHalves(a, c);
      }
      assert Xor(a, c) % 2 == b % 2 by {
        XorHalves(a, b);
        XorHalves(a, c);
        ParityCancels(a % 2, b % 2);
      }
      FromHalf(Xor(a, c), b, 0);
    }
  }

  lemma {:induction false} XorBelow(a: nat, b: nat, k: nat)
    requires a < Pow2(k) && b < Pow2(k)
    ensures Xor(a, b) < Pow2(k)
  {
    if k > 0 {
      XorHalves(a, b);
      XorBelow(a / 2, b / 2, k - 1);
    }
  }

  lemma Halve(h: nat, x: nat)
    ensures (2 * h + x) / 2 == h + x / 2 && (2 * h + x) % 2 == x % 2
  {
  }

  // The low k bits of h are zero.
  predicate Aligned(h: nat, k: nat) {
    k == 0 || (h % 2 == 0 && Aligned(h / 2, k - 1))
  }

  // The low k bits of x, and x without them.
  function Lower(x: nat, k: nat): nat {
    if k == 0 then 0 else x % 2 + 2 * Lower(x / 2, k - 1)
  }

  function Upper(x: nat, k: nat): nat {
    if k == 0 then x else 2 * Upper(x / 2, k - 1)
  }

  lemma {:induction false} SplitBits(x: nat, k: nat)
    ensures Upper(x, k) + Lower(x, k) == x && Lower(x, k) < Pow2(k) && Aligned(Upper(x, k), k)
  {
    if k > 0 {
      SplitBits(x / 2, k - 1);
      assert Upper(x, k) / 2 == Upper(x / 2, k - 1);
    }
  }

  // Exclusive or with k bits leaves the bits above them alone.
  lemma {:induction false} XorLowBits(h: nat, low: nat, d: nat, k: nat)
    requires Aligned(h, k) && low < Pow2(k) && d < Pow2(k)
    ensures Xor(h + low, d) == h + Xor(low, d)
  {
    if k > 0 {
      var half := h / 2;
      assert h == 2 * half;
      XorLowBits(half, low / 2, d / 2, k - 1);
      XorAbove(half, low, d);
    }
  }

  lemma XorAbove(h: nat, low: nat, d: nat)
    requires Xor(h + low / 2, d / 2) == h + Xor(low / 2, d / 2)
    ensures Xor(2 * h + low, d) == 2 * h + Xor(low, d)
  {
    Halve(h, low);
    XorHalves(2 * h + low, d);
    XorHalves(low, d);
    FromHalf(Xor(2 * h + low, d), Xor(low, d), h);
  }

  lemma DrawIsPow2()
    ensures Pow2(31) == DRAW
  {
    assert Pow2(8) == 256;
    assert Pow2(16) == 0x1_0000;
    assert Pow2(24) == 0x100_0000;
  }

  // A k-bit draw that turns the low bits of a value into x.
  lemma SteerBits(high: nat, low: nat, x: nat, k: nat) returns (draw: nat)
    requires Aligned(high, k) && low < Pow2(k) && x < Pow2(k)
    ensures draw < Pow2(k) && Xor(high + low, draw) == high + x
  {
    draw := Xor(low, x);
    XorBelow(low, x, k);
    XorLowBits(high, low, draw, k);
    XorCancels(low, x);
  }

  // From any mixed value some k-bit draw makes the next reduction give any position asked for.
  lemma DrawOfBits(r: nat, bound: nat, j: nat, k: nat) returns (draw: nat)
    requires 0 < bound <= Pow2(k) && j < bound
    ensures draw < Pow2(k) && Pick(Mix(r, draw), bound) == j
  {
    var shifted := ShiftLeft(r, 2);
    var high, low := Upper(shifted, k), Lower(shifted, k);
    SplitBits(shifted, k);
    var x := Complement(high, bound, j);
    draw := SteerBits(high, low, x, k);
  }

  lemma DrawFor(r: nat, bound: nat, j: nat) returns (draw: nat)
    requires 0 < bound <= DRAW && j < bound
    ensures draw < DRAW && Pick(Mix(r, draw), bound) == j
  {
    DrawIsPow2();
    draw := DrawOfBits(r, bound, j, 31);
  }

  // Some x below the bound brings `base` to remainder j.
  lemma Complement(base: nat, bound: nat, j: nat) returns (x: nat)
    requires j < bound
    ensures x < bound && (base + x) % bound == j
  {
    var q, m := base / bound, base % bound;
    assert base == bound * q + m;
    if m <= j {
      x := j - m;
      DivModUnique(q, j, base + x, bound);
    } else {
      x := bound + j - m;
      assert base + x == bound * (q + 1) + j;
      DivModUnique(q + 1, j, base + x, bound);
    }
  }

  // The stream gives these draws from tick t on.
  ghost predicate Gives(rand: Stream, t: nat, draws: seq<nat>) {
    forall k :: 0 <= k < |draws| ==> rand(t + k) == draws[k]
  }

  // Draws that steer the swaps from s to the order p, when the positions above i already
  // agree and the ones up to i hold the same values.
  lemma {:induction false} Steer(s: seq<nat>, p: seq<nat>, i: nat, r: nat) returns (draws: seq<nat>)
    requires i < |s| == |p| <= DRAW
    requires s[i + 1..] == p[i + 1..] && multiset(s[..i + 1]) == multiset(p[..i + 1])
    ensures |draws| == i && (forall k :: 0 <= k < i ==> draws[k] < DRAW)
    ensures forall rand: Stream, t: nat {:trigger Gives(rand, t, draws)} ::
      Gives(rand, t, draws) ==> SwapDown(s, i, r, rand, t) == p
    decreases i
  {
    if i == 0 {
      draws := [];
      assert s[0] in multiset(p[..1]);
      assert s == [s[0]] + s[1..] && p == [p[0]] + p[1..];
    } else {
      assert p[..i + 1][i] in multiset(s[..i + 1]);
      var j :| 0 <= j < i + 1 && s[..i + 1][j] == p[i];
      var draw := DrawFor(r, i + 1, j);
      var r' := Mix(r, draw);
      var s' := Swap(s, i, j);
      SwapSplits(s, p, i, j);
      var rest := Steer(s', p, i - 1, r');
      draws := [draw] + rest;
      forall rand: Stream, t: nat | Gives(rand, t, draws)
        ensures SwapDown(s, i, r, rand, t) == p
      {
        GivesRest(rand, t, draws);
        assert draws[1..] == rest;
        assert SwapDown(s', i - 1, r', rand, t + 1) == p;
      }
    }
  }

  lemma GivesRest(rand: Stream, t: nat, draws: seq<nat>)
    requires Gives(rand, t, draws) && draws != []
    ensures rand(t) == draws[0] && Gives(rand, t + 1, draws[1..])
  {
    assert rand(t + 0) == draws[0];
    forall k | 0 <= k < |draws[1..]|
      ensures rand(t + 1 + k) == draws[1..][k]
    {
      assert rand(t + (k + 1)) == draws[k + 1];
    }
  }

  lemma SwapSplits(s: seq<nat>, p: seq<nat>, i: nat, j: nat)
    requires 0 < i < |s| == |p| && j <= i && s[j] == p[i]
    requires s[i + 1..] == p[i + 1..] && multiset(s[..i + 1]) == multiset(p[..i + 1])
    ensures Swap(s, i, j)[i..] == p[i..]
    ensures multiset(Swap(s, i, j)[..i]) == multiset(p[..i])
  {
    var s' := Swap(s, i, j);
    assert s'[i..] == [p[i]] + s[i + 1..] && p[i..] == [p[i]] + p[i + 1..];
    SwapIsPermutation(s[..i + 1], i, j);
    assert s'[..i + 1] == Swap(s[..i + 1], i, j);
    SameFront(s'[..i + 1], p[..i + 1]);
    assert s'[..i + 1][..i] == s'[..i] && p[..i + 1][..i] == p[..i];
  }

  lemma SameFront(a: seq<nat>, b: seq<nat>)
    requires 0 < |a| == |b| && a[|a| - 1] == b[|b| - 1] && multiset(a) == multiset(b)
    ensures multiset(a[..|a| - 1]) == multiset(b[..|b| - 1])
  {
    var n, x := |a| - 1, a[|a| - 1];
    assert a == a[..n] + [x] && b == b[..n] + [x];
    SameRest(multiset(a[..n]), multiset(b[..n]), x);
  }

  lemma SameRest(a: multiset<nat>, b: multiset<nat>, x: nat)
    requires a + multiset{x} == b + multiset{x}
    ensures a == b
  {
    assert a + multiset{x} - multiset{x} == a && b + multiset{x} - multiset{x} == b;
  }

  lemma CoversIsPermutation(p: seq<nat>, n: nat, unit: nat)
    requires StartsAndCovers(p, n, unit) && 0 < unit
    ensures multiset(p) == multiset(Sequential(n, unit))
  {
    var base := Sequential(n, unit);
    SequentialDistinct(n, unit);
    forall x
      ensures multiset(p)[x] == multiset(base)[x]
    {
      DistinctMultiplicity(p, x);
      DistinctMultiplicity(base, x);
      if x in p {
        var k :| 0 <= k < n && p[k] == x;
        assert IsMultiple(p[k], n, unit);
        var q :| 0 <= q < n && x == q * unit;
        assert base[q] == x;
      }
      if x in base {
        var q :| 0 <= q < n && base[q] == x;
        assert Lists(p, q, unit);
      }
    }
  }

  // Every order that starts at 0 and lists the units once is what some stream of draws
  // produces: with RandomOrderCovers, the orders produced are exactly those.
  lemma EveryOrderReachable(p: seq<nat>, n: nat, unit: nat) returns (rand: Stream)
    requires StartsAndCovers(p, n, unit) && 0 < unit && n <= DRAW
    ensures Draws(rand) && RandomOrder(n, unit, rand) == p
  {
    var base := Sequential(n, unit);
    CoversIsPermutation(p, n, unit);
    assert base[..n] == base && p[..n] == p;
    var draws := Steer(base, p, n - 1, 0);
    rand := (t: nat) => if 2 <= t < 2 + |draws| then draws[t - 2] else 0;
    assert Gives(rand, 2, draws);
    assert Seed(rand) == 0;
    assert ZeroFrom(p, 1) == n;
  }

  // So pattern 2 can link the active lines in every order that starts at 0.
  lemma EveryLayoutReachable(p: seq<nat>, active: nat, page: nat, line: nat) returns (rand: Stream)
    requires 0 < line <= page <= active && active / page * (page / line) <= DRAW
    requires StartsAndCovers(p, active / page * (page / line), line)
    ensures Draws(rand) && LayoutOrder(2, active, page, line, rand) == p
  {
    rand := EveryOrderReachable(p, active / page * (page / line), line);
  }

  // The positions above the one reached are settled.
  lemma {:induction false} SwapDownAbove(s: seq<nat>, i: nat, r: nat, rand: Stream, t: nat, k: nat)
    requires i < k < |s|
    ensures SwapDown(s, i, r, rand, t)[k] == s[k]
    decreases i
  {
    if i > 0 {
      var r' := Mix(r, rand(t));
      SwapDownAbove(Swap(s, i, Pick(r', i + 1)), i - 1, r', rand, t + 1, k);
    }
  }

  lemma ZeroMixes()
    ensures Mix(0, 0) == 0 && Xor(0, ShiftLeft(0, 1024)) == 0
  {
  }

  // A draw that leaves the mixed value at 0 swaps the last position with the first.
  lemma LastGetsFirst(s: seq<nat>, rand: Stream, t: nat)
    requires 0 < |s| && rand(t) == 0
    ensures SwapDown(s, |s| - 1, 0, rand, t)[|s| - 1] == s[0]
  {
    var i := |s| - 1;
    ZeroMixes();
    if i > 0 {
      assert Pick(0, i + 1) == 0;
      assert SwapDown(s, i, 0, rand, t) == SwapDown(Swap(s, i, 0), i - 1, 0, rand, t + 1);
      SwapDownAbove(Swap(s, i, 0), i - 1, 0, rand, t + 1, i);
    }
  }

  // Draws of nothing but 0 take offset 0 to the end of the sequence.
  lemma ZeroDraws(n: nat, unit: nat) returns (rand: Stream)
    requires 0 < n
    ensures Draws(rand) && Shuffled(n, unit, rand)[n - 1] == 0
  {
    rand := (t: nat) => 0;
    ZeroMixes();
    LastGetsFirst(Sequential(n, unit), rand, 2);
  }

  // The shuffling form of the routine ends on every stream of draws exactly for up to 2^32
  // entries.
  lemma ShuffleEndsIff(n: nat, unit: nat)
    requires 0 < n && 0 < unit
    ensures (forall rand: Stream :: Draws(rand) ==> ScanEnds(Shuffled(n, unit, rand))) <==> n <= UINT32
  {
    if n <= UINT32 {
      forall rand: Stream
        ensures ScanEnds(Shuffled(n, unit, rand))
      {
        ShuffledIsPermutation(n, unit, rand);
        var z :| 0 <= z < n && Shuffled(n, unit, rand)[z] == 0;
        ScanEndsIff(Shuffled(n, unit, rand), z);
      }
    } else {
      var rand := ZeroDraws(n, unit);
      ShuffledIsPermutation(n, unit, rand);
      ScanEndsIff(Shuffled(n, unit, rand), n - 1);
    }
  }
}

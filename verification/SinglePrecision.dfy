/**
 Single-precision arithmetic on numbers that are whole in some unit: rounding to 24
 significant bits, to the nearest and on a tie to the even. Rounding commutes with a change
 of unit by a power of two, so products and sums with fractions are rounded here in the unit
 of their last bit.
 */
module SinglePrecision {
  import opened Arith

  const MANTISSA: nat := 0x100_0000

  // The distance between the single-precision numbers around x.
  function Ulp(x: nat): (u: nat)
    ensures u > 0
  {
    if x < MANTISSA then 1 else 2 * Ulp(x / 2)
  }

  // The nearest of the multiples of u, q*u and (q+1)*u, when r is left over from the first.
  function Nearest(q: nat, r: nat, u: nat): nat {
    if 2 * r < u || (2 * r == u && q % 2 == 0) then q * u else (q + 1) * u
  }

  function Single(x: nat): nat {
    Nearest(x / Ulp(x), x % Ulp(x), Ulp(x))
  }

  lemma NearestDouble(q: nat, r: nat, u: nat)
    ensures Nearest(q, 2 * r, 2 * u) == 2 * Nearest(q, r, u)
  {
  }

  lemma NearestShape(q: nat, r: nat, u: nat) returns (c: nat)
    ensures q <= c <= q + 1 && Nearest(q, r, u) == c * u
  {
    c := if 2 * r < u || (2 * r == u && q % 2 == 0) then q else q + 1;
  }

  lemma SmallIsSingle(x: nat)
    requires x <= MANTISSA
    ensures Single(x) == x
  {
    if x == MANTISSA {
      assert Ulp(MANTISSA) == 2 * Ulp(MANTISSA / 2);
    }
  }

  lemma SingleDouble(x: nat)
    ensures Single(2 * x) == 2 * Single(x)
  {
    if 2 * x <= MANTISSA {
      SmallIsSingle(x);
      SmallIsSingle(2 * x);
    } else {
      var u := Ulp(x);
      var q, r := x / u, x % u;
      assert x == u * q + r;
      assert 2 * x == (2 * u) * q + 2 * r;
      assert Ulp(2 * x) == 2 * u;
      DivModUnique(q, 2 * r, 2 * x, 2 * u);
      NearestDouble(q, r, u);
    }
  }

  lemma DoubleProduct(c: nat, e: nat)
    requires 0 < e
    ensures c * Pow2(e) == 2 * (c * Pow2(e - 1))
  {
    var w := Pow2(e - 1);
    assert c * (2 * w) == 2 * (c * w);
  }

  lemma {:induction false} SingleScale(x: nat, k: nat)
    ensures Single(x * Pow2(k)) == Single(x) * Pow2(k)
  {
    if k > 0 {
      SingleScale(x, k - 1);
      SingleDouble(x * Pow2(k - 1));
      DoubleProduct(x, k);
      DoubleProduct(Single(x), k);
    }
  }

  lemma {:induction false} UlpScale(x: nat) returns (e: nat)
    ensures Ulp(x) == Pow2(e) && x / Ulp(x) < MANTISSA
  {
    e := 0;
    if x >= MANTISSA {
      var d := UlpScale(x / 2);
      var u := Ulp(x / 2);
      Halved(x, u);
      e := d + 1;
    }
  }

  lemma Halved(x: nat, u: nat)
    requires 0 < u
    ensures x / (2 * u) == (x / 2) / u
  {
    var h := x / 2;
    var q, r := h / u, h % u;
    assert h == u * q + r;
    assert x == (2 * u) * q + (2 * r + x % 2);
    DivModUnique(q, 2 * r + x % 2, x, 2 * u);
  }

  // Single-precision numbers are those of at most 24 bits, scaled; rounding gives one.
  lemma SingleShape(x: nat) returns (c: nat, e: nat)
    ensures c <= MANTISSA && Single(x) == c * Pow2(e)
  {
    e := UlpScale(x);
    c := SingleMultiple(x, Pow2(e));
  }

  lemma SingleMultiple(x: nat, u: nat) returns (c: nat)
    requires u == Ulp(x) && x / u < MANTISSA
    ensures c <= MANTISSA && Single(x) == c * u
  {
    c := NearestShape(x / u, x % u, u);
  }

  lemma ShapeIsSingle(c: nat, e: nat)
    requires c <= MANTISSA
    ensures Single(c * Pow2(e)) == c * Pow2(e)
  {
    SmallIsSingle(c);
    SingleScale(c, e);
  }

  lemma SingleTwice(x: nat)
    ensures Single(Single(x)) == Single(x)
  {
    var c, e := SingleShape(x);
    ShapeIsSingle(c, e);
  }

  lemma EvenThird(x: nat, y: nat) returns (half: nat)
    requires 3 * x == 2 * y
    ensures x == 2 * half && 3 * half == y
  {
    half := y - x;
  }

  lemma {:induction false} ThirdOf(c: nat, e: nat, x: nat)
    requires 3 * x == c * Pow2(e)
    ensures c % 3 == 0 && x == (c / 3) * Pow2(e)
  {
    if e > 0 {
      DoubleProduct(c, e);
      var half := EvenThird(x, c * Pow2(e - 1));
      ThirdOf(c, e - 1, half);
      DoubleProduct(c / 3, e);
    }
  }

  // What is exact times three is exact.
  lemma TripleExact(x: nat)
    requires Single(3 * x) == 3 * x
    ensures Single(x) == x
  {
    var c, e := SingleShape(3 * x);
    ThirdOf(c, e, x);
    ShapeIsSingle(c / 3, e);
  }

  lemma NearestClose(q: nat, r: nat, u: nat)
    requires r < u
    ensures 2 * Nearest(q, r, u) <= 2 * (q * u + r) + u
    ensures 2 * (q * u + r) <= 2 * Nearest(q, r, u) + u
  {
    assert (q + 1) * u == q * u + u;
  }

  // Rounding moves a number by at most the 2^24th part of it.
  lemma SingleClose(x: nat)
    ensures MANTISSA * Single(x) <= MANTISSA * x + x
    ensures MANTISSA * x <= MANTISSA * Single(x) + x
  {
    if x <= MANTISSA {
      SmallIsSingle(x);
    } else {
      var u := Ulp(x);
      NearestClose(x / u, x % u, u);
      assert x == (x / u) * u + x % u;
      UlpSmall(x);
    }
  }

  lemma {:induction false} UlpSmall(x: nat)
    requires MANTISSA <= x
    ensures MANTISSA * Ulp(x) <= 2 * x
  {
    if MANTISSA <= x / 2 {
      UlpSmall(x / 2);
    }
  }

  // ---- Nothing with 24 significant bits is nearer

  function Apart(x: nat, y: nat): nat {
    if x < y then y - x else x - y
  }

  lemma {:induction false} Pow2Split(d: nat, k: nat)
    ensures Pow2(d + k) == Pow2(d) * Pow2(k)
  {
    if d > 0 {
      Pow2Split(d - 1, k);
      DoubleProduct(Pow2(k), d);
    }
  }

  // No such number lies between two neighbouring multiples of the distance at x.
  lemma NoneBetween(x: nat, c: nat, e: nat)
    requires c <= MANTISSA
    ensures var u := Ulp(x); c * Pow2(e) <= x / u * u || x / u * u + u <= c * Pow2(e)
  {
    var u := Ulp(x);
    var k := UlpScale(x);
    Divided(x, u);
    if k <= e {
      Pow2Split(e - k, k);
      Multiples(c, Pow2(e - k), x / u, u);
    } else {
      Pow2Split(k - 1 - e, e);
      UlpSmall(x);
      TooShort(x, Pow2(k - 1), c, Pow2(k - 1 - e), Pow2(e));
    }
  }

  lemma Multiples(c: nat, d: nat, q: nat, u: nat)
    ensures c * (d * u) <= q * u || q * u + u <= c * (d * u)
  {
    var m := c * d;
    assert c * (d * u) == m * u;
    MulMono(u, m, q);
    MulMono(u, q + 1, m);
  }

  lemma TooShort(x: nat, h: nat, c: nat, d: nat, w: nat)
    requires h == d * w && 0 < h && MANTISSA * (2 * h) <= 2 * x && c <= MANTISSA
    ensures c * w <= x / (2 * h) * (2 * h)
  {
    MulMono(w, c, MANTISSA);
    MulMono(w, 1, d);
    LongQuotient(x, h);
  }

  lemma LongQuotient(x: nat, h: nat)
    requires 0 < h && MANTISSA * (2 * h) <= 2 * x
    ensures MANTISSA * h <= x / (2 * h) * (2 * h)
  {
    var u := 2 * h;
    var q := x / u;
    assert x == u * q + x % u;
    if q < MANTISSA / 2 {
      MulMono(u, q + 1, MANTISSA / 2);
    }
    MulMono(u, MANTISSA / 2, q);
  }

  // The nearer of a and a + u is as near as any number not between them.
  lemma NearerBest(a: nat, r: nat, u: nat, s: nat, y: nat)
    requires r < u && (y <= a || a + u <= y)
    requires (s == a && 2 * r <= u) || (s == a + u && 2 * r >= u)
    ensures Apart(s, a + r) <= Apart(y, a + r)
    ensures Apart(s, a + r) == Apart(y, a + r) && y != s ==> 2 * r == u
  {
  }

  lemma Divided(x: nat, u: nat)
    requires 0 < u
    ensures x == x / u * u + x % u && 0 <= x / u
  {
  }

  lemma EvenMultiple(q: nat, u: nat)
    requires 0 < u && q % 2 == 0
    ensures q * u % (2 * u) == 0
  {
    assert q == 2 * (q / 2);
    DivModUnique(q / 2, 0, q * u, 2 * u);
  }

  lemma NearestIsBest(x: nat, q: nat, r: nat, u: nat, y: nat)
    requires r < u && x == q * u + r && (y <= q * u || q * u + u <= y)
    ensures var s := Nearest(q, r, u);
            Apart(s, x) <= Apart(y, x) && (Apart(s, x) == Apart(y, x) && y != s ==> s % (2 * u) == 0)
  {
    NextMultiple(q, u);
    NearerBest(q * u, r, u, Nearest(q, r, u), y);
    if 2 * r == u {
      EvenMultiple(if q % 2 == 0 then q else q + 1, u);
    }
  }

  lemma SingleIsBest(x: nat, u: nat, y: nat)
    requires u == Ulp(x) && (y <= x / u * u || x / u * u + u <= y)
    ensures Apart(Single(x), x) <= Apart(y, x)
    ensures Apart(Single(x), x) == Apart(y, x) && y != Single(x) ==> Single(x) % (2 * u) == 0
  {
    Divided(x, u);
    NearestIsBest(x, x / u, x % u, u, y);
  }

  // Rounding gives the nearest of the numbers of at most 24 significant bits and, of two as
  // near, the one that is an even multiple of their distance.
  lemma SingleIsNearest(x: nat, c: nat, e: nat)
    requires c <= MANTISSA
    ensures var y := c * Pow2(e);
            && Apart(Single(x), x) <= Apart(y, x)
            && (Apart(Single(x), x) == Apart(y, x) && y != Single(x) ==> Single(x) % (2 * Ulp(x)) == 0)
  {
    NoneBetween(x, c, e);
    SingleIsBest(x, Ulp(x), c * Pow2(e));
  }
}

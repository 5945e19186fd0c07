/** The short display of counts and sizes: repeated rounding to the next unit. */
module KmgParser {
  import opened Arith
  import opened Numerals

  function Pow(k: nat, n: nat): nat {
    if n == 0 then 1
    else
      MulMono(k, 0, Pow(k, n - 1));
      k * Pow(k, n - 1)
  }

  // (curr + one_k / 2 - 1) / one_k
  function Round(curr: nat, oneK: nat): (r: nat)
    requires 2 <= oneK
  {
    (curr + (oneK / 2 - 1)) / oneK
  }

  // The ratio of the rounded to the exact value is within 5%, in exact arithmetic.
  predicate WithinFivePercent(curr: nat, rounded: nat, oneK: nat) {
    95 * curr <= 100 * (rounded * oneK) <= 105 * curr
  }

  datatype Shown = Shown(number: int, levels: nat)

  lemma RoundBounds(curr: nat, oneK: nat)
    requires 2 <= oneK && oneK % 2 == 0
    ensures -(oneK / 2) <= Round(curr, oneK) * oneK - curr <= oneK / 2
  {
    var x := curr + (oneK / 2 - 1);
    assert x == oneK * (x / oneK) + x % oneK;
  }

  lemma RoundSmaller(curr: nat, oneK: nat)
    requires 2 <= oneK < curr
    ensures Round(curr, oneK) < curr
  {
    var x := curr + (oneK / 2 - 1);
    assert x == oneK * (x / oneK) + x % oneK;
    MulMono(oneK, curr, x / oneK);
    MulMono(curr, 2, oneK);
  }

  // What the rounding loop ends with, and how many units up.
  function Display(curr: int, oneK: nat): Shown
    requires 2 <= oneK
    decreases if curr > 0 then curr else 0
  {
    if curr <= oneK then Shown(curr, 0)
    else
      var rounded := Round(curr, oneK);
      RoundSmaller(curr, oneK);
      if !WithinFivePercent(curr, rounded, oneK) then Shown(curr, 0)
      else
        var rest := Display(rounded, oneK);
        Shown(rest.number, rest.levels + 1)
  }

  // After L levels the number shown is off by at most half a unit of each level passed:
  // |m * k^L - num| <= (k / 2) * (k^L - 1) / (k - 1), for an even base.
  lemma {:induction false} DisplayError(num: nat, oneK: nat)
    requires 2 <= oneK && oneK % 2 == 0
    ensures var shown := Display(num, oneK);
            var scale := Pow(oneK, shown.levels);
            && 2 * (oneK - 1) * (shown.number * scale - num) <= oneK * (scale - 1)
            && 2 * (oneK - 1) * (num - shown.number * scale) <= oneK * (scale - 1)
    decreases num
  {
    var shown := Display(num, oneK);
    if shown.levels > 0 {
      var rounded := Round(num, oneK);
      RoundSmaller(num, oneK);
      RoundBounds(num, oneK);
      DisplayError(rounded, oneK);
      ErrorStep(num, oneK, rounded, shown.number, Pow(oneK, shown.levels - 1));
    }
  }

  // Up one unit, to the nearest number of units, exactly for more than one unit with that
  // number off by up to 5%.
  lemma DisplayStep(num: nat, oneK: nat, r: nat)
    requires 2 <= oneK && r * oneK <= num + oneK / 2 - 1 < r * oneK + oneK
    ensures Display(num, oneK).levels > 0 <==> num > oneK && 95 * num <= 100 * (r * oneK) <= 105 * num
    ensures Display(num, oneK).levels > 0 ==>
      Display(num, oneK) == Shown(Display(r, oneK).number, Display(r, oneK).levels + 1)
    ensures Display(num, oneK).levels == 0 ==> Display(num, oneK).number == num
  {
    var x: nat := num + (oneK / 2 - 1);
    DivModUnique(r, x - r * oneK, x, oneK);
  }

  // And the rounding goes on as long as it can: the number shown is at most one unit, unless
  // the nearest number of units, r, is off by more than 5%.
  lemma {:induction false} DisplayGoesOn(num: nat, oneK: nat)
    requires 2 <= oneK
    ensures var m := Display(num, oneK).number;
            m <= oneK || exists r: nat ::
              && r * oneK <= m + oneK / 2 - 1 < r * oneK + oneK
              && (100 * (r * oneK) < 95 * m || 105 * m < 100 * (r * oneK))
    decreases num
  {
    if num > oneK {
      var rounded := Round(num, oneK);
      RoundSmaller(num, oneK);
      var x := num + (oneK / 2 - 1);
      assert x == oneK * rounded + x % oneK;
      if WithinFivePercent(num, rounded, oneK) {
        DisplayGoesOn(rounded, oneK);
      } else {
        assert rounded * oneK <= num + oneK / 2 - 1 < rounded * oneK + oneK;
      }
    }
  }

  lemma ErrorStep(num: int, k: nat, rounded: int, m: int, scale: int)
    requires 2 <= k && k % 2 == 0
    requires -(k / 2) <= rounded * k - num <= k / 2
    requires 2 * (k - 1) * (m * scale - rounded) <= k * (scale - 1)
    requires 2 * (k - 1) * (rounded - m * scale) <= k * (scale - 1)
    ensures 2 * (k - 1) * (m * (k * scale) - num) <= k * (k * scale - 1)
    ensures 2 * (k - 1) * (num - m * (k * scale)) <= k * (k * scale - 1)
  {
    var a, b, c := m * scale - rounded, rounded * k - num, 2 * (k - 1);
    Regroup(m, k, scale, rounded, num);
    Distribute(c, k, a, b);
    Distribute(c, k, -a, -b);
    assert c * -a == -(c * a);
    MulMono(k, c * a, k * (scale - 1));
    MulMono(k, c * -a, k * (scale - 1));
    MulMono(c, b, k / 2);
    MulMono(c, -b, k / 2);
    HalfBase(k);
    Factor(k, scale);
    assert num - m * (k * scale) == k * -a + -b;
  }

  lemma Regroup(m: int, k: int, scale: int, rounded: int, num: int)
    ensures m * (k * scale) - num == k * (m * scale - rounded) + (rounded * k - num)
    ensures num - m * (k * scale) == k * -(m * scale - rounded) + -(rounded * k - num)
  {
    assert m * (k * scale) == k * (m * scale);
    assert k * (m * scale - rounded) == k * (m * scale) - k * rounded;
  }

  lemma Distribute(c: int, k: int, a: int, b: int)
    ensures c * (k * a + b) == k * (c * a) + c * b
  {
    assert c * (k * a) == k * (c * a);
  }

  lemma HalfBase(k: int)
    requires k % 2 == 0
    ensures 2 * (k - 1) * (k / 2) == (k - 1) * k
  {
    assert k == 2 * (k / 2);
  }

  lemma Factor(k: int, scale: int)
    ensures k * (k * (scale - 1)) + (k - 1) * k == k * (k * scale - 1)
  {
    assert k * (scale - 1) == k * scale - k;
    assert k * (k * scale - k) + k * (k - 1) == k * ((k * scale - k) + (k - 1));
  }

  // A number up to k^(n+1) goes up at most n units.
  lemma {:induction false} LevelsBound(num: nat, oneK: nat, n: nat)
    requires 2 <= oneK && num <= Pow(oneK, n + 1)
    ensures Display(num, oneK).levels <= n
    decreases n
  {
    if num > oneK {
      assert Pow(oneK, 1) == oneK * Pow(oneK, 0) == oneK;
      RoundSmaller(num, oneK);
      var rounded := Round(num, oneK);
      var x := num + (oneK / 2 - 1);
      assert x == oneK * rounded + x % oneK;
      MulMono(oneK, Pow(oneK, n) + 1, rounded);
      assert oneK * (Pow(oneK, n) + 1) == Pow(oneK, n + 1) + oneK;
      LevelsBound(rounded, oneK, n - 1);
    }
  }

  // So a 64-bit count or size goes up at most six units.
  lemma SixLevels(num: nat, oneK: nat)
    requires num < 0x8000_0000_0000_0000 && (oneK == 1000 || oneK == 1024)
    ensures Display(num, oneK).levels <= 6
  {
    PowSteps(oneK);
    LevelsBound(num, oneK, 6);
  }

  lemma PowSteps(k: nat)
    ensures Pow(k, 7) == k * (k * (k * (k * (k * (k * k)))))
  {
    assert Pow(k, 0) == 1;
    assert Pow(k, 1) == k;
    assert Pow(k, 2) == k * k;
    assert Pow(k, 3) == k * (k * k);
    assert Pow(k, 4) == k * (k * (k * k));
    assert Pow(k, 5) == k * (k * (k * (k * k)));
    assert Pow(k, 6) == k * (k * (k * (k * (k * k))));
  }

  function UnitStr(level: int): string {
    if level == 0 then " " else if level == 1 then " K" else if level == 2 then " M"
    else if level == 3 then " G" else if level == 4 then " T" else if level == 5 then " P" else " ?"
  }

  method GetDispStr(num: int, oneK: nat, startLevel: int) returns (s: string)
    requires 2 <= oneK
    ensures var shown := Display(num, oneK);
            var level := startLevel + shown.levels;
            s == Decimal(shown.number)
                 + if level == 0 then " " else if 1 <= level <= 5 then [' ', "KMGTP"[level - 1]] else " ?"
  {
    var halfK := oneK / 2 - 1;
    var level, curr := startLevel, num;
    while curr > oneK
      invariant Display(num, oneK).number == Display(curr, oneK).number
      invariant Display(num, oneK).levels == Display(curr, oneK).levels + (level - startLevel)
      decreases curr
    {
      var rounded := (curr + halfK) / oneK;
      RoundSmaller(curr, oneK);
      if 100 * (rounded * oneK) < 95 * curr || 100 * (rounded * oneK) > 105 * curr {
        break;
      }
      curr := rounded;
      level := level + 1;
    }
    s := Decimal(curr) + UnitStr(level);
  }
}

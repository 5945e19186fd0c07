/** Facts about multiplication, division and remainder that the other modules rest on. */
module Arith {

  function Pow2(k: nat): (p: nat)
    ensures p > 0
  {
    if k == 0 then 1 else 2 * Pow2(k - 1)
  }

  lemma MulMono(n: nat, a: int, b: int)
    ensures a <= b ==> n * a <= n * b
  {
  }

  lemma NextMultiple(n: nat, c: nat)
    ensures (n + 1) * c == n * c + c
  {
  }

  lemma DivModUnique(q: int, r: nat, x: int, n: nat)
    requires r < n && x == n * q + r
    ensures x / n == q && x % n == r
  {
    var q' := x / n;
    assert x == n * q' + x % n;
    MulMono(n, q' + 1, q);
    MulMono(n, q + 1, q');
  }

  lemma RowsApart(n: nat, i: nat, j: nat)
    ensures i < j ==> i * n + n <= j * n
  {
    MulMono(n, i + 1, j);
  }

  // Rows of length n, i-th of `rows` starting at `row`.
  lemma RowStep(n: nat, i: nat, rows: nat, row: nat)
    requires 0 < n && i < rows && row == i * n
    ensures row + n == (i + 1) * n
    ensures if i + 1 == rows then row + n == rows * n else row + n < rows * n
  {
    RowsApart(n, i + 1, rows);
  }

  lemma NextMod(a: nat, n: nat)
    requires n > 0
    ensures (a + 1) % n == if a % n + 1 == n then 0 else a % n + 1
  {
    var q, r := a / n, a % n;
    assert a == n * q + r;
    if r + 1 == n {
      assert a + 1 == n * (q + 1) + 0;
      DivModUnique(q + 1, 0, a + 1, n);
    } else {
      DivModUnique(q, r + 1, a + 1, n);
    }
  }

  // Numbers less than n apart have different remainders.
  lemma ModApart(i: nat, j: nat, n: nat)
    requires i < j < i + n
    ensures i % n != j % n
  {
    var d := j / n - i / n;
    assert i == n * (i / n) + i % n;
    assert j == n * (j / n) + j % n;
    assert j - i == n * d + (j % n - i % n);
    MulMono(n, 1, d);
    MulMono(n, d, 0);
  }
}

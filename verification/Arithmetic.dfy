/** The few facts about products and quotients of variables that the other modules use. */
module Arithmetic {

  /** Quotient and remainder are determined by the division equation. */
  lemma DivModUnique(n: int, m: int, q: int, r: int)
    requires m > 0 && n == q * m + r && 0 <= r < m
    ensures n / m == q && n % m == r
  {
    var q1, r1 := n / m, n % m;
    assert q1 * m + r1 == n;
    var d := q - q1;
    assert d * m == r1 - r by {
      assert d * m == q * m - q1 * m;
    }
    if d != 0 {
      NonzeroMultiple(d, m);
    }
  }

  lemma NonzeroMultiple(d: int, m: int)
    requires m > 0 && d != 0
    ensures d * m >= m || d * m <= -m
  {
    if d > 0 {
      assert (d - 1) * m >= 0;
    } else {
      assert (-1 - d) * m >= 0;
    }
  }

  lemma Factor(a: int, x: int, y: int)
    ensures a * (x + y) == a * x + a * y
    ensures (x + y) * a == x * a + y * a
  {
  }

  lemma Distribute(x: int, y: int, z: int, p: int)
    ensures (x + y + z) * p == x * p + y * p + z * p
  {
  }

  lemma Associate(x: int, y: int, z: int)
    ensures x * y * z == x * (y * z)
  {
  }

  lemma MulMono(a: nat, x: int, y: int)
    requires x <= y
    ensures a * x <= a * y && x * a <= y * a
  {
  }
}

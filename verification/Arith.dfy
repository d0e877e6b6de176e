/** Facts about division and multiplication that the solver does not find by itself. */
module Arith {

  lemma MulAtLeast(x: int, m: int)
    requires x >= 1 && m >= 0
    ensures x * m >= m
  {
    assert x * m == (x - 1) * m + m;
    MulNonNegative(x - 1, m);
  }

  lemma MulNonNegative(x: int, m: int)
    requires x >= 0 && m >= 0
    ensures x * m >= 0
  {
  }

  /** Quotient and remainder are determined by the division equation. */
  lemma DivModUnique(a: int, m: int, q: int, r: int)
    requires m >= 1 && a == q * m + r && 0 <= r < m
    ensures a / m == q && a % m == r
  {
    var q', r' := a / m, a % m;
    assert a == q' * m + r';
    assert (q - q') * m == r' - r by { Distribute(q, q', m); }
    if q > q' { MulAtLeast(q - q', m); }
    if q < q' { MulAtLeast(q' - q, m); Distribute(q', q, m); }
  }

  lemma Distribute(x: int, y: int, m: int)
    ensures (x - y) * m == x * m - y * m
    ensures (x + y) * m == x * m + y * m
  {
  }
}

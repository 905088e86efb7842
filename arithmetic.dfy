/** Facts about multiplication and division shared by the chunk planner and the time formatter. */
module Arithmetic {

  /** Multiplying by the same factor keeps the order. */
  lemma MulMonotone(a: nat, b: nat, factor: nat)
    requires a <= b
    ensures a * factor <= b * factor
  {
  }

  /** Quotient and remainder are the only pair that rebuilds `n` with the remainder below the divisor. */
  lemma DivModUnique(n: nat, d: nat, q: nat, r: nat)
    requires 0 < d && r < d && n == q * d + r
    ensures n / d == q && n % d == r
  {
    var q', r' := n / d, n % d;
    assert q' * d + r' == q * d + r;
    if q' < q {
      assert (q' + 1) * d <= q * d by { MulMonotone(q' + 1, q, d); }
    } else if q < q' {
      assert (q + 1) * d <= q' * d by { MulMonotone(q + 1, q', d); }
    }
  }
}

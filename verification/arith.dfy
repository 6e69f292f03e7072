/** Small facts about multiplication and division that the solver does not find unaided. */
module Arith {
  lemma MulMonotone(a: int, b: int, t: nat)
    requires a <= b
    ensures a * t <= b * t
  {
  }

  /** Cancelling a positive factor from a strict inequality. */
  lemma FactorBelow(a: int, b: int, n: nat)
    requires n > 0 && a * n < b * n
    ensures a < b
  {
  }

  /** Cancelling a positive factor from a non-strict inequality. */
  lemma FactorAtMost(a: int, b: int, n: nat)
    requires n > 0 && a * n <= b * n
    ensures a <= b
  {
    assert (b + 1) * n == b * n + n;
    FactorBelow(a, b + 1, n);
  }

  /** `total // n` for a total between `n * lo` and `n * hi`: the truncated mean, itself between `lo` and `hi`. */
  function TruncatedMean(total: int, n: nat, lo: int, hi: int): (m: nat)
    requires n > 0 && 0 <= lo && n * lo <= total <= n * hi
    ensures lo <= m <= hi
    ensures m * n <= total < (m + 1) * n
  {
    DivBetween(total, n, lo, hi);
    DivideAndStep(total, n);
    total / n
  }

  /** A quotient lies between the bounds its dividend lies between, scaled. */
  lemma DivBetween(total: int, n: nat, lo: int, hi: int)
    requires n > 0 && n * lo <= total <= n * hi
    ensures lo <= total / n <= hi
  {
    var q := total / n;
    assert total == q * n + total % n && 0 <= total % n < n;
    assert (q + 1) * n == q * n + n;
    assert n * lo == lo * n && n * hi == hi * n;
    FactorBelow(lo, q + 1, n);
    FactorAtMost(q, hi, n);
  }

  /** Euclidean division of a natural number, and the multiple of the divisor one step above the quotient. */
  lemma DivideAndStep(n: nat, d: nat)
    requires d > 0
    ensures n == (n / d) * d + n % d && 0 <= n % d < d
    ensures (n / d + 1) * d == (n / d) * d + d
  {
  }

  /** A product of two positive reals is positive. */
  lemma RealProductPositive(a: real, b: real)
    requires a > 0.0 && b > 0.0
    ensures a * b > 0.0
  {
  }
}

/**
 * The two roundings of the report, done exactly on integers: `Math.round` of
 * a mean (ties towards positive infinity) and BigDecimal's `divide(n, scale,
 * HALF_UP)` on amounts kept in cents (ties away from zero).
 */
module Rounding {

  /** `Math.round(sum / (double) n)`: the integer nearest to the mean, a tie going up. */
  function RoundedMean(sum: int, n: int): (r: int)
    requires n > 0
    ensures 2 * sum - n < 2 * n * r <= 2 * sum + n
  {
    (2 * sum + n) / (2 * n)
  }

  /**
   * `total.divide(BigDecimal.valueOf(n), 2, RoundingMode.HALF_UP)` for an amount
   * in cents: the quotient in cents, nearest first, a tie going away from zero.
   */
  function HalfUpDiv(total: int, n: int): (r: int)
    requires n > 0
    ensures total >= 0 ==> 2 * total - n < 2 * n * r <= 2 * total + n
    ensures total < 0 ==> 2 * total - n <= 2 * n * r < 2 * total + n
  {
    if total >= 0 then (2 * total + n) / (2 * n) else -((-2 * total + n) / (2 * n))
  }

  /** Rounding half-up is symmetric around zero. */
  lemma HalfUpDivOdd(total: int, n: int)
    requires n > 0
    ensures HalfUpDiv(-total, n) == -HalfUpDiv(total, n)
  {
    var m := 2 * n;
    if total > 0 {
      var q := (2 * total + n) / m;
      assert HalfUpDiv(total, n) == q;
      assert -2 * (-total) + n == 2 * total + n;
      assert HalfUpDiv(-total, n) == -q;
    } else if total < 0 {
      var q := (-2 * total + n) / m;
      assert HalfUpDiv(total, n) == -q;
      assert 2 * (-total) + n == -2 * total + n;
      assert HalfUpDiv(-total, n) == q;
    } else {
      assert n / m == 0;
    }
  }

  /** An exact quotient is returned as it is. */
  lemma HalfUpDivExact(k: int, n: int)
    requires n > 0
    ensures HalfUpDiv(k * n, n) == k
  {
    var r := HalfUpDiv(k * n, n);
    QuotientUnique(2 * k * n, n, r, k);
  }

  /** The mean of equal values is that value. */
  lemma RoundedMeanExact(k: int, n: int)
    requires n > 0
    ensures RoundedMean(k * n, n) == k
  {
    var r := RoundedMean(k * n, n);
    QuotientUnique(2 * k * n, n, r, k);
  }

  /** Two integers within half a unit of the same fraction (`twice / 2n`, strictly on one side) are equal. */
  lemma QuotientUnique(twice: int, n: int, a: int, b: int)
    requires n > 0
    requires twice - n <= 2 * n * a <= twice + n && twice - n <= 2 * n * b <= twice + n
    requires 2 * n * a != twice - n || 2 * n * b != twice + n
    requires 2 * n * b != twice - n || 2 * n * a != twice + n
    ensures a == b
  {
    if a < b {
      assert 2 * n * (b - a) >= 2 * n by { LeftMul(2 * n, b - a); }
    } else if b < a {
      assert 2 * n * (a - b) >= 2 * n by { LeftMul(2 * n, a - b); }
    }
  }

  lemma LeftMul(m: int, k: int)
    requires m > 0 && k >= 1
    ensures m * k >= m
  {
  }
}

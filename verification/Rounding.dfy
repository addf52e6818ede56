/**
 How the program turns fractions into whole amounts (payroll/utils.py and static/js/app.js).
 Percents are integers scaled by 10 000, the four decimals `parse_percent` keeps, so that
 amount * percent / 100 is the exact fraction amount * p / 1 000 000.
 */
module Rounding {
  import opened Arithmetic

  const PERCENT_SCALE := 10_000

  /** 100 %, scaled. */
  const WHOLE := 1_000_000

  /** Python's `round`: nearest integer to n / d, ties to even. */
  function RoundHalfEven(n: int, d: int): (x: int)
    requires d > 0
    ensures n >= 0 ==> x >= 0
  {
    var q, r := n / d, n % d;
    if 2 * r < d || (2 * r == d && q % 2 == 0) then q else q + 1
  }

  /** JavaScript's `Math.round`: nearest integer to n / d, ties up. */
  function RoundHalfUp(n: int, d: int): int
    requires d > 0
  {
    var q, r := n / d, n % d;
    if 2 * r < d then q else q + 1
  }

  predicate OnHalf(n: int, d: int)
    requires d > 0
  {
    2 * (n % d) == d
  }

  /** `x` is a nearest integer to n / d. */
  predicate Nearest(x: int, n: int, d: int) {
    -d <= 2 * (d * x - n) <= d
  }

  lemma RoundsToNearest(n: int, d: int)
    requires d > 0
    ensures Nearest(RoundHalfEven(n, d), n, d) && Nearest(RoundHalfUp(n, d), n, d)
  {
    var q := n / d;
    assert d * (q + 1) == d * q + d;
  }

  /** Only on an exact half are there two nearest integers, and there the two rules may differ by one. */
  lemma RoundingsCompare(n: int, d: int)
    requires d > 0
    ensures RoundHalfUp(n, d) == RoundHalfEven(n, d) + (if OnHalf(n, d) && n / d % 2 == 0 then 1 else 0)
  {
  }

  lemma NearestOrder(x: int, m: int, y: int, n: int, d: int)
    requires d > 0 && Nearest(x, m, d) && Nearest(y, n, d)
    ensures m < n ==> x <= y
  {
    assert d * (x - y) == d * x - d * y;
    MultipleIsFar(d, x - y);
  }

  lemma RoundingIsMonotone(m: int, n: int, d: int)
    requires d > 0 && m <= n
    ensures RoundHalfEven(m, d) <= RoundHalfEven(n, d)
  {
    if m < n {
      RoundsToNearest(m, d);
      RoundsToNearest(n, d);
      NearestOrder(RoundHalfEven(m, d), m, RoundHalfEven(n, d), n, d);
    }
  }

  lemma RoundingIsExact(x: int, d: int)
    requires d > 0
    ensures RoundHalfEven(x * d, d) == x && RoundHalfUp(x * d, d) == x
  {
    Divided(x * d, d, x, 0);
  }

  /** Scaling the fraction by k leaves the rounding alone. */
  lemma RoundingScales(n: int, d: int, k: int)
    requires d > 0 && k > 0
    ensures k * d > 0
    ensures RoundHalfEven(k * n, k * d) == RoundHalfEven(n, d)
    ensures RoundHalfUp(k * n, k * d) == RoundHalfUp(n, d)
    ensures OnHalf(k * n, k * d) <==> OnHalf(n, d)
  {
    QuotientScales(n, d, k);
    var r := n % d;
    assert k * (d - 2 * r) == k * d - 2 * (k * r);
    MultipleIsFar(k, d - 2 * r);
  }

  lemma QuotientScales(n: int, d: int, k: int)
    requires d > 0 && k > 0
    ensures k * d > 0 && k * n / (k * d) == n / d && k * n % (k * d) == k * (n % d)
  {
    var q, r := n / d, n % d;
    MultipleIsFar(k, d);
    MultipleIsFar(k, r);
    MultipleIsFar(k, d - r);
    assert k * (d - r) == k * d - k * r;
    ProductRegroups(k, d, q, r);
    Divided(k * n, k * d, q, k * r);
  }

  lemma ProductRegroups(k: int, d: int, q: int, r: int)
    ensures k * (d * q + r) == k * d * q + k * r
  {
  }
}

/** Integer facts shared by the calendar and the money arithmetic. */
module Arithmetic {

  lemma MultipleIsFar(k: int, d: int)
    requires k > 0
    ensures d >= 1 ==> k * d >= k
    ensures d <= -1 ==> k * d <= -k
  {
  }

  /** Quotient and remainder are determined by the division equation. */
  lemma Divided(x: int, k: int, q: int, r: int)
    requires x == k * q + r && 0 <= r < k
    ensures x / k == q && x % k == r
  {
    var d := q - x / k;
    assert k * d == x % k - r;
    MultipleIsFar(k, d);
  }

  lemma MulOrder(a: int, b: int, c: int)
    requires a >= 0 && b <= c
    ensures a * b <= a * c
  {
  }

  lemma MulDistributes(a: int, b: int, c: int)
    ensures a * (b + c) == a * b + a * c
    ensures a * (b - c) == a * b - a * c
  {
  }
}

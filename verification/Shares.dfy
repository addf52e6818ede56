/**
 The split of a project's labour amount among its workers (payroll/utils.py): each percent row is
 rounded on its own, so the sum of the shares can drift from the exact fraction. The lemmas say by
 how much, for any number of rows.
 */
module Shares {
  import opened Arithmetic
  import opened Rounding

  function WorkerShare(labor: int, percent: int): int {
    RoundHalfEven(labor * percent, WHOLE)
  }

  /** The percent shown for a fixed amount; four decimals of amount * 100 / labor. */
  function EquivalentPercent(amount: int, labor: nat): int {
    if labor == 0 then 0 else RoundHalfEven(amount * WHOLE, labor)
  }

  function Sum(xs: seq<int>): int {
    if xs == [] then 0 else Sum(xs[..|xs| - 1]) + xs[|xs| - 1]
  }

  /** The shares of a list of percents, their total, and what is left for the shop. */
  function ComputeShares(labor: int, percents: seq<int>): (seq<int>, int, int) {
    var shares := seq(|percents|, i requires 0 <= i < |percents| => WorkerShare(labor, percents[i]));
    (shares, Sum(shares), labor - Sum(shares))
  }

  lemma ProductInOrder(a: int, b: int, c: int, d: int)
    requires 0 <= a <= c && 0 <= b <= d
    ensures 0 <= a * b <= c * d
  {
    MulOrder(b, a, c);
    MulOrder(c, b, d);
    MulOrder(a, 0, b);
  }

  lemma ShareIsMonotone(labor: int, percent: int, labor': int, percent': int)
    requires 0 <= labor <= labor' && 0 <= percent <= percent'
    ensures WorkerShare(labor, percent) <= WorkerShare(labor', percent')
  {
    ProductInOrder(labor, percent, labor', percent');
    RoundingIsMonotone(labor * percent, labor' * percent', WHOLE);
  }

  /** Any percent from 0 to 100 gives a share between nothing and everything, both ends attained. */
  lemma ShareWithinLabor(labor: int, percent: int)
    requires 0 <= labor && 0 <= percent <= WHOLE
    ensures 0 <= WorkerShare(labor, percent) <= labor
    ensures WorkerShare(labor, 0) == 0 && WorkerShare(labor, WHOLE) == labor
  {
    RoundingIsExact(0, WHOLE);
    RoundingIsExact(labor, WHOLE);
    ShareIsMonotone(labor, 0, labor, percent);
    ShareIsMonotone(labor, percent, labor, WHOLE);
  }

  /** It is the percent nearest to the amount's part of the labour amount, and 0 where there is no labour. */
  lemma EquivalentPercentIsNearest(amount: int, labor: nat)
    ensures labor == 0 ==> EquivalentPercent(amount, labor) == 0
    ensures labor > 0 ==>
              -1 * labor <= 2 * (labor * EquivalentPercent(amount, labor) - amount * WHOLE) <= labor
  {
    hide RoundHalfEven;
    if labor > 0 { RoundsToNearest(amount * WHOLE, labor); }
  }

  lemma EquivalentPercentInRange(amount: int, labor: nat)
    requires 0 <= amount <= labor
    ensures 0 <= EquivalentPercent(amount, labor) <= WHOLE
  {
    if labor > 0 {
      RoundingIsExact(0, labor);
      RoundingIsExact(WHOLE, labor);
      ProductInOrder(0, WHOLE, amount, WHOLE);
      ProductInOrder(amount, WHOLE, labor, WHOLE);
      RoundingIsMonotone(0, amount * WHOLE, labor);
      RoundingIsMonotone(amount * WHOLE, labor * WHOLE, labor);
    }
  }

  /** The total of n rounded shares lies within n/2 of the exact labor * (sum of percents) / 100. */
  lemma {:induction false} SplitBound(labor: int, percents: seq<int>)
    ensures
      var total := ComputeShares(labor, percents).1;
      -|percents| * WHOLE <= 2 * (WHOLE * total - labor * Sum(percents)) <= |percents| * WHOLE
  {
    if percents != [] {
      var n := |percents| - 1;
      var front, last := percents[..n], percents[n];
      SplitBound(labor, front);
      assert ComputeShares(labor, percents).0 == ComputeShares(labor, front).0 + [WorkerShare(labor, last)];
      var shares := ComputeShares(labor, percents).0;
      assert shares[..n] == ComputeShares(labor, front).0;
      RoundsToNearest(labor * last, WHOLE);
      assert Sum(percents) == Sum(front) + last;
      MulDistributes(labor, Sum(front), last);
    }
  }

  /** Percents that add up to at most 100 overshoot the labour amount by at most half a unit a row. */
  lemma SplitOvershoot(labor: int, percents: seq<int>)
    requires labor >= 0 && Sum(percents) <= WHOLE
    ensures ComputeShares(labor, percents).1 <= labor + |percents| / 2
    ensures ComputeShares(labor, percents).2 >= -(|percents| / 2)
  {
    SplitBound(labor, percents);
    MulOrder(labor, Sum(percents), WHOLE);
  }

  /** The bound is attained: halves of 3 are 2 and 2. */
  lemma OvershootAttained()
    ensures Sum([500_000, 500_000]) == WHOLE
    ensures ComputeShares(3, [500_000, 500_000]).1 == 3 + 2 / 2
  {
    var ps := [500_000, 500_000];
    assert ps[..1] == [500_000] && ps[..1][..0] == [];
    var shares := ComputeShares(3, ps).0;
    assert shares == [2, 2];
    assert [2][..0] == [] && Sum([2]) == 2;
    assert shares[..1] == [2] && Sum(shares) == 4;
  }

  /** A split that passes the server's check exceeds 100 % by no more than rounding explains. */
  lemma AcceptedSplit(labor: int, percents: seq<int>)
    requires ComputeShares(labor, percents).1 <= labor
    ensures 2 * (labor * (Sum(percents) - WHOLE)) <= |percents| * WHOLE
  {
    SplitBound(labor, percents);
    MulDistributes(labor, Sum(percents), WHOLE);
  }
}

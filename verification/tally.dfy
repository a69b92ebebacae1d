/**
 * `getVotePercentage(votes, total)` of both voting pages:
 * `Math.round(votes / total * 100)`, or 0 for an empty tally. For the
 * non-negative quotient `x`, `Math.round(x)` is `floor(x + 1/2)`, which on
 * exact rationals is the integer quotient below.
 */
module Tally {

  /**
   * The percentage shown for `votes` out of `total`, rounded half up:
   * p - 1/2 <= 100 * votes / total < p + 1/2, scaled by 2 * total.
   */
  function Percentage(votes: nat, total: nat): (p: nat)
    ensures total == 0 ==> p == 0
    ensures total > 0 ==> p * (2 * total) <= 200 * votes + total < p * (2 * total) + 2 * total
  {
    if total == 0 then 0 else (200 * votes + total) / (2 * total)
  }

  /** Dividing both sides of a strict inequality by a positive factor. */
  lemma CancelPositive(a: int, b: int, t: int)
    requires t > 0 && a * t < b * t
    ensures a < b
  {
  }

  /** A share of a non-empty tally is between 0 and 100 percent; all of it is 100. */
  lemma PercentageBounds(votes: nat, total: nat)
    requires 0 < total && votes <= total
    ensures Percentage(votes, total) <= 100
    ensures votes == total ==> Percentage(votes, total) == 100
  {
    var p, t2 := Percentage(votes, total), 2 * total;
    assert p * t2 < 101 * t2;
    CancelPositive(p, 101, t2);
    if votes == total {
      assert 99 * t2 < p * t2;
      CancelPositive(99, p, t2);
    }
  }

  /** More votes out of the same total never show a smaller percentage. */
  lemma PercentageMonotone(a: nat, b: nat, total: nat)
    requires a <= b
    ensures Percentage(a, total) <= Percentage(b, total)
  {
    if total > 0 {
      var pa, pb, t2 := Percentage(a, total), Percentage(b, total), 2 * total;
      assert (pb + 1) * t2 == pb * t2 + t2;
      assert pa * t2 < (pb + 1) * t2;
      CancelPositive(pa, pb + 1, t2);
    }
  }

  /**
   * The two shares of a two-way tally add up to 100 percent, or to 101 when
   * both sit exactly on a half: rounding never loses a percent.
   */
  lemma ComplementaryPercentages(a: nat, b: nat)
    requires a + b > 0
    ensures 100 <= Percentage(a, a + b) + Percentage(b, a + b) <= 101
  {
    var t := a + b;
    var pa, pb, t2 := Percentage(a, t), Percentage(b, t), 2 * t;
    var sum := pa * t2 + pb * t2;
    assert (pa + pb) * t2 == sum;
    assert sum < 102 * t2;
    CancelPositive(pa + pb, 102, t2);
    assert 99 * t2 < sum;
    CancelPositive(99, pa + pb, t2);
  }
}

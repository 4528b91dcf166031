/**
 * The one rounding rule every report applies at presentation time:
 * JavaScript's Math.round on an exact ratio, and the percentage rates built on it.
 * Math.round(x) is the integer nearest to x with halves rounded up, i.e. floor(x + 1/2),
 * for negative x as well.
 */
module Rounding {

  /** Math.round(p / q) for a positive denominator. */
  function RoundDiv(p: int, q: int): (r: int)
    requires q > 0
    ensures 2 * q * r <= 2 * p + q < 2 * q * (r + 1)
  {
    var d := (2 * p + q) / (2 * q);
    assert 2 * p + q == (2 * q) * d + (2 * p + q) % (2 * q);
    d
  }

  /** Math.round((part / whole) * 100), and 0 instead of a division by zero. */
  function Rate(part: int, whole: int): (r: int)
    ensures whole <= 0 ==> r == 0
    ensures 0 <= part <= whole ==> 0 <= r <= 100
  {
    if whole > 0 then
      RateBounds(part, whole);
      RoundDiv(100 * part, whole)
    else 0
  }

  /** A share of a positive whole rounds to a percentage in [0, 100]. */
  lemma RateBounds(part: int, whole: int)
    requires whole > 0
    ensures 0 <= part <= whole ==> 0 <= RoundDiv(100 * part, whole) <= 100
  {
    if 0 <= part <= whole {
      assert 0 * whole <= 100 * part <= 100 * whole;
      RoundDivMonotone(0 * whole, 100 * part, whole);
      RoundDivMonotone(100 * part, 100 * whole, whole);
      RoundDivExact(0, whole);
      RoundDivExact(100, whole);
    }
  }

  /** Cancelling a positive factor from a strict inequality between products. */
  lemma MulStrictCancel(c: int, a: int, b: int)
    requires c > 0 && c * a < c * b
    ensures a < b
  {
  }

  /** The integer characterisation in RoundDiv's contract is exactly floor(p / q + 1/2). */
  lemma RoundDivIsMathRound(p: int, q: int)
    requires q > 0
    ensures RoundDiv(p, q) == ((p as real) / (q as real) + 0.5).Floor
  {
    var r := RoundDiv(p, q);
    var x := (p as real) / (q as real) + 0.5;
    assert (2 * q * r) as real <= (2 * p + q) as real < (2 * q * (r + 1)) as real;
    assert x * (2 * q) as real == (2 * p + q) as real;
    assert (r as real) * (2 * q) as real <= x * (2 * q) as real;
    assert x * (2 * q) as real < ((r + 1) as real) * (2 * q) as real;
    assert r as real <= x < (r + 1) as real;
  }

  /** Two integers meeting RoundDiv's characterisation are equal: the nearest integer is unique. */
  lemma {:induction false} RoundDivUnique(p: int, q: int, r: int)
    requires q > 0
    requires 2 * q * r <= 2 * p + q < 2 * q * (r + 1)
    ensures RoundDiv(p, q) == r
  {
    var s := RoundDiv(p, q);
    MulStrictCancel(2 * q, s, r + 1);
    MulStrictCancel(2 * q, r, s + 1);
  }

  /** Rounding a whole number of units gives that number back. */
  lemma RoundDivExact(k: int, q: int)
    requires q > 0
    ensures RoundDiv(k * q, q) == k
  {
    assert 2 * q * k <= 2 * (k * q) + q < 2 * q * (k + 1);
    RoundDivUnique(k * q, q, k);
  }

  /** Rounding never reverses an order. */
  lemma RoundDivMonotone(p1: int, p2: int, q: int)
    requires q > 0 && p1 <= p2
    ensures RoundDiv(p1, q) <= RoundDiv(p2, q)
  {
    var r1, r2 := RoundDiv(p1, q), RoundDiv(p2, q);
    assert 2 * q * r1 < 2 * q * (r2 + 1);
    MulStrictCancel(2 * q, r1, r2 + 1);
  }

  /** Scaling numerator and denominator alike does not change the rounded ratio. */
  lemma RoundDivScale(p: int, q: int, k: int)
    requires q > 0 && k > 0
    ensures RoundDiv(k * p, k * q) == RoundDiv(p, q)
  {
    var r := RoundDiv(p, q);
    assert 2 * q * r <= 2 * p + q < 2 * q * (r + 1);
    assert k * (2 * q * r) <= k * (2 * p + q) < k * (2 * q * (r + 1));
    assert 2 * (k * q) * r <= 2 * (k * p) + k * q < 2 * (k * q) * (r + 1);
    RoundDivUnique(k * p, k * q, r);
  }

  /**
   * A rate is scale-invariant: multiplying both the part and the whole by the same
   * positive factor leaves it unchanged.
   */
  lemma RateScaleInvariant(part: int, whole: int, k: int)
    requires k > 0
    ensures Rate(k * part, k * whole) == Rate(part, whole)
  {
    if whole > 0 {
      assert k * whole > 0;
      assert 100 * (k * part) == k * (100 * part);
      RoundDivScale(100 * part, whole, k);
    } else {
      assert k * whole <= 0;
    }
  }

  /** A ratio of a total to a count that lies between count*lo and count*hi rounds between lo and hi. */
  lemma RoundDivBetween(total: int, n: int, unit: int, lo: int, hi: int)
    requires n > 0 && unit > 0
    requires n * lo <= total <= n * hi
    ensures RoundDiv(lo, unit) <= RoundDiv(total, n * unit) <= RoundDiv(hi, unit)
  {
    RoundDivScale(lo, unit, n);
    RoundDivScale(hi, unit, n);
    assert n * lo <= total <= n * hi;
    RoundDivMonotone(n * lo, total, n * unit);
    RoundDivMonotone(total, n * hi, n * unit);
  }
}

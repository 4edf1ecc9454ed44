/**
 Decimal rounding of exact rationals.

 numpy's `np.round(x, 2)` scales by 100, rounds to the nearest integer with
 ties going to the even neighbour, and scales back. The model applies this
 rule to exact `real` values, for polars' `round(2)` as well, although some
 polars versions send ties away from zero instead.
 */
module Rounding {

  /** The nearest integer to `x`; an exact tie goes to the even neighbour. */
  function RoundHalfEven(x: real): (n: int)
    ensures x - 0.5 <= n as real <= x + 0.5
    ensures (n as real == x - 0.5 || n as real == x + 0.5) ==> n % 2 == 0
  {
    var f := x.Floor;
    var d := x - f as real;
    if d < 0.5 then f
    else if d > 0.5 then f + 1
    else if f % 2 == 0 then f
    else f + 1
  }

  /** Rounding never reverses the order of two values. */
  lemma RoundHalfEvenMonotone(x: real, y: real)
    requires x <= y
    ensures RoundHalfEven(x) <= RoundHalfEven(y)
  {
    var fx, fy := x.Floor, y.Floor;
    if fx == fy {
      assert x - fx as real <= y - fy as real;
    } else {
      assert fx + 1 <= fy;
    }
  }

  /** An integral value is its own rounding. */
  lemma RoundHalfEvenOfInt(k: int)
    ensures RoundHalfEven(k as real) == k
  {
    assert (k as real).Floor == k;
  }

  /** `x` rounded to two decimal places. */
  function Round2(x: real): (r: real)
    ensures x - 0.005 <= r <= x + 0.005
    ensures (r * 100.0).Floor as real == r * 100.0
    ensures (r * 100.0 == x * 100.0 - 0.5 || r * 100.0 == x * 100.0 + 0.5) ==> (r * 100.0).Floor % 2 == 0
  {
    var n := RoundHalfEven(x * 100.0);
    assert (n as real / 100.0) * 100.0 == n as real;
    assert (n as real).Floor == n;
    n as real / 100.0
  }

  /** Two-decimal rounding is monotone. */
  lemma Round2Monotone(x: real, y: real)
    requires x <= y
    ensures Round2(x) <= Round2(y)
  {
    RoundHalfEvenMonotone(x * 100.0, y * 100.0);
  }

  /** A value that already has at most two decimals (`k / 100`) is unchanged. */
  lemma Round2OfHundredths(k: int)
    ensures Round2(k as real / 100.0) == k as real / 100.0
  {
    assert (k as real / 100.0) * 100.0 == k as real;
    RoundHalfEvenOfInt(k);
  }

  /** Rounding maps the unit interval into itself, fixing both ends. */
  lemma Round2UnitInterval(x: real)
    requires 0.0 <= x <= 1.0
    ensures 0.0 <= Round2(x) <= 1.0
    ensures x == 0.0 ==> Round2(x) == 0.0
    ensures x == 1.0 ==> Round2(x) == 1.0
  {
    Round2Monotone(0.0, x);
    Round2Monotone(x, 1.0);
    Round2OfHundredths(0);
    Round2OfHundredths(100);
  }
}

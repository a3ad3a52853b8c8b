/**
 * The rounding rule of the bot: `round` rounds half away from zero to an
 * integer, and `toFixed` rounds to a given number of decimal digits.
 * Both are stated over exact reals; the float64 representation error of the
 * original is not part of this model.
 */
module Rounding {

  /** Conversion of a real to an integer by truncation toward zero (Go's `int(f)`). */
  function Trunc(x: real): (n: int)
    ensures x >= 0.0 ==> n as real <= x < n as real + 1.0
    ensures x < 0.0 ==> n as real - 1.0 < x <= n as real
  {
    if x >= 0.0 then x.Floor else -((-x).Floor)
  }

  /** `math.Copysign(0.5, num)`: one half carrying the sign of `num` (zero counts as positive). */
  function HalfWithSignOf(num: real): (h: real)
    ensures h == 0.5 || h == -0.5
    ensures h < 0.0 <==> num < 0.0
  {
    if num < 0.0 then -0.5 else 0.5
  }

  /** `round(num)`: add a half with the sign of `num`, then truncate toward zero. */
  function Round(num: real): int
  {
    Trunc(num + HalfWithSignOf(num))
  }

  /** Independent description of rounding half away from zero: `n` is within one
      half of `x`, and a tie is resolved to the integer farther from zero. */
  ghost predicate RoundsHalfAwayFromZero(x: real, n: int)
  {
    if x >= 0.0 then x - 0.5 < n as real <= x + 0.5
    else x - 0.5 <= n as real < x + 0.5
  }

  /** `math.Pow(10, float64(precision))` for an integer exponent, exactly. */
  function Pow10(p: int): (r: real)
    ensures r > 0.0
    decreases if p < 0 then -p else p
  {
    if p == 0 then 1.0
    else if p > 0 then 10.0 * Pow10(p - 1)
    else Pow10(p + 1) / 10.0
  }

  /** `toFixed(num, precision)`: scale, round, scale back. */
  function ToFixed(num: real, precision: int): real
  {
    var scale := Pow10(precision);
    Round(num * scale) as real / scale
  }

  /** `round` meets the description of rounding half away from zero, and is the
      only integer that does. */
  lemma RoundIsHalfAwayFromZero(x: real, n: int)
    ensures RoundsHalfAwayFromZero(x, Round(x))
    ensures RoundsHalfAwayFromZero(x, n) ==> n == Round(x)
  {
  }

  /** `round` is odd: rounding the negation negates the rounding. */
  lemma RoundIsOdd(x: real)
    ensures Round(-x) == -Round(x)
  {
  }

  /** `round` moves its argument by at most one half. */
  lemma RoundIsNearest(x: real)
    ensures -0.5 <= Round(x) as real - x <= 0.5
  {
  }

  /** Rounding an integer gives it back. */
  lemma RoundOfInteger(n: int)
    ensures Round(n as real) == n
  {
  }

  /** Ties go away from zero. */
  lemma RoundTies()
    ensures Round(2.5) == 3 && Round(-2.5) == -3
    ensures Round(0.5) == 1 && Round(-0.5) == -1
  {
  }

  /** To one digit, `toFixed` is `round` applied to ten times the value, divided by ten;
      the result is a whole number of tenths, within a twentieth of the input, with ties
      away from zero. */
  lemma ToFixedOneDigit(x: real)
    ensures ToFixed(x, 1) == Round(10.0 * x) as real / 10.0
    ensures RoundsHalfAwayFromZero(10.0 * x, Round(10.0 * x))
    ensures -0.05 <= ToFixed(x, 1) - x <= 0.05
  {
    assert Pow10(1) == 10.0;
    assert x * 10.0 == 10.0 * x;
    var n := Round(10.0 * x);
    RoundIsHalfAwayFromZero(10.0 * x, n);
    assert -0.5 <= n as real - 10.0 * x <= 0.5;
    assert ToFixed(x, 1) - x == (n as real - 10.0 * x) / 10.0;
  }

  /** A whole number of tenths is left as it is by `toFixed(_, 1)`. */
  lemma ToFixedOfTenths(k: int)
    ensures ToFixed(k as real / 10.0, 1) == k as real / 10.0
  {
    ToFixedOneDigit(k as real / 10.0);
    assert 10.0 * (k as real / 10.0) == k as real;
    RoundOfInteger(k);
  }

  /** `toFixed(_, 1)` is idempotent. */
  lemma ToFixedIdempotent(x: real)
    ensures ToFixed(ToFixed(x, 1), 1) == ToFixed(x, 1)
  {
    ToFixedOneDigit(x);
    ToFixedOfTenths(Round(10.0 * x));
  }

  /** Worked values: 2.25 and 7.25 round up to 2.3 and 7.3, -2.25 to -2.3, 2.249 to 2.2. */
  lemma ToFixedExamples()
    ensures ToFixed(2.25, 1) == 2.3
    ensures ToFixed(-2.25, 1) == -2.3
    ensures ToFixed(2.249, 1) == 2.2
    ensures ToFixed(7.25, 1) == 7.3
  {
    ToFixedOneDigit(2.25);
    ToFixedOneDigit(-2.25);
    ToFixedOneDigit(2.249);
    ToFixedOneDigit(7.25);
    RoundIsHalfAwayFromZero(22.5, 23);
    RoundIsHalfAwayFromZero(-22.5, -23);
    RoundIsHalfAwayFromZero(22.49, 22);
    RoundIsHalfAwayFromZero(72.5, 73);
  }
}

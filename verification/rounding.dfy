/**
 * Python's `round` on exact reals.  `round(x)` returns the nearest integer and
 * `round(x, n)` the nearest multiple of 10^-n, both breaking ties towards an
 * even last digit.  Binary floating point is not modelled: the operand is the
 * exact real the program meant.
 */
module Rounding {

  /** `round(x)`: the nearest integer, ties to even. */
  function RoundHalfEven(x: real): (n: int)
    ensures -0.5 <= n as real - x <= 0.5
    ensures n as real - x == 0.5 || x - n as real == 0.5 ==> n % 2 == 0
  {
    var f := x.Floor;
    var frac := x - f as real;
    if frac < 0.5 then f
    else if frac > 0.5 then f + 1
    else if f % 2 == 0 then f else f + 1
  }

  /** The rounding is determined: any integer strictly closer than one half is the result. */
  lemma RoundHalfEvenNearest(x: real, n: int)
    requires -0.5 < n as real - x < 0.5
    ensures RoundHalfEven(x) == n
  {
  }

  /** Rounding never decreases when its argument grows. */
  lemma RoundHalfEvenMonotone(x: real, y: real)
    requires x <= y
    ensures RoundHalfEven(x) <= RoundHalfEven(y)
  {
  }

  function Pow10(digits: nat): (p: nat)
    ensures p >= 1
  {
    if digits == 0 then 1 else 10 * Pow10(digits - 1)
  }

  /** `round(x, digits)`: the nearest multiple of 10^-digits, ties to even. */
  function RoundTo(x: real, digits: nat): (r: real)
    ensures -0.5 / Pow10(digits) as real <= r - x <= 0.5 / Pow10(digits) as real
  {
    var p := Pow10(digits) as real;
    var n := RoundHalfEven(x * p);
    ScaledDistance(n as real, x, p);
    n as real / p
  }

  /** Dividing by a positive scale turns a distance on the scaled axis into one on the original axis. */
  lemma ScaledDistance(a: real, x: real, p: real)
    requires p > 0.0
    requires -0.5 <= a - x * p <= 0.5
    ensures -0.5 / p <= a / p - x <= 0.5 / p
  {
    assert a / p - x == (a - x * p) / p;
    DivideMonotone(-0.5, a - x * p, p);
    DivideMonotone(a - x * p, 0.5, p);
  }

  lemma DivideMonotone(u: real, v: real, p: real)
    requires u <= v && p > 0.0
    ensures u / p <= v / p
  {
  }

  /** `round(x, 1)`: a whole number of tenths within 0.05 of `x`, an even number when `x` is halfway. */
  function Round1(x: real): (r: real)
    ensures -0.05 <= r - x <= 0.05
    ensures (r * 10.0).Floor as real == r * 10.0
    ensures r - x == 0.05 || x - r == 0.05 ==> (r * 10.0).Floor % 2 == 0
  {
    assert Pow10(1) == 10;
    var n := RoundHalfEven(x * 10.0);
    assert RoundTo(x, 1) == n as real / 10.0;
    RoundTo(x, 1)
  }

  /** `round(x, 2)`: a whole number of hundredths within 0.005 of `x`, an even number when `x` is halfway. */
  function Round2(x: real): (r: real)
    ensures -0.005 <= r - x <= 0.005
    ensures (r * 100.0).Floor as real == r * 100.0
    ensures r - x == 0.005 || x - r == 0.005 ==> (r * 100.0).Floor % 2 == 0
  {
    assert Pow10(2) == 100;
    var n := RoundHalfEven(x * 100.0);
    assert RoundTo(x, 2) == n as real / 100.0;
    RoundTo(x, 2)
  }
}

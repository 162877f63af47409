/** Python 3's built-in `round`, on exact reals. */
module Rounding {

  /** `n` is a nearest integer to `x`, and on a tie it is the even one. */
  predicate IsHalfEvenRounding(x: real, n: int) {
    && -0.5 <= x - n as real <= 0.5
    && ((x - n as real == 0.5 || n as real - x == 0.5) ==> n % 2 == 0)
  }

  /** `round(x)`: nearest integer, ties to even (banker's rounding). */
  function RoundHalfEven(x: real): (n: int)
    ensures IsHalfEvenRounding(x, n)
  {
    var f := x.Floor;
    var frac := x - f as real;
    if frac < 0.5 then f
    else if frac > 0.5 then f + 1
    else if f % 2 == 0 then f
    else f + 1
  }

  /** There is only one half-even rounding of a real, so RoundHalfEven is exactly Python's round. */
  lemma RoundHalfEvenUnique(x: real, n: int)
    requires IsHalfEvenRounding(x, n)
    ensures n == RoundHalfEven(x)
  {
    var r := RoundHalfEven(x);
    if n != r {
      assert false;
    }
  }

  /** An integral real rounds to itself. */
  lemma RoundHalfEvenOfInteger(k: int)
    ensures RoundHalfEven(k as real) == k
  {
    RoundHalfEvenUnique(k as real, k);
  }

  /** `x * 100` is a whole number: `x` is an exact amount of hundredths. */
  predicate IsHundredths(x: real) {
    (x * 100.0).Floor as real == x * 100.0
  }

  /** `r` is a whole number of hundredths, and that number is the half-even
      rounding of `x * 100`: a tie goes to the even hundredth. */
  predicate IsHalfEvenHundredths(x: real, r: real) {
    IsHundredths(r) && IsHalfEvenRounding(x * 100.0, (r * 100.0).Floor)
  }

  /** `round(x, 2)`: `x` rounded half-even to two decimal places. */
  function Round2(x: real): (r: real)
    ensures -0.005 <= r - x <= 0.005
    ensures IsHundredths(r)
    ensures IsHalfEvenHundredths(x, r)
  {
    var n := RoundHalfEven(x * 100.0);
    Hundredths(x, n);
    n as real / 100.0
  }

  /** `n` hundredths, `n` a half-even rounding of `x * 100`, is within half a
      hundredth of `x` and has `n` as its number of hundredths. */
  lemma Hundredths(x: real, n: int)
    requires IsHalfEvenRounding(x * 100.0, n)
    ensures -0.005 <= n as real / 100.0 - x <= 0.005
    ensures (n as real / 100.0) * 100.0 == n as real
    ensures ((n as real / 100.0) * 100.0).Floor == n
  {
  }

  /** Only one amount of hundredths is a half-even rounding of `x`, so Round2
      is exactly `round(x, 2)`. */
  lemma Round2Unique(x: real, r: real)
    requires IsHalfEvenHundredths(x, r)
    ensures r == Round2(x)
  {
    var n := (r * 100.0).Floor;
    RoundHalfEvenUnique(x * 100.0, n);
    assert r == n as real / 100.0;
  }

  /** A tie goes to the even hundredth: 0.125 rounds to 0.12, not 0.13. */
  lemma Round2Tie()
    ensures Round2(0.125) == 0.12
  {
    assert IsHalfEvenRounding(12.5, 12);
    Round2Unique(0.125, 0.12);
  }
}

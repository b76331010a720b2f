/** Rounding of monetary amounts to two decimals, as the calculator applies
    to its whole table before returning it: to the nearest hundredth, a tie
    going to the even hundredth. */
module Rounding {

  function Abs(x: real): real
  {
    if x < 0.0 then -x else x
  }

  /** y is a whole number of hundredths. */
  predicate IsCents(y: real)
  {
    (y * 100.0).Floor as real == y * 100.0
  }

  /** y is a whole number of hundredths no further than half a hundredth from x. */
  predicate RoundedFrom(y: real, x: real)
  {
    IsCents(y) && -0.005 <= y - x <= 0.005
  }

  /** The integer nearest to y; when y lies exactly halfway between two
      integers, the even one. */
  function RoundHalfEven(y: real): (m: int)
    ensures -0.5 <= m as real - y <= 0.5
    ensures y - y.Floor as real == 0.5 ==> m % 2 == 0
  {
    var f := y.Floor;
    var fraction := y - f as real;
    if fraction < 0.5 then f
    else if fraction > 0.5 then f + 1
    else if f % 2 == 0 then f
    else f + 1
  }

  /** No integer is closer to y than RoundHalfEven(y). */
  lemma RoundHalfEvenIsNearest(y: real, k: int)
    ensures Abs(RoundHalfEven(y) as real - y) <= Abs(k as real - y)
  {
    var f := y.Floor;
    assert f as real <= y < f as real + 1.0;
    if k <= f - 1 {
      assert k as real - y <= -1.0 + (f as real - y);
    } else if k >= f + 2 {
      assert k as real - y >= 1.0;
    }
  }

  /** x rounded to two decimals. */
  function Round2(x: real): (y: real)
    ensures RoundedFrom(y, x)
  {
    var m := RoundHalfEven(x * 100.0);
    HundredthsAreCents(m, x);
    m as real / 100.0
  }

  lemma HundredthsAreCents(m: int, x: real)
    requires -0.5 <= m as real - x * 100.0 <= 0.5
    ensures RoundedFrom(m as real / 100.0, x)
  {
  }

  /** Rounding to cents never reverses an order: an amount strictly below
      another rounds to at most the other's rounded value. */
  lemma RoundedKeepsOrder(a: real, x: real, b: real, y: real)
    requires RoundedFrom(a, x) && RoundedFrom(b, y) && x < y
    ensures a <= b
  {
    var ca, cb := (a * 100.0).Floor, (b * 100.0).Floor;
    assert a - b < 0.01;
    assert (ca - cb) as real == (a - b) * 100.0;
    assert ca - cb < 1;
  }

  /** A non-negative amount never rounds to a negative number of cents. */
  lemma RoundedNonNegative(a: real, x: real)
    requires RoundedFrom(a, x) && x >= 0.0
    ensures a >= 0.0
  {
    var ca := (a * 100.0).Floor;
    assert ca as real > -1.0;
  }

  /** When two amounts add up to a third, their rounded values add up to
      the third's rounded value within one cent. */
  lemma RoundedSumWithinCent(a: real, x: real, b: real, y: real, c: real, z: real)
    requires RoundedFrom(a, x) && RoundedFrom(b, y) && RoundedFrom(c, z) && x + y == z
    ensures -0.01 <= a + b - c <= 0.01
  {
    var d := (a * 100.0).Floor + (b * 100.0).Floor - (c * 100.0).Floor;
    assert d as real == (a + b - c) * 100.0;
    assert -2 < d < 2;
  }

  /** Rounding leaves an amount that is already whole hundredths unchanged. */
  lemma RoundCentsUnchanged(x: real)
    requires IsCents(x)
    ensures Round2(x) == x
  {
  }
}

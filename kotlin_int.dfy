/**
 Kotlin's integer division and remainder operators on `Int`.

 Kotlin (like Java) truncates the quotient toward zero, so the remainder
 takes the sign of the dividend. Dafny's own `/` and `%` are Euclidean, so
 the two are written out here and shown to agree on non-negative dividends,
 which is all the clock ever divides.
 */
module KotlinInt {

  /** `a / b` on Kotlin `Int` for a positive divisor: the quotient truncated
      toward zero, so what is left over has the sign of the dividend and is
      smaller than the divisor. */
  function Div(a: int, b: int): (q: int)
    requires b > 0
    ensures a >= 0 ==> 0 <= a - q * b < b
    ensures a <= 0 ==> -b < a - q * b <= 0
  {
    if a >= 0 then
      EuclidBounds(a, b);
      a / b
    else
      EuclidBounds(-a, b);
      NegMul(-a / b, b);
      -(-a / b)
  }

  /** `a % b` on Kotlin `Int` for a positive divisor. */
  function Rem(a: int, b: int): (r: int)
    requires b > 0
    ensures Div(a, b) * b + r == a
    ensures a >= 0 ==> 0 <= r < b
    ensures a <= 0 ==> -b < r <= 0
  {
    a - Div(a, b) * b
  }

  lemma EuclidBounds(x: int, b: int)
    requires x >= 0 && b > 0
    ensures 0 <= x - (x / b) * b < b
  {
    assert x == (x / b) * b + x % b;
  }

  lemma NegMul(x: int, y: int)
    ensures (-x) * y == -(x * y)
  {
  }

  /** On a non-negative dividend, Kotlin's quotient and remainder coincide
      with the Euclidean ones. */
  lemma NonNegativeAgreesWithEuclid(a: int, b: int)
    requires 0 <= a && 0 < b
    ensures Div(a, b) == a / b
    ensures Rem(a, b) == a % b
  {
    assert a == (a / b) * b + a % b;
  }

  /** A non-zero multiple of a positive `b` is at least `b` away from 0. */
  lemma NonZeroMultiple(d: int, b: int)
    requires b > 0
    ensures d >= 1 ==> d * b >= b
    ensures d <= -1 ==> d * b <= -b
  {
    if d >= 1 {
      assert d * b == (d - 1) * b + b;
    } else if d <= -1 {
      assert d * b == (d + 1) * b - b;
    }
  }

  /** Two multiples of `b` that are less than `b` apart are equal. */
  lemma MultiplesApart(q0: int, q1: int, b: int)
    requires b > 0 && -b < q1 * b - q0 * b < b
    ensures q0 == q1
  {
    var d := q1 - q0;
    assert d * b == q1 * b - q0 * b;
    NonZeroMultiple(d, b);
  }

  /** The truncated quotient is the only one whose remainder is smaller than
      the divisor and carries the sign of the dividend. */
  lemma DivUnique(a: int, b: int, q: int, r: int)
    requires b > 0
    requires a == q * b + r
    requires a >= 0 ==> 0 <= r < b
    requires a <= 0 ==> -b < r <= 0
    ensures q == Div(a, b) && r == Rem(a, b)
  {
    MultiplesApart(Div(a, b), q, b);
  }
}

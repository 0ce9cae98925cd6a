/** Java's `int` division and remainder. Dafny's `/` and `%` are Euclidean;
    Java's truncate toward zero, so the two differ on negative dividends.
    Every divisor in the calculator is a positive constant. */
module JavaInt {

  /** Java `a / b` for b > 0: the quotient truncated toward zero, so it is
      rounded down for a non-negative dividend and up for a negative one, and
      it never has the opposite sign of the dividend. */
  function Div(a: int, b: int): (q: int)
    requires b > 0
    ensures a >= 0 ==> 0 <= a - b * q < b && q >= 0
    ensures a < 0 ==> -b < a - b * q <= 0 && q <= 0
  {
    if a >= 0 then a / b else -((-a) / b)
  }

  /** Java `a % b` for b > 0: the remainder takes the sign of a. */
  function Rem(a: int, b: int): (r: int)
    requires b > 0
    ensures a == b * Div(a, b) + r
    ensures a >= 0 ==> 0 <= r < b
    ensures a < 0 ==> -b < r <= 0
  {
    if a >= 0 then a % b else -((-a) % b)
  }
}

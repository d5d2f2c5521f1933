/** Java `int` arithmetic that the duration formatter relies on: the 32-bit
    range, the wrap-around of negation inside Math.abs, and division and
    remainder that truncate toward zero (section 15.17 of the Java Language
    Specification). Dafny's own `/` and `%` are Euclidean, so they are only
    used below on non-negative dividends. */
module JavaInt {

  const MinValue: int := -0x8000_0000
  const MaxValue: int := 0x7fff_ffff

  /** Values of Java's `int`. */
  type Int32 = x: int | MinValue <= x <= MaxValue

  const Modulus: int := 0x1_0000_0000

  /** Two's complement wrap-around of an unbounded result into the int range. */
  function Wrap(x: int): (r: Int32)
    ensures (x - r) % Modulus == 0
    ensures MinValue <= x <= MaxValue ==> r == x
  {
    var k := (x - MinValue) % Modulus;
    assert (x - MinValue) == ((x - MinValue) / Modulus) * Modulus + k;
    k + MinValue
  }

  /** Math.abs(int): the negation wraps, so the absolute value of the most
      negative int is that same negative int. */
  function Abs(x: Int32): (r: Int32)
    ensures x != MinValue ==> r >= 0 && (r == x || r == -x)
    ensures x == MinValue ==> r == MinValue
  {
    if x < 0 then Wrap(-(x as int)) else x
  }

  /** Java's `a / b` for a positive divisor: the quotient truncated toward
      zero, so it agrees with Euclidean division on a non-negative dividend
      and is the negation of the quotient of `-a` on a negative one. */
  function Div(a: int, b: int): (q: int)
    requires b > 0
    ensures a >= 0 ==> q * b <= a < q * b + b
    ensures a < 0 ==> q * b - b < a <= q * b
  {
    if a >= 0 then a / b else -((-a) / b)
  }

  /** Java's `a % b` for a positive divisor: the remainder left by Div, whose
      sign follows the dividend. */
  function Rem(a: int, b: int): (r: int)
    requires b > 0
    ensures a == Div(a, b) * b + r
    ensures -b < r < b
    ensures a >= 0 ==> 0 <= r && r == a % b
    ensures a < 0 ==> r <= 0
  {
    if a >= 0 then a % b else -((-a) % b)
  }
}

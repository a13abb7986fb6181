/**
 * Java's fixed-width integer arithmetic, stated over Dafny's unbounded `int`:
 * the ranges of `int` and `long`, two's-complement wrap-around on overflow and
 * narrowing, and the `/` operator, which truncates toward zero.
 */
module JavaNumbers {

  const TWO_TO_32: int := 0x1_0000_0000
  const TWO_TO_64: int := 0x1_0000_0000_0000_0000

  const INT_MIN: int := -0x8000_0000
  const INT_MAX: int := 0x7fff_ffff
  const LONG_MIN: int := -0x8000_0000_0000_0000
  const LONG_MAX: int := 0x7fff_ffff_ffff_ffff

  /** The values of a Java `int`. */
  type Int = x: int | -0x8000_0000 <= x <= 0x7fff_ffff

  /** The values of a Java `long`. */
  type Long = x: int | -0x8000_0000_0000_0000 <= x <= 0x7fff_ffff_ffff_ffff

  predicate InLongRange(x: int) {
    LONG_MIN <= x <= LONG_MAX
  }

  predicate InIntRange(x: int) {
    INT_MIN <= x <= INT_MAX
  }

  /**
   * The `long` a Java computation yields for the mathematical value `x`:
   * the one `long` congruent to `x` modulo 2^64.
   */
  function WrapLong(x: int): (r: Long)
    ensures (r - x) % TWO_TO_64 == 0
    ensures InLongRange(x) ==> r == x
  {
    (x - LONG_MIN) % TWO_TO_64 + LONG_MIN
  }

  /**
   * The `int` that a narrowing conversion of the integer `x` yields: the one
   * `int` congruent to `x` modulo 2^32 (its low-order 32 bits).
   */
  function WrapInt(x: int): (r: Int)
    ensures (r - x) % TWO_TO_32 == 0
    ensures InIntRange(x) ==> r == x
  {
    (x - INT_MIN) % TWO_TO_32 + INT_MIN
  }

  function Abs(x: int): int {
    if x < 0 then -x else x
  }

  /**
   * Java's integer quotient `a / d`: rounded toward zero, so the remainder
   * takes the sign of the dividend and is smaller in magnitude than the divisor.
   */
  function TruncDiv(a: int, d: int): (q: int)
    requires d != 0
    ensures a >= 0 ==> 0 <= a - q * d < Abs(d)
    ensures a < 0 ==> -Abs(d) < a - q * d <= 0
  {
    var m := Abs(a) / Abs(d);
    DivOfMagnitudes(Abs(a), Abs(d));
    NegateFactor(m, Abs(d));
    if (a < 0) == (d < 0) then m else -m
  }

  lemma DivOfMagnitudes(x: int, y: int)
    requires x >= 0 && y > 0
    ensures 0 <= x - (x / y) * y < y
  {
  }

  lemma NegateFactor(x: int, y: int)
    ensures (-x) * y == -(x * y) && x * (-y) == -(x * y) && (-x) * (-y) == x * y
  {
  }
}

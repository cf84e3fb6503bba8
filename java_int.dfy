/**
 * Java's 32-bit `int` and the few library operations on it that the order book
 * uses: two's-complement wrap-around of `-`, `Math.min`, `Math.abs` and the
 * remainder operator `%`, which truncates toward zero.
 */
module JavaInt {

  const INT_MIN: int := -0x8000_0000
  const INT_MAX: int := 0x7fff_ffff

  /** A Java `int`. */
  newtype int32 = x: int | -0x8000_0000 <= x < 0x8000_0000

  /** Two's-complement truncation of a mathematical integer to 32 bits. */
  function Wrap(x: int): (r: int32)
    ensures (r as int - x) % 0x1_0000_0000 == 0
    ensures INT_MIN <= x <= INT_MAX ==> r as int == x
  {
    ((x - INT_MIN) % 0x1_0000_0000 + INT_MIN) as int32
  }

  /** Java's `a - b` on `int`, which wraps around on overflow. */
  function Sub(a: int32, b: int32): (r: int32)
    ensures (r as int - (a as int - b as int)) % 0x1_0000_0000 == 0
    ensures INT_MIN <= a as int - b as int <= INT_MAX ==> r as int == a as int - b as int
    ensures r == 0 <==> a == b
  {
    Wrap(a as int - b as int)
  }

  /** `Math.min` on `int`. */
  function Min(a: int32, b: int32): (r: int32)
    ensures r <= a && r <= b
    ensures r == a || r == b
  {
    if a <= b then a else b
  }

  /** `Math.abs` on `int`: the most negative value has no positive counterpart and is returned unchanged. */
  function Abs(x: int32): (r: int32)
    ensures x == INT_MIN as int32 ==> r == x
    ensures x != INT_MIN as int32 ==> r >= 0 && (r == x || r as int == -(x as int))
  {
    if x < 0 && x != INT_MIN as int32 then -x else x
  }

  /** Java's `a / b` for a positive divisor: the quotient rounded toward zero. */
  function Quot(a: int32, b: int32): int
    requires b > 0
  {
    if a < 0 then -((-(a as int)) / b as int) else a as int / b as int
  }

  /**
   * Java's `a % b` for a positive divisor: the remainder of the division that
   * truncates toward zero, so it takes the sign of the dividend (unlike Dafny's
   * Euclidean `%`).  Together with `Quot` it satisfies Java's identity
   * `(a / b) * b + a % b == a`.
   */
  function Rem(a: int32, b: int32): (r: int32)
    requires b > 0
    ensures a >= 0 ==> 0 <= r < b
    ensures a < 0 ==> -(b as int) < r as int <= 0
    ensures Quot(a, b) * b as int + r as int == a as int
  {
    if a < 0 then (-((-(a as int)) % b as int)) as int32 else (a as int % b as int) as int32
  }
}

/** Java value types shared by the three producer plug-ins: nullable values,
    exception-or-value results, fixed-width integers and Java's `%`. */
module JavaTypes {

  /** A Java reference that may be `null`. */
  datatype Option<+T> = None | Some(value: T)

  /** The outcome of a Java call: a returned value or a thrown exception. */
  datatype Result<+T, +E> = Success(value: T) | Failure(error: E)

  const MIN_INT: int := -0x8000_0000
  const MAX_INT: int := 0x7fff_ffff

  /** Java `int`. */
  type int32 = x: int | -0x8000_0000 <= x < 0x8000_0000
  /** Java `long`. */
  type int64 = x: int | -0x8000_0000_0000_0000 <= x < 0x8000_0000_0000_0000
  /** One octet of a `byte[]` (Java prints it signed; the bits are the same). */
  type byte = b: int | 0 <= b < 0x100

  function Abs(x: int): int
  {
    if x < 0 then -x else x
  }

  /** Two's-complement truncation to 32 bits, which is what Java `int`
      arithmetic does on overflow. */
  function Wrap32(x: int): (r: int32)
    ensures (r - x) % 0x1_0000_0000 == 0
    ensures MIN_INT <= x <= MAX_INT ==> r == x
  {
    (x + 0x8000_0000) % 0x1_0000_0000 - 0x8000_0000
  }

  /** Java's `/` on integers: the quotient is truncated toward zero. */
  function Div(a: int, b: int): int
    requires b != 0
  {
    if 0 <= a then a / Abs(b) * Sign(b) else -((-a) / Abs(b)) * Sign(b)
  }

  function Sign(b: int): int
  {
    if b < 0 then -1 else 1
  }

  /** Java's `%` on integers: the remainder that goes with the truncated
      quotient, so it takes the sign of the dividend (Dafny's `%` is
      Euclidean, never negative). */
  function Rem(a: int, b: int): (r: int)
    requires b != 0
    ensures a == Div(a, b) * b + r
    ensures 0 <= a ==> 0 <= r < Abs(b)
    ensures a < 0 ==> -Abs(b) < r <= 0
  {
    if 0 <= a then a % Abs(b) else -((-a) % Abs(b))
  }

  /** Adding to an already wrapped value wraps to the same result as adding
      to the unwrapped one: 32-bit addition is addition modulo 2^32. */
  lemma Wrap32Add(x: int, y: int)
    ensures Wrap32(Wrap32(x) + y) == Wrap32(x + y)
  {
  }

  /** On a non-negative dividend and positive divisor, Java's `%` and
      Dafny's `%` agree. */
  lemma RemOfNonNegative(a: int, b: int)
    requires 0 <= a && 0 < b
    ensures Rem(a, b) == a % b
  {
  }
}

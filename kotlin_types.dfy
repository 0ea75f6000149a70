/**
 * The JVM primitive types the Android module works with, with their fixed widths
 * written out: Kotlin `Int` is 32-bit two's complement and `Byte` is 8-bit two's
 * complement, while Dafny integers are unbounded.
 */
module KotlinTypes {
  const IntMin: int := -0x8000_0000
  const IntMax: int := 0x7FFF_FFFF

  /** Kotlin `Int`. */
  type Int32 = x: int | IntMin <= x <= IntMax

  /** Kotlin `Byte`, the element type of `ByteArray`. */
  type Byte = x: int | -128 <= x <= 127

  /** `x.toInt()` for a `Double` holding the integral value `x`: values outside the `Int` range saturate. */
  function ToInt(x: int): Int32
  {
    if x < IntMin then IntMin else if x > IntMax then IntMax else x
  }

  /** Saturation keeps every value of the `Int` range, clamps on both sides of it and keeps the side of 1 a value lies on. */
  lemma ToIntKeepsRangeAndSign(x: int)
    ensures IntMin <= x <= IntMax ==> ToInt(x) == x
    ensures ToInt(x) >= 1 <==> x >= 1
    ensures ToInt(x) <= IntMax && (x > IntMax ==> ToInt(x) == IntMax)
    ensures ToInt(x) >= IntMin && (x < IntMin ==> ToInt(x) == IntMin)
  {
  }

  /** `x - 1` on `Int`, which wraps around from `Int.MIN_VALUE` to `Int.MAX_VALUE`. */
  function Minus1(x: Int32): (y: Int32)
    ensures (y - (x - 1)) % 0x1_0000_0000 == 0
  {
    if x == IntMin then IntMax else x - 1
  }

  /** The 32 bits of `x` read as an unsigned number. */
  function Bits(x: Int32): (u: nat)
    ensures u < 0x1_0000_0000
    ensures (u - x) % 0x1_0000_0000 == 0
  {
    if x < 0 then x + 0x1_0000_0000 else x
  }

  /** Bitwise and of two non-negative numbers, computed from the lowest bit up. */
  function BitAnd(a: nat, b: nat): nat
  {
    if a == 0 || b == 0 then 0
    else 2 * BitAnd(a / 2, b / 2) + (if a % 2 == 1 && b % 2 == 1 then 1 else 0)
  }

  /** A number and itself have all their bits in common. */
  lemma {:induction false} BitAndSelf(a: nat)
    ensures BitAnd(a, a) == a
  {
    if a != 0 {
      BitAndSelf(a / 2);
    }
  }

  /** `x and y` on `Int`, read as the unsigned pattern of its 32-bit result (zero exactly when the result is 0). */
  function And(x: Int32, y: Int32): nat
  {
    BitAnd(Bits(x), Bits(y))
  }

  /** The unsigned value of a byte, which `"%02x".format(b)` prints: `b` modulo 256. */
  function UnsignedByte(b: Byte): (u: nat)
    ensures u < 256 && u == b % 256
  {
    if b < 0 then b + 256 else b
  }

  /** The byte whose unsigned value is `u`, as a decoder into a `ByteArray` stores it. */
  function SignedByte(u: int): (b: Byte)
    requires 0 <= u < 256
    ensures b % 256 == u
  {
    if u < 128 then u else u - 256
  }

  /** `UnsignedByte` and `SignedByte` are inverse bijections between `Byte` and 0..255. */
  lemma ByteRoundTrips(b: Byte, u: int)
    requires 0 <= u < 256
    ensures SignedByte(UnsignedByte(b)) == b
    ensures UnsignedByte(SignedByte(u)) == u
  {
  }
}

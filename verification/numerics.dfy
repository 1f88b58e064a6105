/**
 Fixed-width integer behaviour of the Kotlin/JVM operations the inference
 pipeline relies on, written out over unbounded `int`: two's-complement
 wrap-around (`toByte()`, 32-bit `Int` subtraction), arithmetic right shift
 (`shr`) and masking with `0xFF`.
 */
module Numerics {

  /** A JVM `Byte`: a signed 8-bit value. */
  type Int8 = x: int | -0x80 <= x < 0x80

  /** A JVM `Int`: a signed 32-bit value. */
  type Int32 = x: int | -0x8000_0000 <= x < 0x8000_0000

  function Pow2(n: nat): (r: nat)
    ensures r > 0
  {
    if n == 0 then 1 else 2 * Pow2(n - 1)
  }

  /** `x.toByte()`: keeps the low eight bits and reads them as two's complement,
      so the result is the one signed byte congruent to `x` modulo 256. */
  function ToByte(x: int): (r: Int8)
    ensures (x - r) % 0x100 == 0
    ensures -0x80 <= x < 0x80 ==> r == x
  {
    (x + 0x80) % 0x100 - 0x80
  }

  /** 32-bit `Int` arithmetic result: the one `Int32` congruent to `x` modulo 2^32. */
  function WrapInt32(x: int): (r: Int32)
    ensures (x - r) % 0x1_0000_0000 == 0
    ensures -0x8000_0000 <= x < 0x8000_0000 ==> r == x
  {
    (x + 0x8000_0000) % 0x1_0000_0000 - 0x8000_0000
  }

  /** `x shr bits` on a two's-complement value: the sign bit is copied in from
      the left, which is division by 2^bits rounded toward negative infinity. */
  function ShiftRight(x: int, bits: nat): int {
    x / Pow2(bits)
  }

  /** The shifted value q is the one with 2^bits * q <= x < 2^bits * (q + 1):
      shifting rounds toward negative infinity, also for negative `x`. */
  lemma ShiftRightBounds(x: int, bits: nat)
    ensures Pow2(bits) * ShiftRight(x, bits) <= x < Pow2(bits) * (ShiftRight(x, bits) + 1)
  {
    var d, q := Pow2(bits), ShiftRight(x, bits);
    assert x == d * q + x % d;
  }

  /** `x and 0xFF`: the low eight bits of the two's-complement representation,
      an unsigned value congruent to `x` modulo 256. */
  function LowByte(x: int): (r: int)
    ensures 0 <= r < 0x100
    ensures (x - r) % 0x100 == 0
  {
    x % 0x100
  }

  /** Division with a remainder in [0, d) has exactly one answer. */
  lemma DivModUnique(x: int, d: int, q: int, m: int)
    requires 0 < d && 0 <= m < d && x == q * d + m
    ensures x / d == q && x % d == m
  {
    var q', m' := x / d, x % d;
    assert (q' - q) * d == m - m';
    var k := q' - q;
    if k >= 1 {
      MulAtLeast(k, d);
    } else if k <= -1 {
      MulAtLeast(-k, d);
    }
  }

  lemma MulAtLeast(k: int, d: int)
    requires k >= 1 && d > 0
    ensures k * d >= d && (-k) * d <= -d
  {
  }
}

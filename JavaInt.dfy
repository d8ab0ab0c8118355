/**
 * Java's 32-bit integer operators as the codecs use them, over Dafny's unbounded
 * integers: truncating division, the wrapping (short) and (byte) casts, and the
 * saturating 16-bit clamp the decoders apply by hand.
 */
module JavaInt {

  /** A Java `short`: one 16-bit sample. */
  type Short = x: int | -32768 <= x <= 32767

  /** One byte of a stream, as the unsigned value `b & 0xFF`. */
  type Byte = x: int | 0 <= x <= 255

  /** A 4-bit ADPCM code. */
  type Nibble = x: int | 0 <= x <= 15

  const SHORT_MIN: int := -32768
  const SHORT_MAX: int := 32767

  function Abs(x: int): (r: nat)
    ensures x >= 0 ==> r == x
    ensures x < 0 ==> r == -x
  {
    if x < 0 then -x else x
  }

  /**
   * Java's `a / b`: the quotient truncated toward zero, so its magnitude is the
   * floor of the magnitudes' quotient and its sign is the product of the signs.
   */
  function TDiv(a: int, b: int): (q: int)
    requires b != 0
    ensures Abs(q) == Abs(a) / Abs(b)
    ensures (a >= 0) == (b > 0) ==> q >= 0
    ensures (a >= 0) != (b > 0) ==> q <= 0
    ensures a >= 0 && b > 0 ==> q == a / b
  {
    var m := NatDiv(Abs(a), Abs(b));
    if (a >= 0) == (b > 0) then m else -(m as int)
  }

  function NatDiv(n: nat, d: nat): nat
    requires d > 0
  {
    n / d
  }

  /** Java's `(short) x`: the 16-bit value congruent to `x`. */
  function ToShort(x: int): (r: Short)
    ensures (r - x) % 65536 == 0
    ensures SHORT_MIN <= x <= SHORT_MAX ==> r == x
  {
    (x + 32768) % 65536 - 32768
  }

  /** Java's `(byte) x`, as a signed value. */
  function ToSignedByte(x: int): (r: int)
    ensures -128 <= r <= 127 && (r - x) % 256 == 0
    ensures -128 <= x <= 127 ==> r == x
  {
    (x + 128) % 256 - 128
  }

  /** The stream byte written for `(byte) x`. */
  function ByteOf(x: int): (b: Byte)
    ensures (b - x) % 256 == 0
  {
    x % 256
  }

  /** The Java `byte` value of a stream byte. */
  function Signed(b: Byte): (r: int)
    ensures -128 <= r <= 127
    ensures r >= 0 <==> b < 128
  {
    if b >= 128 then b - 256 else b
  }

  /** Writing `(byte) v` for the Java byte `v` read from a stream byte gives back that byte. */
  lemma ByteOfSigned(b: Byte)
    ensures ByteOf(Signed(b)) == b
  {
  }

  lemma SignedOfToSignedByte(x: int)
    ensures Signed(ByteOf(x)) == ToSignedByte(x)
  {
  }

  /** The Java `int` whose 32 bits are those of `x`. */
  function ToInt32(x: int): (r: int)
    ensures -0x8000_0000 <= r < 0x8000_0000
    ensures -0x8000_0000 <= x < 0x8000_0000 ==> r == x
  {
    (x + 0x8000_0000) % 0x1_0000_0000 - 0x8000_0000
  }

  /** The 32-bit cast keeps the value modulo 2^32. */
  lemma ToInt32Congruent(x: int)
    ensures (ToInt32(x) - x) % 0x1_0000_0000 == 0
  {
  }

  /** The saturation the decoders write out by hand: below, above or within 16 bits. */
  function Clamp16(x: int): (r: Short)
    ensures SHORT_MIN <= x <= SHORT_MAX ==> r == x
    ensures x < SHORT_MIN ==> r == SHORT_MIN
    ensures x > SHORT_MAX ==> r == SHORT_MAX
  {
    if x < SHORT_MIN then SHORT_MIN else if x > SHORT_MAX then SHORT_MAX else x
  }

  function Pow2(k: nat): (p: nat)
    ensures p >= 1
  {
    if k == 0 then 1 else 2 * Pow2(k - 1)
  }

  function Min(a: int, b: int): (m: int)
    ensures m <= a && m <= b && (m == a || m == b)
  {
    if a <= b then a else b
  }

  function Max(a: int, b: int): (m: int)
    ensures m >= a && m >= b && (m == a || m == b)
  {
    if a <= b then b else a
  }
}

/**
  The C and OpenCL integer types the sources use, as subset types of int,
  with the truncating conversions that C applies when a wider value is
  stored in a narrower unsigned type.
*/
module CInt {

  const Byte8: int := 0x100
  const Word16: int := 0x1_0000
  const Word32: int := 0x1_0000_0000
  const Word64: int := 0x1_0000_0000_0000_0000

  /** INT_MIN and INT_MAX of a 32-bit int. */
  const IntMin: int := -0x8000_0000
  const IntMax: int := 0x7FFF_FFFF

  /** uint8_t */
  type Byte = x: int | 0 <= x < 0x100
  /** uint16_t, cl_ushort */
  type UInt16 = x: int | 0 <= x < 0x1_0000
  /** uint32_t, cl_uint */
  type UInt32 = x: int | 0 <= x < 0x1_0000_0000
  /** size_t on a 64-bit host */
  type SizeT = x: int | 0 <= x < 0x1_0000_0000_0000_0000
  /** int, cl_int */
  type Int32 = x: int | -0x8000_0000 <= x < 0x8000_0000
  /** signed char */
  type SChar = x: int | -0x80 <= x < 0x80

  /** Conversion of any integer to uint8_t (reduction modulo 2^8). */
  function ToByte(x: int): (r: Byte)
    ensures 0 <= x < Byte8 ==> r == x
    ensures (r - x) % Byte8 == 0
  {
    x % Byte8
  }

  /** Conversion of any integer to uint16_t. */
  function ToUInt16(x: int): (r: UInt16)
    ensures 0 <= x < Word16 ==> r == x
    ensures (r - x) % Word16 == 0
  {
    x % Word16
  }

  /** Conversion of any integer to uint32_t. */
  function ToUInt32(x: int): (r: UInt32)
    ensures 0 <= x < Word32 ==> r == x
    ensures (r - x) % Word32 == 0
  {
    x % Word32
  }

  /** Conversion of any integer to size_t. */
  function ToSizeT(x: int): (r: SizeT)
    ensures 0 <= x < Word64 ==> r == x
    ensures (r - x) % Word64 == 0
  {
    x % Word64
  }

  /** Conversion of any integer to a 32-bit int, wrapping modulo 2^32 (what
      the targeted compilers do for out-of-range values). */
  function ToInt32(x: int): (r: Int32)
    ensures IntMin <= x <= IntMax ==> r == x
    ensures (r - x) % Word32 == 0
  {
    var u := x % Word32;
    if u <= IntMax then u else u - Word32
  }

  /** C's `/` on int: the quotient is truncated toward zero. */
  function CDiv(a: int, b: int): (q: int)
    requires b > 0
    ensures a >= 0 ==> q == a / b
    ensures a < 0 ==> q == -((-a) / b)
    ensures q * b <= a < q * b + b || q * b - b < a <= q * b
  {
    if a >= 0 then a / b else -((-a) / b)
  }

  /** The four bytes, lowest first, that a 32-bit element occupies in memory
      on a little-endian host (two's complement for negative values). */
  function LittleEndian32(v: int): (r: seq<Byte>)
    ensures |r| == 4
    ensures r[0] as int + 0x100 * r[1] as int + 0x1_0000 * r[2] as int + 0x100_0000 * r[3] as int == v % Word32
  {
    var u := v % Word32;
    LittleEndianDigits(u);
    [u % 0x100, (u / 0x100) % 0x100, (u / 0x1_0000) % 0x100, u / 0x100_0000]
  }

  /** The bytes of a buffer of 32-bit elements as a little-endian host
      holds them in memory, which is what writing the buffer raw produces. */
  function RawDump(s: seq<int>): (r: seq<Byte>)
    ensures |r| == 4 * |s|
  {
    if s == [] then [] else LittleEndian32(s[0]) + RawDump(s[1..])
  }

  /** Lemma: element i of the buffer occupies bytes 4i .. 4i+3 of the dump. */
  lemma {:induction false} RawDumpAt(s: seq<int>, i: nat)
    requires i < |s|
    ensures RawDump(s)[4 * i .. 4 * i + 4] == LittleEndian32(s[i])
  {
    if i > 0 {
      RawDumpAt(s[1..], i - 1);
      assert RawDump(s)[4 * i .. 4 * i + 4] == RawDump(s[1..])[4 * (i - 1) .. 4 * (i - 1) + 4];
    }
  }

  /** Lemma: the base-256 digits of a 32-bit value add back up to it. */
  lemma LittleEndianDigits(u: int)
    requires 0 <= u < 0x1_0000_0000
    ensures u / 0x100_0000 < 0x100
    ensures u % 0x100 + 0x100 * ((u / 0x100) % 0x100) + 0x1_0000 * ((u / 0x1_0000) % 0x100)
            + 0x100_0000 * (u / 0x100_0000) == u
  {
    var d1, d2 := u / 0x100, u / 0x1_0000;
    assert u == 0x100 * d1 + u % 0x100;
    assert d1 == 0x100 * (d1 / 0x100) + d1 % 0x100;
    assert d1 / 0x100 == d2;
    assert d2 == 0x100 * (d2 / 0x100) + d2 % 0x100;
    assert d2 / 0x100 == u / 0x100_0000;
  }

  /** Lemma: reducing modulo 2^64 and then modulo 2^32 is reducing modulo 2^32. */
  lemma {:induction false} ModWord64ThenWord32(x: int)
    ensures (x % Word64) % Word32 == x % Word32
  {
    var q := x / Word64;
    assert x == Word64 * q + x % Word64;
    assert Word64 * q == Word32 * (Word32 * q);
    ModMultipleShift(x % Word64, Word32 * q);
  }

  /** Lemma: adding a multiple of 2^32 does not change the residue modulo 2^32. */
  lemma {:induction false} ModMultipleShift(a: int, k: int)
    ensures (a + Word32 * k) % Word32 == a % Word32
  {
    var s := a + Word32 * k;
    assert s == Word32 * (s / Word32) + s % Word32;
    assert a == Word32 * (a / Word32) + a % Word32;
    assert Word32 * (s / Word32 - a / Word32 - k) == a % Word32 - s % Word32;
    MultipleInRange(s / Word32 - a / Word32 - k, a % Word32 - s % Word32);
  }

  /** Lemma: a multiple of 2^32 strictly between -2^32 and 2^32 is zero. */
  lemma MultipleInRange(m: int, d: int)
    requires Word32 * m == d
    requires -Word32 < d < Word32
    ensures d == 0
  {
  }

  /** Lemma: the product of two values held in size_t, computed in size_t,
      agrees modulo 2^32 with the product of their uint32_t truncations. */
  lemma {:induction false} ProductModWord32(a: int, b: int)
    requires a >= 0 && b >= 0
    ensures ((a * b) % Word64) % Word32 == ((a % Word32) * (b % Word32)) % Word32
  {
    ModWord64ThenWord32(a * b);
    var p, q := a / Word32, b / Word32;
    var a0, b0 := a % Word32, b % Word32;
    assert a == Word32 * p + a0;
    assert b == Word32 * q + b0;
    calc {
      a * b;
      (Word32 * p + a0) * (Word32 * q + b0);
      a0 * b0 + Word32 * (p * Word32 * q + p * b0 + a0 * q);
    }
    ModMultipleShift(a0 * b0, p * Word32 * q + p * b0 + a0 * q);
  }

  /** Lemma: multiplying by the same factor keeps the order. */
  lemma MulMono(a: nat, b: nat, w: nat)
    requires a <= b
    ensures a * w <= b * w
  {
  }

  /** Lemma: row l + 1 of a w-wide, h-high buffer ends within the buffer. */
  lemma RowStep(l: nat, w: nat, h: nat)
    requires l < h
    ensures (l + 1) * w == l * w + w && l * w + w <= w * h
  {
    MulMono(l + 1, h, w);
  }

}

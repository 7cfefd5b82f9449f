/** Bytes, 32-bit words and the two byte orders in which a word can be stored. */
module Bytes {

  /** An unsigned 8-bit value, one byte of the mapped file. */
  type byte = b: int | 0 <= b < 0x100

  /** 2^32: the number of distinct values of a Rust `u32` or a C `uint32_t`. */
  const U32_LIMIT: int := 0x1_0000_0000

  /** An unsigned 32-bit value. */
  type u32 = x: int | 0 <= x < 0x1_0000_0000

  /** The byte order of a host; a `memcpy` into a `uint32_t` reads the bytes in this order. */
  datatype Endian = LittleEndian | BigEndian

  /** The word whose little-endian encoding is `b` (byte 0 is the least significant). */
  function LeU32(b: seq<byte>): u32
    requires |b| == 4
  {
    b[0] as int + 0x100 * b[1] as int + 0x1_0000 * b[2] as int + 0x100_0000 * b[3] as int
  }

  /** The little-endian encoding of `x`: four bytes, least significant first. */
  function LeBytes(x: u32): (b: seq<byte>)
    ensures |b| == 4
  {
    [x % 0x100, x / 0x100 % 0x100, x / 0x1_0000 % 0x100, x / 0x100_0000]
  }

  /** The word whose big-endian encoding is `b` (byte 0 is the most significant). */
  function BeU32(b: seq<byte>): u32
    requires |b| == 4
  {
    LeU32([b[3], b[2], b[1], b[0]])
  }

  /** The value a `uint32_t` holds after its four bytes were copied from `b` on a host of order `e`. */
  function HostU32(e: Endian, b: seq<byte>): u32
    requires |b| == 4
  {
    match e
    case LittleEndian => LeU32(b)
    case BigEndian => BeU32(b)
  }

  /** Decoding the encoding of a word gives the word back. */
  lemma LeDecodeEncode(x: u32)
    ensures LeU32(LeBytes(x)) == x
  {
    var b := LeBytes(x);
    assert x == x % 0x100 + 0x100 * (x / 0x100);
    assert x / 0x100 == x / 0x100 % 0x100 + 0x100 * (x / 0x1_0000);
    assert x / 0x1_0000 == x / 0x1_0000 % 0x100 + 0x100 * (x / 0x100_0000);
  }

  /** Encoding the word decoded from four bytes gives the same four bytes. */
  lemma LeEncodeDecode(b: seq<byte>)
    requires |b| == 4
    ensures LeBytes(LeU32(b)) == b
  {
    var x := LeU32(b);
    assert x / 0x100 == b[1] as int + 0x100 * b[2] as int + 0x1_0000 * b[3] as int;
    assert x / 0x1_0000 == b[2] as int + 0x100 * b[3] as int;
    assert x / 0x100_0000 == b[3];
  }

  /** Four bytes are the little-endian encoding of exactly one word, the one LeU32 yields. */
  lemma LeUnique(x: u32, b: seq<byte>)
    requires |b| == 4
    ensures LeBytes(x) == b <==> LeU32(b) == x
  {
    LeDecodeEncode(x);
    LeEncodeDecode(b);
  }

  /** `a + b` on 32-bit unsigned operands: the true sum with 2^32 taken off when it does not fit. */
  function WrappingAdd32(a: u32, b: u32): (r: u32)
    ensures a + b < U32_LIMIT ==> r == a + b
    ensures a + b >= U32_LIMIT ==> r == a + b - U32_LIMIT
  {
    (a + b) % U32_LIMIT
  }
}

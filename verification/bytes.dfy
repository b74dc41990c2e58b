/** Machine integers as the system sees them, and the little-endian
    reading of a `u32` out of a byte buffer (`bytes::Buf::get_u32_le`). */
module Bytes {

  const BYTE_LIMIT: int := 0x100
  const U32_LIMIT: int := 0x1_0000_0000

  type byte = x: int | 0 <= x < BYTE_LIMIT
  type u32 = x: int | 0 <= x < U32_LIMIT

  /** The u32 stored little-endian in `s[at..at + 4]`. */
  function LeU32(s: seq<byte>, at: nat): (r: u32)
    requires at + 4 <= |s|
    ensures r % BYTE_LIMIT == s[at]
    ensures r / 0x100_0000 == s[at + 3]
  {
    var b0: int, b1: int, b2: int, b3: int := s[at], s[at + 1], s[at + 2], s[at + 3];
    b0 + 0x100 * b1 + 0x1_0000 * b2 + 0x100_0000 * b3
  }

  /** The four little-endian bytes of `x`, least significant first. */
  function EncodeU32(x: u32): (r: seq<byte>)
    ensures |r| == 4
    ensures r[0] == x % BYTE_LIMIT && r[3] == x / 0x100_0000
  {
    [x % 0x100, (x / 0x100) % 0x100, (x / 0x1_0000) % 0x100, x / 0x100_0000]
  }

  /** Reading back the encoding of a word yields the word. */
  lemma DecodeEncodeU32(x: u32)
    ensures LeU32(EncodeU32(x), 0) == x
  {
    var q1 := x / 0x100;
    var q2 := q1 / 0x100;
    var q3 := q2 / 0x100;
    assert x == x % 0x100 + 0x100 * q1;
    assert q1 == q1 % 0x100 + 0x100 * q2;
    assert q2 == q2 % 0x100 + 0x100 * q3;
    assert x / 0x1_0000 == q2;
    assert x / 0x100_0000 == q3;
  }

  /** Encoding a word read from a buffer gives back the four bytes read. */
  lemma EncodeDecodeU32(s: seq<byte>, at: nat)
    requires at + 4 <= |s|
    ensures EncodeU32(LeU32(s, at)) == s[at..at + 4]
  {
    var x: int := LeU32(s, at);
    var b0: int, b1: int, b2: int, b3: int := s[at], s[at + 1], s[at + 2], s[at + 3];
    var q1 := b1 + 0x100 * b2 + 0x1_0000 * b3;
    var q2 := b2 + 0x100 * b3;
    assert x == b0 + 0x100 * q1;
    assert x / 0x100 == q1;
    assert q1 == b1 + 0x100 * q2;
    assert x / 0x1_0000 == q2 by {
      assert x == (b0 + 0x100 * b1) + 0x1_0000 * q2;
    }
  }
}

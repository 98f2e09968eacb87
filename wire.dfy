/** Fixed-width unsigned integers and their network (big-endian) byte order,
    as produced by htons/htonl and read back by ntohs/ntohl. */
module Wire {

  type byte = x: int | 0 <= x < 0x100
  type u16 = x: int | 0 <= x < 0x1_0000
  type u32 = x: int | 0 <= x < 0x1_0000_0000

  const U32_MAX: u32 := 0xFFFF_FFFF

  function Min(a: nat, b: nat): nat { if a <= b then a else b }

  /** The number a byte string denotes in base 256, most significant byte
      first: the reading network byte order prescribes. */
  function BigEndianValue(b: seq<byte>): nat
  {
    if b == [] then 0 else BigEndianValue(b[..|b| - 1]) * 0x100 + b[|b| - 1]
  }

  lemma BigEndianValue2(b: seq<byte>)
    requires |b| == 2
    ensures BigEndianValue(b) == (b[0] as int) * 0x100 + b[1]
  {
    assert b[..1][..0] == [];
    assert BigEndianValue(b[..1]) == b[0];
  }

  /** htons: the two bytes of `n`, most significant first. */
  function U16BE(n: u16): (r: seq<byte>)
    ensures |r| == 2 && BigEndianValue(r) == n
  {
    BigEndianValue2([n / 0x100, n % 0x100]);
    [n / 0x100, n % 0x100]
  }

  /** ntohs applied to two bytes as they arrived from the network. */
  function DecodeU16(b: seq<byte>): (n: u16)
    requires |b| == 2
    ensures n == BigEndianValue(b)
  {
    BigEndianValue2(b);
    (b[0] as int) * 0x100 + b[1]
  }

  /** htonl: the four bytes of `n`, most significant first: the high
      16-bit half, then the low one. */
  function U32BE(n: u32): (r: seq<byte>)
    ensures |r| == 4 && BigEndianValue(r) == n
  {
    var r := U16BE(n / 0x1_0000) + U16BE(n % 0x1_0000);
    BigEndianValueSplit(r);
    r
  }

  /** ntohl applied to four bytes as they arrived from the network. */
  function DecodeU32(b: seq<byte>): (n: u32)
    requires |b| == 4
    ensures n == BigEndianValue(b)
  {
    BigEndianValueSplit(b);
    (DecodeU16(b[..2]) as int) * 0x1_0000 + DecodeU16(b[2..])
  }

  /** Four bytes read as two 16-bit halves, high half first. */
  lemma BigEndianValueSplit(b: seq<byte>)
    requires |b| == 4
    ensures BigEndianValue(b) == BigEndianValue(b[..2]) * 0x1_0000 + BigEndianValue(b[2..])
  {
    assert b[..3][..2] == b[..2];
    assert b[..2][..1][..0] == [];
    assert b[2..][..1] == [b[2]] && [b[2]][..0] == [];
    BigEndianValue2(b[2..]);
  }

  /** Decoding undoes encoding for the 16-bit length field. */
  lemma U16RoundTrip(n: u16)
    ensures DecodeU16(U16BE(n)) == n
  {
  }

  /** Encoding undoes decoding: every two-byte field is the encoding of exactly one value. */
  lemma U16Canonical(b: seq<byte>)
    requires |b| == 2
    ensures U16BE(DecodeU16(b)) == b
  {
  }

  /** Decoding undoes encoding for the 32-bit fields (chain length, hashes). */
  lemma U32RoundTrip(n: u32)
    ensures DecodeU32(U32BE(n)) == n
  {
    var b := U32BE(n);
    assert b[..2] == U16BE(n / 0x1_0000) && b[2..] == U16BE(n % 0x1_0000);
    U16RoundTrip(n / 0x1_0000);
    U16RoundTrip(n % 0x1_0000);
  }

  /** Encoding undoes decoding for four-byte fields. */
  lemma U32Canonical(b: seq<byte>)
    requires |b| == 4
    ensures U32BE(DecodeU32(b)) == b
  {
    var hi := DecodeU16(b[..2]);
    var lo := DecodeU16(b[2..]);
    var n := DecodeU32(b);
    assert n / 0x1_0000 == hi && n % 0x1_0000 == lo;
    U16Canonical(b[..2]);
    U16Canonical(b[2..]);
    assert b == b[..2] + b[2..];
  }
}

/**
 * Unsigned machine integers and their little-endian byte layout, as the packed
 * header struct stores them on an x86-style little-endian host.
 */
module Bytes {
  type Byte = b: int | 0 <= b < 0x100
  type U16 = x: int | 0 <= x < 0x1_0000
  type U32 = x: int | 0 <= x < 0x1_0000_0000

  /**
   * C `unsigned int` multiplication: the product taken modulo 2^32, which is
   * the exact product whenever that fits in 32 bits.
   */
  function Mul32(a: U32, b: U32): (r: U32)
    ensures a * b < 0x1_0000_0000 ==> r == a * b
  {
    var p := a * b;
    assert p < 0x1_0000_0000 ==> p % 0x1_0000_0000 == p;
    p % 0x1_0000_0000
  }

  /** The two bytes of a `uint16_t`, least significant first. */
  function LE16(x: U16): (b: seq<Byte>)
    ensures |b| == 2
  {
    [x % 0x100, x / 0x100]
  }

  /** The four bytes of a `uint32_t`, least significant first. */
  function LE32(x: U32): (b: seq<Byte>)
    ensures |b| == 4
  {
    LE16(x % 0x1_0000) + LE16(x / 0x1_0000)
  }

  /** The `uint16_t` stored little-endian in two bytes. */
  function FromLE16(b: seq<Byte>): (x: U16)
    requires |b| == 2
  {
    b[0] as int + 0x100 * (b[1] as int)
  }

  /** The `uint32_t` stored little-endian in four bytes. */
  function FromLE32(b: seq<Byte>): (x: U32)
    requires |b| == 4
  {
    FromLE16(b[..2]) as int + 0x1_0000 * (FromLE16(b[2..]) as int)
  }

  lemma LE16RoundTrip(x: U16)
    ensures FromLE16(LE16(x)) == x
  {
  }

  lemma FromLE16RoundTrip(b: seq<Byte>)
    requires |b| == 2
    ensures LE16(FromLE16(b)) == b
  {
  }

  lemma LE32RoundTrip(x: U32)
    ensures FromLE32(LE32(x)) == x
  {
    var lo, hi := x % 0x1_0000, x / 0x1_0000;
    assert LE32(x)[..2] == LE16(lo) && LE32(x)[2..] == LE16(hi);
    LE16RoundTrip(lo);
    LE16RoundTrip(hi);
  }

  lemma FromLE32RoundTrip(b: seq<Byte>)
    requires |b| == 4
    ensures LE32(FromLE32(b)) == b
  {
    var lo, hi := FromLE16(b[..2]), FromLE16(b[2..]);
    var x := FromLE32(b);
    assert x % 0x1_0000 == lo && x / 0x1_0000 == hi;
    FromLE16RoundTrip(b[..2]);
    FromLE16RoundTrip(b[2..]);
    assert b == b[..2] + b[2..];
  }
}

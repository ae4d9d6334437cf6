/**
 * Fixed-width unsigned integers as the Go code uses them (uint8, uint16,
 * uint32), Go's truncating integer conversions, and the big-endian byte order
 * that encoding/binary writes and reads (binary.BigEndian).
 */
module Bytes {

  type byte = x: int | 0 <= x < 0x100
  type u16 = x: int | 0 <= x < 0x1_0000
  type u32 = x: int | 0 <= x < 0x1_0000_0000

  const MaxU16: int := 0xFFFF
  const MaxU32: int := 0xFFFF_FFFF

  /** Go's `uint16(n)` for a non-negative `int`: keeps the low 16 bits. */
  function U16Cast(n: nat): (r: u16)
    ensures n <= MaxU16 ==> r == n
    ensures n > MaxU16 ==> r < n
  {
    n % 0x1_0000
  }

  /** Go's `uint32(n)` for a non-negative `int`: keeps the low 32 bits. */
  function U32Cast(n: nat): (r: u32)
    ensures n <= MaxU32 ==> r == n
    ensures n > MaxU32 ==> r < n
  {
    n % 0x1_0000_0000
  }

  /** binary.Write(w, binary.BigEndian, uint16(x)) emits these two bytes. */
  function BE16(x: u16): (r: seq<byte>)
    ensures |r| == 2 && FromBE16(r) == x
  {
    [x / 0x100, x % 0x100]
  }

  /** binary.Write(w, binary.BigEndian, uint32(x)) emits these four bytes. */
  function BE32(x: u32): (r: seq<byte>)
    ensures |r| == 4 && FromBE32(r) == x
  {
    var b := [x / 0x100_0000, (x / 0x1_0000) % 0x100, (x / 0x100) % 0x100, x % 0x100];
    var hi := x / 0x1_0000;
    assert x == hi * 0x1_0000 + x % 0x1_0000;
    assert hi == b[0] as int * 0x100 + b[1] as int;
    assert x % 0x1_0000 == b[2] as int * 0x100 + b[3] as int;
    b
  }

  /** binary.Read(r, binary.BigEndian, &v) for a uint16 v. */
  function FromBE16(b: seq<byte>): (x: u16)
    requires |b| == 2
  {
    b[0] as int * 0x100 + b[1] as int
  }

  /** binary.Read(r, binary.BigEndian, &v) for a uint32 v. */
  function FromBE32(b: seq<byte>): (x: u32)
    requires |b| == 4
  {
    ((b[0] as int * 0x100 + b[1] as int) * 0x100 + b[2] as int) * 0x100 + b[3] as int
  }

  /** Decoding is injective the other way round too: the bytes are determined by the value. */
  lemma FromBE32Injective(b: seq<byte>)
    requires |b| == 4
    ensures BE32(FromBE32(b)) == b
  {
    var x := FromBE32(b);
    assert x / 0x100_0000 == b[0];
    assert (x / 0x1_0000) % 0x100 == b[1];
    assert (x / 0x100) % 0x100 == b[2];
  }

  lemma FromBE16Injective(b: seq<byte>)
    requires |b| == 2
    ensures BE16(FromBE16(b)) == b
  {
  }
}

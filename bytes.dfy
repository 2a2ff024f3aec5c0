/** Fixed-width unsigned integers and their byte encodings. */
module Bytes {

  type byte = x: int | 0 <= x < 0x100
  type u16 = x: int | 0 <= x < 0x1_0000
  type u32 = x: int | 0 <= x < 0x1_0000_0000
  type u64 = x: int | 0 <= x < 0x1_0000_0000_0000_0000

  /** The 32-bit little-endian value stored at `b[i..i+4]`. */
  function LE32(b: seq<byte>, i: nat): u32
    requires i + 4 <= |b|
  {
    (b[i] as int) + 0x100 * (b[i + 1] as int) + 0x1_0000 * (b[i + 2] as int) + 0x100_0000 * (b[i + 3] as int)
  }

  /** The four little-endian bytes of `v`. */
  function EncodeLE32(v: u32): (b: seq<byte>)
    ensures |b| == 4 && LE32(b, 0) == v
  {
    var (q1, r0) := DivMod256(v);
    var (q2, r1) := DivMod256(q1);
    var (q3, r2) := DivMod256(q2);
    [r0, r1, r2, q3]
  }

  /** The 16-bit big-endian value stored at `b[i..i+2]`. */
  function BE16(b: seq<byte>, i: nat): u16
    requires i + 2 <= |b|
  {
    0x100 * (b[i] as int) + (b[i + 1] as int)
  }

  /** The two big-endian bytes of `v`. */
  function EncodeBE16(v: u16): (b: seq<byte>)
    ensures |b| == 2 && BE16(b, 0) == v
  {
    [v / 0x100, v % 0x100]
  }

  /** The 32-bit big-endian value stored at `b[i..i+4]`. */
  function BE32(b: seq<byte>, i: nat): u32
    requires i + 4 <= |b|
  {
    0x100_0000 * (b[i] as int) + 0x1_0000 * (b[i + 1] as int) + 0x100 * (b[i + 2] as int) + (b[i + 3] as int)
  }

  /** The four big-endian bytes of `v`, most significant first, as `(v >> 24) & 0xFF, ...` */
  function EncodeBE32(v: u32): (b: seq<byte>)
    ensures |b| == 4 && BE32(b, 0) == v
  {
    var (q1, r0) := DivMod256(v);
    var (q2, r1) := DivMod256(q1);
    var (q3, r2) := DivMod256(q2);
    [q3, r2, r1, r0]
  }

  /** `v >> 8` and `v & 0xFF`. */
  function DivMod256(v: u32): (r: (u32, byte))
    ensures v == 0x100 * r.0 + r.1 && r.0 <= v / 0x100
  {
    (v / 0x100, v % 0x100)
  }
}

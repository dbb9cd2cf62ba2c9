/** Machine integers, byte strings and the fixed-width little-endian encoding. */
module Bytes {
  type byte = x: int | 0 <= x < 0x100
  type u32 = x: int | 0 <= x < 0x1_0000_0000
  type u64 = x: int | 0 <= x < 0x1_0000_0000_0000_0000
  type i32 = x: int | -0x8000_0000 <= x < 0x8000_0000
  type i64 = x: int | -0x8000_0000_0000_0000 <= x < 0x8000_0000_0000_0000

  type bytes = seq<byte>

  const U64_MAX: nat := 0xFFFF_FFFF_FFFF_FFFF

  /** The `width` low-order bytes of `value`, least significant first. */
  function LittleEndian(value: nat, width: nat): (encoded: bytes)
    ensures |encoded| == width
  {
    if width == 0 then [] else [value % 0x100] + LittleEndian(value / 0x100, width - 1)
  }

  function Pow256(width: nat): (p: nat)
    ensures p > 0
  {
    if width == 0 then 1 else 0x100 * Pow256(width - 1)
  }

  lemma {:induction false} LittleEndianInjective(a: nat, b: nat, width: nat)
    requires a < Pow256(width) && b < Pow256(width)
    requires LittleEndian(a, width) == LittleEndian(b, width)
    ensures a == b
  {
    if width > 0 {
      var la, lb := LittleEndian(a, width), LittleEndian(b, width);
      assert la[0] == a % 0x100 && lb[0] == b % 0x100;
      assert la[1..] == LittleEndian(a / 0x100, width - 1);
      assert lb[1..] == LittleEndian(b / 0x100, width - 1);
      LittleEndianInjective(a / 0x100, b / 0x100, width - 1);
    }
  }

  function U32Bytes(v: u32): (encoded: bytes)
    ensures |encoded| == 4
  {
    LittleEndian(v, 4)
  }

  function U64Bytes(v: u64): (encoded: bytes)
    ensures |encoded| == 8
  {
    LittleEndian(v, 8)
  }

  /** Two's complement, as `i32::to_le_bytes` lays it out. */
  function I32Bytes(v: i32): (encoded: bytes)
    ensures |encoded| == 4
  {
    U32Bytes(if v < 0 then v + 0x1_0000_0000 else v)
  }

  function I64Bytes(v: i64): (encoded: bytes)
    ensures |encoded| == 8
  {
    U64Bytes(if v < 0 then v + 0x1_0000_0000_0000_0000 else v)
  }

  lemma U32BytesInjective(a: u32, b: u32)
    requires U32Bytes(a) == U32Bytes(b)
    ensures a == b
  {
    assert Pow256(4) == 0x1_0000_0000;
    LittleEndianInjective(a, b, 4);
  }

  lemma U64BytesInjective(a: u64, b: u64)
    requires U64Bytes(a) == U64Bytes(b)
    ensures a == b
  {
    assert Pow256(4) == 0x1_0000_0000;
    assert Pow256(8) == 0x1_0000_0000_0000_0000;
    LittleEndianInjective(a, b, 8);
  }

  lemma I32BytesInjective(a: i32, b: i32)
    requires I32Bytes(a) == I32Bytes(b)
    ensures a == b
  {
    U32BytesInjective(if a < 0 then a + 0x1_0000_0000 else a, if b < 0 then b + 0x1_0000_0000 else b);
  }

  lemma I64BytesInjective(a: i64, b: i64)
    requires I64Bytes(a) == I64Bytes(b)
    ensures a == b
  {
    U64BytesInjective(
      if a < 0 then a + 0x1_0000_0000_0000_0000 else a,
      if b < 0 then b + 0x1_0000_0000_0000_0000 else b);
  }

  /** Equal concatenations whose first parts have equal length agree part by part. */
  lemma SplitEqual<T>(a: seq<T>, b: seq<T>, x: seq<T>, y: seq<T>)
    requires |a| == |b| && a + x == b + y
    ensures a == b && x == y
  {
    assert a == (a + x)[..|a|] && b == (b + y)[..|b|];
    assert x == (a + x)[|a|..] && y == (b + y)[|b|..];
  }

  lemma Assoc<T>(a: seq<T>, b: seq<T>, c: seq<T>)
    ensures (a + b) + c == a + (b + c)
  {
  }

  // ----- reading numbers back -----

  /** The number that bytes stand for, least significant first. */
  function NumberOf(b: bytes): nat {
    if b == [] then 0 else b[0] + 256 * NumberOf(b[1..])
  }

  lemma {:induction false} LittleEndianReads(value: nat, width: nat)
    requires value < Pow256(width)
    ensures NumberOf(LittleEndian(value, width)) == value
  {
    if width > 0 {
      LittleEndianReads(value / 256, width - 1);
      assert LittleEndian(value, width)[1..] == LittleEndian(value / 256, width - 1);
    }
  }

  lemma U32Reads(v: u32)
    ensures NumberOf(U32Bytes(v)) == v
  {
    assert Pow256(4) == 0x1_0000_0000;
    LittleEndianReads(v, 4);
  }

  lemma U64Reads(v: u64)
    ensures NumberOf(U64Bytes(v)) == v
  {
    assert Pow256(4) == 0x1_0000_0000;
    assert Pow256(8) == 0x1_0000_0000_0000_0000;
    LittleEndianReads(v, 8);
  }

  /** Negative numbers are stored as their two's complement. */
  lemma SignedReads(v: i32, w: i64)
    ensures NumberOf(I32Bytes(v)) == if v < 0 then 4294967296 + v else v
    ensures NumberOf(I64Bytes(w)) == if w < 0 then 18446744073709551616 + w else w
  {
    U32Reads(if v < 0 then v + 0x1_0000_0000 else v);
    U64Reads(if w < 0 then w + 0x1_0000_0000_0000_0000 else w);
  }
}

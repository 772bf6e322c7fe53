/** Python's `struct` module as the converter uses it: the little-endian unsigned
    formats '<I' (four bytes) and 'B' (one byte). */
module Bytes {
  import opened Wrappers

  type byte = b: int | 0 <= b < 256

  /** 256^n: the number of values an n-byte unsigned field can hold. */
  function Pow256(n: nat): (r: nat)
    ensures r >= 1
  {
    if n == 0 then 1 else 256 * Pow256(n - 1)
  }

  const U32Limit: nat := 0x1_0000_0000

  /** The n-byte little-endian encoding of v, least significant byte first. */
  function LittleEndian(v: nat, n: nat): (r: seq<byte>)
    requires v < Pow256(n)
    ensures |r| == n
  {
    if n == 0 then [] else [v % 256] + LittleEndian(v / 256, n - 1)
  }

  /** The unsigned value of a little-endian byte sequence. */
  function FromLittleEndian(b: seq<byte>): (v: nat)
    ensures v < Pow256(|b|)
  {
    if b == [] then 0 else b[0] + 256 * FromLittleEndian(b[1..])
  }

  /** Decoding an encoding gives the value back. */
  lemma {:induction false} FromLittleEndianInverse(v: nat, n: nat)
    requires v < Pow256(n)
    ensures FromLittleEndian(LittleEndian(v, n)) == v
  {
    if n > 0 {
      FromLittleEndianInverse(v / 256, n - 1);
      var b := LittleEndian(v, n);
      assert b[1..] == LittleEndian(v / 256, n - 1);
    }
  }

  /** Encoding a decoded sequence gives the same bytes back. */
  lemma {:induction false} LittleEndianInverse(b: seq<byte>)
    ensures LittleEndian(FromLittleEndian(b), |b|) == b
  {
    if b != [] {
      LittleEndianInverse(b[1..]);
      var v := FromLittleEndian(b);
      assert v % 256 == b[0] && v / 256 == FromLittleEndian(b[1..]);
    }
  }

  /** `struct.pack('<I', n)`: four bytes, or the struct.error raised for n >= 2^32. */
  function PackU32(n: nat): (r: Option<seq<byte>>)
    ensures r.Some? <==> n < U32Limit
    ensures r.Some? ==> |r.value| == 4
  {
    if n < Pow256(4) then Some(LittleEndian(n, 4)) else None
  }

  /** `struct.unpack('<I', b)[0]`: the value, or the struct.error raised unless |b| == 4. */
  function UnpackU32(b: seq<byte>): (r: Option<nat>)
    ensures r.Some? <==> |b| == 4
    ensures r.Some? ==> r.value < U32Limit
  {
    if |b| == 4 then Some(FromLittleEndian(b)) else None
  }

  /** `struct.pack('B', n)`: one byte, or struct.error for n >= 256. */
  function PackU8(n: nat): (r: Option<seq<byte>>)
    ensures r.Some? <==> n < 256
    ensures r.Some? ==> r.value == [n]
  {
    if n < Pow256(1) then Some(LittleEndian(n, 1)) else None
  }

  /** `struct.unpack('B', b)[0]`: the byte, or struct.error unless |b| == 1. */
  function UnpackU8(b: seq<byte>): (r: Option<byte>)
    ensures r.Some? <==> |b| == 1
    ensures r.Some? ==> [r.value] == b
  {
    if |b| == 1 then Some(b[0]) else None
  }

  /** Unpacking what '<I' packed yields the packed value. */
  lemma UnpackPackU32(n: nat)
    requires n < U32Limit
    ensures PackU32(n).Some? && UnpackU32(PackU32(n).value) == Some(n)
  {
    FromLittleEndianInverse(n, 4);
  }

  /** Packing what '<I' unpacked yields the same four bytes. */
  lemma PackUnpackU32(b: seq<byte>)
    requires |b| == 4
    ensures UnpackU32(b).Some? && PackU32(UnpackU32(b).value) == Some(b)
  {
    LittleEndianInverse(b);
  }

  /** '<I' is injective: distinct values never share an encoding. */
  lemma PackU32Injective(m: nat, n: nat)
    requires m < U32Limit && n < U32Limit && PackU32(m) == PackU32(n)
    ensures m == n
  {
    UnpackPackU32(m);
    UnpackPackU32(n);
  }
}

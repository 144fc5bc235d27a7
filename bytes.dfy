/**
 * Fixed-width integers and little-endian decoding, the way the packed
 * structures of an archive are laid out on disk.  A read "at" a position
 * stands for `dragon::Array::lpcast`, which reinterprets the bytes found at a
 * cursor position as a little-endian value.
 */
module ByteCursor {

  type u8 = x: int | 0 <= x < 0x100
  type u32 = x: int | 0 <= x < 0x1_0000_0000
  type i32 = x: int | -0x8000_0000 <= x < 0x8000_0000
  type u64 = x: int | 0 <= x < 0x1_0000_0000_0000_0000
  type i64 = x: int | -0x8000_0000_0000_0000 <= x < 0x8000_0000_0000_0000

  predicate IsI32(x: int) { -0x8000_0000 <= x < 0x8000_0000 }

  /** Two's-complement reinterpretation of an unsigned 32-bit pattern. */
  function AsI32(v: u32): i32
  {
    if v < 0x8000_0000 then v else v - 0x1_0000_0000
  }

  /** Two's-complement reinterpretation of an unsigned 64-bit pattern. */
  function AsI64(v: u64): i64
  {
    if v < 0x8000_0000_0000_0000 then v else v - 0x1_0000_0000_0000_0000
  }

  /** The bit pattern of a signed 32-bit value, as `(uint32_t)x` gives it. */
  function BitsOfI32(x: i32): (v: u32)
    ensures AsI32(v) == x
  {
    if x < 0 then x + 0x1_0000_0000 else x
  }

  /** The bit pattern of a signed 64-bit value, as `(uint64_t)x` gives it. */
  function BitsOfI64(x: i64): (v: u64)
    ensures AsI64(v) == x
  {
    if x < 0 then x + 0x1_0000_0000_0000_0000 else x
  }

  lemma BitsOfAsI32(v: u32)
    ensures BitsOfI32(AsI32(v)) == v
  {
  }

  lemma BitsOfAsI64(v: u64)
    ensures BitsOfI64(AsI64(v)) == v
  {
  }

  /** Conversion of any integer to `int32_t`: reduction modulo 2^32 (C++20). */
  function Wrap32(x: int): (r: i32)
    ensures IsI32(x) ==> r == x
    ensures (r - x) % 0x1_0000_0000 == 0
  {
    AsI32(x % 0x1_0000_0000)
  }

  /** The four bytes at `pos`, least significant first. */
  function U32At(buf: seq<u8>, pos: nat): u32
    requires pos + 4 <= |buf|
  {
    buf[pos] as int + 0x100 * (buf[pos + 1] as int + 0x100 * (buf[pos + 2] as int + 0x100 * buf[pos + 3] as int))
  }

  function I32At(buf: seq<u8>, pos: nat): i32
    requires pos + 4 <= |buf|
  {
    AsI32(U32At(buf, pos))
  }

  /** The eight bytes at `pos`: the low word, then the high word. */
  function U64At(buf: seq<u8>, pos: nat): u64
    requires pos + 8 <= |buf|
  {
    U32At(buf, pos) + 0x1_0000_0000 * U32At(buf, pos + 4)
  }

  function I64At(buf: seq<u8>, pos: nat): i64
    requires pos + 8 <= |buf|
  {
    AsI64(U64At(buf, pos))
  }

  function U32Bytes(v: u32): (s: seq<u8>)
    ensures |s| == 4
  {
    [v % 0x100, v / 0x100 % 0x100, v / 0x100 / 0x100 % 0x100, v / 0x100 / 0x100 / 0x100]
  }

  function I32Bytes(x: i32): (s: seq<u8>)
    ensures |s| == 4
  {
    U32Bytes(BitsOfI32(x))
  }

  function U64Bytes(v: u64): (s: seq<u8>)
    ensures |s| == 8
  {
    U32Bytes(v % 0x1_0000_0000) + U32Bytes(v / 0x1_0000_0000)
  }

  function I64Bytes(x: i64): (s: seq<u8>)
    ensures |s| == 8
  {
    U64Bytes(BitsOfI64(x))
  }

  /** Where the bytes at `pos` are `x + y`, those at `pos` are `x` and those right after are `y`. */
  lemma SliceSplit(buf: seq<u8>, pos: nat, x: seq<u8>, y: seq<u8>)
    requires pos + |x| + |y| <= |buf| && buf[pos..pos + |x| + |y|] == x + y
    ensures buf[pos..pos + |x|] == x
    ensures buf[pos + |x|..pos + |x| + |y|] == y
  {
    var w := buf[pos..pos + |x| + |y|];
    assert buf[pos..pos + |x|] == w[..|x|];
    assert buf[pos + |x|..pos + |x| + |y|] == w[|x|..];
  }

  /** Two adjacent slices make up the slice that spans both. */
  lemma SliceJoin(buf: seq<u8>, i: nat, j: nat, k: nat)
    requires i <= j <= k <= |buf|
    ensures buf[i..j] + buf[j..k] == buf[i..k]
  {
  }

  /** The low byte and the rest of a value built from them. */
  lemma ByteSplit(x: int, lo: int, hi: int)
    requires 0 <= lo < 0x100 && x == lo + 0x100 * hi
    ensures x % 0x100 == lo && x / 0x100 == hi
  {
  }

  /** The low word and the high word of a value built from them. */
  lemma WordSplit(x: int, lo: int, hi: int)
    requires 0 <= lo < 0x1_0000_0000 && x == lo + 0x1_0000_0000 * hi
    ensures x % 0x1_0000_0000 == lo && x / 0x1_0000_0000 == hi
  {
  }

  /** Bytes that hold the encoding of `v` are read back as `v`. */
  lemma U32Field(buf: seq<u8>, pos: nat, v: u32)
    requires pos + 4 <= |buf| && buf[pos..pos + 4] == U32Bytes(v)
    ensures U32At(buf, pos) == v
  {
    var s := buf[pos..pos + 4];
    assert buf[pos] == s[0] && buf[pos + 1] == s[1] && buf[pos + 2] == s[2] && buf[pos + 3] == s[3];
    var q1 := v / 0x100;
    var q2 := q1 / 0x100;
    var q3 := q2 / 0x100;
    assert v == v % 0x100 + 0x100 * q1;
    assert q1 == q1 % 0x100 + 0x100 * q2;
    assert q2 == q2 % 0x100 + 0x100 * q3;
  }

  lemma I32Field(buf: seq<u8>, pos: nat, x: i32)
    requires pos + 4 <= |buf| && buf[pos..pos + 4] == I32Bytes(x)
    ensures I32At(buf, pos) == x
  {
    U32Field(buf, pos, BitsOfI32(x));
  }

  lemma U64Field(buf: seq<u8>, pos: nat, v: u64)
    requires pos + 8 <= |buf| && buf[pos..pos + 8] == U64Bytes(v)
    ensures U64At(buf, pos) == v
  {
    SliceSplit(buf, pos, U32Bytes(v % 0x1_0000_0000), U32Bytes(v / 0x1_0000_0000));
    assert v == v % 0x1_0000_0000 + 0x1_0000_0000 * (v / 0x1_0000_0000);
    U32Field(buf, pos, v % 0x1_0000_0000);
    U32Field(buf, pos + 4, v / 0x1_0000_0000);
  }

  lemma I64Field(buf: seq<u8>, pos: nat, x: i64)
    requires pos + 8 <= |buf| && buf[pos..pos + 8] == I64Bytes(x)
    ensures I64At(buf, pos) == x
  {
    U64Field(buf, pos, BitsOfI64(x));
  }

  /** A 32-bit field written anywhere in a buffer is read back unchanged. */
  lemma U32RoundTrip(a: seq<u8>, v: u32, b: seq<u8>)
    ensures U32At(a + U32Bytes(v) + b, |a|) == v
  {
    assert (a + U32Bytes(v) + b)[|a|..|a| + 4] == U32Bytes(v);
    U32Field(a + U32Bytes(v) + b, |a|, v);
  }

  /** Reading a 32-bit field and writing it back gives the same four bytes. */
  lemma U32BytesOfRead(buf: seq<u8>, pos: nat)
    requires pos + 4 <= |buf|
    ensures U32Bytes(U32At(buf, pos)) == buf[pos..pos + 4]
  {
    var b0: int, b1: int, b2: int, b3: int := buf[pos], buf[pos + 1], buf[pos + 2], buf[pos + 3];
    ByteSplit(U32At(buf, pos), b0, b1 + 0x100 * (b2 + 0x100 * b3));
    ByteSplit(b1 + 0x100 * (b2 + 0x100 * b3), b1, b2 + 0x100 * b3);
    ByteSplit(b2 + 0x100 * b3, b2, b3);
  }

  lemma I32BytesOfRead(buf: seq<u8>, pos: nat)
    requires pos + 4 <= |buf|
    ensures I32Bytes(I32At(buf, pos)) == buf[pos..pos + 4]
  {
    BitsOfAsI32(U32At(buf, pos));
    U32BytesOfRead(buf, pos);
  }

  /** Reading a 64-bit field and writing it back gives the same eight bytes. */
  lemma U64BytesOfRead(buf: seq<u8>, pos: nat)
    requires pos + 8 <= |buf|
    ensures U64Bytes(U64At(buf, pos)) == buf[pos..pos + 8]
  {
    WordSplit(U64At(buf, pos), U32At(buf, pos), U32At(buf, pos + 4));
    U32BytesOfRead(buf, pos);
    U32BytesOfRead(buf, pos + 4);
    assert buf[pos..pos + 8] == buf[pos..pos + 4] + buf[pos + 4..pos + 8];
  }

  lemma I64BytesOfRead(buf: seq<u8>, pos: nat)
    requires pos + 8 <= |buf|
    ensures I64Bytes(I64At(buf, pos)) == buf[pos..pos + 8]
  {
    BitsOfAsI64(U64At(buf, pos));
    U64BytesOfRead(buf, pos);
  }
}

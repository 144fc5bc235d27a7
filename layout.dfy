/**
 * The packed (`#pragma pack(1)`) structures of a `.bin` archive: the index
 * record, the block descriptor and the header.  Each is decoded field by
 * field, little-endian, from a byte position; encoding is its inverse.
 */
module IndexLayout {
  import opened ByteCursor

  const RECORD_SIZE: nat := 32
  const BLOCK_SIZE: nat := 32
  const HEADER_SIZE: nat := 36

  /** `DecimaIndexRecord`: one logical file of the archive. */
  datatype Record = Record(
    fileId: i32, unknown1: i32, hash: i64, offset: i64, size: i32, unknown2: i32)

  /**
   * `DecimaIndexBlock`: one compressed block.  `read_file` seeks to `offset`,
   * reads `size` compressed bytes and decompresses them to `blockSize` bytes.
   */
  datatype Block = Block(
    blockOffset: i64, blockSize: i32, unknown1: i32, offset: i64, size: i32, unknown2: i32)

  /** `DecimaIndexHeader`, which follows the 4-byte magic. */
  datatype Header = Header(
    loadPriority: i32, compressedSize: i64, decompressedSize: i64,
    recordCount: i64, blockCount: i32, maxBlockSize: i32)

  /** `DecimaIndexHeader()`: the value-initialised header, every field zero. */
  const DefaultHeader: Header := Header(0, 0, 0, 0, 0, 0)

  /** The key a record is stored under: the bit pattern of its signed hash. */
  function RecordKey(r: Record): u64
  {
    BitsOfI64(r.hash)
  }

  function DecodeRecord(buf: seq<u8>, pos: nat): Record
    requires pos + RECORD_SIZE <= |buf|
  {
    Record(I32At(buf, pos), I32At(buf, pos + 4), I64At(buf, pos + 8),
           I64At(buf, pos + 16), I32At(buf, pos + 24), I32At(buf, pos + 28))
  }

  function EncodeRecord(r: Record): (s: seq<u8>)
    ensures |s| == RECORD_SIZE
  {
    I32Bytes(r.fileId) + I32Bytes(r.unknown1) + I64Bytes(r.hash) +
    I64Bytes(r.offset) + I32Bytes(r.size) + I32Bytes(r.unknown2)
  }

  function DecodeBlock(buf: seq<u8>, pos: nat): Block
    requires pos + BLOCK_SIZE <= |buf|
  {
    Block(I64At(buf, pos), I32At(buf, pos + 8), I32At(buf, pos + 12),
          I64At(buf, pos + 16), I32At(buf, pos + 24), I32At(buf, pos + 28))
  }

  function EncodeBlock(b: Block): (s: seq<u8>)
    ensures |s| == BLOCK_SIZE
  {
    I64Bytes(b.blockOffset) + I32Bytes(b.blockSize) + I32Bytes(b.unknown1) +
    I64Bytes(b.offset) + I32Bytes(b.size) + I32Bytes(b.unknown2)
  }

  function DecodeHeader(buf: seq<u8>, pos: nat): Header
    requires pos + HEADER_SIZE <= |buf|
  {
    Header(I32At(buf, pos), I64At(buf, pos + 4), I64At(buf, pos + 12),
           I64At(buf, pos + 20), I32At(buf, pos + 28), I32At(buf, pos + 32))
  }

  function EncodeHeader(h: Header): (s: seq<u8>)
    ensures |s| == HEADER_SIZE
  {
    I32Bytes(h.loadPriority) + I64Bytes(h.compressedSize) + I64Bytes(h.decompressedSize) +
    I64Bytes(h.recordCount) + I32Bytes(h.blockCount) + I32Bytes(h.maxBlockSize)
  }

  /** Bytes that hold an encoded record decode to that record. */
  lemma RecordIn(buf: seq<u8>, pos: nat, r: Record)
    requires pos + RECORD_SIZE <= |buf| && buf[pos..pos + RECORD_SIZE] == EncodeRecord(r)
    ensures DecodeRecord(buf, pos) == r
  {
    var f0 := I32Bytes(r.fileId);
    var f1 := I32Bytes(r.unknown1);
    var f2 := I64Bytes(r.hash);
    var f3 := I64Bytes(r.offset);
    var f4 := I32Bytes(r.size);
    var f5 := I32Bytes(r.unknown2);
    SliceSplit(buf, pos, f0 + f1 + f2 + f3 + f4, f5);
    SliceSplit(buf, pos, f0 + f1 + f2 + f3, f4);
    SliceSplit(buf, pos, f0 + f1 + f2, f3);
    SliceSplit(buf, pos, f0 + f1, f2);
    SliceSplit(buf, pos, f0, f1);
    I32Field(buf, pos + 0, r.fileId);
    I32Field(buf, pos + 4, r.unknown1);
    I64Field(buf, pos + 8, r.hash);
    I64Field(buf, pos + 16, r.offset);
    I32Field(buf, pos + 24, r.size);
    I32Field(buf, pos + 28, r.unknown2);
  }

  /** A record written anywhere in a buffer decodes to itself. */
  lemma RecordRoundTrip(a: seq<u8>, r: Record, b: seq<u8>)
    ensures DecodeRecord(a + EncodeRecord(r) + b, |a|) == r
  {
    assert (a + EncodeRecord(r) + b)[|a|..|a| + RECORD_SIZE] == EncodeRecord(r);
    RecordIn(a + EncodeRecord(r) + b, |a|, r);
  }

  /** Decoding a record consumes exactly its 32 bytes and loses none of them. */
  lemma RecordBytesOfDecode(buf: seq<u8>, pos: nat)
    requires pos + RECORD_SIZE <= |buf|
    ensures EncodeRecord(DecodeRecord(buf, pos)) == buf[pos..pos + RECORD_SIZE]
  {
    I32BytesOfRead(buf, pos);
    I32BytesOfRead(buf, pos + 4);
    I64BytesOfRead(buf, pos + 8);
    I64BytesOfRead(buf, pos + 16);
    I32BytesOfRead(buf, pos + 24);
    I32BytesOfRead(buf, pos + 28);
    assert buf[pos..pos + RECORD_SIZE] ==
      buf[pos..pos + 4] + buf[pos + 4..pos + 8] + buf[pos + 8..pos + 16] +
      buf[pos + 16..pos + 24] + buf[pos + 24..pos + 28] + buf[pos + 28..pos + 32];
  }

  /**
   * The map key of a decoded record is the unsigned little-endian value of
   * bytes 8..16 of the record: the same bit pattern as the signed `hash`.
   */
  lemma RecordKeyAtOffset8(buf: seq<u8>, pos: nat)
    requires pos + RECORD_SIZE <= |buf|
    ensures RecordKey(DecodeRecord(buf, pos)) == U64At(buf, pos + 8)
  {
    BitsOfAsI64(U64At(buf, pos + 8));
  }

  /** Bytes that hold an encoded block descriptor decode to it. */
  lemma BlockIn(buf: seq<u8>, pos: nat, bl: Block)
    requires pos + BLOCK_SIZE <= |buf| && buf[pos..pos + BLOCK_SIZE] == EncodeBlock(bl)
    ensures DecodeBlock(buf, pos) == bl
  {
    var f0 := I64Bytes(bl.blockOffset);
    var f1 := I32Bytes(bl.blockSize);
    var f2 := I32Bytes(bl.unknown1);
    var f3 := I64Bytes(bl.offset);
    var f4 := I32Bytes(bl.size);
    var f5 := I32Bytes(bl.unknown2);
    SliceSplit(buf, pos, f0 + f1 + f2 + f3 + f4, f5);
    SliceSplit(buf, pos, f0 + f1 + f2 + f3, f4);
    SliceSplit(buf, pos, f0 + f1 + f2, f3);
    SliceSplit(buf, pos, f0 + f1, f2);
    SliceSplit(buf, pos, f0, f1);
    I64Field(buf, pos + 0, bl.blockOffset);
    I32Field(buf, pos + 8, bl.blockSize);
    I32Field(buf, pos + 12, bl.unknown1);
    I64Field(buf, pos + 16, bl.offset);
    I32Field(buf, pos + 24, bl.size);
    I32Field(buf, pos + 28, bl.unknown2);
  }

  /** A block descriptor written anywhere in a buffer decodes to itself. */
  lemma BlockRoundTrip(a: seq<u8>, bl: Block, b: seq<u8>)
    ensures DecodeBlock(a + EncodeBlock(bl) + b, |a|) == bl
  {
    assert (a + EncodeBlock(bl) + b)[|a|..|a| + BLOCK_SIZE] == EncodeBlock(bl);
    BlockIn(a + EncodeBlock(bl) + b, |a|, bl);
  }

  /** Decoding a block descriptor consumes exactly its 32 bytes and loses none. */
  lemma BlockBytesOfDecode(buf: seq<u8>, pos: nat)
    requires pos + BLOCK_SIZE <= |buf|
    ensures EncodeBlock(DecodeBlock(buf, pos)) == buf[pos..pos + BLOCK_SIZE]
  {
    I64BytesOfRead(buf, pos);
    I32BytesOfRead(buf, pos + 8);
    I32BytesOfRead(buf, pos + 12);
    I64BytesOfRead(buf, pos + 16);
    I32BytesOfRead(buf, pos + 24);
    I32BytesOfRead(buf, pos + 28);
    assert buf[pos..pos + BLOCK_SIZE] ==
      buf[pos..pos + 8] + buf[pos + 8..pos + 12] + buf[pos + 12..pos + 16] +
      buf[pos + 16..pos + 24] + buf[pos + 24..pos + 28] + buf[pos + 28..pos + 32];
  }

  /** Bytes that hold an encoded header decode to that header. */
  lemma HeaderIn(buf: seq<u8>, pos: nat, h: Header)
    requires pos + HEADER_SIZE <= |buf| && buf[pos..pos + HEADER_SIZE] == EncodeHeader(h)
    ensures DecodeHeader(buf, pos) == h
  {
    var f0 := I32Bytes(h.loadPriority);
    var f1 := I64Bytes(h.compressedSize);
    var f2 := I64Bytes(h.decompressedSize);
    var f3 := I64Bytes(h.recordCount);
    var f4 := I32Bytes(h.blockCount);
    var f5 := I32Bytes(h.maxBlockSize);
    SliceSplit(buf, pos, f0 + f1 + f2 + f3 + f4, f5);
    SliceSplit(buf, pos, f0 + f1 + f2 + f3, f4);
    SliceSplit(buf, pos, f0 + f1 + f2, f3);
    SliceSplit(buf, pos, f0 + f1, f2);
    SliceSplit(buf, pos, f0, f1);
    I32Field(buf, pos + 0, h.loadPriority);
    I64Field(buf, pos + 4, h.compressedSize);
    I64Field(buf, pos + 12, h.decompressedSize);
    I64Field(buf, pos + 20, h.recordCount);
    I32Field(buf, pos + 28, h.blockCount);
    I32Field(buf, pos + 32, h.maxBlockSize);
  }

  /** A header written anywhere in a buffer decodes to itself. */
  lemma HeaderRoundTrip(a: seq<u8>, h: Header, b: seq<u8>)
    ensures DecodeHeader(a + EncodeHeader(h) + b, |a|) == h
  {
    assert (a + EncodeHeader(h) + b)[|a|..|a| + HEADER_SIZE] == EncodeHeader(h);
    HeaderIn(a + EncodeHeader(h) + b, |a|, h);
  }

  /** Decoding a header consumes exactly its 36 bytes and loses none of them. */
  lemma HeaderBytesOfDecode(buf: seq<u8>, pos: nat)
    requires pos + HEADER_SIZE <= |buf|
    ensures EncodeHeader(DecodeHeader(buf, pos)) == buf[pos..pos + HEADER_SIZE]
  {
    I32BytesOfRead(buf, pos);
    I64BytesOfRead(buf, pos + 4);
    I64BytesOfRead(buf, pos + 12);
    I64BytesOfRead(buf, pos + 20);
    I32BytesOfRead(buf, pos + 28);
    I32BytesOfRead(buf, pos + 32);
    assert buf[pos..pos + HEADER_SIZE] ==
      buf[pos..pos + 4] + buf[pos + 4..pos + 12] + buf[pos + 12..pos + 20] +
      buf[pos + 20..pos + 28] + buf[pos + 28..pos + 32] + buf[pos + 32..pos + 36];
  }

  /** The value-initialised header is what thirty-six zero bytes decode to. */
  lemma DefaultHeaderIsZeroBytes()
    ensures DecodeHeader(seq(HEADER_SIZE, _ => 0), 0) == DefaultHeader
  {
  }
}

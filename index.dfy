/**
 * `DecimaIndex`: one `.bin` archive.  Its file starts with a magic word and a
 * header, then the record table (one record per logical file) and the block
 * table (one entry per compressed block).  A logical file is read back by
 * decompressing every block its byte range touches into one assembly buffer
 * and cutting the range out of it.
 *
 * The archive file is the byte sequence `file`; `stream` is what the shared
 * `std::ifstream` can still deliver, and `position` is its get pointer.  The
 * Kraken decompressor is the parameter `codec`.
 */
module ArchiveIndex {
  import opened ByteCursor
  import opened Wrappers
  import opened IndexLayout
  import opened LastWins
  import opened StreamIndexFile

  const BIN_MAGIC: u32 := 0x2030_4050

  /** The magic word and the header, which the constructor reads in one go. */
  const PREAMBLE_SIZE: nat := 4 + HEADER_SIZE

  /**
   * `Kraken_Decompress(src, src_len, dst, dst_len)`, an external function: it
   * fills exactly `dst_len` bytes of the destination from the compressed bytes.
   */
  type Codec = f: (seq<u8>, nat) -> seq<u8> | forall src, n :: |f(src, n)| == n
    witness (src: seq<u8>, n: nat) => seq(n, _ => 0)

  // ---------------------------------------------------------------------------
  // Opening an archive
  // ---------------------------------------------------------------------------

  /**
   * What `istream::read` of `n` bytes from `pos` leaves in zeroed storage: the
   * bytes the file still holds from `pos` on, then zeros.  A read that runs
   * out of bytes sets the stream's failbit, so every later read delivers
   * nothing, which is again what the end of the file gives.
   */
  function Padded(file: seq<u8>, pos: nat, n: nat): (r: seq<u8>)
    ensures |r| == n
    ensures forall k :: 0 <= k < n ==> r[k] == if pos + k < |file| then file[pos + k] else 0
  {
    seq(n, k requires 0 <= k < n => if pos + k < |file| then file[pos + k] else 0)
  }

  /** A read that the file can satisfy delivers the file's own bytes. */
  lemma PaddedInside(file: seq<u8>, pos: nat, n: nat)
    requires pos + n <= |file|
    ensures Padded(file, pos, n) == file[pos..pos + n]
  {
  }

  /** The 40-byte buffer holding the magic and the header. */
  function Preamble(file: seq<u8>): (r: seq<u8>)
    ensures |r| == PREAMBLE_SIZE
  {
    Padded(file, 0, PREAMBLE_SIZE)
  }

  predicate HasMagic(file: seq<u8>)
  {
    U32At(Preamble(file), 0) == BIN_MAGIC
  }

  /** The header kept by the archive: the decoded one, or the zero header after a bad magic. */
  function HeaderOf(file: seq<u8>): Header
  {
    if HasMagic(file) then DecodeHeader(Preamble(file), 4) else DefaultHeader
  }

  /** The header's counts size the two tables' storage, so they are taken as non-negative. */
  predicate Allocatable(file: seq<u8>)
  {
    HeaderOf(file).recordCount >= 0 && HeaderOf(file).blockCount >= 0
  }

  /** Where the block table starts: right after the record table. */
  function BlocksStart(file: seq<u8>): nat
    requires Allocatable(file)
  {
    PREAMBLE_SIZE + RECORD_SIZE * HeaderOf(file).recordCount
  }

  /** How far into the file the constructor asks to read. */
  function OpenedEnd(file: seq<u8>): nat
    requires Allocatable(file)
  {
    BlocksStart(file) + BLOCK_SIZE * HeaderOf(file).blockCount
  }

  /** `count` records decoded from the buffer read right after the preamble. */
  function RecordTable(file: seq<u8>, count: nat): (rs: seq<Record>)
    ensures |rs| == count
  {
    var buf := Padded(file, PREAMBLE_SIZE, RECORD_SIZE * count);
    seq(count, i requires 0 <= i < count => DecodeRecord(buf, RECORD_SIZE * i))
  }

  /** `count` block descriptors decoded from the buffer read at `start`. */
  function BlockTable(file: seq<u8>, start: nat, count: nat): (bs: seq<Block>)
    ensures |bs| == count
  {
    var buf := Padded(file, start, BLOCK_SIZE * count);
    seq(count, i requires 0 <= i < count => DecodeBlock(buf, BLOCK_SIZE * i))
  }

  /** The record table as the record buffer holds it; none after a bad magic. */
  function RecordList(file: seq<u8>): (rs: seq<Record>)
    requires Allocatable(file)
  {
    if HasMagic(file) then RecordTable(file, HeaderOf(file).recordCount) else []
  }

  /** The block table as the block buffer holds it; none after a bad magic. */
  function BlocksOf(file: seq<u8>): (bs: seq<Block>)
    requires Allocatable(file)
  {
    if HasMagic(file) then BlockTable(file, BlocksStart(file), HeaderOf(file).blockCount) else []
  }

  /** Each record paired with the key `Records[record.hash]` stores it under. */
  function Keyed(rs: seq<Record>): (ps: seq<(u64, Record)>)
  {
    seq(|rs|, i requires 0 <= i < |rs| => (RecordKey(rs[i]), rs[i]))
  }

  /** `Records`: the record table written into a map in file order. */
  function RecordsOf(file: seq<u8>): (m: map<u64, Record>)
    requires Allocatable(file)
  {
    Overwrite(Keyed(RecordList(file)))
  }

  /** Every read of the constructor found all its bytes, so the stream is still good. */
  predicate Intact(file: seq<u8>)
    requires Allocatable(file)
  {
    if HasMagic(file) then OpenedEnd(file) <= |file| else PREAMBLE_SIZE <= |file|
  }

  /**
   * What the stream can still deliver to `read_file`: the whole file, or
   * nothing once a read of the constructor has run out of bytes (the
   * failbit stays set, so later seeks and reads do nothing).
   */
  function LiveStream(file: seq<u8>): seq<u8>
    requires Allocatable(file)
  {
    if Intact(file) then file else []
  }

  /** Where the get pointer rests after the constructor: past what it read, or at the end of the file. */
  function OpenedPosition(file: seq<u8>): nat
    requires Allocatable(file)
  {
    var end := if HasMagic(file) then OpenedEnd(file) else PREAMBLE_SIZE;
    if end <= |file| then end else |file|
  }

  lemma KeyedSnoc(rs: seq<Record>, r: Record)
    ensures Keyed(rs + [r]) == Keyed(rs) + [(RecordKey(r), r)]
  {
  }

  /** A file with the wrong magic yields no records, no blocks and the zero header. */
  lemma BadMagicIsEmpty(file: seq<u8>)
    requires !HasMagic(file)
    ensures Allocatable(file) && HeaderOf(file) == DefaultHeader && BlocksOf(file) == []
    ensures forall hash: u64 :: hash !in RecordsOf(file)
  {
    assert Keyed(RecordList(file)) == [];
  }

  /** A file too short to hold the magic word never has it: its top byte is not zero. */
  lemma TooShortForMagic(file: seq<u8>)
    requires |file| < 4
    ensures !HasMagic(file)
  {
    var p := Preamble(file);
    assert p[3] == 0;
    assert U32At(p, 0) < 0x100_0000;
  }

  /** The keys of the map built from a record table are exactly the (unsigned) hashes in it. */
  lemma RecordKeys(rs: seq<Record>)
    ensures Overwrite(Keyed(rs)).Keys == set i | 0 <= i < |rs| :: RecordKey(rs[i])
  {
    var ps := Keyed(rs);
    OverwriteKeys(ps);
    assert forall i :: 0 <= i < |rs| ==> ps[i].0 == RecordKey(rs[i]);
    assert (set i | 0 <= i < |ps| :: ps[i].0) == set i | 0 <= i < |rs| :: RecordKey(rs[i]);
  }

  /** A hash defined twice keeps its LAST record in table order. */
  lemma RecordsLastWins(rs: seq<Record>, hash: u64)
    requires hash in Overwrite(Keyed(rs))
    ensures exists j :: (0 <= j < |rs| && Overwrite(Keyed(rs))[hash] == rs[j] && RecordKey(rs[j]) == hash &&
      forall k :: j < k < |rs| ==> RecordKey(rs[k]) != hash)
  {
    var ps := Keyed(rs);
    OverwriteIsLast(ps, hash);
    var j := LastIndex(ps, hash);
    assert forall k :: j < k < |rs| ==> RecordKey(rs[k]) == ps[k].0;
  }

  /** A record whose 32 bytes lie inside the file is the record laid out there. */
  lemma IntactRecord(file: seq<u8>, count: nat, i: nat)
    requires i < count && PREAMBLE_SIZE + RECORD_SIZE * i + RECORD_SIZE <= |file|
    ensures RecordTable(file, count)[i] == DecodeRecord(file, PREAMBLE_SIZE + RECORD_SIZE * i)
  {
    var buf := Padded(file, PREAMBLE_SIZE, RECORD_SIZE * count);
    var p, q := RECORD_SIZE * i, PREAMBLE_SIZE + RECORD_SIZE * i;
    assert buf[p..p + RECORD_SIZE] == file[q..q + RECORD_SIZE];
    RecordBytesOfDecode(file, q);
    RecordIn(buf, p, DecodeRecord(file, q));
  }

  /** A record that starts at or past the end of the file is read as all zeros. */
  lemma MissingRecordIsZero(file: seq<u8>, count: nat, i: nat)
    requires i < count && |file| <= PREAMBLE_SIZE + RECORD_SIZE * i
    ensures RecordTable(file, count)[i] == Record(0, 0, 0, 0, 0, 0)
  {
    var buf := Padded(file, PREAMBLE_SIZE, RECORD_SIZE * count);
    var p := RECORD_SIZE * i;
    assert buf[p..p + RECORD_SIZE] == seq(RECORD_SIZE, _ => 0);
    assert EncodeRecord(Record(0, 0, 0, 0, 0, 0)) == seq(RECORD_SIZE, _ => 0);
    RecordIn(buf, p, Record(0, 0, 0, 0, 0, 0));
  }

  /**
   * An archive whose last record lies past the end of the file stores the
   * zero record under hash 0: the missing record is written last.
   */
  lemma TruncatedTableMapsZero(file: seq<u8>)
    requires Allocatable(file) && HasMagic(file) && HeaderOf(file).recordCount > 0
    requires |file| <= PREAMBLE_SIZE + RECORD_SIZE * (HeaderOf(file).recordCount - 1)
    ensures 0 in RecordsOf(file) && RecordsOf(file)[0] == Record(0, 0, 0, 0, 0, 0)
  {
    var rs := RecordList(file);
    MissingRecordIsZero(file, |rs|, |rs| - 1);
    LastRecordWins(rs);
  }

  /** The last record of a table is the one its key maps to. */
  lemma LastRecordWins(rs: seq<Record>)
    requires rs != []
    ensures Overwrite(Keyed(rs)) == Overwrite(Keyed(rs[..|rs| - 1]))[RecordKey(rs[|rs| - 1]) := rs[|rs| - 1]]
  {
    RecordStep(rs, |rs| - 1);
    assert rs[..|rs|] == rs;
  }

  /** A block descriptor whose 32 bytes lie inside the file is the one laid out there. */
  lemma IntactBlock(file: seq<u8>, start: nat, count: nat, i: nat)
    requires i < count && start + BLOCK_SIZE * i + BLOCK_SIZE <= |file|
    ensures BlockTable(file, start, count)[i] == DecodeBlock(file, start + BLOCK_SIZE * i)
  {
    var buf := Padded(file, start, BLOCK_SIZE * count);
    var p, q := BLOCK_SIZE * i, start + BLOCK_SIZE * i;
    assert buf[p..p + BLOCK_SIZE] == file[q..q + BLOCK_SIZE];
    BlockBytesOfDecode(file, q);
    BlockIn(buf, p, DecodeBlock(file, q));
  }

  /** A block descriptor that starts at or past the end of the file is read as all zeros. */
  lemma MissingBlockIsZero(file: seq<u8>, start: nat, count: nat, i: nat)
    requires i < count && |file| <= start + BLOCK_SIZE * i
    ensures BlockTable(file, start, count)[i] == Block(0, 0, 0, 0, 0, 0)
  {
    var buf := Padded(file, start, BLOCK_SIZE * count);
    var p := BLOCK_SIZE * i;
    assert buf[p..p + BLOCK_SIZE] == seq(BLOCK_SIZE, _ => 0);
    assert EncodeBlock(Block(0, 0, 0, 0, 0, 0)) == seq(BLOCK_SIZE, _ => 0);
    BlockIn(buf, p, Block(0, 0, 0, 0, 0, 0));
  }

  /** Writing a record into the map is one more pair of the fold. */
  lemma RecordStep(rs: seq<Record>, i: nat)
    requires i < |rs|
    ensures Overwrite(Keyed(rs[..i + 1])) == Overwrite(Keyed(rs[..i]))[RecordKey(rs[i]) := rs[i]]
  {
    assert rs[..i + 1] == rs[..i] + [rs[i]];
    KeyedSnoc(rs[..i], rs[i]);
    OverwriteSnoc(Keyed(rs[..i]), (RecordKey(rs[i]), rs[i]));
  }

  /** The loop over the record buffer that fills `Records`. */
  method ReadRecords(file: seq<u8>, count: nat, recordBuffer: seq<u8>) returns (table: map<u64, Record>)
    requires recordBuffer == Padded(file, PREAMBLE_SIZE, RECORD_SIZE * count)
    ensures table == Overwrite(Keyed(RecordTable(file, count)))
  {
    ghost var rs := RecordTable(file, count);
    table := map[];
    var i := 0;
    while i < count
      invariant 0 <= i <= count == |rs|
      invariant table == Overwrite(Keyed(rs[..i]))
    {
      var record := DecodeRecord(recordBuffer, RECORD_SIZE * i);
      assert record == rs[i];
      RecordStep(rs, i);
      table := table[RecordKey(record) := record];
      i := i + 1;
    }
    assert rs[..i] == rs;
  }

  // ---------------------------------------------------------------------------
  // Reading a logical file
  // ---------------------------------------------------------------------------

  /** The ways `read_file` goes wrong: undefined behaviour or a failed stream read in libstormbird. */
  datatype ReadError =
    | DivisionByZero      // `max_block_size` is zero
    | Overflow            // signed arithmetic leaves its type
    | BadAllocation       // a negative size handed to `dragon::Array`
    | BlockOutOfRange     // `Blocks[i + alignment]` outside the block table
    | ShortRead           // the compressed bytes are not inside the file
    | BadBlockSize        // a negative decompressed size
    | WriteOutOfRange     // a decompressed block does not fit the assembly buffer
    | SliceOutOfRange     // the returned range is not inside the assembly buffer

  predicate IsI64(x: int) { -0x8000_0000_0000_0000 <= x < 0x8000_0000_0000_0000 }

  /**
   * `a * b`, spelled as repeated addition so that the proofs about windows
   * and rounds stay linear; `TimesIsProduct` says it is the product.
   */
  function Times(a: int, b: int): int
    decreases if a < 0 then -a else a
  {
    if a == 0 then 0 else if a > 0 then Times(a - 1, b) + b else Times(a + 1, b) - b
  }

  lemma {:induction false} TimesIsProduct(a: int, b: int)
    ensures Times(a, b) == a * b
    decreases if a < 0 then -a else a
  {
    if a > 0 {
      TimesIsProduct(a - 1, b);
    } else if a < 0 {
      TimesIsProduct(a + 1, b);
    }
  }

  /** Multiples of a non-negative stride grow with the multiplier. */
  lemma {:induction false} TimesMono(i: nat, i': nat, m: int)
    requires m >= 0 && i <= i'
    ensures Times(i, m) <= Times(i', m)
    decreases i' - i
  {
    if i < i' {
      TimesMono(i, i' - 1, m);
    }
  }

  lemma TimesDistrib(a: int, b: int, m: int)
    ensures Times(a - b, m) == Times(a, m) - Times(b, m)
  {
    TimesIsProduct(a - b, m);
    TimesIsProduct(a, m);
    TimesIsProduct(b, m);
  }

  /** Quotient and remainder of a non-negative number by a positive one. */
  lemma DivFacts(x: int, m: int)
    requires x >= 0 && m > 0
    ensures x / m >= 0 && x % m == x - Times(x / m, m)
    ensures Times(x / m, m) <= x < Times(x / m, m) + m
  {
    TimesIsProduct(x / m, m);
  }

  /** C++ `/` on integers: the quotient truncated toward zero. */
  function TruncDiv(a: int, b: int): int
    requires b != 0
  {
    var q := (if a < 0 then -a else a) / (if b < 0 then -b else b);
    if (a < 0) != (b < 0) then -q else q
  }

  /** C++ `%`: the remainder that goes with `TruncDiv`. */
  function TruncMod(a: int, b: int): int
    requires b != 0
  {
    a - Times(TruncDiv(a, b), b)
  }

  /**
   * The blocks a record touches: the first one, how many, the block stride
   * `max_block_size`, and where the record starts inside the first one.
   */
  datatype Window = Window(first: int, count: int, stride: int, start: int, bufferSize: int)

  /** The assembly buffer holds one stride more than the blocks in the window. */
  function BufferSize(w: Window): int
  {
    w.bufferSize
  }

  /** The arithmetic of `read_file` before its loop, in `int64_t` and `int32_t`. */
  function WindowOf(r: Record, m: i32): (res: Result<Window, ReadError>)
    ensures res.Ok? ==> res.value.stride == m && BufferSize(res.value) >= 0 && IsI32(res.value.count)
    ensures res.Ok? ==> BufferSize(res.value) == Times(res.value.count, m) + m
  {
    if m == 0 then Err(DivisionByZero)
    else if !IsI64(r.offset + r.size) || !IsI64(TruncDiv(r.offset, m)) || !IsI64(TruncDiv(r.offset + r.size, m)) then
      Err(Overflow)
    else
      var first := Wrap32(TruncDiv(r.offset, m));
      var last := Wrap32(TruncDiv(r.offset + r.size, m));
      var count := last - first + 1;
      var product := Times(count, m);
      if !IsI32(count) || !IsI32(product) || !IsI32(product + m) then Err(Overflow)
      else if product + m < 0 then Err(BadAllocation)
      else Ok(Window(first, count, m, TruncMod(r.offset, m), product + m))
  }

  /** How many times the loop body runs. */
  function Rounds(w: Window): nat
  {
    if w.count > 0 then w.count else 0
  }

  /** Seek to the block, read its compressed bytes, and decompress them. */
  function Decompressed(stream: seq<u8>, b: Block, codec: Codec): (res: Result<seq<u8>, ReadError>)
    ensures res.Ok? ==> |res.value| == b.blockSize
  {
    if b.size < 0 then Err(BadAllocation)
    else if b.offset < 0 || b.offset + b.size > |stream| then Err(ShortRead)
    else if b.blockSize < 0 then Err(BadBlockSize)
    else Ok(codec(stream[b.offset..b.offset + b.size], b.blockSize))
  }

  /** `buf` with `data` written over it from `at` on. */
  function Overlay(buf: seq<u8>, at: nat, data: seq<u8>): (r: seq<u8>)
    requires at + |data| <= |buf|
    ensures |r| == |buf|
    ensures forall q :: 0 <= q < |buf| ==> r[q] == if at <= q < at + |data| then data[q - at] else buf[q]
  {
    buf[..at] + data + buf[at + |data|..]
  }


  /** The assembly buffer after the first `n` rounds of the loop. */
  function Assembled(stream: seq<u8>, blocks: seq<Block>, w: Window, codec: Codec, n: nat): (res: Result<seq<u8>, ReadError>)
    requires BufferSize(w) >= 0 && n <= Rounds(w)
    ensures res.Ok? ==> |res.value| == BufferSize(w)
    ensures res.Err? ==> res.error != SliceOutOfRange
  {
    if n == 0 then Ok(seq(BufferSize(w), _ => 0))
    else
      match Assembled(stream, blocks, w, codec, n - 1)
      case Err(e) => Err(e)
      case Ok(buf) =>
        var k := n - 1 + w.first;
        if !(0 <= k < |blocks|) then Err(BlockOutOfRange)
        else
          match Decompressed(stream, blocks[k], codec)
          case Err(e) => Err(e)
          case Ok(out) =>
            var at := Times(n - 1, w.stride);
            if !(0 <= at && at + |out| <= |buf|) then Err(WriteOutOfRange)
            else Ok(Overlay(buf, at, out))
  }

  /**
   * The second half of a round: the decompressed block `out` written into
   * slot `i` of the buffer, when it fits there.
   */
  method Place(stream: seq<u8>, blocks: seq<Block>, w: Window, codec: Codec, buffer: array<u8>, i: nat, out: seq<u8>)
    returns (failure: Option<ReadError>)
    requires BufferSize(w) >= 0 && i < Rounds(w) && buffer.Length == BufferSize(w)
    requires Assembled(stream, blocks, w, codec, i) == Ok(buffer[..])
    requires 0 <= i + w.first < |blocks| && Decompressed(stream, blocks[i + w.first], codec) == Ok(out)
    modifies buffer
    ensures failure.Some? ==> Assembled(stream, blocks, w, codec, Rounds(w)) == Err(failure.value)
    ensures failure.None? ==> Assembled(stream, blocks, w, codec, i + 1) == Ok(buffer[..])
  {
    var at := SlotOffset(i, w.stride);
    if !(0 <= at && at + |out| <= buffer.Length) {
      RoundOverflows(stream, blocks, w, codec, i, buffer[..], out);
      return Some(WriteOutOfRange);
    }
    AssembledStep(stream, blocks, w, codec, i, buffer[..], out);
    WriteAt(buffer, at, out);
    failure := None;
  }

  /** `i * max_block_size`: where round `i` writes into the assembly buffer. */
  method SlotOffset(i: nat, m: int) returns (at: int)
    ensures at == Times(i, m)
  {
    at := i * m;
    TimesIsProduct(i, m);
  }

  /** `Kraken_Decompress` writing its output into the assembly buffer at `at`. */
  method WriteAt(buffer: array<u8>, at: nat, out: seq<u8>)
    requires at + |out| <= buffer.Length
    modifies buffer
    ensures buffer[..] == Overlay(old(buffer[..]), at, out)
  {
    forall j | 0 <= j < |out| {
      buffer[at + j] := out[j];
    }
  }

  /** One more round, when its block is in the table, decompresses and fits. */
  lemma AssembledStep(stream: seq<u8>, blocks: seq<Block>, w: Window, codec: Codec, n: nat, buf: seq<u8>, out: seq<u8>)
    requires BufferSize(w) >= 0 && n < Rounds(w)
    requires Assembled(stream, blocks, w, codec, n) == Ok(buf)
    requires 0 <= n + w.first < |blocks| && Decompressed(stream, blocks[n + w.first], codec) == Ok(out)
    requires 0 <= Times(n, w.stride) && Times(n, w.stride) + |out| <= |buf|
    ensures Assembled(stream, blocks, w, codec, n + 1) == Ok(Overlay(buf, Times(n, w.stride), out))
  {
  }

  /** A round whose block is not in the table ends the loop with `BlockOutOfRange`. */
  lemma RoundMissesBlock(stream: seq<u8>, blocks: seq<Block>, w: Window, codec: Codec, n: nat, buf: seq<u8>)
    requires BufferSize(w) >= 0 && n < Rounds(w)
    requires Assembled(stream, blocks, w, codec, n) == Ok(buf)
    requires !(0 <= n + w.first < |blocks|)
    ensures Assembled(stream, blocks, w, codec, Rounds(w)) == Err(BlockOutOfRange)
  {
    assert Assembled(stream, blocks, w, codec, n + 1) == Err(BlockOutOfRange);
    AssembledErrPersists(stream, blocks, w, codec, n + 1, Rounds(w));
  }

  /** A round whose block cannot be read or decompressed ends the loop with that error. */
  lemma RoundReadFails(stream: seq<u8>, blocks: seq<Block>, w: Window, codec: Codec, n: nat, buf: seq<u8>)
    requires BufferSize(w) >= 0 && n < Rounds(w)
    requires Assembled(stream, blocks, w, codec, n) == Ok(buf)
    requires 0 <= n + w.first < |blocks| && Decompressed(stream, blocks[n + w.first], codec).Err?
    ensures Assembled(stream, blocks, w, codec, Rounds(w)) == Err(Decompressed(stream, blocks[n + w.first], codec).error)
  {
    assert Assembled(stream, blocks, w, codec, n + 1) == Err(Decompressed(stream, blocks[n + w.first], codec).error);
    AssembledErrPersists(stream, blocks, w, codec, n + 1, Rounds(w));
  }

  /** A round whose output does not fit the buffer ends the loop with `WriteOutOfRange`. */
  lemma RoundOverflows(stream: seq<u8>, blocks: seq<Block>, w: Window, codec: Codec, n: nat, buf: seq<u8>, out: seq<u8>)
    requires BufferSize(w) >= 0 && n < Rounds(w)
    requires Assembled(stream, blocks, w, codec, n) == Ok(buf)
    requires 0 <= n + w.first < |blocks| && Decompressed(stream, blocks[n + w.first], codec) == Ok(out)
    requires !(0 <= Times(n, w.stride) && Times(n, w.stride) + |out| <= |buf|)
    ensures Assembled(stream, blocks, w, codec, Rounds(w)) == Err(WriteOutOfRange)
  {
    OverflowStep(stream, blocks, w, codec, n, buf, out);
    AssembledErrPersists(stream, blocks, w, codec, n + 1, Rounds(w));
  }

  lemma OverflowStep(stream: seq<u8>, blocks: seq<Block>, w: Window, codec: Codec, n: nat, buf: seq<u8>, out: seq<u8>)
    requires BufferSize(w) >= 0 && n < Rounds(w)
    requires Assembled(stream, blocks, w, codec, n) == Ok(buf)
    requires 0 <= n + w.first < |blocks| && Decompressed(stream, blocks[n + w.first], codec) == Ok(out)
    requires !(0 <= Times(n, w.stride) && Times(n, w.stride) + |out| <= |buf|)
    ensures Assembled(stream, blocks, w, codec, n + 1) == Err(WriteOutOfRange)
  {
  }

  /** Once a round has failed, every later round fails the same way. */
  lemma {:induction false} AssembledErrPersists(stream: seq<u8>, blocks: seq<Block>, w: Window, codec: Codec, n: nat, n': nat)
    requires BufferSize(w) >= 0 && n <= n' <= Rounds(w)
    requires Assembled(stream, blocks, w, codec, n).Err?
    ensures Assembled(stream, blocks, w, codec, n') == Assembled(stream, blocks, w, codec, n)
    decreases n' - n
  {
    if n < n' {
      AssembledErrPersists(stream, blocks, w, codec, n, n' - 1);
    }
  }

  /** What `read_file` returns for a record that exists. */
  function ReadRecord(stream: seq<u8>, header: Header, blocks: seq<Block>, r: Record, codec: Codec): (res: Result<seq<u8>, ReadError>)
    ensures res.Ok? ==> |res.value| == r.size
    ensures res == Err(SliceOutOfRange) ==> WindowOf(r, header.maxBlockSize).Ok?
  {
    match WindowOf(r, header.maxBlockSize)
    case Err(e) => Err(e)
    case Ok(w) =>
      match Assembled(stream, blocks, w, codec, Rounds(w))
      case Err(e) => Err(e)
      case Ok(buf) =>
        if 0 <= w.start && 0 <= r.size && w.start + r.size <= |buf| then Ok(buf[w.start..w.start + r.size])
        else Err(SliceOutOfRange)
  }

  /** Byte `j` of decompressed block `k`, or zero where that block has no such byte. */
  function BlockByte(stream: seq<u8>, blocks: seq<Block>, codec: Codec, k: int, j: int): u8
  {
    if 0 <= k < |blocks| then
      match Decompressed(stream, blocks[k], codec)
      case Ok(out) => if 0 <= j < |out| then out[j] else 0
      case Err(_) => 0
    else 0
  }

  /** Every block of the window but the last decompresses to exactly one stride. */
  predicate FullBlocks(blocks: seq<Block>, w: Window)
  {
    forall k :: w.first <= k < w.first + w.count - 1 ==> 0 <= k < |blocks| && blocks[k].blockSize == w.stride
  }

  /** A cell `j` of slot `i` lies before, inside or past the slot `n` is written to. */
  lemma SlotOrder(m: int, n: nat, i: nat, j: int)
    requires m > 0 && 0 <= j < m
    ensures i < n ==> Times(i, m) + j < Times(n, m)
    ensures i == n ==> Times(i, m) + j - Times(n, m) == j
    ensures i > n ==> Times(i, m) + j >= Times(n, m) + m
  {
    if i < n {
      TimesMono(i + 1, n, m);
    } else if i > n {
      TimesMono(n + 1, i, m);
    }
  }

  /** Every cell of a slot of the window is inside the assembly buffer. */
  lemma SlotInBuffer(w: Window, i: nat, j: int)
    requires w.stride > 0 && BufferSize(w) >= Times(Rounds(w), w.stride)
    requires i < w.count && 0 <= j < w.stride
    ensures 0 <= Times(i, w.stride) + j < BufferSize(w)
  {
    TimesMono(0, i, w.stride);
    TimesMono(i + 1, Rounds(w), w.stride);
  }

  /**
   * Slot `i` of the buffer holds decompressed block `first + i` when `i < n`,
   * and zeros otherwise.
   */
  predicate SlotsHold(stream: seq<u8>, blocks: seq<Block>, w: Window, codec: Codec, n: nat, buf: seq<u8>)
  {
    forall i: nat, j :: i < w.count && 0 <= j < w.stride ==> CellHolds(stream, blocks, w, codec, n, buf, i, j)
  }

  /** Cell `j` of slot `i`, as `SlotsHold` describes it. */
  predicate CellHolds(stream: seq<u8>, blocks: seq<Block>, w: Window, codec: Codec, n: nat, buf: seq<u8>, i: nat, j: int)
  {
    0 <= Times(i, w.stride) + j < |buf| &&
    buf[Times(i, w.stride) + j] == if i < n then BlockByte(stream, blocks, codec, w.first + i, j) else 0
  }

  /** After `n` rounds over full blocks, the first `n` slots are filled and the rest are zero. */
  lemma {:induction false} AssembledSlots(stream: seq<u8>, blocks: seq<Block>, w: Window, codec: Codec, n: nat, buf: seq<u8>)
    requires BufferSize(w) >= 0 && w.stride > 0 && n <= Rounds(w) && FullBlocks(blocks, w)
    requires BufferSize(w) >= Times(Rounds(w), w.stride)
    requires Assembled(stream, blocks, w, codec, n) == Ok(buf)
    ensures SlotsHold(stream, blocks, w, codec, n, buf)
  {
    if n == 0 {
      ZeroSlots(stream, blocks, w, codec, buf);
    } else {
      var prev := Assembled(stream, blocks, w, codec, n - 1).value;
      AssembledSlots(stream, blocks, w, codec, n - 1, prev);
      AssembledSlotsStep(stream, blocks, w, codec, n - 1, prev, buf);
    }
  }

  /** Before the first round every slot is zero. */
  lemma ZeroSlots(stream: seq<u8>, blocks: seq<Block>, w: Window, codec: Codec, buf: seq<u8>)
    requires w.stride > 0 && BufferSize(w) >= 0 && BufferSize(w) >= Times(Rounds(w), w.stride)
    requires buf == seq(BufferSize(w), _ => 0)
    ensures SlotsHold(stream, blocks, w, codec, 0, buf)
  {
    forall i: nat, j | i < w.count && 0 <= j < w.stride
      ensures CellHolds(stream, blocks, w, codec, 0, buf, i, j)
    {
      SlotInBuffer(w, i, j);
    }
  }

  /** One round moves slot `n` from zeros to its decompressed block and leaves the others. */
  lemma AssembledSlotsStep(stream: seq<u8>, blocks: seq<Block>, w: Window, codec: Codec, n: nat, prev: seq<u8>, buf: seq<u8>)
    requires BufferSize(w) >= 0 && w.stride > 0 && n < Rounds(w) && FullBlocks(blocks, w)
    requires Assembled(stream, blocks, w, codec, n) == Ok(prev)
    requires Assembled(stream, blocks, w, codec, n + 1) == Ok(buf)
    requires SlotsHold(stream, blocks, w, codec, n, prev)
    ensures SlotsHold(stream, blocks, w, codec, n + 1, buf)
  {
    var m := w.stride;
    var out := Decompressed(stream, blocks[n + w.first], codec).value;
    assert buf == Overlay(prev, Times(n, m), out);
    assert n < w.count - 1 ==> |out| == m;
    var n' := n + 1;
    forall i: nat, j | i < w.count && 0 <= j < m
      ensures CellHolds(stream, blocks, w, codec, n', buf, i, j)
    {
      assert CellHolds(stream, blocks, w, codec, n, prev, i, j);
      CellStep(stream, blocks, w, codec, n, prev, out, buf, i, j);
    }
  }

  /** One cell across one round: written when it lies in slot `n`, kept otherwise. */
  lemma CellStep(stream: seq<u8>, blocks: seq<Block>, w: Window, codec: Codec, n: nat, prev: seq<u8>, out: seq<u8>, buf: seq<u8>, i: nat, j: int)
    requires w.stride > 0 && n < w.count && i < w.count && 0 <= j < w.stride
    requires 0 <= n + w.first < |blocks| && Decompressed(stream, blocks[n + w.first], codec) == Ok(out)
    requires n < w.count - 1 ==> |out| == w.stride
    requires 0 <= Times(n, w.stride) && Times(n, w.stride) + |out| <= |prev|
    requires buf == Overlay(prev, Times(n, w.stride), out)
    requires CellHolds(stream, blocks, w, codec, n, prev, i, j)
    ensures CellHolds(stream, blocks, w, codec, n + 1, buf, i, j)
  {
    SlotOrder(w.stride, n, i, j);
  }

  /** Division by a positive divisor does not decrease. */
  lemma DivMono(x: int, y: int, m: int)
    requires m > 0 && 0 <= x <= y
    ensures x / m <= y / m
  {
    DivFacts(x, m);
    DivFacts(y, m);
    if x / m > y / m {
      TimesMono(y / m + 1, x / m, m);
    }
  }

  /**
   * Without wrap-around, the window starts at the block holding the first
   * byte, ends at the block holding the byte just past the record, and the
   * record lies inside its blocks.
   */
  lemma WindowCovers(r: Record, m: i32)
    requires WindowOf(r, m).Ok? && m > 0 && r.offset >= 0 && r.size >= 0
    requires IsI32((r.offset + r.size) / m)
    ensures WindowOf(r, m).value.first == r.offset / m
    ensures WindowOf(r, m).value.count == (r.offset + r.size) / m - r.offset / m + 1 >= 1
    ensures WindowOf(r, m).value.start == r.offset % m
    ensures Times(WindowOf(r, m).value.count - 1, m) <= WindowOf(r, m).value.start + r.size
    ensures WindowOf(r, m).value.start + r.size < Times(WindowOf(r, m).value.count, m)
  {
    var o, s := r.offset, r.size;
    var f, l := o / m, (o + s) / m;
    DivFacts(o, m);
    DivFacts(o + s, m);
    DivMono(o, o + s, m);
    assert TruncDiv(o, m) == f && TruncDiv(o + s, m) == l;
    assert IsI32(f);
    var w := WindowOf(r, m).value;
    assert w.first == f;
    assert w.count == l - f + 1;
    TimesDistrib(l, f, m);
    TimesDistrib(l + 1, f, m);
  }

  /**
   * The bytes `read_file` returns: when `max_block_size` is positive, the
   * record's range is non-negative and does not make the block indices wrap,
   * and every block of the window but the last decompresses to a full
   * `max_block_size` bytes, then byte `j` of decompressed block `k` is the
   * byte at `k * max_block_size + j - offset` of the result, for every such
   * position inside the record (and zero past the end of a short last block).
   */
  lemma ReadRecordBytes(stream: seq<u8>, header: Header, blocks: seq<Block>, r: Record, codec: Codec, data: seq<u8>)
    requires ReadRecord(stream, header, blocks, r, codec) == Ok(data)
    requires header.maxBlockSize > 0 && r.offset >= 0 && r.size >= 0
    requires IsI32((r.offset + r.size) / header.maxBlockSize)
    requires forall k :: r.offset / header.maxBlockSize <= k < (r.offset + r.size) / header.maxBlockSize ==>
      0 <= k < |blocks| && blocks[k].blockSize == header.maxBlockSize
    ensures |data| == r.size
    ensures forall k: nat, j :: (0 <= j < header.maxBlockSize &&
      r.offset <= Times(k, header.maxBlockSize) + j < r.offset + r.size) ==>
      data[Times(k, header.maxBlockSize) + j - r.offset] == BlockByte(stream, blocks, codec, k, j)
  {
    var m := header.maxBlockSize;
    var w, buf := ReadRecordParts(stream, header, blocks, r, codec, data);
    WindowPlacesRecord(r, m, w);
    assert FullBlocks(blocks, w);
    AssembledSlots(stream, blocks, w, codec, Rounds(w), buf);
    RecordInSlots(stream, blocks, codec, w, buf, r, data);
  }

  /** A successful read is the record's range cut out of the buffer its window assembles. */
  lemma ReadRecordParts(stream: seq<u8>, header: Header, blocks: seq<Block>, r: Record, codec: Codec, data: seq<u8>)
    returns (w: Window, buf: seq<u8>)
    requires ReadRecord(stream, header, blocks, r, codec) == Ok(data)
    ensures WindowOf(r, header.maxBlockSize) == Ok(w) && BufferSize(w) >= 0
    ensures Assembled(stream, blocks, w, codec, Rounds(w)) == Ok(buf)
    ensures 0 <= w.start && w.start + r.size <= |buf| && data == buf[w.start..w.start + r.size]
  {
    w := WindowOf(r, header.maxBlockSize).value;
    buf := Assembled(stream, blocks, w, codec, Rounds(w)).value;
  }

  /** The window's slots, counted from block `first`, hold the record's range. */
  lemma WindowPlacesRecord(r: Record, m: i32, w: Window)
    requires WindowOf(r, m) == Ok(w) && m > 0 && r.offset >= 0 && r.size >= 0
    requires IsI32((r.offset + r.size) / m)
    ensures w.stride == m && w.first == r.offset / m >= 0 && w.count >= 1 && Rounds(w) == w.count
    ensures w.first + w.count - 1 == (r.offset + r.size) / m
    ensures w.start == r.offset - Times(w.first, m) && 0 <= w.start
    ensures r.offset + r.size < Times(w.first + w.count - 1, m) + m
    ensures w.start + r.size < BufferSize(w)
  {
    WindowCovers(r, m);
    DivFacts(r.offset, m);
    DivFacts(r.offset + r.size, m);
  }

  /** The record's range cut out of a buffer whose slots hold the window's blocks. */
  lemma RecordInSlots(stream: seq<u8>, blocks: seq<Block>, codec: Codec, w: Window, buf: seq<u8>, r: Record, data: seq<u8>)
    requires w.stride > 0 && w.first >= 0 && w.count >= 1
    requires SlotsHold(stream, blocks, w, codec, w.count, buf)
    requires w.start == r.offset - Times(w.first, w.stride) && 0 <= w.start
    requires r.offset + r.size < Times(w.first + w.count - 1, w.stride) + w.stride
    requires 0 <= r.size && w.start + r.size <= |buf| && data == buf[w.start..w.start + r.size]
    ensures forall k: nat, j :: (0 <= j < w.stride && r.offset <= Times(k, w.stride) + j < r.offset + r.size) ==>
      data[Times(k, w.stride) + j - r.offset] == BlockByte(stream, blocks, codec, k, j)
  {
    var m := w.stride;
    forall k: nat, j | 0 <= j < m && r.offset <= Times(k, m) + j < r.offset + r.size
      ensures data[Times(k, m) + j - r.offset] == BlockByte(stream, blocks, codec, k, j)
    {
      BytePlace(m, w.first, w.first + w.count - 1, r.offset, r.size, k, j);
      var i: nat := k - w.first;
      assert CellHolds(stream, blocks, w, codec, w.count, buf, i, j);
      SliceByte(data, buf, w.start, r.size, Times(i, m) + j);
    }
  }

  lemma SliceByte(data: seq<u8>, buf: seq<u8>, start: int, size: int, q: int)
    requires 0 <= start && start <= q < start + size <= |buf|
    requires data == buf[start..start + size]
    ensures data[q - start] == buf[q]
  {
  }

  /** A byte of the record at `k * m + j` lies in slot `k - first` of the window. */
  lemma BytePlace(m: int, first: nat, last: nat, offset: int, size: int, k: nat, j: int)
    requires m > 0 && 0 <= j < m
    requires Times(first, m) <= offset && offset + size < Times(last, m) + m
    requires offset <= Times(k, m) + j < offset + size
    ensures first <= k <= last
    ensures Times(k - first, m) + j == Times(k, m) + j - Times(first, m)
  {
    if k < first {
      TimesMono(k + 1, first, m);
    }
    if k > last {
      TimesMono(last + 1, k, m);
    }
    TimesDistrib(k, first, m);
  }

  /**
   * The spare stride at the end of the assembly buffer is never needed for
   * the cut: without wrap-around, `read_file` never fails for a range outside
   * its buffer.
   */
  lemma ReadStaysInBuffer(stream: seq<u8>, header: Header, blocks: seq<Block>, r: Record, codec: Codec)
    requires header.maxBlockSize > 0 && r.offset >= 0 && r.size >= 0
    requires IsI32((r.offset + r.size) / header.maxBlockSize)
    ensures ReadRecord(stream, header, blocks, r, codec) != Err(SliceOutOfRange)
  {
    var m := header.maxBlockSize;
    if WindowOf(r, m).Ok? {
      var w := WindowOf(r, m).value;
      WindowCovers(r, m);
      assert w.start + r.size < BufferSize(w);
      var assembled := Assembled(stream, blocks, w, codec, Rounds(w));
      assert assembled.Ok? ==> |assembled.value| == BufferSize(w);
    }
  }

  /** A block whose compressed bytes the stream holds and whose output fits one stride. */
  predicate BlockReadable(stream: seq<u8>, b: Block, m: int)
  {
    0 <= b.offset && 0 <= b.size && b.offset + b.size <= |stream| && 0 <= b.blockSize <= m
  }

  /** A positive multiple is at least the multiplier. */
  lemma {:induction false} TimesAtLeast(a: nat, m: int)
    requires m >= 1
    ensures a <= Times(a, m)
  {
    if a > 0 {
      TimesAtLeast(a - 1, m);
    }
  }

  /**
   * The assembly buffer's size, `(block_count + 1) * max_block_size`, for a
   * non-negative range: the `int32_t` that must hold it.
   */
  function NeededBuffer(r: Record, m: int): int
    requires m > 0
  {
    Times((r.offset + r.size) / m - r.offset / m + 2, m)
  }

  /**
   * For a non-negative range whose end fits `int64_t` and whose last block
   * index fits `int32_t`, the arithmetic before the loop succeeds exactly
   * when the assembly buffer's size fits `int32_t`; byte offsets themselves
   * may lie anywhere below 2^63.
   */
  lemma WindowFits(r: Record, m: i32)
    requires m > 0 && r.offset >= 0 && r.size >= 0 && IsI64(r.offset + r.size)
    requires IsI32((r.offset + r.size) / m)
    ensures WindowOf(r, m).Ok? <==> NeededBuffer(r, m) < 0x8000_0000
  {
    BlockIndices(r, m);
  }

  /** The block indices and the block count of a non-negative range, without wrap-around. */
  lemma BlockIndices(r: Record, m: i32)
    requires m > 0 && r.offset >= 0 && r.size >= 0 && IsI64(r.offset + r.size)
    requires IsI32((r.offset + r.size) / m)
    ensures var f, l := r.offset / m, (r.offset + r.size) / m;
      0 <= f <= l && TruncDiv(r.offset, m) == f && TruncDiv(r.offset + r.size, m) == l &&
      IsI64(f) && Wrap32(f) == f && Wrap32(l) == l &&
      1 <= l - f + 1 <= Times(l - f + 1, m) && NeededBuffer(r, m) == Times(l - f + 1, m) + m
  {
    var o, s := r.offset, r.size;
    var f, l := o / m, (o + s) / m;
    DivFacts(o, m);
    DivFacts(o + s, m);
    DivMono(o, o + s, m);
    TimesAtLeast(f, m);
    var count := l - f + 1;
    TimesAtLeast(count, m);
    assert Times(count + 1, m) == Times(count, m) + m;
  }

  /** Every block of the window is in the table and readable. */
  predicate WindowReadable(stream: seq<u8>, blocks: seq<Block>, w: Window)
  {
    0 <= w.first && w.first + w.count <= |blocks| &&
    forall k :: w.first <= k < w.first + w.count ==> BlockReadable(stream, blocks[k], w.stride)
  }

  /** Rounds over readable blocks never fail: each block's output fits its slot. */
  lemma {:induction false} AssembledOk(stream: seq<u8>, blocks: seq<Block>, w: Window, codec: Codec, n: nat)
    requires w.stride > 0 && w.first >= 0 && BufferSize(w) == Times(w.count, w.stride) + w.stride >= 0
    requires n <= Rounds(w) && WindowReadable(stream, blocks, w)
    ensures Assembled(stream, blocks, w, codec, n).Ok?
  {
    if n > 0 {
      AssembledOk(stream, blocks, w, codec, n - 1);
      var k := n - 1 + w.first;
      assert w.first <= k < w.first + w.count;
      assert 0 <= k < |blocks|;
      assert BlockReadable(stream, blocks[k], w.stride);
      TimesMono(0, n - 1, w.stride);
      TimesMono(n, Rounds(w), w.stride);
      assert Times(n, w.stride) == Times(n - 1, w.stride) + w.stride;
    }
  }

  /** Block `k` is in the table and its compressed bytes are in the stream. */
  predicate BlockAvailable(stream: seq<u8>, blocks: seq<Block>, k: int, m: int)
  {
    0 <= k < |blocks| && BlockReadable(stream, blocks[k], m)
  }

  /**
   * When `read_file` succeeds: `max_block_size` is positive, the range is
   * non-negative with its end inside `int64_t`, the last block index and
   * the assembly buffer's size fit `int32_t`, and every block from the one
   * holding the first byte to the one holding the byte past the end is in
   * the table and readable.  The result then has `size` bytes.
   */
  lemma ReadRecordSucceeds(stream: seq<u8>, header: Header, blocks: seq<Block>, r: Record, codec: Codec)
    requires header.maxBlockSize > 0 && r.offset >= 0 && r.size >= 0 && IsI64(r.offset + r.size)
    requires IsI32((r.offset + r.size) / header.maxBlockSize)
    requires NeededBuffer(r, header.maxBlockSize) < 0x8000_0000
    requires forall k :: r.offset / header.maxBlockSize <= k <= (r.offset + r.size) / header.maxBlockSize ==>
      BlockAvailable(stream, blocks, k, header.maxBlockSize)
    ensures ReadRecord(stream, header, blocks, r, codec).Ok?
    ensures |ReadRecord(stream, header, blocks, r, codec).value| == r.size
  {
    var m := header.maxBlockSize;
    WindowFits(r, m);
    var w := WindowOf(r, m).value;
    WindowPlacesRecord(r, m, w);
    var last := (r.offset + r.size) / m;
    assert r.offset / m <= last == w.first + w.count - 1;
    assert BlockAvailable(stream, blocks, last, m);
    forall k | w.first <= k < w.first + w.count
      ensures BlockReadable(stream, blocks[k], w.stride)
    {
      assert BlockAvailable(stream, blocks, k, m);
    }
    assert WindowReadable(stream, blocks, w);
    AssembledOk(stream, blocks, w, codec, Rounds(w));
    var buf := Assembled(stream, blocks, w, codec, Rounds(w)).value;
    ReadRecordFromParts(stream, header, blocks, r, codec, w, buf);
  }

  /** A window and an assembled buffer that holds the record's range make a successful read. */
  lemma ReadRecordFromParts(stream: seq<u8>, header: Header, blocks: seq<Block>, r: Record, codec: Codec, w: Window, buf: seq<u8>)
    requires WindowOf(r, header.maxBlockSize) == Ok(w) && BufferSize(w) >= 0
    requires Assembled(stream, blocks, w, codec, Rounds(w)) == Ok(buf)
    requires 0 <= w.start && 0 <= r.size && w.start + r.size <= |buf|
    ensures ReadRecord(stream, header, blocks, r, codec) == Ok(buf[w.start..w.start + r.size])
  {
  }

  /** What block `b` decompresses to when the stream holds it. */
  function BlockOutput(stream: seq<u8>, b: Block, codec: Codec): (out: seq<u8>)
    requires 0 <= b.offset && 0 <= b.size && b.offset + b.size <= |stream| && 0 <= b.blockSize
    ensures |out| == b.blockSize
  {
    codec(stream[b.offset..b.offset + b.size], b.blockSize)
  }

  /**
   * A record of one stride that starts `o` bytes into block 0 crosses into
   * block 1: `read_file` returns the tail of block 0 followed by the head of
   * block 1.
   */
  lemma ReadAcrossTwoBlocks(stream: seq<u8>, header: Header, blocks: seq<Block>, r: Record, codec: Codec)
    requires header.maxBlockSize > 0 && 0 <= r.offset < header.maxBlockSize && r.size == header.maxBlockSize
    requires 3 * header.maxBlockSize < 0x8000_0000
    requires |blocks| >= 2 && BlockReadable(stream, blocks[0], header.maxBlockSize) && BlockReadable(stream, blocks[1], header.maxBlockSize)
    requires blocks[0].blockSize == header.maxBlockSize == blocks[1].blockSize
    ensures ReadRecord(stream, header, blocks, r, codec) ==
      Ok(BlockOutput(stream, blocks[0], codec)[r.offset..] + BlockOutput(stream, blocks[1], codec)[..r.offset])
  {
    var m, o := header.maxBlockSize, r.offset;
    StraddleSucceeds(stream, header, blocks, r, codec);
    var data := ReadRecord(stream, header, blocks, r, codec).value;
    ReadRecordBytes(stream, header, blocks, r, codec, data);
    var d0, d1 := BlockOutput(stream, blocks[0], codec), BlockOutput(stream, blocks[1], codec);
    forall q | 0 <= q < m
      ensures data[q] == (d0[o..] + d1[..o])[q]
    {
      if q < m - o {
        assert Times(0, m) + (o + q) - o == q;
        assert data[q] == BlockByte(stream, blocks, codec, 0, o + q);
        assert Decompressed(stream, blocks[0], codec) == Ok(d0);
      } else {
        assert Times(1, m) + (o + q - m) - o == q;
        assert data[q] == BlockByte(stream, blocks, codec, 1, o + q - m);
        assert Decompressed(stream, blocks[1], codec) == Ok(d1);
      }
    }
    assert data == d0[o..] + d1[..o];
  }

  /** A one-stride record starting inside block 0 is read whole from blocks 0 and 1. */
  lemma StraddleSucceeds(stream: seq<u8>, header: Header, blocks: seq<Block>, r: Record, codec: Codec)
    requires header.maxBlockSize > 0 && 0 <= r.offset < header.maxBlockSize && r.size == header.maxBlockSize
    requires 3 * header.maxBlockSize < 0x8000_0000
    requires |blocks| >= 2 && BlockReadable(stream, blocks[0], header.maxBlockSize) && BlockReadable(stream, blocks[1], header.maxBlockSize)
    ensures r.offset / header.maxBlockSize == 0 && (r.offset + r.size) / header.maxBlockSize == 1
    ensures ReadRecord(stream, header, blocks, r, codec).Ok?
    ensures |ReadRecord(stream, header, blocks, r, codec).value| == r.size
  {
    var m := header.maxBlockSize;
    Straddle(r.offset, m);
    assert NeededBuffer(r, m) == Times(3, m) == m + m + m;
    assert BlockAvailable(stream, blocks, 0, m) && BlockAvailable(stream, blocks, 1, m);
    ReadRecordSucceeds(stream, header, blocks, r, codec);
  }

  /** An offset inside the first stride, plus one stride, ends in the second. */
  lemma Straddle(o: int, m: int)
    requires 0 <= o < m
    ensures o / m == 0 && (o + m) / m == 1
  {
    DivFacts(o, m);
    DivFacts(o + m, m);
    assert Times(1, m) == m && Times(2, m) == m + m;
    if o / m > 0 {
      TimesMono(1, o / m, m);
    }
    if (o + m) / m > 1 {
      TimesMono(2, (o + m) / m, m);
    }
  }

  /** Two 16-byte blocks, and a 16-byte record at offset 8: bytes 8 to 15 of one, then 0 to 7 of the other. */
  lemma ReadAcrossBoundary(stream: seq<u8>, blocks: seq<Block>, codec: Codec)
    requires |blocks| >= 2 && BlockReadable(stream, blocks[0], 16) && BlockReadable(stream, blocks[1], 16)
    requires blocks[0].blockSize == 16 == blocks[1].blockSize
    ensures ReadRecord(stream, DefaultHeader.(maxBlockSize := 16), blocks, Record(0, 0, 0, 8, 16, 0), codec) ==
      Ok(BlockOutput(stream, blocks[0], codec)[8..] + BlockOutput(stream, blocks[1], codec)[..8])
  {
    ReadAcrossTwoBlocks(stream, DefaultHeader.(maxBlockSize := 16), blocks, Record(0, 0, 0, 8, 16, 0), codec);
  }

  /** The window of a 16-byte record at offset 0 with 16-byte blocks: two blocks. */
  lemma BoundaryWindow()
    ensures WindowOf(Record(0, 0, 0, 0, 16, 0), 16) == Ok(Window(0, 2, 16, 0, 48))
  {
    var r := Record(0, 0, 0, 0, 16, 0);
    assert r.offset == 0 && r.size == 16 && r.offset + r.size == 16;
    assert TruncDiv(0, 16) == 0 && TruncDiv(16, 16) == 1;
    assert Wrap32(0) == 0 && Wrap32(1) == 1;
    assert Times(0, 16) == 0 && Times(1, 16) == 16 && Times(2, 16) == 32;
    assert IsI64(16) && IsI64(0) && IsI64(1) && IsI32(2) && IsI32(32) && IsI32(48);
  }

  /** A block of no compressed bytes at the start of the file always reads. */
  lemma EmptyBlockReads(stream: seq<u8>, b: Block, codec: Codec)
    requires b.offset == 0 && b.size == 0 && b.blockSize >= 0
    ensures Decompressed(stream, b, codec).Ok?
  {
  }

  /**
   * A record that ends exactly at the end of a block still has the loop visit
   * the block after it (`(offset + size) / max_block_size` is one past the
   * last block the record touches): a 16-byte record at offset 0 in an
   * archive with one 16-byte block fails for want of a second block.
   */
  lemma BoundaryReadsNextBlock(stream: seq<u8>, codec: Codec)
    ensures ReadRecord(stream, DefaultHeader.(maxBlockSize := 16), [Block(0, 16, 0, 0, 0, 0)], Record(0, 0, 0, 0, 16, 0), codec)
      == Err(BlockOutOfRange)
  {
    var blocks := [Block(0, 16, 0, 0, 0, 0)];
    var w := Window(0, 2, 16, 0, 48);
    BoundaryWindow();
    EmptyBlockReads(stream, blocks[0], codec);
    SecondBlockMissing(stream, blocks, w, codec);
    LoopFailureIsReadFailure(stream, DefaultHeader.(maxBlockSize := 16), blocks, Record(0, 0, 0, 0, 16, 0), codec, w);
  }

  /** A two-round window over a one-block table fails in its second round. */
  lemma SecondBlockMissing(stream: seq<u8>, blocks: seq<Block>, w: Window, codec: Codec)
    requires BufferSize(w) >= 0 && Rounds(w) == 2 && w.first == 0 && |blocks| == 1
    requires Decompressed(stream, blocks[0], codec).Ok? && |Decompressed(stream, blocks[0], codec).value| <= BufferSize(w)
    ensures Assembled(stream, blocks, w, codec, Rounds(w)) == Err(BlockOutOfRange)
  {
    var zero := Assembled(stream, blocks, w, codec, 0).value;
    var out := Decompressed(stream, blocks[0], codec).value;
    AssembledStep(stream, blocks, w, codec, 0, zero, out);
    RoundMissesBlock(stream, blocks, w, codec, 1, Overlay(zero, 0, out));
  }

  /** When the loop fails, `read_file` fails with the loop's error. */
  lemma LoopFailureIsReadFailure(stream: seq<u8>, header: Header, blocks: seq<Block>, r: Record, codec: Codec, w: Window)
    requires WindowOf(r, header.maxBlockSize) == Ok(w)
    requires Assembled(stream, blocks, w, codec, Rounds(w)).Err?
    ensures ReadRecord(stream, header, blocks, r, codec) == Err(Assembled(stream, blocks, w, codec, Rounds(w)).error)
  {
  }

  /** The get pointer after a successful read: the end of the last block read. */
  function ReadEnd(blocks: seq<Block>, w: Window, n: nat, pos: int): int
  {
    var k := w.first + n - 1;
    if n > 0 && 0 <= k < |blocks| then blocks[k].offset + blocks[k].size else pos
  }

  // ---------------------------------------------------------------------------
  // The archive object
  // ---------------------------------------------------------------------------

  class DecimaIndex {
    const file: seq<u8>
    var stream: seq<u8>
    const header: Header
    const records: map<u64, Record>
    const blocks: seq<Block>
    const streamIndex: DecimaStreamIndex?
    var position: int

    /**
     * Opens the archive `file`; `idx` is the content of the `.idx` file next
     * to it, when one exists.  The preamble, the record table and the block
     * table are three reads in a row; whatever the file no longer holds
     * stays zero.
     */
    constructor (file: seq<u8>, idx: Option<seq<u8>>, pathHash: PathHasher)
      requires Allocatable(file)
      requires HasMagic(file) && idx.Some? ==> Parsable(idx.value, pathHash)
      ensures this.file == file && Valid() && Opened()
      ensures header == HeaderOf(file)
      ensures records == RecordsOf(file)
      ensures blocks == BlocksOf(file)
      ensures stream == LiveStream(file)
      ensures position == OpenedPosition(file)
      ensures (streamIndex != null) == (HasMagic(file) && idx.Some?)
      ensures streamIndex != null ==> streamIndex.entries == ParseIndex(idx.value, pathHash)
    {
      var buffer := Padded(file, 0, PREAMBLE_SIZE);
      var offset: nat := 0;
      var magic := U32At(buffer, offset);
      offset := offset + 4;
      if magic != BIN_MAGIC {
        BadMagicIsEmpty(file);
        var live := if PREAMBLE_SIZE <= |file| then file else [];
        assert live == LiveStream(file);
        this.file := file;
        stream := live;
        header := DefaultHeader;
        records := map[];
        blocks := [];
        streamIndex := null;
        position := if PREAMBLE_SIZE <= |file| then PREAMBLE_SIZE else |file|;
      } else {
        var h := DecodeHeader(buffer, offset);
        assert h == HeaderOf(file);
        var recordBuffer := Padded(file, PREAMBLE_SIZE, RECORD_SIZE * h.recordCount);
        var blockStart := PREAMBLE_SIZE + RECORD_SIZE * h.recordCount;
        var table := ReadRecords(file, h.recordCount, recordBuffer);
        var blockTable := BlockTable(file, blockStart, h.blockCount);
        assert blockStart == BlocksStart(file);
        var si: DecimaStreamIndex? := null;
        if idx.Some? {
          si := new DecimaStreamIndex(idx.value, pathHash);
        }
        var end := blockStart + BLOCK_SIZE * h.blockCount;
        assert end == OpenedEnd(file);
        var live := if end <= |file| then file else [];
        assert live == LiveStream(file);
        this.file := file;
        stream := live;
        header := h;
        records := table;
        blocks := blockTable;
        streamIndex := si;
        position := if end <= |file| then end else |file|;
      }
    }

    /** What the constructor establishes about the tables, for good. */
    predicate Valid()
    {
      Allocatable(file) && header == HeaderOf(file) && records == RecordsOf(file) && blocks == BlocksOf(file)
    }

    /** The tables, and the stream as the constructor leaves it: no `read_file` has failed a read yet. */
    predicate Opened()
      reads this
    {
      Valid() && stream == LiveStream(file)
    }

    /** `file_exists(hash)`: whether the record table holds the hash. */
    predicate FileExists(hash: u64)
    {
      hash in records
    }

    /** A hash exists exactly when some record of the file's table carries it. */
    lemma FileExistsIffRecorded(hash: u64)
      requires Valid()
      ensures FileExists(hash) <==> exists i :: 0 <= i < |RecordList(file)| && RecordKey(RecordList(file)[i]) == hash
    {
      RecordKeys(RecordList(file));
      assert FileExists(hash) <==> hash in set i | 0 <= i < |RecordList(file)| :: RecordKey(RecordList(file)[i]);
    }

    /** `read_file(hash)`: the logical file's bytes, or nothing for an unknown hash. */
    function ReadResult(hash: u64, codec: Codec): Result<seq<u8>, ReadError>
      reads this
    {
      if hash in records then ReadRecord(stream, header, blocks, records[hash], codec) else Ok([])
    }

    /**
     * Decompresses the record's blocks one by one into the assembly buffer at
     * stride `max_block_size`, then copies the record's range out of it.  A
     * block read that fails sets the stream's failbit, which nothing clears:
     * every later seek and read of the stream delivers nothing.
     */
    method ReadFile(hash: u64, codec: Codec) returns (r: Result<seq<u8>, ReadError>)
      modifies this`position, this`stream
      ensures r == old(ReadResult(hash, codec))
      ensures stream == if r == Err(ShortRead) then [] else old(stream)
      ensures !FileExists(hash) ==> position == old(position)
      ensures r.Ok? && FileExists(hash) ==>
        position == ReadEnd(blocks, WindowOf(records[hash], header.maxBlockSize).value, Rounds(WindowOf(records[hash], header.maxBlockSize).value), old(position))
    {
      if !FileExists(hash) {
        return Ok([]);
      }
      var record := records[hash];
      var window := WindowOf(record, header.maxBlockSize);
      if window.Err? {
        return Err(window.error);
      }
      var w := window.value;
      var assembled := AssembleBlocks(w, codec);
      if assembled.Err? {
        if assembled.error == ShortRead {
          stream := [];
        }
        return Err(assembled.error);
      }
      var buffer := assembled.value;
      if !(0 <= w.start && 0 <= record.size && w.start + record.size <= |buffer|) {
        return Err(SliceOutOfRange);
      }
      r := Ok(buffer[w.start..w.start + record.size]);
    }

    /** The loop of `read_file`: one block per round, written at `i * max_block_size`. */
    method AssembleBlocks(w: Window, codec: Codec) returns (r: Result<seq<u8>, ReadError>)
      requires BufferSize(w) >= 0 && IsI32(w.count)
      modifies this`position
      ensures r == Assembled(stream, blocks, w, codec, Rounds(w))
      ensures r.Ok? ==> position == ReadEnd(blocks, w, Rounds(w), old(position))
    {
      var buffer := new u8[BufferSize(w)](_ => 0);
      var i := 0;
      assert buffer[..] == seq(BufferSize(w), _ => 0);
      while i < Rounds(w)  // `i < count`, which never holds for a count below one
        invariant 0 <= i <= Rounds(w) && buffer.Length == BufferSize(w)
        invariant Assembled(stream, blocks, w, codec, i) == Ok(buffer[..])
        invariant position == ReadEnd(blocks, w, i, old(position))
      {
        var failure := Round(w, codec, buffer, i);
        if failure.Some? {
          return Err(failure.value);
        }
        i := i + 1;
      }
      r := Ok(buffer[..]);
    }

    /** One pass of the loop body: block `first + i` decompressed into slot `i`. */
    method Round(w: Window, codec: Codec, buffer: array<u8>, i: nat) returns (failure: Option<ReadError>)
      requires BufferSize(w) >= 0 && i < Rounds(w) && buffer.Length == BufferSize(w)
      requires Assembled(stream, blocks, w, codec, i) == Ok(buffer[..])
      modifies this`position, buffer
      ensures failure.Some? ==> Assembled(stream, blocks, w, codec, Rounds(w)) == Err(failure.value)
      ensures failure.None? ==> Assembled(stream, blocks, w, codec, i + 1) == Ok(buffer[..])
      ensures failure.None? ==> position == ReadEnd(blocks, w, i + 1, old(position))
    {
      var k := i + w.first;
      if !(0 <= k < |blocks|) {
        RoundMissesBlock(stream, blocks, w, codec, i, buffer[..]);
        return Some(BlockOutOfRange);
      }
      var data := ReadBlock(blocks[k], codec);
      if data.Err? {
        RoundReadFails(stream, blocks, w, codec, i, buffer[..]);
        return Some(data.error);
      }
      failure := Place(stream, blocks, w, codec, buffer, i, data.value);
    }

    /** Seeks to a block and reads and decompresses it; the get pointer ends after its bytes. */
    method ReadBlock(block: Block, codec: Codec) returns (r: Result<seq<u8>, ReadError>)
      modifies this`position
      ensures r == Decompressed(stream, block, codec)
      ensures r.Ok? ==> position == block.offset + block.size
    {
      if block.size < 0 {
        return Err(BadAllocation);
      }
      if block.offset < 0 || block.offset + block.size > |stream| {
        return Err(ShortRead);
      }
      if block.blockSize < 0 {
        return Err(BadBlockSize);
      }
      position := block.offset;
      var compressed := stream[position..position + block.size];
      position := position + block.size;
      r := Ok(codec(compressed, block.blockSize));
    }
  }
}

/**
 * The `.idx` sidecar of an archive (`DecimaStreamIndex`): a magic number, an
 * entry count, then one length-prefixed entry after another.  Each entry's
 * fingerprint is recomputed from its path, and `table` maps a fingerprint back
 * to the position of its entry.
 */
module StreamIndexFile {
  import opened ByteCursor
  import opened Wrappers
  import opened PathHash
  import LastWins

  const IDX_MAGIC: u32 := 0x1020_3040

  /**
   * The fingerprint the constructor gives each path: `DecimaCache::get_hash`,
   * which is `GetHash(murmur, ·)` for the hash function `murmur`.
   */
  type PathHasher = seq<u8> -> u64
  const CHECKSUM_SIZE: nat := 16

  /** `DecimaStreamIndexEntry`. */
  datatype Entry = Entry(path: seq<u8>, checksum: seq<u8>, hash: u64, offset: u64, size: u64)

  /** What a default-constructed entry holds before the loop overwrites it. */
  const EmptyEntry: Entry := Entry([], seq(CHECKSUM_SIZE, _ => 0), 0, 0, 0)

  /**
   * The entry whose length prefix is at `pos`, with the cursor position just
   * past it: the `int32` length, that many path bytes, the 16-byte checksum,
   * the 64-bit offset and the 64-bit size.  `None` where a read would run
   * past the buffer or the length is negative.
   */
  function EntryAt(buf: seq<u8>, pos: nat, pathHash: PathHasher): (r: Option<(Entry, nat)>)
    ensures r.None? <==>
      pos + 4 > |buf| || I32At(buf, pos) < 0 || pos + 4 + I32At(buf, pos) + CHECKSUM_SIZE + 16 > |buf|
    ensures r.Some? ==>
      var (e, next) := r.value;
      |e.path| == I32At(buf, pos) && e.path == buf[pos + 4..pos + 4 + |e.path|] &&
      e.checksum == buf[pos + 4 + |e.path|..pos + 4 + |e.path| + CHECKSUM_SIZE] &&
      e.offset == U64At(buf, pos + 4 + |e.path| + CHECKSUM_SIZE) &&
      e.size == U64At(buf, pos + 4 + |e.path| + CHECKSUM_SIZE + 8) &&
      e.hash == pathHash(e.path) &&
      next == pos + 4 + |e.path| + CHECKSUM_SIZE + 16 <= |buf|
  {
    if pos + 4 > |buf| then None
    else
      var length := I32At(buf, pos);
      if length < 0 || pos + 4 + length + CHECKSUM_SIZE + 16 > |buf| then None
      else
        var pathEnd := pos + 4 + length;
        var path := buf[pos + 4..pathEnd];
        var entry := Entry(path, buf[pathEnd..pathEnd + CHECKSUM_SIZE], pathHash(path),
                           U64At(buf, pathEnd + CHECKSUM_SIZE), U64At(buf, pathEnd + CHECKSUM_SIZE + 8));
        Some((entry, pathEnd + CHECKSUM_SIZE + 16))
  }

  /** The `n` entries that follow one another from `pos`. */
  function EntriesFrom(buf: seq<u8>, pos: nat, n: nat, pathHash: PathHasher): (r: Option<seq<Entry>>)
    ensures r.Some? ==> |r.value| == n
    decreases n
  {
    if n == 0 then Some([])
    else
      match EntryAt(buf, pos, pathHash)
      case None => None
      case Some((e, next)) =>
        match EntriesFrom(buf, next, n - 1, pathHash)
        case None => None
        case Some(rest) => Some([e] + rest)
  }

  /** One step of the walk: entry `i` is at `pos`, and the walk from after it yields the rest. */
  lemma WalkStep(buf: seq<u8>, pos: nat, pathHash: PathHasher, parsed: seq<Entry>, i: nat)
    requires i < |parsed| && EntriesFrom(buf, pos, |parsed| - i, pathHash) == Some(parsed[i..])
    ensures EntryAt(buf, pos, pathHash).Some?
    ensures EntryAt(buf, pos, pathHash).value.0 == parsed[i]
    ensures EntriesFrom(buf, EntryAt(buf, pos, pathHash).value.1, |parsed| - (i + 1), pathHash) == Some(parsed[i + 1..])
  {
    assert parsed[i..][1..] == parsed[i + 1..];
  }

  /** The reads that produce an entry, one field after another. */
  lemma EntryAtFields(buf: seq<u8>, pos: nat, pathHash: PathHasher)
    requires EntryAt(buf, pos, pathHash).Some?
    ensures pos + 4 <= |buf|
    ensures var n := I32At(buf, pos);
      n >= 0 && pos + 4 + n + CHECKSUM_SIZE + 16 <= |buf| &&
      var pathEnd := pos + 4 + n;
      var path := buf[pos + 4..pathEnd];
      EntryAt(buf, pos, pathHash).value ==
        (Entry(path, buf[pathEnd..pathEnd + CHECKSUM_SIZE], pathHash(path),
               U64At(buf, pathEnd + CHECKSUM_SIZE), U64At(buf, pathEnd + CHECKSUM_SIZE + 8)),
         pathEnd + CHECKSUM_SIZE + 16)
  {
  }

  /** Decoding an entry loses no byte: encoding it again gives the bytes it was read from. */
  lemma EntryBytesOfDecode(buf: seq<u8>, pos: nat, pathHash: PathHasher)
    requires EntryAt(buf, pos, pathHash).Some?
    ensures var (e, next) := EntryAt(buf, pos, pathHash).value;
      |e.path| < 0x8000_0000 && |e.checksum| == CHECKSUM_SIZE && EncodeEntry(e) == buf[pos..next]
  {
    var (e, next) := EntryAt(buf, pos, pathHash).value;
    var pathEnd := pos + 4 + |e.path|;
    var sizeAt := pathEnd + CHECKSUM_SIZE + 8;
    I32BytesOfRead(buf, pos);
    U64BytesOfRead(buf, pathEnd + CHECKSUM_SIZE);
    U64BytesOfRead(buf, sizeAt);
    FieldsSpan(buf, pos, pos + 4, pathEnd, pathEnd + CHECKSUM_SIZE, sizeAt, next,
      I32Bytes(|e.path|), e.path, e.checksum, U64Bytes(e.offset), U64Bytes(e.size));
  }

  /** Five fields laid end to end, the `i`-th from `p_i` to `p_i+1`, span the bytes from `p0` to `p5`. */
  lemma FieldsSpan(buf: seq<u8>, p0: nat, p1: nat, p2: nat, p3: nat, p4: nat, p5: nat,
                   f0: seq<u8>, f1: seq<u8>, f2: seq<u8>, f3: seq<u8>, f4: seq<u8>)
    requires p0 <= p1 <= p2 <= p3 <= p4 <= p5 <= |buf|
    requires buf[p0..p1] == f0 && buf[p1..p2] == f1 && buf[p2..p3] == f2 && buf[p3..p4] == f3 && buf[p4..p5] == f4
    ensures buf[p0..p5] == f0 + f1 + f2 + f3 + f4
  {
    SliceJoin(buf, p0, p1, p2);
    SliceJoin(buf, p0, p2, p3);
    SliceJoin(buf, p0, p3, p4);
    SliceJoin(buf, p0, p4, p5);
  }

  /** The walk from `pos` is its first entry followed by the walk from the next cursor. */
  lemma EntriesFromCons(buf: seq<u8>, pos: nat, n: nat, pathHash: PathHasher, e: Entry, next: nat, rest: seq<Entry>)
    requires n > 0 && EntryAt(buf, pos, pathHash) == Some((e, next))
    requires EntriesFrom(buf, next, n - 1, pathHash) == Some(rest)
    ensures EntriesFrom(buf, pos, n, pathHash) == Some([e] + rest)
  {
  }

  predicate HasIndexMagic(buf: seq<u8>)
  {
    |buf| >= 4 && U32At(buf, 0) == IDX_MAGIC
  }

  /**
   * Every read the constructor makes stays inside the buffer: the magic, and
   * when it matches, a non-negative count and that many complete entries.
   */
  predicate Parsable(buf: seq<u8>, pathHash: PathHasher)
  {
    |buf| >= 4 &&
    (HasIndexMagic(buf) ==>
      |buf| >= 8 && I32At(buf, 4) >= 0 && EntriesFrom(buf, 8, I32At(buf, 4), pathHash).Some?)
  }

  /**
   * The entries the constructor leaves: as many as the count after the
   * magic, or none when the magic is wrong.  Each carries the fingerprint
   * of its own path, never a value read from the buffer.
   */
  function ParseIndex(buf: seq<u8>, pathHash: PathHasher): (es: seq<Entry>)
    requires Parsable(buf, pathHash)
    ensures HasIndexMagic(buf) ==> |es| == I32At(buf, 4)
    ensures !HasIndexMagic(buf) ==> es == []
    ensures forall e :: e in es ==> e.hash == pathHash(e.path)
  {
    if HasIndexMagic(buf) then
      EntriesFromHashes(buf, 8, I32At(buf, 4), pathHash);
      EntriesFrom(buf, 8, I32At(buf, 4), pathHash).value
    else []
  }

  /** The (fingerprint, position) pairs in the order the loop writes them. */
  function HashPositions(es: seq<Entry>): seq<(u64, nat)>
  {
    seq(|es|, i requires 0 <= i < |es| => (es[i].hash, i))
  }

  /** `Table` after the loop: each write `Table[hash] = i` replaces an earlier one. */
  function TableOf(es: seq<Entry>): map<u64, nat>
  {
    LastWins.Overwrite(HashPositions(es))
  }

  /** The table after one more entry is the table with one more write. */
  lemma TableOfSnoc(es: seq<Entry>, e: Entry)
    ensures TableOf(es + [e]) == TableOf(es)[e.hash := |es|]
  {
    assert HashPositions(es + [e]) == HashPositions(es) + [(e.hash, |es|)];
    LastWins.OverwriteSnoc(HashPositions(es), (e.hash, |es|));
  }

  /**
   * The table holds exactly the fingerprints of the entries, and for each
   * one the LARGEST position whose entry has that fingerprint.
   */
  lemma TableIsLastOccurrence(es: seq<Entry>, h: u64)
    ensures h in TableOf(es) <==> exists i :: 0 <= i < |es| && es[i].hash == h
    ensures h in TableOf(es) ==>
      TableOf(es)[h] < |es| && es[TableOf(es)[h]].hash == h &&
      forall j :: TableOf(es)[h] < j < |es| ==> es[j].hash != h
  {
    var ps := HashPositions(es);
    assert forall i :: 0 <= i < |ps| ==> ps[i].0 == es[i].hash && ps[i].1 == i;
    LastWins.OverwriteIsLast(ps, h);
    if exists i :: 0 <= i < |es| && es[i].hash == h {
      var i :| 0 <= i < |es| && es[i].hash == h;
      assert ps[i].0 == h;
    }
  }

  /** The bytes of one entry as the format lays them out. */
  function EncodeEntry(e: Entry): (s: seq<u8>)
    requires |e.path| < 0x8000_0000 && |e.checksum| == CHECKSUM_SIZE
    ensures |s| == 4 + |e.path| + CHECKSUM_SIZE + 16
  {
    I32Bytes(|e.path|) + e.path + e.checksum + U64Bytes(e.offset) + U64Bytes(e.size)
  }

  predicate Encodable(es: seq<Entry>)
  {
    |es| < 0x8000_0000 &&
    forall i :: 0 <= i < |es| ==> |es[i].path| < 0x8000_0000 && |es[i].checksum| == CHECKSUM_SIZE
  }

  function EncodeEntries(es: seq<Entry>): seq<u8>
    requires Encodable(es)
  {
    if es == [] then [] else EncodeEntry(es[0]) + EncodeEntries(es[1..])
  }

  /** A whole `.idx` buffer holding `es`. */
  function EncodeIndex(es: seq<Entry>): seq<u8>
    requires Encodable(es)
  {
    U32Bytes(IDX_MAGIC) + I32Bytes(|es|) + EncodeEntries(es)
  }

  /** `es` with every fingerprint recomputed from the path, as parsing does. */
  function Rehashed(es: seq<Entry>, pathHash: PathHasher): seq<Entry>
  {
    seq(|es|, i requires 0 <= i < |es| => es[i].(hash := pathHash(es[i].path)))
  }

  /**
   * Bytes that hold an encoded entry decode to it with its fingerprint
   * recomputed, and the cursor moves past its 4 + length + 16 + 8 + 8 bytes.
   */
  lemma EntryIn(buf: seq<u8>, pos: nat, e: Entry, pathHash: PathHasher)
    requires |e.path| < 0x8000_0000 && |e.checksum| == CHECKSUM_SIZE
    requires pos + |EncodeEntry(e)| <= |buf| && buf[pos..pos + |EncodeEntry(e)|] == EncodeEntry(e)
    ensures EntryAt(buf, pos, pathHash) ==
      Some((e.(hash := pathHash(e.path)), pos + |EncodeEntry(e)|))
  {
    EntryFieldsIn(buf, pos, e);
  }

  /** The fields of an encoded entry, each read back from its place. */
  lemma EntryFieldsIn(buf: seq<u8>, pos: nat, e: Entry)
    requires |e.path| < 0x8000_0000 && |e.checksum| == CHECKSUM_SIZE
    requires pos + |EncodeEntry(e)| <= |buf| && buf[pos..pos + |EncodeEntry(e)|] == EncodeEntry(e)
    ensures I32At(buf, pos) == |e.path|
    ensures buf[pos + 4..pos + 4 + |e.path|] == e.path
    ensures buf[pos + 4 + |e.path|..pos + 4 + |e.path| + CHECKSUM_SIZE] == e.checksum
    ensures U64At(buf, pos + 4 + |e.path| + CHECKSUM_SIZE) == e.offset
    ensures U64At(buf, pos + 4 + |e.path| + CHECKSUM_SIZE + 8) == e.size
  {
    var n := |e.path|;
    var f0 := I32Bytes(n);
    var f3 := U64Bytes(e.offset);
    var f4 := U64Bytes(e.size);
    SliceSplit(buf, pos, f0 + e.path + e.checksum + f3, f4);
    SliceSplit(buf, pos, f0 + e.path + e.checksum, f3);
    SliceSplit(buf, pos, f0 + e.path, e.checksum);
    SliceSplit(buf, pos, f0, e.path);
    I32Field(buf, pos, n);
    U64Field(buf, pos + 4 + n + 16, e.offset);
    U64Field(buf, pos + 4 + n + 24, e.size);
  }

  /** Each entry of `es` is encoded in `buf` right after the one before it, from `pos`. */
  predicate LaidOut(buf: seq<u8>, pos: nat, es: seq<Entry>)
    requires Encodable(es)
    decreases |es|
  {
    es == [] ||
    (var n := |EncodeEntry(es[0])|;
     pos + n <= |buf| && buf[pos..pos + n] == EncodeEntry(es[0]) &&
     LaidOut(buf, pos + n, es[1..]))
  }

  /** Bytes that hold the encoding of `es` hold each of its entries in turn. */
  lemma {:induction false} EncodedIsLaidOut(buf: seq<u8>, pos: nat, es: seq<Entry>)
    requires Encodable(es)
    requires pos + |EncodeEntries(es)| <= |buf| && buf[pos..pos + |EncodeEntries(es)|] == EncodeEntries(es)
    ensures LaidOut(buf, pos, es)
    decreases |es|
  {
    if es != [] {
      var head := EncodeEntry(es[0]);
      assert Encodable(es[1..]);
      var rest := EncodeEntries(es[1..]);
      assert EncodeEntries(es) == head + rest;
      SliceSplit(buf, pos, head, rest);
      EncodedIsLaidOut(buf, pos + |head|, es[1..]);
    }
  }

  /** Entries laid out one after another decode to themselves, rehashed. */
  lemma {:induction false} LaidOutDecodes(buf: seq<u8>, pos: nat, es: seq<Entry>, pathHash: PathHasher)
    requires Encodable(es) && LaidOut(buf, pos, es)
    ensures EntriesFrom(buf, pos, |es|, pathHash) == Some(Rehashed(es, pathHash))
    decreases |es|
  {
    if es != [] {
      var e := es[0];
      var next: nat := pos + |EncodeEntry(e)|;
      assert Encodable(es[1..]);
      EntryIn(buf, pos, e, pathHash);
      LaidOutDecodes(buf, next, es[1..], pathHash);
      RehashedCons(es, pathHash);
      EntriesFromCons(buf, pos, |es|, pathHash, e.(hash := pathHash(e.path)), next, Rehashed(es[1..], pathHash));
    } else {
      assert Rehashed(es, pathHash) == [];
    }
  }

  lemma RehashedCons(es: seq<Entry>, pathHash: PathHasher)
    requires es != []
    ensures Rehashed(es, pathHash) == [es[0].(hash := pathHash(es[0].path))] + Rehashed(es[1..], pathHash)
  {
  }

  /**
   * Round trip of the whole sidecar: parsing the encoding of `es` reads
   * back `|es|` entries with the same paths, checksums, offsets and sizes,
   * and fingerprints recomputed from the paths.
   */
  lemma IndexRoundTrip(es: seq<Entry>, pathHash: PathHasher)
    requires Encodable(es)
    ensures Parsable(EncodeIndex(es), pathHash)
    ensures ParseIndex(EncodeIndex(es), pathHash) == Rehashed(es, pathHash)
  {
    var buf := EncodeIndex(es);
    var body := EncodeEntries(es);
    SliceSplit(buf, 0, U32Bytes(IDX_MAGIC) + I32Bytes(|es|), body);
    SliceSplit(buf, 0, U32Bytes(IDX_MAGIC), I32Bytes(|es|));
    U32Field(buf, 0, IDX_MAGIC);
    I32Field(buf, 4, |es|);
    EncodedIsLaidOut(buf, 8, es);
    LaidOutDecodes(buf, 8, es, pathHash);
  }

  /** Every entry the walk yields carries the fingerprint of its own path. */
  lemma {:induction false} EntriesFromHashes(buf: seq<u8>, pos: nat, n: nat, pathHash: PathHasher)
    requires EntriesFrom(buf, pos, n, pathHash).Some?
    ensures forall i :: 0 <= i < n ==>
      EntriesFrom(buf, pos, n, pathHash).value[i].hash == pathHash(EntriesFrom(buf, pos, n, pathHash).value[i].path)
    decreases n
  {
    if n > 0 {
      var next := EntryAt(buf, pos, pathHash).value.1;
      EntriesFromHashes(buf, next, n - 1, pathHash);
    }
  }

  /**
   * With `get_hash` as the fingerprint, two entries whose paths agree after
   * their first colon up to ASCII case have the same hash, and the table
   * slot of that hash points at the later entry or one after it.
   */
  lemma CaseVariantsShareSlot(es: seq<Entry>, murmur: Murmur3, i: nat, j: nat,
                              kind1: seq<u8>, kind2: seq<u8>, rest1: seq<u8>, rest2: seq<u8>)
    requires i < j < |es|
    requires es[i].hash == GetHash(murmur, es[i].path) && es[j].hash == GetHash(murmur, es[j].path)
    requires es[i].path == kind1 + [COLON] + rest1 && es[j].path == kind2 + [COLON] + rest2
    requires COLON !in kind1 && COLON !in kind2 && SameIgnoringCase(rest1, rest2)
    ensures es[i].hash == es[j].hash
    ensures es[i].hash in TableOf(es) && TableOf(es)[es[i].hash] >= j
  {
    GetHashIgnoresTypeAndCase(murmur, kind1, kind2, rest1, rest2);
    TableIsLastOccurrence(es, es[i].hash);
  }

  /** A buffer that does not start with the magic leaves the sidecar empty. */
  lemma WrongMagicIsEmpty(buf: seq<u8>, pathHash: PathHasher)
    requires |buf| >= 4 && U32At(buf, 0) != IDX_MAGIC
    ensures Parsable(buf, pathHash) && ParseIndex(buf, pathHash) == [] && TableOf(ParseIndex(buf, pathHash)) == map[]
  {
  }

  /** Storing entry `i` and its table slot extends what the loop has built by one. */
  lemma StoreStep(parsed: seq<Entry>, i: nat, es: seq<Entry>, tbl: map<u64, nat>, entry: Entry)
    requires i < |parsed| == |es| && parsed[i] == entry
    requires es[..i] == parsed[..i] && tbl == TableOf(parsed[..i])
    ensures es[i := entry][..i + 1] == parsed[..i + 1]
    ensures tbl[entry.hash := i] == TableOf(parsed[..i + 1])
  {
    TableOfSnoc(parsed[..i], entry);
    assert parsed[..i + 1] == parsed[..i] + [entry];
  }

  /**
   * One pass of the constructor's loop body: the length prefix, the path,
   * the checksum, the offset and the size, each read at the cursor, which
   * then moves past it.
   */
  method ReadEntry(buffer: seq<u8>, start: nat, pathHash: PathHasher) returns (entry: Entry, offset: nat)
    requires EntryAt(buffer, start, pathHash).Some?
    ensures EntryAt(buffer, start, pathHash) == Some((entry, offset))
  {
    EntryAtFields(buffer, start, pathHash);
    offset := start;
    var length := I32At(buffer, offset);
    offset := offset + 4;
    var path := buffer[offset..offset + length];
    offset := offset + length;
    var checksum := buffer[offset..offset + CHECKSUM_SIZE];
    offset := offset + CHECKSUM_SIZE;
    var entryOffset := U64At(buffer, offset);
    offset := offset + 8;
    var entrySize := U64At(buffer, offset);
    offset := offset + 8;
    entry := Entry(path, checksum, pathHash(path), entryOffset, entrySize);
  }

  /** `DecimaStreamIndex`: the entries of one sidecar and the fingerprint table. */
  class DecimaStreamIndex {
    const entries: seq<Entry>
    const table: map<u64, nat>

    /** Parses `buffer` with a cursor that only moves forward. */
    constructor (buffer: seq<u8>, pathHash: PathHasher)
      requires Parsable(buffer, pathHash)
      ensures entries == ParseIndex(buffer, pathHash)
      ensures HasIndexMagic(buffer) ==> |entries| == I32At(buffer, 4)
      ensures table == TableOf(entries)
    {
      var es: seq<Entry> := [];
      var tbl: map<u64, nat> := map[];
      var offset: nat := 0;
      var magic := U32At(buffer, offset);
      offset := offset + 4;
      if magic == IDX_MAGIC {
        var count := I32At(buffer, offset);
        offset := offset + 4;
        ghost var parsed := EntriesFrom(buffer, 8, count, pathHash).value;
        es := seq(count, _ => EmptyEntry);
        var i := 0;
        assert offset == 8 && parsed[i..] == parsed;
        while i < count
          invariant 0 <= i <= count && |es| == count
          invariant EntriesFrom(buffer, offset, count - i, pathHash) == Some(parsed[i..])
          invariant es[..i] == parsed[..i]
          invariant tbl == TableOf(parsed[..i])
        {
          WalkStep(buffer, offset, pathHash, parsed, i);
          var entry;
          entry, offset := ReadEntry(buffer, offset, pathHash);
          StoreStep(parsed, i, es, tbl, entry);
          es := es[i := entry];
          tbl := tbl[entry.hash := i];
          i := i + 1;
        }
        assert es == es[..i] && parsed == parsed[..i];
      } else {
        assert HashPositions([]) == [];
      }
      entries := es;
      table := tbl;
    }
  }
}

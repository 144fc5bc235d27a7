/**
 * `DecimaCache`: every `.bin` archive of a directory, and `FileMap`, which
 * says for each file hash which archive serves it.  An archive with a lower
 * `load_priority` takes a hash over one with a higher; on a tie the archive
 * met first keeps it.
 *
 * The directory listing is the input sequence `archives` (only the regular
 * `.bin` files, in enumeration order), each with the content of its `.idx`
 * sidecar when there is one.
 */
module ArchiveCache {
  import opened ByteCursor
  import opened Wrappers
  import opened PathHash
  import opened StreamIndexFile
  import opened ArchiveIndex

  /** A `.bin` file found in the directory, and its `.idx` sidecar if it exists. */
  datatype ArchiveFile = ArchiveFile(bin: seq<u8>, idx: Option<seq<u8>>)

  /** What the ownership rule looks at in an archive: the hashes it holds and its priority. */
  datatype Summary = Summary(keys: set<u64>, priority: int)

  /** `get_hash` with the given hash function, as the stream index recomputes it. */
  function PathHasherOf(murmur: Murmur3): PathHasher
  {
    (p: seq<u8>) => GetHash(murmur, p)
  }

  /** The `DecimaIndex` constructor can open the archive. */
  predicate Openable(a: ArchiveFile, murmur: Murmur3)
  {
    Allocatable(a.bin) && (HasMagic(a.bin) && a.idx.Some? ==> Parsable(a.idx.value, PathHasherOf(murmur)))
  }

  /** The summaries of opened archives, in the order they were opened. */
  function SummariesOf(es: seq<DecimaIndex>): (s: seq<Summary>)
    ensures |s| == |es|
  {
    seq(|es|, i requires 0 <= i < |es| => Summary(es[i].records.Keys, es[i].header.loadPriority))
  }

  // ---------------------------------------------------------------------------
  // The ownership rule, one hash at a time
  // ---------------------------------------------------------------------------

  /**
   * Archive `i` meeting hash `h` when `prev` owns it so far: it takes the
   * hash when it holds it and nobody owns it yet or the owner's priority is
   * strictly higher (`<=` keeps the owner).
   */
  function ClaimOne(prev: Option<nat>, s: seq<Summary>, i: nat, h: u64): (o: Option<nat>)
    requires i < |s| && (prev.Some? ==> prev.value < |s|)
    ensures o == prev || o == Some(i)
  {
    if h in s[i].keys && (prev.None? || s[prev.value].priority > s[i].priority) then Some(i) else prev
  }

  /** The owner of `h` once the first `n` archives have been folded in. */
  function Owner(s: seq<Summary>, n: nat, h: u64): (o: Option<nat>)
    requires n <= |s|
    ensures o.Some? ==> o.value < n
  {
    if n == 0 then None else ClaimOne(Owner(s, n - 1, h), s, n - 1, h)
  }

  /** A hash has an owner exactly when one of the archives folded in holds it. */
  lemma {:induction false} OwnerExists(s: seq<Summary>, n: nat, h: u64)
    requires n <= |s|
    ensures Owner(s, n, h).Some? <==> exists j :: 0 <= j < n && h in s[j].keys
  {
    if n > 0 {
      OwnerExists(s, n - 1, h);
    }
  }

  /**
   * The owner of a hash holds it, has the least priority among the archives
   * that hold it, and is the first of those with that priority.
   */
  lemma {:induction false} OwnerIsFirstLeast(s: seq<Summary>, n: nat, h: u64)
    requires n <= |s| && Owner(s, n, h).Some?
    ensures h in s[Owner(s, n, h).value].keys
    ensures forall j :: 0 <= j < n && h in s[j].keys ==> s[Owner(s, n, h).value].priority <= s[j].priority
    ensures forall j :: 0 <= j < n && h in s[j].keys && s[j].priority == s[Owner(s, n, h).value].priority ==>
      Owner(s, n, h).value <= j
  {
    var prev := Owner(s, n - 1, h);
    if prev.Some? {
      OwnerIsFirstLeast(s, n - 1, h);
    } else {
      OwnerExists(s, n - 1, h);
    }
  }

  /** The owner after `n` archives depends on those `n` archives only. */
  lemma {:induction false} OwnerPrefix(s: seq<Summary>, s': seq<Summary>, n: nat, h: u64)
    requires n <= |s| && n <= |s'| && s[..n] == s'[..n]
    ensures Owner(s, n, h) == Owner(s', n, h)
  {
    if n > 0 {
      assert s[..n - 1] == s[..n][..n - 1] && s'[..n - 1] == s'[..n][..n - 1];
      OwnerPrefix(s, s', n - 1, h);
      var prev := Owner(s, n - 1, h);
      assert s[n - 1] == s[..n][n - 1] && s'[n - 1] == s'[..n][n - 1];
      if prev.Some? {
        assert s[prev.value] == s[..n][prev.value] && s'[prev.value] == s'[..n][prev.value];
      }
    }
  }

  // ---------------------------------------------------------------------------
  // `FileMap`
  // ---------------------------------------------------------------------------

  /** `FileMap.find(h)`: the archive number stored for `h`, if any. */
  function Lookup(fm: map<u64, nat>, h: u64): (o: Option<nat>)
    ensures o.Some? <==> h in fm
  {
    if h in fm then Some(fm[h]) else None
  }

  /** Every value of the map names one of the first `n` archives. */
  predicate Owned(fm: map<u64, nat>, n: nat)
  {
    forall h :: h in fm ==> fm[h] < n
  }

  /** The map holds, for every hash, its owner among the first `n` archives. */
  predicate IsFileMap(fm: map<u64, nat>, s: seq<Summary>, n: nat)
    requires n <= |s|
  {
    Owned(fm, n) && forall h :: Lookup(fm, h) == Owner(s, n, h)
  }

  class DecimaCache {
    const entries: seq<DecimaIndex>
    const fileMap: map<u64, nat>
    const murmur: Murmur3

    /** `FileMap` is the ownership fold over the opened archives. */
    predicate Valid()
    {
      IsFileMap(fileMap, SummariesOf(entries), |entries|)
    }

    /**
     * Opens every archive in order and folds its record hashes into
     * `FileMap`.  `murmur` is the external hash `get_hash` uses.
     */
    constructor (archives: seq<ArchiveFile>, murmur: Murmur3)
      requires forall i :: 0 <= i < |archives| ==> Openable(archives[i], murmur)
      requires |archives| < 0x8000_0000
      ensures this.murmur == murmur && |entries| == |archives| && Valid()
      ensures forall i :: 0 <= i < |archives| ==> entries[i].file == archives[i].bin && entries[i].Opened()
      ensures forall h :: h in fileMap ==> IsI32(fileMap[h])
    {
      var es, fm := OpenAll(archives, murmur);
      entries := es;
      fileMap := fm;
      this.murmur := murmur;
      new;
      forall i | 0 <= i < |archives|
        ensures entries[i].file == archives[i].bin && entries[i].Opened()
      {
        OpenedEach(es, archives, i);
      }
    }

    /** `file_exists(hash)`: whether some archive serves the hash. */
    predicate FileExists(hash: u64)
    {
      hash in fileMap
    }

    /** `file_exists(path)`: the same question for the path's hash. */
    predicate FileExistsPath(path: seq<u8>)
    {
      FileExists(GetHash(murmur, path))
    }

    /** A hash exists exactly when one of the archives holds it. */
    lemma FileExistsIffHeld(hash: u64)
      requires Valid()
      ensures FileExists(hash) <==> exists j :: 0 <= j < |entries| && hash in entries[j].records
    {
      var s := SummariesOf(entries);
      assert Lookup(fileMap, hash) == Owner(s, |entries|, hash);
      OwnerExists(s, |entries|, hash);
      if FileExists(hash) {
        var j :| 0 <= j < |entries| && hash in s[j].keys;
        assert hash in entries[j].records;
      } else {
        forall j | 0 <= j < |entries|
          ensures hash !in entries[j].records
        {
          assert hash !in s[j].keys;
        }
      }
    }

    /** Case and type prefix of a path make no difference to whether it exists. */
    lemma FileExistsPathIgnoresTypeAndCase(kind1: seq<u8>, kind2: seq<u8>, rest1: seq<u8>, rest2: seq<u8>)
      requires COLON !in kind1 && COLON !in kind2 && SameIgnoringCase(rest1, rest2)
      ensures FileExistsPath(kind1 + [COLON] + rest1) == FileExistsPath(kind2 + [COLON] + rest2)
    {
      GetHashIgnoresTypeAndCase(murmur, kind1, kind2, rest1, rest2);
    }

    /**
     * The archive that serves a hash holds it, has the least priority of the
     * archives that hold it, and comes first among those of equal priority.
     */
    lemma ServedByFirstLeast(hash: u64)
      requires Valid() && FileExists(hash)
      ensures fileMap[hash] < |entries| && entries[fileMap[hash]].FileExists(hash)
      ensures forall j :: 0 <= j < |entries| && hash in entries[j].records ==>
        entries[fileMap[hash]].header.loadPriority <= entries[j].header.loadPriority
      ensures forall j :: (0 <= j < |entries| && hash in entries[j].records &&
        entries[j].header.loadPriority == entries[fileMap[hash]].header.loadPriority) ==> fileMap[hash] <= j
    {
      var s := SummariesOf(entries);
      assert Lookup(fileMap, hash) == Owner(s, |entries|, hash);
      var o := fileMap[hash];
      OwnerIsFirstLeast(s, |entries|, hash);
      assert s[o] == Summary(entries[o].records.Keys, entries[o].header.loadPriority);
      forall j | 0 <= j < |entries| && hash in entries[j].records
        ensures entries[o].header.loadPriority <= entries[j].header.loadPriority
        ensures entries[j].header.loadPriority == entries[o].header.loadPriority ==> o <= j
      {
        assert s[j] == Summary(entries[j].records.Keys, entries[j].header.loadPriority);
      }
    }

    /** What `read_file(hash)` returns: the owning archive's answer, or nothing. */
    function ReadResult(hash: u64, codec: Codec): Result<seq<u8>, ReadError>
      requires Valid()
      reads entries
    {
      if hash in fileMap then entries[fileMap[hash]].ReadResult(hash, codec) else Ok([])
    }

    /** `read_file(hash)`: dispatches to the owning archive; only that archive's stream moves. */
    method ReadFile(hash: u64, codec: Codec) returns (r: Result<seq<u8>, ReadError>)
      requires Valid()
      modifies if hash in fileMap then {entries[fileMap[hash]]} else {}
      ensures r == old(ReadResult(hash, codec))
      ensures hash in fileMap ==>
        entries[fileMap[hash]].stream == if r == Err(ShortRead) then [] else old(entries[fileMap[hash]].stream)
    {
      if !FileExists(hash) {
        return Ok([]);
      }
      r := entries[fileMap[hash]].ReadFile(hash, codec);
    }

    /** `read_file(path)`: the same as reading the path's hash. */
    method ReadFilePath(path: seq<u8>, codec: Codec) returns (r: Result<seq<u8>, ReadError>)
      requires Valid()
      modifies if GetHash(murmur, path) in fileMap then {entries[fileMap[GetHash(murmur, path)]]} else {}
      ensures r == old(ReadResult(GetHash(murmur, path), codec))
    {
      r := ReadFile(GetHash(murmur, path), codec);
    }
  }

  // ---------------------------------------------------------------------------
  // The constructor's loops
  // ---------------------------------------------------------------------------

  /**
   * The outer loop: opens the archives in listing order and folds each one's
   * hashes into the map before opening the next.
   */
  method OpenAll(archives: seq<ArchiveFile>, murmur: Murmur3) returns (es: seq<DecimaIndex>, fm: map<u64, nat>)
    requires forall i :: 0 <= i < |archives| ==> Openable(archives[i], murmur)
    ensures |es| == |archives| && OpenedFrom(es, archives)
    ensures IsFileMap(fm, SummariesOf(es), |es|)
  {
    es := [];
    fm := map[];
    var i := 0;
    while i < |archives|
      invariant 0 <= i <= |archives| && |es| == i
      invariant OpenedFrom(es, archives)
      invariant IsFileMap(fm, SummariesOf(es), i)
    {
      var entry := OpenArchive(archives[i], murmur);
      ghost var before := es;
      es := es + [entry];
      fm := FoldArchive(es, i, fm);
      FoldStep(before, es, i, fm);
      i := i + 1;
    }
  }

  /** Adding an archive and folding it in gives the map of one more archive. */
  lemma FoldStep(before: seq<DecimaIndex>, es: seq<DecimaIndex>, i: nat, fm: map<u64, nat>)
    requires |before| == i && |es| == i + 1 && es[..i] == before
    requires Owned(fm, i + 1)
    requires forall h :: Lookup(fm, h) == ClaimOne(Owner(SummariesOf(before), i, h), SummariesOf(es), i, h)
    ensures IsFileMap(fm, SummariesOf(es), i + 1)
  {
    var s, s' := SummariesOf(before), SummariesOf(es);
    assert s[..i] == s'[..i];
    forall h
      ensures Lookup(fm, h) == Owner(s', i + 1, h)
    {
      OwnerPrefix(s, s', i, h);
    }
  }

  /** The `k`-th object was opened on the `k`-th archive of the listing, for every `k`. */
  predicate OpenedFrom(es: seq<DecimaIndex>, archives: seq<ArchiveFile>)
    requires |es| <= |archives|
    reads es
  {
    es == [] || (OpenedFrom(es[..|es| - 1], archives) && es[|es| - 1].file == archives[|es| - 1].bin && es[|es| - 1].Opened())
  }

  lemma {:induction false} OpenedEach(es: seq<DecimaIndex>, archives: seq<ArchiveFile>, k: nat)
    requires |es| <= |archives| && OpenedFrom(es, archives) && k < |es|
    ensures es[k].file == archives[k].bin && es[k].Opened()
  {
    if k < |es| - 1 {
      OpenedEach(es[..|es| - 1], archives, k);
    }
  }

  /** `Entries[i] = std::make_shared<DecimaIndex>(...)` for one archive of the listing. */
  method OpenArchive(a: ArchiveFile, murmur: Murmur3) returns (entry: DecimaIndex)
    requires Openable(a, murmur)
    ensures fresh(entry) && entry.file == a.bin && entry.Opened()
  {
    entry := new DecimaIndex(a.bin, a.idx, PathHasherOf(murmur));
  }

  /**
   * The inner loop: every hash of the newest archive `es[i]` is claimed for
   * it unless its owner so far has a priority at most as high (`<=` leads to
   * `continue`).  The map's other hashes keep their owners.
   */
  method FoldArchive(es: seq<DecimaIndex>, i: nat, fm: map<u64, nat>) returns (r: map<u64, nat>)
    requires |es| == i + 1 && Owned(fm, i)
    ensures Owned(r, i + 1)
    ensures forall h :: Lookup(r, h) == ClaimOne(Lookup(fm, h), SummariesOf(es), i, h)
  {
    ghost var s := SummariesOf(es);
    var entry := es[i];
    var todo := entry.records.Keys;
    ghost var done: set<u64> := {};
    r := fm;
    while todo != {}
      invariant todo !! done && todo + done == s[i].keys
      invariant Owned(r, i + 1)
      invariant forall h :: Lookup(r, h) == if h in done then ClaimOne(Lookup(fm, h), s, i, h) else Lookup(fm, h)
      decreases todo
    {
      var h :| h in todo;
      assert Lookup(r, h) == Lookup(fm, h);
      if h in r && es[r[h]].header.loadPriority <= entry.header.loadPriority {
        // the archive that has it already keeps it
        assert s[r[h]].priority == es[r[h]].header.loadPriority;
      } else {
        r := r[h := i];
      }
      todo := todo - {h};
      done := done + {h};
    }
  }
}

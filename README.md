# libstormbird archive reading, in Dafny

This project models the part of `libstormbird` that reads the game archives
of the Decima engine.

- A `.bin` archive is one `DecimaIndex`. The file starts with the magic word
  `0x20304050` and a packed 36-byte header. Then come the record table, one
  32-byte record per logical file, and the block table, one 32-byte
  descriptor per compressed block. The constructor reads them with three
  stream reads into zeroed storage, so a file that ends early leaves zeros
  in place of the missing bytes.
- `read_file(hash)` looks up the record. It maps the record's byte range onto
  a window of blocks, `first = offset / max_block_size` through
  `last = (offset + size) / max_block_size`. It decompresses block
  `first + i` into the assembly buffer at `i * max_block_size` and cuts the
  range out.
- An archive may have an `.idx` sidecar, the `DecimaStreamIndex`. The sidecar
  has the magic `0x10203040`, an entry count, and length-prefixed entries.
  Each entry's fingerprint is recomputed from its path, and a table maps
  fingerprints back to entry positions.
- `DecimaCache` opens every archive of a directory. It builds `FileMap`, which
  names for each hash the archive that serves it. The lowest `load_priority`
  wins, and on a tie the archive met first keeps the hash.
- `unwrap_path`, `path_type` and `get_hash` handle virtual paths such as
  `cache:models/a.core`.

The modules are:

| module | file | contents |
|---|---|---|
| `ByteCursor` | `bytes.dfy` | fixed-width integer types; little-endian reads and writes |
| `LastWins` | `lastwins.dfy` | a map built by writes that overwrite earlier ones, like the `std::map` fills |
| `IndexLayout` | `layout.dfy` | the packed structs and the zero header |
| `PathHash` | `paths.dfy` | the static path helpers of `DecimaCache` |
| `StreamIndexFile` | `streamindex.dfy` | the `.idx` format and class `DecimaStreamIndex` |
| `ArchiveIndex` | `index.dfy` | class `DecimaIndex` and what `read_file` computes |
| `ArchiveCache` | `cache.dfy` | class `DecimaCache` and the ownership rule behind `FileMap` |

Code that works step by step is written as methods with loops:

- the constructors' record and entry loops;
- the block loop of `read_file`;
- the cache's nested loops over archives and their hashes.

Each of these methods is proved against a function that specifies it.
Properties about those functions are proved as lemmas.

Everything external is a parameter:

- the archive file is a byte sequence, `file`;
- what the shared `std::ifstream` can still deliver is the field `stream`.
  It is the whole file until a read falls outside it and sets the failbit,
  and nothing from then on. That read may be one of the constructor's or a
  block read of `read_file`; nothing clears the failbit, so every later
  `seekg` and `read` of any `read_file` call delivers nothing;
- the get pointer of that stream is the field `position`;
- `Kraken_Decompress` is `codec`, a function whose output has the requested length;
- `MurmurHash3_x64_128` is `murmur`.

Undefined behaviour and failed stream reads inside `read_file` are explicit
`ReadError` values. Examples are a zero `max_block_size`, signed overflow, a
block index outside `Blocks`, and a block that does not fit the buffer.

## Model

| member | source | states |
|---|---|---|
| ByteCursor.Wrap32 | libstormbird/private/DecimaIndex.cpp:49-51 | the conversion to `int32_t` keeps values in range and is otherwise congruent modulo 2^32 |
| ByteCursor.U32RoundTrip | libstormbird/private/DecimaIndex.cpp:18 | a little-endian 32-bit field written anywhere in a buffer is read back unchanged |
| ByteCursor.U32BytesOfRead | libstormbird/private/DecimaIndex.cpp:18 | reading four bytes as a `uint32_t` loses none of them |
| ByteCursor.I64BytesOfRead | libstormbird/public/DecimaIndex.h:26 | reading eight bytes as an `int64_t` loses none of them |
| IndexLayout.RecordRoundTrip | libstormbird/public/DecimaIndex.h:23-30 | a record packed as file_id, unknown1, hash, offset, size, unknown2 (32 bytes) decodes to itself |
| IndexLayout.RecordBytesOfDecode | libstormbird/public/DecimaIndex.h:23-30 | decoding a record uses exactly its 32 bytes and loses none |
| IndexLayout.RecordKeyAtOffset8 | libstormbird/public/DecimaIndex.h:26 | a record's map key is the unsigned reading of bytes 8..16, the same bit pattern as the signed `hash` |
| IndexLayout.BlockRoundTrip | libstormbird/public/DecimaIndex.h:31-38 | a block packed as block_offset, block_size, unknown1, offset, size, unknown2 (32 bytes) decodes to itself |
| IndexLayout.BlockBytesOfDecode | libstormbird/public/DecimaIndex.h:31-38 | decoding a block descriptor uses exactly its 32 bytes and loses none |
| IndexLayout.HeaderRoundTrip | libstormbird/public/DecimaIndex.h:39-46 | a header packed as load_priority, compressed_size, decompressed_size, record_count, block_count, max_block_size (36 bytes) decodes to itself |
| IndexLayout.HeaderBytesOfDecode | libstormbird/public/DecimaIndex.h:39-46 | decoding a header uses exactly its 36 bytes and loses none |
| IndexLayout.DefaultHeaderIsZeroBytes | libstormbird/public/DecimaIndex.h:49 | the value-initialised header is what 36 zero bytes decode to |
| LastWins.OverwriteIsLast | libstormbird/private/DecimaIndex.cpp:27-32 | after a sequence of map writes, a key is present exactly when some write used it, and it holds the value of the last such write |
| LastWins.OverwriteKeys | libstormbird/private/DecimaIndex.cpp:27-32 | the key set of the map is the set of keys written |
| ArchiveIndex.PaddedInside | libstormbird/private/DecimaIndex.cpp:16 | a read the file can satisfy gives exactly the file's bytes |
| ArchiveIndex.TooShortForMagic | libstormbird/private/DecimaIndex.cpp:16-18 | a file shorter than four bytes never passes the magic check: the zero-filled top byte differs from `0x20` |
| ArchiveIndex.IntactRecord | libstormbird/private/DecimaIndex.cpp:23-26 | a record whose 32 bytes lie inside the file is the record laid out there |
| ArchiveIndex.MissingRecordIsZero | libstormbird/private/DecimaIndex.cpp:23-26 | a record that starts at or past the end of the file is read as the all-zero record |
| ArchiveIndex.TruncatedTableMapsZero | libstormbird/private/DecimaIndex.cpp:23-32 | when the last record lies past the end of the file, `Records[0]` is the all-zero record |
| ArchiveIndex.LastRecordWins | libstormbird/private/DecimaIndex.cpp:27-32 | the map from a record table is the map from all but its last record, with the last record written over its key |
| ArchiveIndex.IntactBlock | libstormbird/private/DecimaIndex.cpp:24-26 | a block descriptor whose 32 bytes lie inside the file is the one laid out there |
| ArchiveIndex.MissingBlockIsZero | libstormbird/private/DecimaIndex.cpp:24-26 | a block descriptor that starts at or past the end of the file is read as all zeros |
| ArchiveIndex.ReadRecords | libstormbird/private/DecimaIndex.cpp:27-32 | the record loop leaves `Records` equal to the record table written into a map in file order |
| ArchiveIndex.BadMagicIsEmpty | libstormbird/private/DecimaIndex.cpp:18-21 | a file with the wrong magic keeps the zero header, no blocks and no record for any hash |
| ArchiveIndex.RecordKeys | libstormbird/private/DecimaIndex.cpp:27-32 | the keys of the map built from a record table (`RecordsOf`) are exactly the unsigned hashes of its records |
| ArchiveIndex.RecordsLastWins | libstormbird/private/DecimaIndex.cpp:27-32 | in that map, a hash defined twice keeps the last record in table order that carries it |
| ArchiveIndex.DecimaIndex.constructor | libstormbird/private/DecimaIndex.cpp:13-40 | the header, `Records` and `Blocks` are those decoded from the zero-padded reads, or zero/empty after a bad magic; the stream stays usable only if every read found all its bytes; the get pointer rests after what was read; a sidecar is parsed exactly when the magic is good and an `.idx` exists |
| ArchiveIndex.DecimaIndex.FileExistsIffRecorded | libstormbird/private/DecimaIndex.cpp:64 | `file_exists(hash)` (`FileExists`) holds exactly when some record of the table carries the hash |
| ArchiveIndex.WindowOf | libstormbird/private/DecimaIndex.cpp:49-52 | a successful window has stride `max_block_size`, an `int32_t` block count, and a buffer of `count * m + m` bytes |
| ArchiveIndex.WindowCovers | libstormbird/private/DecimaIndex.cpp:49-52 | for a non-negative range without wrap-around: `first = offset / m`, `count = last - first + 1 >= 1`, start `offset % m`, and the range lies inside the first `count * m` bytes |
| ArchiveIndex.ReadStaysInBuffer | libstormbird/private/DecimaIndex.cpp:52-61 | for such a range the final cut never falls outside the assembly buffer |
| ArchiveIndex.Decompressed | libstormbird/private/DecimaIndex.cpp:55-59 | a block read and decompressed is `block_size` bytes: the `size` bytes at `offset` go to the codec |
| ArchiveIndex.Overlay | libstormbird/private/DecimaIndex.cpp:58-59 | writing a block into the buffer changes exactly the cells it covers, and they hold the block |
| ArchiveIndex.Assembled | libstormbird/private/DecimaIndex.cpp:53-60 | after `n` rounds the buffer keeps its size, and no round fails with a cut error |
| ArchiveIndex.AssembledErrPersists | libstormbird/private/DecimaIndex.cpp:53-60 | once a round of the loop fails, the loop's result is that failure |
| ArchiveIndex.AssembledSlots | libstormbird/private/DecimaIndex.cpp:53-60 | when all blocks but the last are full, slot `i` holds decompressed block `first + i` after round `i` and zeros before it |
| ArchiveIndex.ReadRecord | libstormbird/private/DecimaIndex.cpp:45-62 | a successful read has exactly `size` bytes, and the final cut fails only after the window arithmetic succeeded |
| ArchiveIndex.ReadRecordBytes | libstormbird/private/DecimaIndex.cpp:49-61 | a successful read has `size` bytes, and the byte at `k * m + j` of the file's logical space is byte `j` of decompressed block `k` |
| ArchiveIndex.WindowFits | libstormbird/private/DecimaIndex.cpp:49-52 | for a positive `max_block_size` and a non-negative range whose end fits `int64_t` and whose last block index fits `int32_t`, the arithmetic before the loop succeeds exactly when the buffer size `(block_count + 1) * max_block_size` fits `int32_t`; byte offsets may lie anywhere below 2^63 |
| ArchiveIndex.AssembledOk | libstormbird/private/DecimaIndex.cpp:53-60 | rounds over blocks that are in the table, held by the stream and no larger than a stride never fail |
| ArchiveIndex.ReadRecordSucceeds | libstormbird/private/DecimaIndex.cpp:45-62 | when the arithmetic before the loop succeeds without wrap-around and every block of the window is in the table and readable, `read_file` succeeds with `size` bytes |
| ArchiveIndex.ReadAcrossTwoBlocks | libstormbird/private/DecimaIndex.cpp:49-61 | a one-stride record starting `o` bytes into block 0 reads as the tail of block 0 from `o` followed by the first `o` bytes of block 1 |
| ArchiveIndex.ReadAcrossBoundary | libstormbird/private/DecimaIndex.cpp:49-61 | with two 16-byte blocks, a 16-byte record at offset 8 reads as bytes 8..16 of block 0 then bytes 0..8 of block 1 |
| ArchiveIndex.BoundaryReadsNextBlock | libstormbird/private/DecimaIndex.cpp:50-54 | a record that ends exactly at a block end still makes the loop visit the next block, so with one 16-byte block a 16-byte record at offset 0 fails with `BlockOutOfRange` |
| ArchiveIndex.WriteAt | libstormbird/private/DecimaIndex.cpp:58-59 | decompressing into the buffer overlays the output at the offset and leaves the rest |
| ArchiveIndex.Place | libstormbird/private/DecimaIndex.cpp:58-59 | a decompressed block written into its slot gives the buffer after one more round, or the loop's overflow failure |
| ArchiveIndex.DecimaIndex.ReadBlock | libstormbird/private/DecimaIndex.cpp:54-59 | seek, read and decompress give `Decompressed` of the block, and the get pointer ends after the compressed bytes |
| ArchiveIndex.DecimaIndex.Round | libstormbird/private/DecimaIndex.cpp:53-60 | one pass of the loop body takes the buffer from `n` rounds to `n + 1`, or reports the loop's failure |
| ArchiveIndex.DecimaIndex.AssembleBlocks | libstormbird/private/DecimaIndex.cpp:52-60 | the loop's buffer is `Assembled` over all rounds, and the get pointer ends after the last block read |
| ArchiveIndex.DecimaIndex.ReadFile | libstormbird/private/DecimaIndex.cpp:45-62 | an unknown hash gives an empty result and leaves the stream alone; otherwise the result is `ReadRecord` of its record on the stream as it was, and header, records and blocks never change; a block read that falls outside the stream (`ShortRead`) leaves the stream delivering nothing, and any other outcome leaves it as it was |
| StreamIndexFile.TableIsLastOccurrence | libstormbird/private/DecimaStreamIndex.cpp:22-30 | `Table`'s keys are exactly the entries' hashes, and each maps to the largest position with that hash |
| StreamIndexFile.EntryAt | libstormbird/private/DecimaStreamIndex.cpp:23-28 | an entry is read exactly when the length is non-negative and the prefix, path, checksum, offset and size fit; the path is the `length` bytes after the prefix, the checksum is the next 16 bytes, offset and size are the two little-endian `uint64_t` after it, the hash is recomputed from the path, and the cursor moves past all of it |
| StreamIndexFile.EntryBytesOfDecode | libstormbird/private/DecimaStreamIndex.cpp:23-27 | decoding an entry loses no byte: encoding it again gives back exactly the bytes from the length prefix to the cursor |
| StreamIndexFile.EntryIn | libstormbird/private/DecimaStreamIndex.cpp:23-28 | an encoded entry decodes to itself with its hash recomputed, and the cursor moves 4 + length + 16 + 8 + 8 bytes |
| StreamIndexFile.ReadEntry | libstormbird/private/DecimaStreamIndex.cpp:23-28 | the loop body reads the length, path, checksum, offset and size at a cursor that only moves forward |
| StreamIndexFile.ParseIndex | libstormbird/private/DecimaStreamIndex.cpp:13-31 | the sidecar holds as many entries as the count after the magic, none after a wrong magic, and every entry's hash is the fingerprint of its own path, never a value read from the buffer |
| StreamIndexFile.IndexRoundTrip | libstormbird/private/DecimaStreamIndex.cpp:13-31 | parsing an encoded sidecar gives back every entry's path, checksum, offset and size, with hashes recomputed |
| StreamIndexFile.WrongMagicIsEmpty | libstormbird/private/DecimaStreamIndex.cpp:15-18 | a buffer without the magic leaves no entries and an empty table |
| StreamIndexFile.CaseVariantsShareSlot | libstormbird/private/DecimaStreamIndex.cpp:28-29 | two entries whose paths differ only in case after the first colon get the same hash, and its `Table` slot points at the later entry or one after it |
| StreamIndexFile.DecimaStreamIndex.constructor | libstormbird/private/DecimaStreamIndex.cpp:13-31 | the entries are those walked from offset 8, as many as the count after the magic, and `Table` is filled from them in order |
| PathHash.FindSpec | libstormbird/private/DecimaCache.cpp:50 | `find(':')` gives no position exactly when there is no colon, and otherwise the first colon |
| PathHash.UnwrapPath | libstormbird/private/DecimaCache.cpp:50 | `unwrap_path` gives what follows the first colon, or the whole path when it has none, since `npos + 1` wraps to 0 |
| PathHash.PathType | libstormbird/private/DecimaCache.cpp:52 | `path_type` gives a colon-free prefix, the whole path when it has no colon |
| PathHash.SplitAtFirstColon | libstormbird/private/DecimaCache.cpp:50-52 | a path with a colon is its type, the colon, and its unwrapped part |
| PathHash.QualifiedPathSplits | libstormbird/private/DecimaCache.cpp:50-52 | a colon-free type joined to any rest by a colon splits back into those two parts |
| PathHash.Lower | libstormbird/private/DecimaCache.cpp:57-58 | lower-casing keeps the length and folds byte by byte |
| PathHash.GetHashIgnoresTypeAndCase | libstormbird/private/DecimaCache.cpp:54-61 | `get_hash` (`GetHash`): paths that differ only in the type before their first colon or in ASCII case after it get the same hash |
| PathHash.GetHashOfBarePath | libstormbird/private/DecimaCache.cpp:54-61 | a path without a colon hashes like the same path behind any type prefix |
| ArchiveCache.ClaimOne | libstormbird/private/DecimaCache.cpp:26-30 | one step of the inner loop either keeps the hash's owner or hands it to the archive being folded in |
| ArchiveCache.Owner | libstormbird/private/DecimaCache.cpp:20-33 | the owner after `n` archives is one of those `n` |
| ArchiveCache.OwnerExists | libstormbird/private/DecimaCache.cpp:20-33 | a hash has an owner exactly when one of the archives folded in holds it |
| ArchiveCache.OwnerIsFirstLeast | libstormbird/private/DecimaCache.cpp:23-31 | the owner holds the hash, has the least `load_priority` of the archives holding it, and comes first among those of equal priority |
| ArchiveCache.OwnerPrefix | libstormbird/private/DecimaCache.cpp:20-33 | the owner after `n` archives depends only on those `n` archives |
| ArchiveCache.FoldArchive | libstormbird/private/DecimaCache.cpp:23-31 | the inner loop claims each hash of the new archive unless its owner's priority is at most the new one's (`<=` keeps it); other hashes keep their owners |
| ArchiveCache.OpenAll | libstormbird/private/DecimaCache.cpp:20-33 | the outer loop opens archive `k` from file `k` and leaves `FileMap` mapping every hash to its owner |
| ArchiveCache.OpenArchive | libstormbird/private/DecimaCache.cpp:22 | each entry is a freshly opened archive on its own file |
| ArchiveCache.DecimaCache.constructor | libstormbird/private/DecimaCache.cpp:11-34 | one opened archive per listed file, in order, each with its stream as its constructor left it, and `FileMap` holds each hash's owner as an `int32_t` value |
| ArchiveCache.DecimaCache.FileExistsIffHeld | libstormbird/private/DecimaCache.cpp:48 | `file_exists(hash)` (`FileExists`) holds exactly when some archive's `Records` holds the hash, so `FileMap`'s keys are the union of theirs |
| ArchiveCache.DecimaCache.FileExistsPathIgnoresTypeAndCase | libstormbird/private/DecimaCache.cpp:46 | `file_exists(path)` (`FileExistsPath`) gives the same answer for paths that differ only in type prefix or in case |
| ArchiveCache.DecimaCache.ServedByFirstLeast | libstormbird/private/DecimaCache.cpp:23-31 | the archive `FileMap` names holds the hash, has the least `load_priority` among those holding it, and is the earliest on a tie |
| ArchiveCache.DecimaCache.ReadFile | libstormbird/private/DecimaCache.cpp:38-44 | an unknown hash reads as empty; otherwise the owning archive's `read_file` answers, only that archive's stream moves, and it is left delivering nothing after a `ShortRead` and unchanged otherwise |
| ArchiveCache.DecimaCache.ReadFilePath | libstormbird/private/DecimaCache.cpp:36 | reading a path is reading its hash |

## Left out

- Reading the `.bin` file, probing for and reading the `.idx` file, and directory enumeration are inputs. `ArchiveCache.DecimaCache.constructor` takes the listing as a sequence of `ArchiveFile` values. They hold only the regular `.bin` files, in enumeration order, each with its sidecar content if there is one.
- `Kraken_Decompress` is the parameter `codec`. Its only known property is the output length. Writes past `dst_len` are not modelled.
- `MurmurHash3_x64_128` is the parameter `murmur`. The stream index receives `get_hash` as a `PathHasher`, a function from path to hash.
- `dump_info`, `LOG` and `ELOG` are logging only. They include the duplicate-record message. The destructor's `Stream->close()` is also left out.
- The `stormbird_hook` runtime and the `cstormbird` command line are not part of this model.
- `dragon::Array::lpcast` and `lpslice` past the end of their buffer are not part of this model. `Parsable` requires every read of the `.idx` buffer to stay inside it. It also requires a non-negative entry count and non-negative path lengths. libstormbird passes a negative count to `dragon::Array` and a negative length to `lpslice` and `std::string`, which throws `std::length_error`; neither is part of this model. The `.bin` file has no such requirement: its reads go through the stream, and bytes past the end stay zero.
- `dragon::Array(size, nullptr)` is assumed to zero its storage. That source is not part of this model.
- `ArchiveIndex.DecimaIndex.constructor` requires `Allocatable`: a header whose `record_count` and `block_count` are non-negative, since they size the two tables' storage. What `dragon::Array` does with a negative size is not part of this model.
- `ArchiveIndex.DecimaIndex.constructor` gives a stream whose failbit is set no content at all. Later `seekg` and `read` calls on it deliver nothing, so every block with compressed bytes then fails with `ShortRead`.
- `ArchiveCache.DecimaCache.constructor` requires fewer than 2^31 archives. With that bound, neither the `uint32_t` counter nor the `int32_t` values of `FileMap` wrap.
- `PathHash.GetHash` does not model the `(int32_t)` cast of the key length. It matters only for paths of 2^31 bytes or more.
- `PathHash.AsciiLower` is `tolower` in the "C" locale only.
- `ArchiveIndex.DecimaIndex.ReadFile` says nothing about the get pointer after a failed read. In libstormbird, a failure is undefined behaviour or a failed stream read.
- `ArchiveIndex.ReadRecordBytes` requires that the window's blocks are in the table and that every block but the last decompresses to exactly `max_block_size` bytes. It also requires a non-negative range whose block indices do not wrap. It names positions as `k * m + j` through the linear `Times`, not as `(offset + p) / m` and `(offset + p) % m`.
- `ArchiveIndex.ReadRecordSucceeds` gives sufficient conditions only. It requires the last block index `(offset + size) / max_block_size` to fit `int32_t`; a range whose block indices wrap and happen to land inside the table may still be read, but the lemma does not cover it. `ArchiveIndex.WindowFits` has the same requirement, and its if-and-only-if holds only under it.
- `ArchiveIndex.Decompressed` gives `ShortRead` for a block whose compressed bytes start past the end of the stream even when its `size` is zero. A seek past the end followed by a read of nothing does not set the failbit, so libstormbird reads such a block as empty.
- `ArchiveCache.FoldArchive` takes the new archive's hashes in an unspecified order, where `std::map` goes in ascending order. Each hash is decided on its own, so every order gives the same map.

/**
 * The static path helpers of `DecimaCache`: splitting a virtual path such as
 * `cache:models/a.core` at its first colon, and the 64-bit fingerprint that
 * every archive lookup is keyed by.  Paths are byte strings (`std::string`).
 */
module PathHash {
  import opened ByteCursor
  import opened Wrappers

  const COLON: u8 := 0x3A
  const NUL: u8 := 0

  /** `std::string::npos`, the largest `size_t`. */
  const NPOS: int := 0xFFFF_FFFF_FFFF_FFFF

  /** One more than the largest `size_t`: `size_t` arithmetic is modulo this. */
  const SIZE_T_MODULUS: int := 0x1_0000_0000_0000_0000

  /** The seed `get_hash` passes to the hash function. */
  const HASH_SEED: u32 := 42

  /** The 128-bit result of `MurmurHash3_x64_128`, as the two 64-bit words it writes. */
  datatype Digest128 = Digest128(h1: u64, h2: u64)

  /**
   * `MurmurHash3_x64_128(key, len, seed, out)`, an external function: the key
   * bytes (their length is the `len` argument) and the seed.
   */
  type Murmur3 = (seq<u8>, u32) -> Digest128

  /** `p.find(c)`: the index of the first `c` in `p`, or `None` where `find` gives `npos`. */
  function Find(p: seq<u8>, c: u8): (r: Option<nat>)
    ensures r.Some? ==> r.value < |p|
  {
    if p == [] then None
    else if p[0] == c then Some(0)
    else
      match Find(p[1..], c)
      case None => None
      case Some(k) => Some(k + 1)
  }

  /** `find` reports no position exactly when `c` is absent, else its first occurrence. */
  lemma {:induction false} FindSpec(p: seq<u8>, c: u8)
    ensures Find(p, c).None? <==> c !in p
    ensures Find(p, c).Some? ==> p[Find(p, c).value] == c && c !in p[..Find(p, c).value]
  {
    if p != [] && p[0] != c {
      FindSpec(p[1..], c);
      assert p == [p[0]] + p[1..];
      if Find(p[1..], c).Some? {
        var k := Find(p[1..], c).value;
        assert p[..k + 1] == [p[0]] + p[1..][..k];
      }
    }
  }

  /** Any occurrence of `c` with none before it is the one `find` reports. */
  lemma {:induction false} FindFirst(p: seq<u8>, c: u8, i: nat)
    requires i < |p| && p[i] == c && c !in p[..i]
    ensures Find(p, c) == Some(i)
  {
    if i > 0 {
      assert p[0] == p[..i][0];
      assert p[1..][..i - 1] == p[1..i];
      FindFirst(p[1..], c, i - 1);
    }
  }

  /**
   * `path.substr(path.find(':') + 1)`.  With no colon, `npos + 1` wraps to 0
   * in `size_t`, so the whole path comes back; with one, what follows the
   * first colon.
   */
  function UnwrapPath(p: seq<u8>): (r: seq<u8>)
    ensures COLON !in p ==> r == p
    ensures COLON in p ==> exists i :: 0 <= i < |p| && p[i] == COLON && COLON !in p[..i] && r == p[i + 1..]
  {
    FindSpec(p, COLON);
    match Find(p, COLON)
    case None => p[(NPOS + 1) % SIZE_T_MODULUS..]
    case Some(i) => p[i + 1..]
  }

  /**
   * `path.substr(0, path.find(':'))`: a colon-free prefix of the path.  With
   * no colon the count is `npos`, which `substr` clamps to the length, so the
   * whole path comes back.
   */
  function PathType(p: seq<u8>): (r: seq<u8>)
    ensures r <= p && COLON !in r
    ensures COLON !in p ==> r == p
  {
    FindSpec(p, COLON);
    match Find(p, COLON)
    case None => p
    case Some(i) => p[..i]
  }

  /** A path with a colon is its type, the first colon, then its unwrapped part. */
  lemma SplitAtFirstColon(p: seq<u8>)
    requires COLON in p
    ensures p == PathType(p) + [COLON] + UnwrapPath(p)
  {
    FindSpec(p, COLON);
    var i := Find(p, COLON).value;
    assert p == p[..i] + [p[i]] + p[i + 1..];
  }

  /**
   * Joining a colon-free type and any rest with a colon splits back into
   * exactly those two parts, whatever colons the rest contains.
   */
  lemma QualifiedPathSplits(kind: seq<u8>, rest: seq<u8>)
    requires COLON !in kind
    ensures PathType(kind + [COLON] + rest) == kind
    ensures UnwrapPath(kind + [COLON] + rest) == rest
  {
    var p := kind + [COLON] + rest;
    assert p[..|kind|] == kind;
    FindFirst(p, COLON, |kind|);
    assert p[|kind| + 1..] == rest;
  }

  /** `std::tolower` on an unsigned char in the "C" locale. */
  function AsciiLower(c: u8): u8
  {
    if 0x41 <= c <= 0x5A then c + 0x20 else c
  }

  /** The in-place `std::transform` with `tolower`: same length, folded byte by byte. */
  function Lower(s: seq<u8>): (r: seq<u8>)
    ensures |r| == |s|
    ensures forall i :: 0 <= i < |s| ==> r[i] == AsciiLower(s[i])
  {
    if s == [] then [] else [AsciiLower(s[0])] + Lower(s[1..])
  }

  /** Equal once each byte is folded to ASCII lower case. */
  predicate SameIgnoringCase(a: seq<u8>, b: seq<u8>)
  {
    |a| == |b| && forall i :: 0 <= i < |a| ==> AsciiLower(a[i]) == AsciiLower(b[i])
  }

  /**
   * `get_hash`: the first 64-bit word of the seed-42 hash of the lower-cased
   * unwrapped path followed by its terminating NUL (`c_str()`, `size() + 1`).
   */
  function GetHash(murmur: Murmur3, path: seq<u8>): u64
  {
    murmur(Lower(UnwrapPath(path)) + [NUL], HASH_SEED).h1
  }

  /**
   * Paths whose parts after the first colon differ only in ASCII case get the
   * same fingerprint, whatever comes before their first colons.
   */
  lemma GetHashIgnoresTypeAndCase(murmur: Murmur3, kind1: seq<u8>, kind2: seq<u8>, rest1: seq<u8>, rest2: seq<u8>)
    requires COLON !in kind1 && COLON !in kind2
    requires SameIgnoringCase(rest1, rest2)
    ensures GetHash(murmur, kind1 + [COLON] + rest1) == GetHash(murmur, kind2 + [COLON] + rest2)
  {
    QualifiedPathSplits(kind1, rest1);
    QualifiedPathSplits(kind2, rest2);
    assert Lower(rest1) == Lower(rest2);
  }

  /** A path without a colon hashes like the same path behind any type prefix. */
  lemma GetHashOfBarePath(murmur: Murmur3, kind: seq<u8>, rest: seq<u8>)
    requires COLON !in kind && COLON !in rest
    ensures GetHash(murmur, rest) == GetHash(murmur, kind + [COLON] + rest)
  {
    QualifiedPathSplits(kind, rest);
  }
}

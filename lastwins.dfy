/**
 * A map built by writing key/value pairs one after another, each write
 * replacing whatever an earlier pair stored under the same key.  This is what
 * `Records[record.hash] = record` and `Table[Entries[i].hash] = i` do to a
 * `std::map` inside their loops.
 */
module LastWins {

  /** The map after writing `ps[0]`, `ps[1]`, ... in order. */
  function Overwrite<K, V>(ps: seq<(K, V)>): map<K, V>
    decreases |ps|
  {
    if ps == [] then map[] else Overwrite(ps[..|ps| - 1])[ps[|ps| - 1].0 := ps[|ps| - 1].1]
  }

  /** The position of the last pair with key `k`, or -1 when there is none. */
  ghost function LastIndex<K, V>(ps: seq<(K, V)>, k: K): (j: int)
    ensures -1 <= j < |ps|
    ensures j >= 0 ==> ps[j].0 == k
    ensures forall i :: j < i < |ps| ==> ps[i].0 != k
    decreases |ps|
  {
    if ps == [] then -1
    else if ps[|ps| - 1].0 == k then |ps| - 1
    else LastIndex(ps[..|ps| - 1], k)
  }

  /** Writing one more pair is one more map update. */
  lemma OverwriteSnoc<K, V>(ps: seq<(K, V)>, p: (K, V))
    ensures Overwrite(ps + [p]) == Overwrite(ps)[p.0 := p.1]
  {
    assert (ps + [p])[..|ps|] == ps;
  }

  /**
   * A key is stored exactly when some pair carries it, and what is stored is
   * the value of the LAST such pair.
   */
  lemma {:induction false} OverwriteIsLast<K, V>(ps: seq<(K, V)>, k: K)
    ensures k in Overwrite(ps) <==> LastIndex(ps, k) >= 0
    ensures k in Overwrite(ps) ==> Overwrite(ps)[k] == ps[LastIndex(ps, k)].1
    decreases |ps|
  {
    if ps != [] && ps[|ps| - 1].0 != k {
      OverwriteIsLast(ps[..|ps| - 1], k);
    }
  }

  /** The key set of the built map is the set of keys written. */
  lemma OverwriteKeys<K, V>(ps: seq<(K, V)>)
    ensures Overwrite(ps).Keys == set i | 0 <= i < |ps| :: ps[i].0
  {
    forall k | k in Overwrite(ps)
      ensures k in set i | 0 <= i < |ps| :: ps[i].0
    {
      OverwriteIsLast(ps, k);
    }
    forall i | 0 <= i < |ps|
      ensures ps[i].0 in Overwrite(ps)
    {
      OverwriteIsLast(ps, ps[i].0);
    }
  }
}

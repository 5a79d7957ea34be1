/**
 * The payload table: a hash map from key to payload whose only write is `emplace`, which
 * inserts when the key is absent and otherwise leaves the stored payload alone.
 */
module PayloadTable {
  import opened Wrappers

  /** `emplace(k, v)`: first write wins; no key is removed and no stored payload changes. */
  function Emplace<K, V>(t: map<K, V>, k: K, v: V): (r: map<K, V>)
    ensures r.Keys == t.Keys + {k}
    ensures forall k' :: k' in t ==> r[k'] == t[k']
    ensures k !in t ==> r[k] == v
  {
    if k in t then t else t[k := v]
  }

  /** `find(k)`: the stored payload, or None. */
  function Lookup<K, V>(t: map<K, V>, k: K): (r: Option<V>)
    ensures r.Some? <==> k in t
    ensures r.Some? ==> r.value == t[k]
  {
    if k in t then Some(t[k]) else None
  }

  /** Round trip: after emplacing, a lookup of the key finds the first payload ever written for it. */
  lemma EmplaceThenLookup<K, V>(t: map<K, V>, k: K, v: V)
    ensures Lookup(Emplace(t, k, v), k) == if k in t then Lookup(t, k) else Some(v)
  {
  }

  /** A second emplace with the same key is a no-op. */
  lemma FirstWriteWins<K, V>(t: map<K, V>, k: K, v1: V, v2: V)
    ensures Emplace(Emplace(t, k, v1), k, v2) == Emplace(t, k, v1)
  {
  }

  /** Emplacing one key leaves the answer for every other key unchanged. */
  lemma EmplaceKeepsOthers<K, V>(t: map<K, V>, k: K, v: V, other: K)
    requires other != k
    ensures Lookup(Emplace(t, k, v), other) == Lookup(t, other)
  {
  }
}

/** An increment immediately undone by a decrement of the same key.

    The counts come back exactly; the key, if it was present, comes back
    to its old bucket but as the newest arrival there, so the structure is
    restored up to that one key's place in its bucket, and restored
    exactly when the key was absent to begin with.
 */
module RoundTrip {
  import opened Lists
  import opened Buckets
  import opened Counters
  import opened MinMaxCnt

  /** Increment then Decrement of `key`: every count and the count index
      are as before, the key is back at its old count at the front of its
      bucket, and an absent key leaves the structure exactly as it was. */
  method IncrementDecrement<K(==)>(d: Counter<K>, key: K) returns (r: Counter<K>)
    requires Valid(d)
    ensures Valid(r)
    ensures r.byKey == d.byKey && r.byCount == d.byCount
    ensures forall k :: Count(r, k) == Count(d, k)
    ensures forall c :: KeysAt(r.chain, c) == MovedKeys(d.chain, key, Count(d, key), c)
    ensures forall c | c != Count(d, key) :: KeysAt(r.chain, c) == KeysAt(d.chain, c)
    ensures key !in d.byKey ==> r == d
  {
    var m := Increment(d, key);
    r := Decrement(m, key);
    Undone(d, key, m, r);
    Restored(d, key, r);
  }

  /** The round trip read off the two moves: the key index is as before,
      and the key sits at the front of the bucket for its old count. */
  lemma Undone<K>(d: Counter<K>, key: K, m: Counter<K>, r: Counter<K>)
    requires Valid(d)
    requires m.byKey == d.byKey[key := Count(d, key) + 1]
    requires forall c :: KeysAt(m.chain, c) == MovedKeys(d.chain, key, Count(d, key) + 1, c)
    requires r.byKey == if Count(m, key) == 1 then m.byKey - {key} else m.byKey[key := Count(m, key) - 1]
    requires forall c :: KeysAt(r.chain, c) == MovedKeys(m.chain, key, Count(m, key) - 1, c)
    ensures r.byKey == d.byKey
    ensures forall c :: KeysAt(r.chain, c) == MovedKeys(d.chain, key, Count(d, key), c)
  {
    UndoByKey(d, key, m, r);
    UndoKeys(d.chain, m.chain, r.chain, key, Count(d, key));
  }

  /** A structure whose key index is that of `d` and whose buckets are
      those of `d` with `key` moved to the front of its own bucket has the
      same counts and count index, and is `d` itself when `key` is absent. */
  lemma Restored<K>(d: Counter<K>, key: K, r: Counter<K>)
    requires Valid(d) && Valid(r) && r.byKey == d.byKey
    requires forall c :: KeysAt(r.chain, c) == MovedKeys(d.chain, key, Count(d, key), c)
    ensures r.byCount == d.byCount
    ensures forall k :: Count(r, k) == Count(d, k)
    ensures forall c | c != Count(d, key) :: KeysAt(r.chain, c) == KeysAt(d.chain, c)
    ensures key !in d.byKey ==> r == d
  {
    SameCountIndex(d, r);
    OthersWithout(d, key);
    if key !in d.byKey {
      SameChain(d, r);
    }
  }

  /** Two structures with the same indexes and the same keys at every
      count are the same structure. */
  lemma SameChain<K>(d: Counter<K>, r: Counter<K>)
    requires Linked(d) && Linked(r) && r.byKey == d.byKey && r.byCount == d.byCount
    requires forall c :: KeysAt(r.chain, c) == KeysAt(d.chain, c)
    ensures r == d
  {
    ChainDetermined(r.chain, d.chain);
  }

  /** Two structures with the same key index have the same count index. */
  lemma SameCountIndex<K>(d: Counter<K>, r: Counter<K>)
    requires Valid(d) && Valid(r) && r.byKey == d.byKey
    ensures r.byCount == d.byCount
  {
    CountIndexValues(d);
    CountIndexValues(r);
  }

  /** The key index after the round trip is the one before it. */
  lemma UndoByKey<K>(d: Counter<K>, key: K, m: Counter<K>, r: Counter<K>)
    requires m.byKey == d.byKey[key := Count(d, key) + 1]
    requires r.byKey == if Count(d, key) == 0 then m.byKey - {key} else m.byKey[key := Count(d, key)]
    requires Count(d, key) == 0 ==> key !in d.byKey
    ensures r.byKey == d.byKey
  {
    if Count(d, key) == 0 {
      MinusUpdate(d.byKey, key, Count(d, key) + 1);
    } else {
      assert r.byKey.Keys == d.byKey.Keys;
    }
  }

  /** Updating the entry for `k` is invisible once `k` is removed. */
  lemma MinusUpdate<K, V>(m: map<K, V>, k: K, v: V)
    ensures m[k := v] - {k} == m - {k}
  {
    assert (m[k := v] - {k}).Keys == (m - {k}).Keys;
  }

  /** Moving a key up to count `c + 1` and back down to `c` is moving it
      to the front of its bucket at `c`. */
  lemma UndoKeys<K>(chain: seq<Bucket<K>>, up: seq<Bucket<K>>, down: seq<Bucket<K>>, key: K, c: nat)
    requires forall x :: KeysAt(up, x) == MovedKeys(chain, key, c + 1, x)
    requires forall x :: KeysAt(down, x) == MovedKeys(up, key, c, x)
    ensures forall x :: KeysAt(down, x) == MovedKeys(chain, key, c, x)
  {
    forall x ensures KeysAt(down, x) == MovedKeys(chain, key, c, x) {
      WithoutPushed(KeysAt(chain, x), KeysAt(up, x), key, x == c + 1);
    }
  }

  /** Removing `key` again after it was pushed onto the front of what
      was left once it had been removed leaves that remainder. */
  lemma WithoutPushed<K>(ks: seq<K>, pushed: seq<K>, key: K, front: bool)
    requires pushed == (if front then [key] else []) + Without(ks, key)
    ensures Without(pushed, key) == Without(ks, key)
  {
    WithoutTwice(ks, key);
    if front {
      WithoutCons(Without(ks, key), key);
    }
  }
}

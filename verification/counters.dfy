/** A counter of keys that answers "which key has the highest count" and
    "which key has the lowest non-zero count" by keeping the keys in
    frequency buckets: the state, its invariant and the queries.

    The state has three parts: the bucket chain (lowest count first), the
    key index (for every key present, the bucket it lives in, named by that
    bucket's count) and the count index (the counts that have a bucket).
 */
module Counters {
  import opened Lists
  import opened Buckets

  datatype Option<T> = None | Some(value: T)

  datatype Counter<K> = Counter(chain: seq<Bucket<K>>, byKey: map<K, nat>, byCount: set<nat>)

  /** The part of the invariant that the operations need to find their
      way: counts strictly increase along the chain, the count index names
      exactly the chain's counts, there is no bucket for count 0, and the
      key index sends every key to a count that has a bucket. */
  ghost predicate Linked<K>(d: Counter<K>) {
    && Sorted(d.chain)
    && d.byCount == Counts(d.chain)
    && 0 !in d.byCount
    && (forall k | k in d.byKey :: d.byKey[k] in d.byCount)
  }

  /** Every bucket in the chain holds at least one key, and none twice. */
  ghost predicate Filled<K>(d: Counter<K>) {
    && (forall c | c in d.byCount :: KeysAt(d.chain, c) != [])
    && (forall c :: NoDup(KeysAt(d.chain, c)))
  }

  /** A key sits in the bucket for count `c` exactly when the key index
      sends it to `c`. */
  ghost predicate Indexed<K>(d: Counter<K>) {
    && (forall c, k | k in KeysAt(d.chain, c) :: k in d.byKey && d.byKey[k] == c)
    && (forall k | k in d.byKey :: k in KeysAt(d.chain, d.byKey[k]))
  }

  /** The structure's invariant. */
  ghost predicate Valid<K>(d: Counter<K>) {
    Linked(d) && Filled(d) && Indexed(d)
  }

  /** The keys held at count `c` once `key` has left its place in `prev`
      for the front of the bucket for count `target`; a target of 0 or less
      means the key left the structure. */
  ghost function MovedKeys<K>(prev: seq<Bucket<K>>, key: K, target: int, c: nat): seq<K> {
    (if c == target && target > 0 then [key] else []) + Without(KeysAt(prev, c), key)
  }

  /** A structure holding no key. */
  function New<K>(): (d: Counter<K>)
    ensures Valid(d)
    ensures d.byKey == map[]
    ensures Max(d) == (None, 0) && Min(d) == (None, 0)
  {
    Counter([], map[], {})
  }

  /** A fresh structure counts 0 for every key. */
  lemma NewCountsNothing<K>()
    ensures forall k :: Count(New<K>(), k) == 0
  {
  }

  /** The count of `key`, read through the key index; 0 for an absent key. */
  function Count<K>(d: Counter<K>, key: K): (n: nat)
    ensures Valid(d) ==> (n == 0 <==> forall c :: key !in KeysAt(d.chain, c))
    ensures Valid(d) && n > 0 ==> key in KeysAt(d.chain, n)
  {
    if key in d.byKey then d.byKey[key] else 0
  }

  /** The key at the back of the last bucket, i.e. the one that arrived
      longest ago at the highest count, with that count; `(None, 0)` when
      the structure is empty. */
  function Max<K>(d: Counter<K>): (r: (Option<K>, nat))
    requires Valid(d)
    ensures r.0 == None <==> d.byKey == map[]
    ensures r.0 == None ==> r.1 == 0
    ensures r.0.Some? ==> Count(d, r.0.value) == r.1 > 0
    ensures r.0.Some? ==> forall k | k in d.byKey :: d.byKey[k] <= r.1
    ensures r.0.Some? ==> r.0.value == Last(KeysAt(d.chain, r.1))
  {
    if |d.chain| == 0 then
      NoBucketNoKey(d);
      (None, 0)
    else
      var back := d.chain[|d.chain| - 1];
      assert back.count in d.byCount;
      assert KeysAt(d.chain, back.count) == back.keys;
      var key := back.keys[|back.keys| - 1];
      assert key in KeysAt(d.chain, back.count);
      assert key in d.byKey;
      CountsBound(d);
      (Some(key), back.count)
  }

  /** The key at the front of the first bucket, i.e. the one that arrived
      most recently at the lowest non-zero count, with that count;
      `(None, 0)` when the structure is empty. */
  function Min<K>(d: Counter<K>): (r: (Option<K>, nat))
    requires Valid(d)
    ensures r.0 == None <==> d.byKey == map[]
    ensures r.0 == None ==> r.1 == 0
    ensures r.0.Some? ==> Count(d, r.0.value) == r.1 > 0
    ensures r.0.Some? ==> forall k | k in d.byKey :: r.1 <= d.byKey[k]
    ensures r.0.Some? ==> r.0.value == KeysAt(d.chain, r.1)[0]
  {
    if |d.chain| == 0 then
      NoBucketNoKey(d);
      (None, 0)
    else
      var front := d.chain[0];
      assert front.count in d.byCount;
      assert KeysAt(d.chain, front.count) == front.keys;
      var key := front.keys[0];
      assert key in KeysAt(d.chain, front.count);
      assert key in d.byKey;
      CountsBound(d);
      (Some(key), front.count)
  }

  /** Moving `key` leaves the keys held at every count other than its own untouched. */
  lemma OthersWithout<K>(d: Counter<K>, key: K)
    requires Linked(d) && Indexed(d)
    ensures forall c | c != Count(d, key) :: Without(KeysAt(d.chain, c), key) == KeysAt(d.chain, c)
    ensures KeysAt(d.chain, 0) == []
  {
    forall c | c != Count(d, key) ensures Without(KeysAt(d.chain, c), key) == KeysAt(d.chain, c) {
      WithoutAbsent(KeysAt(d.chain, c), key);
    }
  }

  /** A key is held at no count but its own. */
  lemma Elsewhere<K>(d: Counter<K>, key: K)
    requires Indexed(d)
    ensures forall c | c != Count(d, key) :: key !in KeysAt(d.chain, c)
  {
    forall c | key in KeysAt(d.chain, c) ensures c == Count(d, key) {
      assert key in d.byKey && d.byKey[key] == c;
    }
  }

  /** An empty chain indexes no key. */
  lemma NoBucketNoKey<K>(d: Counter<K>)
    requires Linked(d) && |d.chain| == 0
    ensures d.byKey == map[]
  {
    forall k | k in d.byKey ensures false {
    }
  }

  /** Every indexed count lies between the first bucket's count and the last bucket's. */
  lemma CountsBound<K>(d: Counter<K>)
    requires Linked(d) && |d.chain| > 0
    ensures forall k | k in d.byKey :: d.chain[0].count <= d.byKey[k] <= d.chain[|d.chain| - 1].count
  {
    forall k | k in d.byKey ensures d.chain[0].count <= d.byKey[k] <= d.chain[|d.chain| - 1].count {
      var i :| 0 <= i < |d.chain| && d.chain[i].count == d.byKey[k];
      assert 0 < i ==> d.chain[0].count < d.chain[i].count;
      assert i < |d.chain| - 1 ==> d.chain[i].count < d.chain[|d.chain| - 1].count;
    }
  }

  /** The invariant holds after `key` has moved from its prev count to `c1`
      (0 meaning it left), provided the chain holds at every count what the
      move prescribes and every bucket left in the chain is either the
      target, the source still holding other keys, or an untouched one. */
  lemma MovedValid<K>(d: Counter<K>, key: K, c1: nat, r: Counter<K>)
    requires Filled(d) && Indexed(d) && c1 != Count(d, key)
    requires Sorted(r.chain) && r.byCount == Counts(r.chain) && 0 !in r.byCount
    requires c1 == 0 ==> r.byKey == d.byKey - {key}
    requires c1 > 0 ==> r.byKey == d.byKey[key := c1]
    requires forall c :: KeysAt(r.chain, c) == MovedKeys(d.chain, key, c1, c)
    requires forall c | c in r.byCount :: c == c1 || c in d.byCount
    requires Count(d, key) in r.byCount ==> Without(KeysAt(d.chain, Count(d, key)), key) != []
    ensures Valid(r)
  {
    MovedFilled(d, key, c1, r);
    MovedIndexed(d, key, c1, r);
    IndexedCounts(r);
    assert Linked(r);
  }

  /** A key found at the count the key index names makes that count one with a bucket. */
  lemma IndexedCounts<K>(r: Counter<K>)
    requires forall k | k in r.byKey :: k in KeysAt(r.chain, r.byKey[k])
    ensures forall k | k in r.byKey :: r.byKey[k] in Counts(r.chain)
  {
    forall k | k in r.byKey ensures r.byKey[k] in Counts(r.chain) {
      var ks := KeysAt(r.chain, r.byKey[k]);
      assert k in ks;
    }
  }

  lemma MovedFilled<K>(d: Counter<K>, key: K, c1: nat, r: Counter<K>)
    requires Filled(d) && Indexed(d) && c1 != Count(d, key)
    requires forall c :: KeysAt(r.chain, c) == MovedKeys(d.chain, key, c1, c)
    requires forall c | c in r.byCount :: c == c1 || c in d.byCount
    requires 0 !in r.byCount
    requires Count(d, key) in r.byCount ==> Without(KeysAt(d.chain, Count(d, key)), key) != []
    ensures Filled(r)
  {
    MovedNonEmpty(d, key, c1, r);
    MovedNoDup(d, key, c1, r);
  }

  lemma MovedNonEmpty<K>(d: Counter<K>, key: K, c1: nat, r: Counter<K>)
    requires Filled(d) && Indexed(d) && c1 != Count(d, key)
    requires forall c :: KeysAt(r.chain, c) == MovedKeys(d.chain, key, c1, c)
    requires forall c | c in r.byCount :: c == c1 || c in d.byCount
    requires 0 !in r.byCount
    requires Count(d, key) in r.byCount ==> Without(KeysAt(d.chain, Count(d, key)), key) != []
    ensures forall c | c in r.byCount :: KeysAt(r.chain, c) != []
  {
    forall c | c in r.byCount ensures KeysAt(r.chain, c) != [] {
      if c == c1 {
        assert |KeysAt(r.chain, c)| == 1 + |Without(KeysAt(d.chain, c), key)|;
      } else if c != Count(d, key) {
        WithoutAbsent(KeysAt(d.chain, c), key);
      }
    }
  }

  lemma MovedNoDup<K>(d: Counter<K>, key: K, c1: nat, r: Counter<K>)
    requires Filled(d) && Indexed(d)
    requires forall c :: KeysAt(r.chain, c) == MovedKeys(d.chain, key, c1, c)
    ensures forall c :: NoDup(KeysAt(r.chain, c))
  {
    forall c ensures NoDup(KeysAt(r.chain, c)) {
      WithoutNoDup(KeysAt(d.chain, c), key);
      if c == c1 && c1 > 0 {
        PushFrontNoDup(Without(KeysAt(d.chain, c), key), key);
      }
    }
  }

  lemma MovedIndexed<K>(d: Counter<K>, key: K, c1: nat, r: Counter<K>)
    requires Indexed(d)
    requires c1 == 0 ==> r.byKey == d.byKey - {key}
    requires c1 > 0 ==> r.byKey == d.byKey[key := c1]
    requires forall c :: KeysAt(r.chain, c) == MovedKeys(d.chain, key, c1, c)
    ensures Indexed(r)
  {
    forall c, k | k in KeysAt(r.chain, c) ensures k in r.byKey && r.byKey[k] == c {
      if k != key {
        assert k in KeysAt(d.chain, c);
      }
    }
    forall k | k in r.byKey ensures k in KeysAt(r.chain, r.byKey[k]) {
      if k != key {
        assert k in KeysAt(d.chain, d.byKey[k]);
      } else {
        assert key in KeysAt(r.chain, c1);
      }
    }
  }

  /** `r` is `d` after `key` moved to count `c1`, a count of 0 meaning the
      key left the structure, with every other key where it was. */
  ghost predicate Moved<K>(d: Counter<K>, key: K, c1: nat, r: Counter<K>) {
    && Valid(d) && Valid(r)
    && r.byKey == (if c1 == 0 then d.byKey - {key} else d.byKey[key := c1])
    && (forall c :: KeysAt(r.chain, c) == MovedKeys(d.chain, key, c1, c))
  }

  lemma NewestAtMin<K>(d: Counter<K>, key: K, c1: nat, r: Counter<K>)
    requires Moved(d, key, c1, r)
    requires c1 > 0 && forall k | k in d.byKey && k != key :: c1 <= d.byKey[k]
    ensures Min(r) == (Some(key), c1)
  {
    MovedByKey(d, key, c1, r);
    var mr := Min(r);
    assert mr.1 == c1 by {
      assert mr.1 <= r.byKey[key];
      assert r.byKey[mr.0.value] == mr.1;
    }
    assert KeysAt(r.chain, c1) == [key] + Without(KeysAt(d.chain, c1), key);
  }

  lemma MinKept<K>(d: Counter<K>, key: K, c1: nat, r: Counter<K>)
    requires Moved(d, key, c1, r)
    requires Min(d).0.Some? && Min(d).0 != Some(key) && (c1 == 0 || c1 > Min(d).1)
    ensures Min(r) == Min(d)
  {
    var m, lo := Min(d).0.value, Min(d).1;
    MovedByKey(d, key, c1, r);
    assert m in r.byKey && r.byKey[m] == lo;
    var mr := Min(r);
    assert mr.1 == lo by {
      assert mr.1 <= r.byKey[m];
      var k := mr.0.value;
      assert r.byKey[k] == mr.1;
      if k != key {
        assert lo <= d.byKey[k];
      }
    }
    var ks := KeysAt(d.chain, lo);
    assert KeysAt(r.chain, lo) == Without(ks, key);
    WithoutFront(ks, key);
  }

  lemma AloneAtMax<K>(d: Counter<K>, key: K, c1: nat, r: Counter<K>)
    requires Moved(d, key, c1, r)
    requires c1 > Max(d).1
    ensures Max(r) == (Some(key), c1)
  {
    MovedByKey(d, key, c1, r);
    AboveMax(d, c1);
    var mr := Max(r);
    assert mr.1 == c1 by {
      assert r.byKey[key] <= mr.1;
      assert r.byKey[mr.0.value] == mr.1;
    }
    assert KeysAt(r.chain, c1) == [key] + Without([], key);
  }

  lemma MaxKept<K>(d: Counter<K>, key: K, c1: nat, r: Counter<K>)
    requires Moved(d, key, c1, r)
    requires Max(d).0.Some? && Max(d).0 != Some(key) && c1 <= Max(d).1
    ensures Max(r) == Max(d)
  {
    var hi := Max(d).1;
    MaxCountKept(d, key, c1, r);
    var ks := KeysAt(d.chain, hi);
    WithoutLast(ks, key);
    var front := if hi == c1 then [key] else [];
    assert KeysAt(r.chain, hi) == front + Without(ks, key);
    LastAppend(front, Without(ks, key));
  }

  lemma MaxCountKept<K>(d: Counter<K>, key: K, c1: nat, r: Counter<K>)
    requires Valid(d) && Valid(r)
    requires r.byKey == (if c1 == 0 then d.byKey - {key} else d.byKey[key := c1])
    requires Max(d).0.Some? && Max(d).0 != Some(key) && c1 <= Max(d).1
    ensures Max(r).0.Some? && Max(r).1 == Max(d).1
  {
    var m, hi := Max(d).0.value, Max(d).1;
    MovedByKey(d, key, c1, r);
    assert m in r.byKey && r.byKey[m] == hi;
    var mr := Max(r);
    assert r.byKey[m] <= mr.1;
    var k := mr.0.value;
    assert r.byKey[k] == mr.1;
    if k != key {
      assert d.byKey[k] <= hi;
    }
  }

  /** The counts after a move: the moved key's count is its new one, 0
      meaning gone, and every other key's count stays. */
  lemma MovedCounts<K>(d: Counter<K>, key: K, c1: nat, r: Counter<K>)
    requires r.byKey == (if c1 == 0 then d.byKey - {key} else d.byKey[key := c1])
    ensures Count(r, key) == c1
    ensures forall k | k != key :: Count(r, k) == Count(d, k)
  {
    MovedByKey(d, key, c1, r);
  }

  /** Min after an increment: an absent key enters as the newest arrival
      at count 1, the lowest count there is, so Min reports it; otherwise
      Min stays unless it was the key itself. */
  lemma RaisedMin<K>(d: Counter<K>, key: K, r: Counter<K>)
    requires Moved(d, key, Count(d, key) + 1, r)
    ensures key !in d.byKey ==> Min(r) == (Some(key), 1)
    ensures key in d.byKey && Min(d).0 != Some(key) ==> Min(r) == Min(d)
  {
    if key !in d.byKey {
      PositiveCounts(d);
      NewestAtMin(d, key, 1, r);
    } else if Min(d).0 != Some(key) {
      assert Min(d).1 <= d.byKey[key];
      MinKept(d, key, Count(d, key) + 1, r);
    }
  }

  /** Max after an increment: the key climbing above every count is the
      only key at the highest count, so Max reports it; otherwise Max
      stays. */
  lemma RaisedMax<K>(d: Counter<K>, key: K, r: Counter<K>)
    requires Moved(d, key, Count(d, key) + 1, r)
    ensures Count(d, key) + 1 > Max(d).1 ==> Max(r) == (Some(key), Count(d, key) + 1)
    ensures Count(d, key) + 1 <= Max(d).1 ==> Max(r) == Max(d)
  {
    var c1 := Count(d, key) + 1;
    if c1 > Max(d).1 {
      AloneAtMax(d, key, c1, r);
    } else {
      assert Max(d).0.Some?;
      MaxKept(d, key, c1, r);
    }
  }

  /** Min after a decrement from `c1 + 1` to `c1`: a key landing at or
      below the lowest count is the newest arrival there, so Min reports
      it; Min stays when it was another key and the moved key left or
      stayed above it. */
  lemma LoweredMin<K>(d: Counter<K>, key: K, c1: nat, r: Counter<K>)
    requires Count(d, key) == c1 + 1 && Moved(d, key, c1, r)
    ensures c1 > 0 && c1 <= Min(d).1 ==> Min(r) == (Some(key), c1)
    ensures Min(d).0 != Some(key) && (c1 == 0 || c1 > Min(d).1) ==> Min(r) == Min(d)
  {
    if c1 > 0 && c1 <= Min(d).1 {
      NewestAtMin(d, key, c1, r);
    }
    if Min(d).0 != Some(key) && (c1 == 0 || c1 > Min(d).1) {
      assert key in d.byKey;
      MinKept(d, key, c1, r);
    }
  }

  /** Max after a decrement: Max stays when it was another key. */
  lemma LoweredMax<K>(d: Counter<K>, key: K, c1: nat, r: Counter<K>)
    requires Count(d, key) == c1 + 1 && Moved(d, key, c1, r)
    ensures Max(d).0 != Some(key) ==> Max(r) == Max(d)
  {
    if Max(d).0 != Some(key) {
      assert key in d.byKey;
      assert d.byKey[key] <= Max(d).1;
      MaxKept(d, key, c1, r);
    }
  }

  /** Every key present has a count of at least 1. */
  lemma PositiveCounts<K>(d: Counter<K>)
    requires Valid(d)
    ensures forall k | k in d.byKey :: d.byKey[k] >= 1
  {
  }

  /** How a move changes the key index: the moved key has its new count,
      or is gone, and every other key keeps its count. */
  lemma MovedByKey<K>(d: Counter<K>, key: K, c1: nat, r: Counter<K>)
    requires r.byKey == (if c1 == 0 then d.byKey - {key} else d.byKey[key := c1])
    ensures c1 > 0 ==> key in r.byKey && r.byKey[key] == c1
    ensures c1 == 0 ==> key !in r.byKey
    ensures forall k | k != key :: k in r.byKey <==> k in d.byKey
    ensures forall k | k in r.byKey && k != key :: r.byKey[k] == d.byKey[k]
  {
  }

  /** No key, hence no bucket, lies above the count Max reports. */
  lemma AboveMax<K>(d: Counter<K>, c: nat)
    requires Valid(d) && c > Max(d).1
    ensures KeysAt(d.chain, c) == []
  {
  }

  /** The invariant read bucket by bucket: every bucket has a count of at
      least 1 and holds at least one key, none twice. */
  lemma ValidBuckets<K>(d: Counter<K>)
    requires Valid(d)
    ensures forall i | 0 <= i < |d.chain| :: d.chain[i].count >= 1 && d.chain[i].keys != [] && NoDup(d.chain[i].keys)
  {
    forall i | 0 <= i < |d.chain| ensures d.chain[i].count >= 1 && d.chain[i].keys != [] && NoDup(d.chain[i].keys) {
      assert d.chain[i].count in d.byCount;
      assert KeysAt(d.chain, d.chain[i].count) == d.chain[i].keys;
    }
  }

  /** The invariant read key by key: a key sits in a bucket exactly when
      the bucket's count is the key's count, so a present key lies in
      exactly one bucket and an absent key in none. */
  lemma KeyPlacement<K>(d: Counter<K>, k: K)
    requires Valid(d)
    ensures forall i | 0 <= i < |d.chain| :: k in d.chain[i].keys <==> d.chain[i].count == Count(d, k)
    ensures k in d.byKey <==> exists i | 0 <= i < |d.chain| :: k in d.chain[i].keys
  {
    forall i | 0 <= i < |d.chain| ensures k in d.chain[i].keys <==> d.chain[i].count == Count(d, k) {
      assert KeysAt(d.chain, d.chain[i].count) == d.chain[i].keys;
      assert d.chain[i].count in d.byCount;
    }
    if k in d.byKey {
      var i :| 0 <= i < |d.chain| && d.chain[i].count == d.byKey[k];
      assert k in d.chain[i].keys;
    }
  }

  /** The counts with a bucket are exactly the counts some key has. */
  lemma CountIndexValues<K>(d: Counter<K>)
    requires Valid(d)
    ensures d.byCount == d.byKey.Values
  {
    forall c | c in d.byCount ensures c in d.byKey.Values {
      var k := KeysAt(d.chain, c)[0];
      assert k in KeysAt(d.chain, c);
      assert d.byKey[k] == c;
    }
  }
}

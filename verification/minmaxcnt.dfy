/** The two updates of the counter. `Increment` and `Decrement` move one
    key to the neighbouring count, creating the neighbour bucket when it is
    missing and unlinking the bucket they leave when it becomes empty; a
    key brought down to 0 leaves the structure.
 */
module MinMaxCnt {
  import opened Lists
  import opened Buckets
  import opened Counters

  /** Raises the count of `key` by one; an absent key enters with count 1.
      The key moves to the front of the bucket for its new count, and no
      other key moves. */
  method Increment<K(==)>(d: Counter<K>, key: K) returns (r: Counter<K>)
    requires Valid(d)
    ensures Valid(r)
    ensures r.byKey == d.byKey[key := Count(d, key) + 1]
    ensures forall c :: KeysAt(r.chain, c) == MovedKeys(d.chain, key, Count(d, key) + 1, c)
    ensures Count(r, key) == Count(d, key) + 1
    ensures forall k | k != key :: Count(r, k) == Count(d, k)
    ensures key !in d.byKey ==> Min(r) == (Some(key), 1)
    ensures key in d.byKey && Min(d).0 != Some(key) ==> Min(r) == Min(d)
    ensures Count(d, key) + 1 > Max(d).1 ==> Max(r) == (Some(key), Count(d, key) + 1)
    ensures Count(d, key) + 1 <= Max(d).1 ==> Max(r) == Max(d)
  {
    r := IncrementMoved(d, key);
    MovedCounts(d, key, Count(d, key) + 1, r);
    RaisedMin(d, key, r);
    RaisedMax(d, key, r);
  }

  /** The structure after an increment, with the invariant kept. */
  method IncrementMoved<K(==)>(d: Counter<K>, key: K) returns (r: Counter<K>)
    requires Valid(d)
    ensures Moved(d, key, Count(d, key) + 1, r)
  {
    var chain, byCount := IncrementChain(d, key);
    r := Counter(chain, d.byKey[key := Count(d, key) + 1], byCount);
    MovedValid(d, key, Count(d, key) + 1, r);
  }

  /** The chain and the count index after an increment. A count keeps its
      bucket only if it is the key's new count or already had one, and the
      key's old count keeps its bucket only if other keys remain there. */
  method IncrementChain<K(==)>(d: Counter<K>, key: K) returns (chain: seq<Bucket<K>>, byCount: set<nat>)
    requires Linked(d) && Indexed(d)
    ensures Sorted(chain) && byCount == Counts(chain) && 0 !in byCount
    ensures forall c :: KeysAt(chain, c) == MovedKeys(d.chain, key, Count(d, key) + 1, c)
    ensures forall c | c in byCount :: c == Count(d, key) + 1 || c in d.byCount
    ensures Count(d, key) in byCount ==> Without(KeysAt(d.chain, Count(d, key)), key) != []
  {
    var chain0, s := Source(d, key);
    chain, byCount := MoveUp(chain0, s, key, d.byCount, d.chain, Count(d, key));
  }

  /** `chain[s]` is the bucket of count `c0` that `key` is about to leave:
      the chain is sorted, its counts are those of the count index `byCount`
      plus `c0` (which the index lacks only for the scaffold of an absent
      key, a bucket holding nothing but the key), the key is in no other
      bucket, and apart from the key every count holds what it holds in
      `prev`. */
  ghost predicate Leaving<K>(chain: seq<Bucket<K>>, s: nat, key: K, byCount: set<nat>, c0: nat, prev: seq<Bucket<K>>) {
    && Sorted(chain) && s < |chain| && chain[s].count == c0
    && Counts(chain) == byCount + {c0}
    && (c0 !in byCount ==> Without(chain[s].keys, key) == [])
    && (forall c | c != c0 :: key !in KeysAt(chain, c))
    && (forall c :: Without(KeysAt(chain, c), key) == Without(KeysAt(prev, c), key))
  }

  /** The bucket a key leaves when it moves: its own bucket, or for an
      absent key a scaffold bucket of count 0 holding just the key, pushed
      at the front of the chain and left out of the count index. */
  method Source<K(==)>(d: Counter<K>, key: K) returns (chain: seq<Bucket<K>>, s: nat)
    requires Linked(d) && Indexed(d)
    ensures Leaving(chain, s, key, d.byCount, Count(d, key), d.chain)
    ensures key in chain[s].keys
    ensures key in d.byKey ==> chain == d.chain
    ensures key !in d.byKey ==> s == 0 && chain[0] == Bucket(0, [key]) && chain[1..] == d.chain
  {
    if key in d.byKey {
      Elsewhere(d, key);
      chain, s := d.chain, Find(d.chain, d.byKey[key]);
    } else {
      chain := Scaffold(d, key);
      s := 0;
    }
  }

  /** The chain of an increment of an absent key: a count-0 bucket
      holding just the key, pushed at the front of the chain. */
  method Scaffold<K(==)>(d: Counter<K>, key: K) returns (chain: seq<Bucket<K>>)
    requires Linked(d) && Indexed(d) && key !in d.byKey
    ensures Leaving(chain, 0, key, d.byCount, 0, d.chain)
    ensures chain[0] == Bucket(0, [key]) && chain[1..] == d.chain
  {
    Elsewhere(d, key);
    assert |d.chain| > 0 ==> d.chain[0].count in d.byCount;
    chain := InsertAt(d.chain, 0, Bucket(0, [key]));
    assert chain[1..] == d.chain;
    assert Without([key], key) == [];
    assert KeysAt(d.chain, 0) == [];
  }

  /** The target element of an increment: the bucket for the next count,
      found through the count index, or a new empty bucket spliced in right
      after the source. No count gains or loses a key. */
  method TargetAfter<K>(chain: seq<Bucket<K>>, s: nat, byCount: set<nat>) returns (chain1: seq<Bucket<K>>, t: nat)
    requires Sorted(chain) && s < |chain|
    requires chain[s].count + 1 in byCount <==> chain[s].count + 1 in Counts(chain)
    ensures Sorted(chain1) && s < |chain1| && t < |chain1| && t != s
    ensures chain1[s] == chain[s]
    ensures chain1[t] == Bucket(chain[s].count + 1, KeysAt(chain, chain[s].count + 1))
    ensures Counts(chain1) == Counts(chain) + {chain[s].count + 1}
    ensures forall c :: KeysAt(chain1, c) == KeysAt(chain, c)
  {
    var c := chain[s].count + 1;
    if c in byCount {
      chain1, t := chain, Find(chain, c);
    } else {
      assert s + 1 < |chain| ==> chain[s + 1].count in Counts(chain);
      chain1 := InsertAt(chain, s + 1, Bucket(c, []));
      t := s + 1;
    }
  }

  /** The target element of a decrement: the bucket for the previous count,
      found through the count index, or a new empty bucket spliced in right
      before the source, which moves the source one place back. Returns the
      chain, the target's position and the source's new position. No count
      gains or loses a key. */
  method TargetBefore<K>(chain: seq<Bucket<K>>, s: nat, byCount: set<nat>) returns (chain1: seq<Bucket<K>>, t: nat, s1: nat)
    requires Sorted(chain) && s < |chain| && chain[s].count > 0
    requires chain[s].count - 1 in byCount <==> chain[s].count - 1 in Counts(chain)
    ensures Sorted(chain1) && t < s1 < |chain1|
    ensures chain1[s1] == chain[s]
    ensures chain1[t] == Bucket(chain[s].count - 1, KeysAt(chain, chain[s].count - 1))
    ensures Counts(chain1) == Counts(chain) + {chain[s].count - 1}
    ensures forall c :: KeysAt(chain1, c) == KeysAt(chain, c)
  {
    var c := chain[s].count - 1;
    if c in byCount {
      t := Find(chain, c);
      assert chain[t].count < chain[s].count;
      chain1, s1 := chain, s;
    } else {
      assert s > 0 ==> chain[s - 1].count in Counts(chain);
      chain1 := InsertAt(chain, s, Bucket(c, []));
      t, s1 := s, s + 1;
    }
  }

  /** The move shared by both operations: the key is pushed at the front of
      the target's key list and removed from the source's; a source left
      empty is unlinked, and `dropped` says whether it was. */
  method Move<K(==)>(chain: seq<Bucket<K>>, s: nat, t: nat, key: K) returns (chain1: seq<Bucket<K>>, dropped: bool)
    requires Sorted(chain) && s < |chain| && t < |chain| && s != t
    ensures Sorted(chain1)
    ensures dropped <==> Without(chain[s].keys, key) == []
    ensures Counts(chain1) == if dropped then Counts(chain) - {chain[s].count} else Counts(chain)
    ensures forall c :: (KeysAt(chain1, c) ==
      if c == chain[t].count then [key] + chain[t].keys
      else if c == chain[s].count then Without(chain[s].keys, key)
      else KeysAt(chain, c))
    ensures t < s ==> t < |chain1| && chain1[t].count == chain[t].count
  {
    var chain2 := SetKeys(chain, t, [key] + chain[t].keys);
    var chain3 := SetKeys(chain2, s, Without(chain2[s].keys, key));
    if |chain3[s].keys| == 0 {
      chain1 := RemoveAt(chain3, s);
      dropped := true;
    } else {
      chain1, dropped := chain3, false;
    }
  }

  /** The count index after a key moved from count `c0` to `c1`: the
      target's count is indexed, and the source's is forgotten when its
      bucket was unlinked. The postconditions spell out membership count
      by count so that callers need not unfold the set expression. */
  function Reindex(byCount: set<nat>, c0: nat, c1: nat, dropped: bool): (r: set<nat>)
    requires c0 != c1
    ensures c1 in r
    ensures c0 in r <==> !dropped && c0 in byCount
    ensures forall c | c != c0 && c != c1 :: c in r <==> c in byCount
  {
    var indexed := byCount + {c1};
    if dropped then indexed - {c0} else indexed
  }

  /** The move once the target bucket is in place: `chain2` is `chain`
      with the target bucket at `t` and the source moved to `s2`. The key
      goes to the front of the target, the source is unlinked if that left
      it empty, and the count index is brought up to date. The keys are
      described against `prev`, which holds every key other than `key`
      where `chain` does. */
  method MoveFrom<K(==)>(chain: seq<Bucket<K>>, s: nat, chain2: seq<Bucket<K>>, s2: nat, t: nat, key: K,
                         byCount: set<nat>, ghost prev: seq<Bucket<K>>)
    returns (chain1: seq<Bucket<K>>, byCount1: set<nat>)
    requires Sorted(chain) && s < |chain|
    requires Counts(chain) == byCount + {chain[s].count}
    requires chain[s].count !in byCount ==> Without(chain[s].keys, key) == []
    requires forall c | c != chain[s].count :: key !in KeysAt(chain, c)
    requires forall c :: Without(KeysAt(chain, c), key) == Without(KeysAt(prev, c), key)
    requires Sorted(chain2) && s2 < |chain2| && t < |chain2| && s2 != t
    requires chain2[s2] == chain[s] && chain2[t].count != chain[s].count
    requires chain2[t].keys == KeysAt(chain, chain2[t].count)
    requires Counts(chain2) == Counts(chain) + {chain2[t].count}
    requires forall c :: KeysAt(chain2, c) == KeysAt(chain, c)
    ensures Sorted(chain1) && byCount1 == Counts(chain1)
    ensures t < s2 ==> t < |chain1| && chain1[t].count == chain2[t].count
    ensures forall c | c in byCount1 :: c == chain2[t].count || c in byCount
    ensures chain[s].count in byCount1 ==> Without(KeysAt(prev, chain[s].count), key) != []
    ensures forall c | c > 0 || chain2[t].count > 0 :: KeysAt(chain1, c) == MovedKeys(prev, key, chain2[t].count, c)
    ensures KeysAt(chain1, chain2[t].count) == [key] + Without(KeysAt(prev, chain2[t].count), key)
  {
    var dropped;
    chain1, dropped := Move(chain2, s2, t, key);
    MoveKeys(chain, s, chain2, s2, t, chain1, key, prev);
    byCount1 := Reindex(byCount, chain[s].count, chain2[t].count, dropped);
    MoveCounts(byCount, chain[s].count, chain2[t].count, Counts(chain), Counts(chain2), Counts(chain1), dropped);
  }

  /** The whole move of an increment: the key leaves the bucket at `s` for
      the front of the bucket for the next count, and the count index
      follows, gaining the next count and losing the source's count when
      its bucket is unlinked. `byCount` is the count index before the move,
      which may lack the source's count (the scaffold of an absent key). */
  method MoveUp<K(==)>(chain: seq<Bucket<K>>, s: nat, key: K, byCount: set<nat>, ghost prev: seq<Bucket<K>>, ghost c0: nat)
    returns (chain1: seq<Bucket<K>>, byCount1: set<nat>)
    requires Leaving(chain, s, key, byCount, c0, prev)
    ensures Sorted(chain1) && byCount1 == Counts(chain1)
    ensures forall c | c in byCount1 :: c == c0 + 1 || c in byCount
    ensures c0 in byCount1 ==> Without(KeysAt(prev, c0), key) != []
    ensures forall c :: KeysAt(chain1, c) == MovedKeys(prev, key, c0 + 1, c)
  {
    var chain2, t := TargetAfter(chain, s, byCount);
    assert chain2[t].count == c0 + 1 > 0;
    chain1, byCount1 := MoveFrom(chain, s, chain2, s, t, key, byCount, prev);
  }

  /** The whole move of a decrement: the key leaves the bucket at `s` for
      the front of the bucket for the previous count, which ends up at
      position `t`, and the count index follows as for an increment. */
  method MoveDown<K(==)>(chain: seq<Bucket<K>>, s: nat, key: K, byCount: set<nat>, ghost prev: seq<Bucket<K>>, ghost c0: nat)
    returns (chain1: seq<Bucket<K>>, byCount1: set<nat>, t: nat)
    requires Leaving(chain, s, key, byCount, c0, prev) && c0 > 0
    ensures Sorted(chain1) && byCount1 == Counts(chain1)
    ensures t < |chain1| && chain1[t].count == c0 - 1
    ensures forall c | c in byCount1 :: c == c0 - 1 || c in byCount
    ensures c0 in byCount1 ==> Without(KeysAt(prev, c0), key) != []
    ensures forall c | c > 0 :: KeysAt(chain1, c) == MovedKeys(prev, key, c0 - 1, c)
    ensures chain1[t].keys == [key] + Without(KeysAt(prev, c0 - 1), key)
  {
    var chain2, s1;
    chain2, t, s1 := TargetBefore(chain, s, byCount);
    chain1, byCount1 := MoveFrom(chain, s, chain2, s1, t, key, byCount, prev);
  }

  /** Lowers the count of a present `key` by one; the key moves to the
      front of the bucket for its new count, or leaves the structure when
      that count is 0, and no other key moves. An absent key is left alone. */
  method Decrement<K(==)>(d: Counter<K>, key: K) returns (r: Counter<K>)
    requires Valid(d)
    ensures Valid(r)
    ensures key !in d.byKey ==> r == d
    ensures key in d.byKey ==> r.byKey == if Count(d, key) == 1 then d.byKey - {key} else d.byKey[key := Count(d, key) - 1]
    ensures forall c :: KeysAt(r.chain, c) == MovedKeys(d.chain, key, Count(d, key) - 1, c)
    ensures Count(r, key) == if Count(d, key) == 0 then 0 else Count(d, key) - 1
    ensures forall k | k != key :: Count(r, k) == Count(d, k)
    ensures Count(d, key) > 1 && Count(d, key) - 1 <= Min(d).1 ==> Min(r) == (Some(key), Count(d, key) - 1)
    ensures Min(d).0 != Some(key) && (Count(d, key) <= 1 || Count(d, key) - 1 > Min(d).1) ==> Min(r) == Min(d)
    ensures Max(d).0 != Some(key) ==> Max(r) == Max(d)
  {
    if key !in d.byKey {
      OthersWithout(d, key);
      r := d;
    } else {
      var c1;
      r, c1 := DecrementPresent(d, key);
      MovedCounts(d, key, c1, r);
      LoweredMin(d, key, c1, r);
      LoweredMax(d, key, c1, r);
    }
  }

  /** Decrement of a present key. */
  method DecrementPresent<K(==)>(d: Counter<K>, key: K) returns (r: Counter<K>, c1: nat)
    requires Valid(d) && key in d.byKey
    ensures Count(d, key) == c1 + 1 && Moved(d, key, c1, r)
  {
    var chain, byCount := DecrementChain(d, key);
    // Every indexed key has count at least 1, so the unsigned subtraction
    // never wraps around.
    c1 := Count(d, key) - 1;
    // A key brought down to 0 leaves the key index.
    var byKey := if c1 == 0 then d.byKey - {key} else d.byKey[key := c1];
    r := Counter(chain, byKey, byCount);
    MovedValid(d, key, c1, r);
  }

  /** The chain and the count index after a decrement of a present key,
      the count-0 bucket already unlinked; which counts keep a bucket is
      as for an increment. */
  method DecrementChain<K(==)>(d: Counter<K>, key: K) returns (chain: seq<Bucket<K>>, byCount: set<nat>)
    requires Linked(d) && Indexed(d) && key in d.byKey
    ensures Sorted(chain) && byCount == Counts(chain) && 0 !in byCount
    ensures forall c :: KeysAt(chain, c) == MovedKeys(d.chain, key, Count(d, key) - 1, c)
    ensures forall c | c in byCount :: c == Count(d, key) - 1 || c in d.byCount
    ensures Count(d, key) in byCount ==> Without(KeysAt(d.chain, Count(d, key)), key) != []
  {
    var t;
    chain, byCount, t := DecrementMove(d, key);
    if chain[t].count == 0 {
      // A key brought down to 0 takes the count-0 bucket out with it.
      chain := RemoveAt(chain, t);
      byCount := byCount - {0};
    }
    OthersWithout(d, key);
    assert Without([], key) == [];
  }

  /** The chain and the count index right after a decrement of a present
      key has moved it, with the position of the bucket it moved to. */
  method DecrementMove<K(==)>(d: Counter<K>, key: K) returns (chain: seq<Bucket<K>>, byCount: set<nat>, t: nat)
    requires Linked(d) && Indexed(d) && key in d.byKey
    ensures Sorted(chain) && byCount == Counts(chain)
    ensures t < |chain| && chain[t].count == Count(d, key) - 1
    ensures forall c | c > 0 :: KeysAt(chain, c) == MovedKeys(d.chain, key, Count(d, key) - 1, c)
    ensures chain[t].keys == [key] + Without(KeysAt(d.chain, Count(d, key) - 1), key)
    ensures Count(d, key) == 1 ==> chain[t].keys == [key]
    ensures forall c | c in byCount :: c == Count(d, key) - 1 || c in d.byCount
    ensures Count(d, key) in byCount ==> Without(KeysAt(d.chain, Count(d, key)), key) != []
  {
    assert d.byKey[key] in d.byCount;
    var chain0, s := Source(d, key);
    chain, byCount, t := MoveDown(chain0, s, key, d.byCount, d.chain, Count(d, key));
  }

  /** What a move leaves at every count, stated against the chain `chain`
      before it: `key`, found nowhere but in the source bucket `s`, ends up
      alone at the front of the target's count, and every other key stays
      where it was. `chain2` is `chain` with the target bucket at `t` and
      the source moved to `s2`, and `chain1` the chain after the move. A
      key moved to count 0 is the one exception: it still sits in a
      count-0 bucket that the caller unlinks. */
  lemma MoveKeys<K>(chain: seq<Bucket<K>>, s: nat, chain2: seq<Bucket<K>>, s2: nat, t: nat, chain1: seq<Bucket<K>>, key: K,
                    prev: seq<Bucket<K>>)
    requires Sorted(chain) && s < |chain|
    requires forall c | c != chain[s].count :: key !in KeysAt(chain, c)
    requires forall c :: Without(KeysAt(chain, c), key) == Without(KeysAt(prev, c), key)
    requires s2 < |chain2| && t < |chain2| && chain2[s2] == chain[s] && chain2[t].count != chain[s].count
    requires chain2[t].keys == KeysAt(chain, chain2[t].count)
    requires forall c :: KeysAt(chain2, c) == KeysAt(chain, c)
    requires forall c :: (KeysAt(chain1, c) ==
      if c == chain2[t].count then [key] + chain2[t].keys
      else if c == chain2[s2].count then Without(chain2[s2].keys, key)
      else KeysAt(chain2, c))
    ensures forall c | c > 0 || chain2[t].count > 0 :: KeysAt(chain1, c) == MovedKeys(prev, key, chain2[t].count, c)
    ensures KeysAt(chain1, chain2[t].count) == [key] + Without(KeysAt(prev, chain2[t].count), key)
  {
    forall c | c != chain[s].count ensures Without(KeysAt(chain, c), key) == KeysAt(chain, c) {
      WithoutAbsent(KeysAt(chain, c), key);
    }
  }

  /** What a move does to the count index: once the target `c1` has a
      bucket and the source `c0` has kept or lost its own, the re-indexed
      count index names exactly the chain's counts. */
  lemma MoveCounts(byCount: set<nat>, c0: nat, c1: nat, cs: set<nat>, cs2: set<nat>, cs1: set<nat>, dropped: bool)
    requires c0 != c1 && cs == byCount + {c0} && cs2 == cs + {c1}
    requires cs1 == if dropped then cs2 - {c0} else cs2
    requires !dropped ==> c0 in byCount
    ensures cs1 == Reindex(byCount, c0, c1, dropped)
  {
  }

}

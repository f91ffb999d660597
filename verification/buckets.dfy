/** The bucket chain: the list of frequency buckets, lowest count first.

    A bucket is identified by its count (no two buckets of a well-formed
    chain share one), so "the element an index points to" is the bucket
    `Find` locates by count. The splice operations below are the chain's
    linked-list primitives (push at the front, insert after or before an
    element, remove an element, rewrite an element's key list), each
    stated in terms of what it does to the keys held at every count.
 */
module Buckets {
  import opened Lists

  /** The keys whose current count is `count`; `keys[0]` arrived at this
      count most recently, the last key arrived here longest ago. */
  datatype Bucket<K> = Bucket(count: nat, keys: seq<K>)

  /** Counts strictly increase from the front of the chain to its back. */
  ghost predicate Sorted<K>(chain: seq<Bucket<K>>) {
    forall i, j :: 0 <= i < j < |chain| ==> chain[i].count < chain[j].count
  }

  /** The counts that have a bucket in the chain. The postconditions
      spell out both directions of membership so that callers need not
      unfold the comprehension. */
  function Counts<K>(chain: seq<Bucket<K>>): (cs: set<nat>)
    ensures forall i | 0 <= i < |chain| :: chain[i].count in cs
    ensures forall c | c in cs :: exists i :: 0 <= i < |chain| && chain[i].count == c
  {
    set i | 0 <= i < |chain| :: chain[i].count
  }

  /** Position of the first bucket from `from` on holding count `c`, or
      `|chain|` when there is none. */
  function Find<K>(chain: seq<Bucket<K>>, c: nat, from: nat := 0): (i: nat)
    requires from <= |chain|
    ensures from <= i <= |chain|
    ensures i < |chain| ==> chain[i].count == c
    ensures forall j | from <= j < i :: chain[j].count != c
    decreases |chain| - from
  {
    if from == |chain| then from
    else if chain[from].count == c then from
    else Find(chain, c, from + 1)
  }

  /** The keys held at count `c`: those of the bucket with that count, or
      none when the chain has no such bucket. */
  ghost function KeysAt<K>(chain: seq<Bucket<K>>, c: nat): (ks: seq<K>)
    ensures c !in Counts(chain) ==> ks == []
    ensures Sorted(chain) ==> forall i | 0 <= i < |chain| && chain[i].count == c :: ks == chain[i].keys
  {
    if c in Counts(chain) then
      var i :| 0 <= i < |chain| && chain[i].count == c;
      chain[i].keys
    else []
  }

  /** Splices bucket `b` into the chain so that it becomes element `i`. */
  method InsertAt<K>(chain: seq<Bucket<K>>, i: nat, b: Bucket<K>) returns (r: seq<Bucket<K>>)
    requires Sorted(chain) && i <= |chain|
    requires i > 0 ==> chain[i - 1].count < b.count
    requires i < |chain| ==> b.count < chain[i].count
    ensures Sorted(r)
    ensures |r| == |chain| + 1 && r[i] == b
    ensures forall j | 0 <= j < i :: r[j] == chain[j]
    ensures forall j | i <= j < |chain| :: r[j + 1] == chain[j]
    ensures Counts(r) == Counts(chain) + {b.count}
    ensures forall c :: KeysAt(r, c) == if c == b.count then b.keys else KeysAt(chain, c)
  {
    r := chain[..i] + [b] + chain[i..];
    InsertAtShape(chain, i, b, r);
    InsertAtSorted(chain, i, b, r);
    InsertAtCounts(chain, i, b, r);
    InsertAtKeys(chain, i, b, r);
  }

  lemma InsertAtShape<K>(chain: seq<Bucket<K>>, i: nat, b: Bucket<K>, r: seq<Bucket<K>>)
    requires i <= |chain| && r == chain[..i] + [b] + chain[i..]
    ensures |r| == |chain| + 1 && r[i] == b
    ensures forall j | 0 <= j < i :: r[j] == chain[j]
    ensures forall j | i <= j < |chain| :: r[j + 1] == chain[j]
  {
  }

  lemma InsertAtSorted<K>(chain: seq<Bucket<K>>, i: nat, b: Bucket<K>, r: seq<Bucket<K>>)
    requires Sorted(chain) && i <= |chain|
    requires i > 0 ==> chain[i - 1].count < b.count
    requires i < |chain| ==> b.count < chain[i].count
    requires |r| == |chain| + 1 && r[i] == b
    requires forall j | 0 <= j < i :: r[j] == chain[j]
    requires forall j | i <= j < |chain| :: r[j + 1] == chain[j]
    ensures Sorted(r)
  {
    forall j, k | 0 <= j < k < |r| ensures r[j].count < r[k].count {
      if j < i && k > i {
        assert r[j] == chain[j] && r[k] == chain[k - 1];
      } else if j < i {
        assert r[j] == chain[j];
      } else if j == i {
        assert r[k] == chain[k - 1];
      } else {
        assert r[j] == chain[j - 1] && r[k] == chain[k - 1];
      }
    }
  }

  lemma InsertAtCounts<K>(chain: seq<Bucket<K>>, i: nat, b: Bucket<K>, r: seq<Bucket<K>>)
    requires i <= |chain| && |r| == |chain| + 1 && r[i] == b
    requires forall j | 0 <= j < i :: r[j] == chain[j]
    requires forall j | i <= j < |chain| :: r[j + 1] == chain[j]
    ensures Counts(r) == Counts(chain) + {b.count}
  {
    forall c | c in Counts(chain) ensures c in Counts(r) {
      var j :| 0 <= j < |chain| && chain[j].count == c;
      if j < i { assert r[j] == chain[j]; } else { assert r[j + 1] == chain[j]; }
    }
    forall c | c in Counts(r) ensures c in Counts(chain) + {b.count} {
      var j :| 0 <= j < |r| && r[j].count == c;
      if j < i { assert r[j] == chain[j]; } else if j > i { assert r[j] == chain[j - 1]; }
    }
    assert r[i] == b;
  }

  lemma InsertAtKeys<K>(chain: seq<Bucket<K>>, i: nat, b: Bucket<K>, r: seq<Bucket<K>>)
    requires Sorted(chain) && Sorted(r) && i <= |chain|
    requires |r| == |chain| + 1 && r[i] == b
    requires forall j | 0 <= j < i :: r[j] == chain[j]
    requires forall j | i <= j < |chain| :: r[j + 1] == chain[j]
    requires Counts(r) == Counts(chain) + {b.count}
    ensures forall c :: KeysAt(r, c) == if c == b.count then b.keys else KeysAt(chain, c)
  {
    forall c ensures KeysAt(r, c) == if c == b.count then b.keys else KeysAt(chain, c) {
      if c == b.count {
        assert r[i] == b;
      } else if c in Counts(r) {
        var j :| 0 <= j < |r| && r[j].count == c;
        if j < i { assert r[j] == chain[j]; } else { assert r[j] == chain[j - 1]; }
      }
    }
  }

  /** Unlinks element `i` from the chain. */
  method RemoveAt<K>(chain: seq<Bucket<K>>, i: nat) returns (r: seq<Bucket<K>>)
    requires Sorted(chain) && i < |chain|
    ensures Sorted(r)
    ensures |r| == |chain| - 1
    ensures forall j | 0 <= j < i :: r[j] == chain[j]
    ensures forall j | i <= j < |r| :: r[j] == chain[j + 1]
    ensures Counts(r) == Counts(chain) - {chain[i].count}
    ensures forall c :: KeysAt(r, c) == if c == chain[i].count then [] else KeysAt(chain, c)
  {
    r := chain[..i] + chain[i + 1..];
    RemoveAtShape(chain, i, r);
    RemoveAtSorted(chain, i, r);
    RemoveAtCounts(chain, i, r);
    RemoveAtKeys(chain, i, r);
  }

  lemma RemoveAtShape<K>(chain: seq<Bucket<K>>, i: nat, r: seq<Bucket<K>>)
    requires i < |chain| && r == chain[..i] + chain[i + 1..]
    ensures |r| == |chain| - 1
    ensures forall j | 0 <= j < i :: r[j] == chain[j]
    ensures forall j | i <= j < |r| :: r[j] == chain[j + 1]
  {
  }

  lemma RemoveAtSorted<K>(chain: seq<Bucket<K>>, i: nat, r: seq<Bucket<K>>)
    requires Sorted(chain) && i < |chain| && |r| == |chain| - 1
    requires forall j | 0 <= j < i :: r[j] == chain[j]
    requires forall j | i <= j < |r| :: r[j] == chain[j + 1]
    ensures Sorted(r)
  {
    forall j, k | 0 <= j < k < |r| ensures r[j].count < r[k].count {
      if j < i && k >= i {
        assert r[j] == chain[j] && r[k] == chain[k + 1];
      } else if j < i {
        assert r[j] == chain[j] && r[k] == chain[k];
      } else {
        assert r[j] == chain[j + 1] && r[k] == chain[k + 1];
      }
    }
  }

  lemma RemoveAtCounts<K>(chain: seq<Bucket<K>>, i: nat, r: seq<Bucket<K>>)
    requires Sorted(chain) && i < |chain| && |r| == |chain| - 1
    requires forall j | 0 <= j < i :: r[j] == chain[j]
    requires forall j | i <= j < |r| :: r[j] == chain[j + 1]
    ensures Counts(r) == Counts(chain) - {chain[i].count}
  {
    RemoveAtKept(chain, i, r);
    RemoveAtOnly(chain, i, r);
  }

  lemma RemoveAtKept<K>(chain: seq<Bucket<K>>, i: nat, r: seq<Bucket<K>>)
    requires i < |chain| && |r| == |chain| - 1
    requires forall j | 0 <= j < i :: r[j] == chain[j]
    requires forall j | i <= j < |r| :: r[j] == chain[j + 1]
    ensures forall c | c in Counts(chain) && c != chain[i].count :: c in Counts(r)
  {
    forall c | c in Counts(chain) && c != chain[i].count ensures c in Counts(r) {
      var j :| 0 <= j < |chain| && chain[j].count == c;
      if j < i { assert r[j] == chain[j]; } else { assert r[j - 1] == chain[j]; }
    }
  }

  lemma RemoveAtOnly<K>(chain: seq<Bucket<K>>, i: nat, r: seq<Bucket<K>>)
    requires Sorted(chain) && i < |chain| && |r| == |chain| - 1
    requires forall j | 0 <= j < i :: r[j] == chain[j]
    requires forall j | i <= j < |r| :: r[j] == chain[j + 1]
    ensures forall c | c in Counts(r) :: c in Counts(chain) && c != chain[i].count
  {
    forall c | c in Counts(r) ensures c in Counts(chain) && c != chain[i].count {
      var j :| 0 <= j < |r| && r[j].count == c;
      if j < i { assert r[j] == chain[j]; } else { assert r[j] == chain[j + 1]; }
    }
  }

  lemma RemoveAtKeys<K>(chain: seq<Bucket<K>>, i: nat, r: seq<Bucket<K>>)
    requires Sorted(chain) && Sorted(r) && i < |chain| && |r| == |chain| - 1
    requires forall j | 0 <= j < i :: r[j] == chain[j]
    requires forall j | i <= j < |r| :: r[j] == chain[j + 1]
    requires Counts(r) == Counts(chain) - {chain[i].count}
    ensures forall c :: KeysAt(r, c) == if c == chain[i].count then [] else KeysAt(chain, c)
  {
    forall c ensures KeysAt(r, c) == if c == chain[i].count then [] else KeysAt(chain, c) {
      if c in Counts(r) {
        var j :| 0 <= j < |r| && r[j].count == c;
        if j < i { assert r[j] == chain[j]; } else { assert r[j] == chain[j + 1]; }
      }
    }
  }

  /** Replaces the key list of element `i`, leaving its count and every other element alone. */
  method SetKeys<K>(chain: seq<Bucket<K>>, i: nat, ks: seq<K>) returns (r: seq<Bucket<K>>)
    requires Sorted(chain) && i < |chain|
    ensures Sorted(r)
    ensures |r| == |chain| && r[i] == Bucket(chain[i].count, ks)
    ensures forall j | 0 <= j < |chain| && j != i :: r[j] == chain[j]
    ensures Counts(r) == Counts(chain)
    ensures forall c :: KeysAt(r, c) == if c == chain[i].count then ks else KeysAt(chain, c)
  {
    r := chain[i := Bucket(chain[i].count, ks)];
    SetKeysFacts(chain, i, ks, r);
  }

  lemma SetKeysFacts<K>(chain: seq<Bucket<K>>, i: nat, ks: seq<K>, r: seq<Bucket<K>>)
    requires Sorted(chain) && i < |chain| && r == chain[i := Bucket(chain[i].count, ks)]
    ensures Sorted(r)
    ensures Counts(r) == Counts(chain)
    ensures forall c :: KeysAt(r, c) == if c == chain[i].count then ks else KeysAt(chain, c)
  {
    assert forall j | 0 <= j < |r| :: r[j].count == chain[j].count;
    assert Sorted(r);
    assert Counts(r) == Counts(chain) by {
      forall c | c in Counts(chain) ensures c in Counts(r) {
        var j :| 0 <= j < |chain| && chain[j].count == c;
        assert r[j].count == c;
      }
    }
    forall c ensures KeysAt(r, c) == if c == chain[i].count then ks else KeysAt(chain, c) {
      if c in Counts(r) {
        var j :| 0 <= j < |r| && r[j].count == c;
        if j != i {
          assert r[j] == chain[j];
        }
      }
    }
  }

  /** The chain behind its first bucket, described as a removal of that bucket. */
  lemma DropFront<K>(chain: seq<Bucket<K>>)
    requires Sorted(chain) && |chain| > 0
    ensures Sorted(chain[1..])
    ensures Counts(chain[1..]) == Counts(chain) - {chain[0].count}
    ensures forall c :: KeysAt(chain[1..], c) == if c == chain[0].count then [] else KeysAt(chain, c)
  {
    var r := chain[1..];
    assert chain[..0] + chain[1..] == r;
    RemoveAtShape(chain, 0, r);
    RemoveAtSorted(chain, 0, r);
    RemoveAtCounts(chain, 0, r);
    RemoveAtKeys(chain, 0, r);
  }

  /** No two buckets of a sorted chain share a count, so each count with
      a bucket names exactly one of them. */
  lemma {:induction false} CountsNameBuckets<K>(chain: seq<Bucket<K>>)
    requires Sorted(chain)
    ensures |Counts(chain)| == |chain|
    decreases |chain|
  {
    if |chain| > 0 {
      DropFront(chain);
      CountsNameBuckets(chain[1..]);
      assert chain[0].count in Counts(chain);
      assert Counts(chain) == Counts(chain[1..]) + {chain[0].count};
    } else {
      assert Counts(chain) == {};
    }
  }

  /** A sorted chain is determined by the keys it holds at every count:
      two sorted chains with the same counts and the same keys at each
      count are the same chain. */
  lemma {:induction false} ChainDetermined<K>(a: seq<Bucket<K>>, b: seq<Bucket<K>>)
    requires Sorted(a) && Sorted(b) && Counts(a) == Counts(b)
    requires forall c :: KeysAt(a, c) == KeysAt(b, c)
    ensures a == b
    decreases |a|
  {
    if |a| > 0 {
      SameFront(a, b);
      assert a[0].keys == b[0].keys by {
        assert KeysAt(a, a[0].count) == a[0].keys;
        assert KeysAt(b, b[0].count) == b[0].keys;
      }
      DropFront(a);
      DropFront(b);
      ChainDetermined(a[1..], b[1..]);
      assert a == [a[0]] + a[1..];
      assert b == [b[0]] + b[1..];
    }
  }

  /** Two sorted chains with the same counts start with the same count. */
  lemma SameFront<K>(a: seq<Bucket<K>>, b: seq<Bucket<K>>)
    requires Sorted(a) && Sorted(b) && Counts(a) == Counts(b) && |a| > 0
    ensures |b| > 0 && b[0].count == a[0].count
  {
    assert a[0].count in Counts(b);
    var j :| 0 <= j < |b| && b[j].count == a[0].count;
    assert b[0].count in Counts(a);
    var i :| 0 <= i < |a| && a[i].count == b[0].count;
    assert b[0].count <= b[j].count;
    assert a[0].count <= a[i].count;
  }
}

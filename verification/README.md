# minmaxcnt in Dafny

A model of `minmaxcnt`, a counter of keys that answers two queries in
constant time:

- which key has the highest count;
- which key has the lowest non-zero count.

The Go structure keeps three things:

- a doubly-linked chain of frequency buckets (`entryList`), lowest count
  first, each bucket holding the keys that currently have its count;
- a key index (`lookupEntryByKey`) sending every present key to its bucket;
- a count index (`lookupListByCount`) sending every count that has a bucket
  to that bucket.

`Increment` and `Decrement` move one key to the neighbouring count. When
the bucket for the new count is missing, they create it, right after the
source bucket for an increment and right before it for a decrement. The key
is pushed on the front of the target bucket's key list, and a source bucket
left empty is unlinked. An absent key is incremented through a transient
count-0 "scaffold" bucket pushed on the front of the chain. A key
decremented to 0 is evicted together with the count-0 bucket it landed in.
`Max` reads the back key of the last bucket, the oldest arrival at the
highest count. `Min` reads the front key of the first bucket, the newest
arrival at the lowest count.

The model, module by module:

- `Lists` (lists.dfy): key lists as sequences. `Without(s, x)` is the
  removal of a key's list element.
- `Buckets` (buckets.dfy): `Bucket(count, keys)`, with `keys[0]` the most
  recent arrival, and the chain as a sequence of buckets. A bucket is named
  by its count, so "the element an index points to" is the bucket `Find`
  locates by count. `KeysAt(chain, c)` is the key list held at count `c`.
  It also holds the splice primitives `InsertAt`, `RemoveAt` and `SetKeys`.
- `Counters` (counters.dfy): the state `Counter(chain, byKey, byCount)`.
  - The key index is a `map<K, nat>` from key to its bucket's count; the
    count index is the `set<nat>` of counts that have a bucket.
  - The invariant `Valid` has three parts: `Linked`, `Filled` and
    `Indexed`. Bucket counts strictly increase along the chain, no bucket
    has count 0 or is empty or holds a key twice, and both indexes agree
    with the chain.
  - It defines the queries `New`, `Count`, `Max` and `Min`, and the lemmas
    that relate a move of one key to the queries.
- `MinMaxCnt` (minmaxcnt.dfy): `Increment` and `Decrement`, as the same
  sequence of steps the Go code takes:
  - find or scaffold the source;
  - find or splice in the target;
  - push the key on the target's front and remove it from the source;
  - unlink an emptied source;
  - for a decrement to 0, evict.
- `RoundTrip` (roundtrip.dfy): an increment undone by a decrement.
- `Replay` (replay.dfy): the table-driven test replayed on the model, with
  one datatype value per test key.

The abstract view is the key index `byKey` (key to count) together with
`KeysAt` (the arrival order at each count). `Buckets.ChainDetermined`
shows that this view determines the chain.

## Model

| member | source | states |
|---|---|---|
| `MinMaxCnt.Increment` | minmaxcnt.go:44-87 | The invariant is kept. The key's count rises by exactly 1, and an absent key enters at 1. No other key's count changes. The key sits at the front of its new count's key list, and every other key stays where it was. An absent key becomes Min with count 1, and Min is kept when it was another key. The key becomes Max when it climbs above the old highest count, and otherwise Max is kept. |
| `MinMaxCnt.IncrementMoved` | minmaxcnt.go:44-87 | The structure after an increment is valid, has the updated key index, and holds at every count what the move prescribes. |
| `MinMaxCnt.IncrementChain` | minmaxcnt.go:45-86 | The chain after an increment is sorted, and the count index names exactly its counts, with no count 0. A count keeps a bucket only if it is the new count or had one before. The source count keeps its bucket only when other keys remain there. |
| `MinMaxCnt.Source` | minmaxcnt.go:45-58 | The key is in the source bucket. For a present key the chain is unchanged and the source is the key's own bucket. For an absent key the source is a count-0 scaffold holding exactly the key, pushed at the chain's front and not indexed, with the old chain behind it. The key is in no other bucket, and every other key is where it was. |
| `MinMaxCnt.Scaffold` | minmaxcnt.go:47-58 | The scaffold for an absent key is the bucket (0, [key]) in front of the unchanged chain. Count 0 stays out of the count index, and the key is in no other bucket. |
| `MinMaxCnt.TargetAfter` | minmaxcnt.go:62-71 | The target for count+1 is the indexed bucket when it exists. Otherwise a new empty bucket is spliced right after the source. The chain stays sorted and no count gains or loses a key. |
| `MinMaxCnt.TargetBefore` | minmaxcnt.go:98-107 | The target for count-1 is the indexed bucket when it exists. Otherwise a new empty bucket is spliced right before the source, which moves one place back. The chain stays sorted and no count gains or loses a key. |
| `MinMaxCnt.Move` | minmaxcnt.go:77-86 | The key is pushed at the front of the target's list and removed from the source's. The source is unlinked exactly when that leaves it empty, and the chain's counts lose the source's count exactly then. |
| `MinMaxCnt.MoveFrom` | minmaxcnt.go:73-86 | With the target in place, the move leaves a sorted chain whose counts match the new count index. The key is at the front of the target's count, even a count-0 target, followed by the keys that were there. Every positive count holds what the move prescribes, measured against the chain before the scaffold. |
| `MinMaxCnt.MoveUp` | minmaxcnt.go:60-86 | The whole move of an increment: the key ends at the front of count+1, every other key stays, and the count index follows the chain. |
| `MinMaxCnt.MoveDown` | minmaxcnt.go:96-122 | The whole move of a decrement: the key ends at the front of count-1, at the returned position, even when that count is 0. Every other key stays, and the count index follows the chain. |
| `MinMaxCnt.Decrement` | minmaxcnt.go:89-129 | An absent key leaves the structure exactly as it was. A present key's count falls by exactly 1, and at 0 the key leaves the key index, with no count-0 bucket left. No other key's count changes, and the invariant is kept. A key landing at or below the lowest count becomes Min. Min is kept when it was another key and the moved key left or stayed above it. Max is kept when it was another key. |
| `MinMaxCnt.DecrementPresent` | minmaxcnt.go:96-128 | For a present key the old count is at least 1, so count-1 never wraps around. The result is the valid structure with the key moved to count-1, or removed at 0. |
| `MinMaxCnt.DecrementChain` | minmaxcnt.go:96-128 | The chain after a decrement is sorted and its count index names exactly its counts. It has no count-0 bucket, so a key decremented to 0 is held nowhere. |
| `MinMaxCnt.DecrementMove` | minmaxcnt.go:96-122 | Before eviction, the decremented key sits at the front of the bucket for count-1, at the returned position. When that count is 0, the key is alone in the count-0 bucket. Every positive count holds what the move prescribes. |
| `MinMaxCnt.MoveKeys` | minmaxcnt.go:77-81 | After the push and the removal, the key is at the front of the target's count, count 0 included, ahead of that count's other keys. Every other key is where it was. |
| `MinMaxCnt.MoveCounts` | minmaxcnt.go:76-85 | After the move, the count index names exactly the chain's counts. It gains the target's count, and it loses the source's count exactly when the source bucket was unlinked. |
| `Counters.New` | minmaxcnt.go:161-168 | A fresh structure is valid and holds no key, and Max and Min both answer (None, 0). |
| `Counters.NewCountsNothing` | minmaxcnt.go:131-136 | A fresh structure answers Count 0 for every key. |
| `Counters.Count` | minmaxcnt.go:131-137 | A count is 0 exactly when the key is in no bucket. A positive count is the count of the bucket holding the key. |
| `Counters.Max` | minmaxcnt.go:139-148 | Max answers None, with count 0, exactly when no key is present. Otherwise the answer's count is the key's count, no key has a higher one, and the key is the last, i.e. oldest, of that count's list. |
| `Counters.Min` | minmaxcnt.go:150-159 | Min answers None, with count 0, exactly when no key is present. Otherwise the answer's count is the key's count, no key has a lower one, and the key is the first, i.e. newest, of that count's list. |
| `Counters.MovedValid` | minmaxcnt.go:75-86 | The invariant holds after a key moves, given a sorted, indexed chain holding what the move prescribes and keeping the source only when other keys remain. |
| `Counters.MovedFilled` | minmaxcnt.go:83-86 | After a move every bucket is non-empty and holds no key twice. |
| `Counters.MovedNonEmpty` | minmaxcnt.go:83-86 | After a move every indexed count holds at least one key. |
| `Counters.MovedNoDup` | minmaxcnt.go:77-81 | After a move no key list holds a key twice. |
| `Counters.MovedIndexed` | minmaxcnt.go:75-77 | After a move the key index and the chain agree both ways. |
| `Counters.IndexedCounts` | minmaxcnt.go:75-76 | A key found at its indexed count makes that count one with a bucket. |
| `Counters.MovedCounts` | minmaxcnt.go:124-125 | After a move to `c1` the key's Count is `c1`, with 0 meaning evicted, and every other key's Count is unchanged. |
| `Counters.MovedByKey` | minmaxcnt.go:111-125 | A move changes the key index only at the moved key. |
| `Counters.RaisedMin` | minmaxcnt.go:27-29 | After an increment an absent key is Min at count 1. Min is kept when it was another present key. |
| `Counters.RaisedMax` | minmaxcnt.go:23-25 | After an increment the key is Max when it climbs above the old highest count. Otherwise Max is kept. |
| `Counters.LoweredMin` | minmaxcnt.go:27-29 | After a decrement a key landing at or below the lowest count is Min. Min is kept when it was another key and the moved key left or stayed above it. |
| `Counters.LoweredMax` | minmaxcnt.go:23-25 | After a decrement Max is kept when it was another key. |
| `Counters.NewestAtMin` | minmaxcnt.go:155-158 | A key moved to a count no other key is below is the newest at the lowest count, so Min reports it. |
| `Counters.MinKept` | minmaxcnt.go:155-158 | Moving a key other than Min's, to 0 or above Min's count, leaves Min's answer unchanged. |
| `Counters.AloneAtMax` | minmaxcnt.go:144-147 | A key moved above the highest count is alone in the last bucket, so Max reports it. |
| `Counters.MaxKept` | minmaxcnt.go:144-147 | Moving a key other than Max's, to at most Max's count, leaves Max's answer unchanged. The key lands at the front, and Max reads the back. |
| `Counters.MaxCountKept` | minmaxcnt.go:144-147 | Such a move leaves the highest count unchanged. |
| `Counters.AboveMax` | minmaxcnt.go:144-147 | No key is held above Max's count. |
| `Counters.PositiveCounts` | minmaxcnt.go:98-102 | Every present key has count at least 1, so a decrement's count-1 never underflows. |
| `Counters.OthersWithout` | minmaxcnt.go:79-81 | Removing the key leaves every count other than its own unchanged, and count 0 holds nothing. |
| `Counters.Elsewhere` | minmaxcnt.go:75 | A key is held at no count but its own. |
| `Counters.NoBucketNoKey` | minmaxcnt.go:140-142 | An empty chain indexes no key. |
| `Counters.CountsBound` | minmaxcnt.go:144-158 | Every key's count lies between the first bucket's count and the last bucket's. |
| `Counters.ValidBuckets` | minmaxcnt.go:38-42 | Every bucket has count at least 1, holds at least one key, and holds no key twice. |
| `Counters.KeyPlacement` | minmaxcnt.go:32-36 | A key is in a bucket exactly when the bucket's count is the key's count. A key is present exactly when some bucket holds it. |
| `Counters.CountIndexValues` | minmaxcnt.go:34-35 | The counts with a bucket are exactly the counts some key has. |
| `Buckets.CountsNameBuckets` | minmaxcnt.go:35 | A sorted chain has as many distinct counts as buckets, so a count with a bucket names exactly one bucket, as an entry of the count index does. |
| `Buckets.Find` | minmaxcnt.go:62 | The count-index lookup finds the first bucket with the count, or reports none. |
| `Buckets.KeysAt` | minmaxcnt.go:38-42 | A count without a bucket holds no key. In a sorted chain a count holds its bucket's list. |
| `Buckets.InsertAt` | minmaxcnt.go:70 | Splicing a bucket in keeps the chain sorted and shifts the later elements. It adds the bucket's count and gives that count the bucket's keys, leaving every other count alone. |
| `Buckets.RemoveAt` | minmaxcnt.go:85 | Unlinking a bucket keeps the chain sorted. It removes exactly its count, and that count holds no key afterwards, while every other count is unchanged. |
| `Buckets.SetKeys` | minmaxcnt.go:77-81 | Rewriting one bucket's key list changes only that bucket's count's keys. |
| `Buckets.ChainDetermined` | minmaxcnt.go:32-42 | Two sorted chains with the same counts and the same keys at every count are equal, so the abstract view determines the chain. |
| `Buckets.DropFront` | minmaxcnt.go:85 | Dropping the first bucket keeps the chain sorted, removes its count, and empties only that count. |
| `Buckets.SameFront` | minmaxcnt.go:155 | Two sorted chains with the same counts start with the same count. |
| `Lists.Without` | minmaxcnt.go:79-81 | Removing a key keeps every other element and only those. |
| `Lists.WithoutAppend` | minmaxcnt.go:80 | Removal works piece by piece: removing a key from a concatenation removes it from each part. So the remaining keys keep their order, as list.Remove keeps it. |
| `Lists.WithoutAbsent` | minmaxcnt.go:79-81 | Removing an absent key changes nothing. |
| `Lists.WithoutNoDup` | minmaxcnt.go:79-81 | Removing a key keeps a list duplicate-free. |
| `Lists.PushFrontNoDup` | minmaxcnt.go:77 | Pushing an absent key on the front keeps a list duplicate-free. |
| `Lists.WithoutLast` | minmaxcnt.go:145 | Removing a key other than the back keeps the back. |
| `Lists.WithoutFront` | minmaxcnt.go:156 | Removing a key other than the front keeps the front. |
| `Lists.WithoutTwice` | minmaxcnt.go:80-81 | Removing a key twice is removing it once. |
| `RoundTrip.IncrementDecrement` | minmaxcnt_test.go:13-16 | Increment then Decrement of a key restores every count and both indexes. The key is back at its old count, as its newest arrival. An absent key leaves the structure exactly as it was. |
| `RoundTrip.Undone` | minmaxcnt.go:44-129 | The two moves compose to the identity on the key index, and put the key at the front of its old count. |
| `RoundTrip.Restored` | minmaxcnt.go:44-129 | A valid structure with the old key index has the old count index and the old counts. Every count but the key's holds its old keys, and an absent key gives back the very same structure. |
| `RoundTrip.SameChain` | minmaxcnt.go:32-36 | Structures agreeing on both indexes and on the keys at every count are equal. |
| `RoundTrip.SameCountIndex` | minmaxcnt.go:34-35 | Valid structures with the same key index have the same count index. |
| `RoundTrip.UndoByKey` | minmaxcnt.go:124-125 | Adding 1 and then taking it off, with eviction at 0, gives back the old key index. |
| `RoundTrip.UndoKeys` | minmaxcnt.go:77-81 | Moving a key up and then back leaves every count as one move to the old count would. |
| `Replay.IncrementKey` | minmaxcnt.go:44-87 | Increment as Count sees it: the key gains 1 and every other key is unchanged. |
| `Replay.DecrementKey` | minmaxcnt.go:89-129 | Decrement as Count sees it: the key loses 1, stopping at 0, and every other key is unchanged. |
| `Replay.IncrementTimes` | minmaxcnt_test.go:43-46 | An increment row applied `n` times raises the key's count by `n` and leaves every other count alone. |
| `Replay.DecrementTimes` | minmaxcnt_test.go:47-50 | A decrement row applied `n` times lowers the key's count by `n`, stopping at 0, and leaves every other count alone. |
| `Replay.TopKey` | minmaxcnt.go:139-148 | A key whose count is above every other key's is what Max reports. |
| `Replay.BottomKey` | minmaxcnt.go:150-159 | A key whose positive count is below every other present key's is what Min reports. |
| `Replay.TwoKeysMax` | minmaxcnt_test.go:19-31 | With only foo and bar present, Max reports the one with the higher count. |
| `Replay.TwoKeysMin` | minmaxcnt_test.go:20-32 | With only foo and bar present, Min reports the one with the lower positive count. |
| `Replay.Opening` | minmaxcnt_test.go:11-12 | A new structure answers (nil, 0) to Max and to Min. |
| `Replay.CatDogArrive` | minmaxcnt_test.go:13-14 | cat and dog enter with count 1. |
| `Replay.CatDogGone` | minmaxcnt_test.go:15-16 | Decrementing them once leaves every count at 0 again. |
| `Replay.FooThree` | minmaxcnt_test.go:17 | foo incremented 3 times has count 3. |
| `Replay.BarFour` | minmaxcnt_test.go:18-20 | With bar at 4, Max is (bar, 4) and Min is (foo, 3). |
| `Replay.FooFive` | minmaxcnt_test.go:21-23 | With foo at 5, Max is (foo, 5) and Min is (bar, 4). |
| `Replay.FooTwo` | minmaxcnt_test.go:24-26 | With foo down to 2, Max is (bar, 4) and Min is (foo, 2). |
| `Replay.FooOne` | minmaxcnt_test.go:27-29 | With foo down to 1, Max is (bar, 4) and Min is (foo, 1). |
| `Replay.FooGone` | minmaxcnt_test.go:30-32 | With foo gone, Max and Min are both (bar, 4). |
| `Replay.Closing` | minmaxcnt_test.go:33-35 | Decrementing a key never seen changes nothing: Count of bar stays 4 and Count of doesntexist is 0. |
| `Replay.Test` | minmaxcnt_test.go:38-65 | The whole table, row after row, ends with bar at 4 and every other key at 0. |

## Left out

- The constant-time claims of the interface (minmaxcnt.go:5-6) are not
  functional behaviour and are not modelled.
- `container/list` elements and pointers are not modelled. The chain is a
  sequence of buckets, the key index maps a key to its bucket's count, and
  the count index is the set of counts with a bucket. Counts are unique
  in a sorted chain (`Buckets.CountsNameBuckets`), so a count names a
  bucket.
- Each bucket's own key-to-element map (`lookupByKey`) is not kept
  separately. It always holds exactly the keys of the bucket's list, so
  its emptiness test is the list's emptiness.
- `interface{}` keys and the `.(*entry)` type assertions are not modelled.
  Keys are a generic type with equality, and `None` stands for the `nil`
  that Max and Min return on an empty structure.
- Keys are assumed to have a reflexive, hashable equality, as Dafny's
  equality is. Go panics on keys without one, and those panics are not
  modelled. A float NaN key is never found again in a bucket's map, so
  `Remove` gets a nil element and dereferences it (minmaxcnt.go:79-80).
  A key of an unhashable dynamic type panics at the map lookup
  (minmaxcnt.go:45).
- `MinMaxCnt.Increment`: counts are unbounded naturals. Go's `uint` is 32
  or 64 bits wide depending on the platform, and its wrap-around after
  2^32 or 2^64 increments of one key is not modelled.
- `MinMaxCnt.Increment`: Min is not given by a clause of its own when the
  key incremented was Min's own key. It then follows only through `Min`'s
  contract from the key lists the postcondition prescribes at every count.
- `MinMaxCnt.Decrement`: Max is not given by a clause of its own when the
  key decremented was Max's own key. Neither is Min when Min's own key is
  evicted at count 1. Both answers then depend on the arrival order within
  the remaining buckets, and follow only through the contracts of `Max`
  and `Min` from the key lists prescribed at every count.
- The benchmarks (minmaxcnt_test.go:67-136) measure time only and are not
  modelled.
- Concurrency is not modelled. The code takes no locks and assumes
  single-threaded use.
- The replay checks the test's answers through `Count`, `Max` and `Min`.
  It does not compare whole structures, and its keys are a five-value
  datatype rather than Go strings.

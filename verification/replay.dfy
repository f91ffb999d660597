/** The table-driven test of the counter, replayed on the model. Each
    "increment" or "decrement" row applies the operation the row's number
    of times; each "max", "min" or "count" row names the answer the query
    gives at that point. The test's string keys are compared only for
    equality, so they are modelled by a type with one value per key.
 */
module Replay {
  import opened Counters
  import opened MinMaxCnt

  /** The keys the test uses. */
  datatype Name = Cat | Dog | Foo | Bar | DoesntExist

  /** Increment as Count sees it. */
  method IncrementKey<K(==)>(d: Counter<K>, key: K) returns (r: Counter<K>)
    requires Valid(d)
    ensures Valid(r)
    ensures Count(r, key) == Count(d, key) + 1
    ensures forall k | k != key :: Count(r, k) == Count(d, k)
  {
    r := Increment(d, key);
  }

  /** Decrement as Count sees it. */
  method DecrementKey<K(==)>(d: Counter<K>, key: K) returns (r: Counter<K>)
    requires Valid(d)
    ensures Valid(r)
    ensures Count(r, key) == if Count(d, key) == 0 then 0 else Count(d, key) - 1
    ensures forall k | k != key :: Count(r, k) == Count(d, k)
  {
    r := Decrement(d, key);
  }

  /** Applies Increment `n` times to `key`, as the test's increment rows do. */
  method IncrementTimes<K(==)>(d: Counter<K>, key: K, n: nat) returns (r: Counter<K>)
    requires Valid(d)
    ensures Valid(r)
    ensures Count(r, key) == Count(d, key) + n
    ensures forall k | k != key :: Count(r, k) == Count(d, k)
    decreases n
  {
    if n == 0 {
      r := d;
    } else {
      var m := IncrementKey(d, key);
      r := IncrementTimes(m, key, n - 1);
    }
  }

  /** Applies Decrement `n` times to `key`, as the test's decrement rows
      do: the count goes down by `n` but stops at 0. */
  method DecrementTimes<K(==)>(d: Counter<K>, key: K, n: nat) returns (r: Counter<K>)
    requires Valid(d)
    ensures Valid(r)
    ensures Count(r, key) == if Count(d, key) <= n then 0 else Count(d, key) - n
    ensures forall k | k != key :: Count(r, k) == Count(d, k)
    decreases n
  {
    if n == 0 {
      r := d;
    } else {
      var m := DecrementKey(d, key);
      r := DecrementTimes(m, key, n - 1);
    }
  }

  /** The count of every key the test uses, in the order
      cat, dog, foo, bar, doesntexist. */
  ghost predicate Tally(d: Counter<Name>, cat: nat, dog: nat, foo: nat, bar: nat, none: nat) {
    && Count(d, Cat) == cat && Count(d, Dog) == dog && Count(d, Foo) == foo
    && Count(d, Bar) == bar && Count(d, DoesntExist) == none
  }

  /** A key whose count is above every other key's is what Max reports. */
  lemma TopKey<K>(d: Counter<K>, k: K)
    requires Valid(d) && Count(d, k) > 0
    requires forall j | j != k :: Count(d, j) < Count(d, k)
    ensures Max(d) == (Some(k), Count(d, k))
  {
    assert Count(d, k) <= Max(d).1;
  }

  /** A key whose count is below every other key's is what Min reports. */
  lemma BottomKey<K>(d: Counter<K>, k: K)
    requires Valid(d) && Count(d, k) > 0
    requires forall j | j != k :: Count(d, j) == 0 || Count(d, k) < Count(d, j)
    ensures Min(d) == (Some(k), Count(d, k))
  {
    assert Min(d).1 <= Count(d, k);
  }

  /** The opening max and min queries: the empty structure answers
      (nil, 0) to both. */
  method Opening() returns (d: Counter<Name>)
    ensures Valid(d) && Tally(d, 0, 0, 0, 0, 0)
    ensures Max(d) == (None, 0) && Min(d) == (None, 0)
  {
    d := New();
  }

  /** cat and dog are incremented once each. */
  method CatDogArrive(d0: Counter<Name>) returns (d: Counter<Name>)
    requires Valid(d0) && Tally(d0, 0, 0, 0, 0, 0)
    ensures Valid(d) && Tally(d, 1, 1, 0, 0, 0)
  {
    d := IncrementTimes(d0, Cat, 1);
    d := IncrementTimes(d, Dog, 1);
  }

  /** cat and dog are decremented once each: a key brought back to 0 is
      gone again. */
  method CatDogGone(d0: Counter<Name>) returns (d: Counter<Name>)
    requires Valid(d0) && Tally(d0, 1, 1, 0, 0, 0)
    ensures Valid(d) && Tally(d, 0, 0, 0, 0, 0)
  {
    d := DecrementTimes(d0, Cat, 1);
    d := DecrementTimes(d, Dog, 1);
  }

  /** What Max reports once foo and bar are the only keys left, bar being
      present: the key with the higher count. */
  lemma TwoKeysMax(d: Counter<Name>, foo: nat, bar: nat)
    requires Valid(d) && Tally(d, 0, 0, foo, bar, 0) && bar > 0 && foo != bar
    ensures foo < bar ==> Max(d) == (Some(Bar), bar)
    ensures foo > bar ==> Max(d) == (Some(Foo), foo)
  {
    if foo < bar {
      forall j | j != Bar ensures Count(d, j) < Count(d, Bar) {
        assert j.Cat? || j.Dog? || j.Foo? || j.Bar? || j.DoesntExist?;
      }
      TopKey(d, Bar);
    } else {
      forall j | j != Foo ensures Count(d, j) < Count(d, Foo) {
        assert j.Cat? || j.Dog? || j.Foo? || j.Bar? || j.DoesntExist?;
      }
      TopKey(d, Foo);
    }
  }

  /** What Min reports once foo and bar are the only keys left, bar being
      present: the key with the lower non-zero count. */
  lemma TwoKeysMin(d: Counter<Name>, foo: nat, bar: nat)
    requires Valid(d) && Tally(d, 0, 0, foo, bar, 0) && bar > 0 && foo != bar
    ensures foo == 0 || foo > bar ==> Min(d) == (Some(Bar), bar)
    ensures 0 < foo < bar ==> Min(d) == (Some(Foo), foo)
  {
    if foo == 0 || foo > bar {
      forall j | j != Bar ensures Count(d, j) == 0 || Count(d, Bar) < Count(d, j) {
        assert j.Cat? || j.Dog? || j.Foo? || j.Bar? || j.DoesntExist?;
      }
      BottomKey(d, Bar);
    } else {
      forall j | j != Foo ensures Count(d, j) == 0 || Count(d, Foo) < Count(d, j) {
        assert j.Cat? || j.Dog? || j.Foo? || j.Bar? || j.DoesntExist?;
      }
      BottomKey(d, Foo);
    }
  }

  /** foo is incremented three times. */
  method FooThree(d0: Counter<Name>) returns (d: Counter<Name>)
    requires Valid(d0) && Tally(d0, 0, 0, 0, 0, 0)
    ensures Valid(d) && Tally(d, 0, 0, 3, 0, 0)
  {
    d := IncrementTimes(d0, Foo, 3);
  }

  /** bar is incremented four times; Max is then (bar, 4) and Min (foo, 3). */
  method BarFour(d0: Counter<Name>) returns (d: Counter<Name>)
    requires Valid(d0) && Tally(d0, 0, 0, 3, 0, 0)
    ensures Valid(d) && Tally(d, 0, 0, 3, 4, 0)
    ensures Max(d) == (Some(Bar), 4) && Min(d) == (Some(Foo), 3)
  {
    d := IncrementTimes(d0, Bar, 4);
    TwoKeysMax(d, 3, 4);
    TwoKeysMin(d, 3, 4);
  }

  /** foo is incremented twice more; Max is then (foo, 5) and Min (bar, 4). */
  method FooFive(d0: Counter<Name>) returns (d: Counter<Name>)
    requires Valid(d0) && Tally(d0, 0, 0, 3, 4, 0)
    ensures Valid(d) && Tally(d, 0, 0, 5, 4, 0)
    ensures Max(d) == (Some(Foo), 5) && Min(d) == (Some(Bar), 4)
  {
    d := IncrementTimes(d0, Foo, 2);
    TwoKeysMax(d, 5, 4);
    TwoKeysMin(d, 5, 4);
  }

  /** foo is decremented three times; Max is then (bar, 4) and Min (foo, 2). */
  method FooTwo(d0: Counter<Name>) returns (d: Counter<Name>)
    requires Valid(d0) && Tally(d0, 0, 0, 5, 4, 0)
    ensures Valid(d) && Tally(d, 0, 0, 2, 4, 0)
    ensures Max(d) == (Some(Bar), 4) && Min(d) == (Some(Foo), 2)
  {
    d := DecrementTimes(d0, Foo, 3);
    TwoKeysMax(d, 2, 4);
    TwoKeysMin(d, 2, 4);
  }

  /** foo is decremented once; Max is then (bar, 4) and Min (foo, 1). */
  method FooOne(d0: Counter<Name>) returns (d: Counter<Name>)
    requires Valid(d0) && Tally(d0, 0, 0, 2, 4, 0)
    ensures Valid(d) && Tally(d, 0, 0, 1, 4, 0)
    ensures Max(d) == (Some(Bar), 4) && Min(d) == (Some(Foo), 1)
  {
    d := DecrementTimes(d0, Foo, 1);
    TwoKeysMax(d, 1, 4);
    TwoKeysMin(d, 1, 4);
  }

  /** foo is decremented to 0; with foo gone, bar is both Max and Min. */
  method FooGone(d0: Counter<Name>) returns (d: Counter<Name>)
    requires Valid(d0) && Tally(d0, 0, 0, 1, 4, 0)
    ensures Valid(d) && Tally(d, 0, 0, 0, 4, 0)
    ensures Max(d) == (Some(Bar), 4) && Min(d) == (Some(Bar), 4)
  {
    d := DecrementTimes(d0, Foo, 1);
    TwoKeysMax(d, 0, 4);
    TwoKeysMin(d, 0, 4);
  }

  /** doesntexist, never incremented, is decremented four times: nothing
      changes, bar still counts 4 and doesntexist counts 0. */
  method Closing(d0: Counter<Name>) returns (d: Counter<Name>)
    requires Valid(d0) && Tally(d0, 0, 0, 0, 4, 0)
    ensures Valid(d) && Tally(d, 0, 0, 0, 4, 0)
    ensures Count(d, Bar) == 4 && Count(d, DoesntExist) == 0
  {
    d := DecrementTimes(d0, DoesntExist, 4);
  }

  /** The whole table, row after row. */
  method Test() returns (d: Counter<Name>)
    ensures Valid(d) && Tally(d, 0, 0, 0, 4, 0)
  {
    d := Opening();
    d := CatDogArrive(d);
    d := CatDogGone(d);
    d := FooThree(d);
    d := BarFour(d);
    d := FooFive(d);
    d := FooTwo(d);
    d := FooOne(d);
    d := FooGone(d);
    d := Closing(d);
  }
}

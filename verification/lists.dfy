/** Sequence helpers for the key lists held in each bucket.

    A bucket's key list plays the role of a doubly-linked list whose
    elements are addressed through a per-bucket key index; since a key
    occurs in a bucket at most once, removing "the element holding key"
    is the same as removing every occurrence of the key, which is what
    `Without` does.
 */
module Lists {

  /** No value occurs twice in `s`. */
  ghost predicate NoDup<T>(s: seq<T>) {
    forall i, j :: 0 <= i < j < |s| ==> s[i] != s[j]
  }

  /** `s` with every occurrence of `x` removed, order kept. */
  function Without<T(==)>(s: seq<T>, x: T): (r: seq<T>)
    ensures forall y | y in r :: y in s && y != x
    ensures forall y | y in s :: y != x ==> y in r
    ensures |r| <= |s|
  {
    if |s| == 0 then []
    else if s[0] == x then Without(s[1..], x)
    else [s[0]] + Without(s[1..], x)
  }

  /** Removing an absent value changes nothing. */
  lemma {:induction false} WithoutAbsent<T>(s: seq<T>, x: T)
    requires x !in s
    ensures Without(s, x) == s
  {
    if |s| > 0 {
      assert s[0] != x;
      assert x !in s[1..];
      WithoutAbsent(s[1..], x);
      assert s == [s[0]] + s[1..];
    }
  }

  /** Removing a value from a duplicate-free sequence keeps it duplicate-free. */
  lemma {:induction false} WithoutNoDup<T>(s: seq<T>, x: T)
    requires NoDup(s)
    ensures NoDup(Without(s, x))
  {
    if |s| > 0 {
      assert NoDup(s[1..]) by {
        forall i, j | 0 <= i < j < |s[1..]| ensures s[1..][i] != s[1..][j] {
          assert s[1..][i] == s[i + 1] && s[1..][j] == s[j + 1];
        }
      }
      WithoutNoDup(s[1..], x);
      if s[0] != x {
        var t := Without(s[1..], x);
        assert s[0] !in s[1..] by {
          forall i | 0 <= i < |s[1..]| ensures s[1..][i] != s[0] {
            assert s[1..][i] == s[i + 1];
          }
        }
        assert s[0] !in t;
        var r := [s[0]] + t;
        forall i, j | 0 <= i < j < |r| ensures r[i] != r[j] {
          if i == 0 {
            assert r[j] == t[j - 1];
            assert t[j - 1] in t;
          } else {
            assert r[i] == t[i - 1] && r[j] == t[j - 1];
          }
        }
      }
    }
  }

  /** Pushing a value absent from a duplicate-free sequence onto its front keeps it duplicate-free. */
  lemma PushFrontNoDup<T>(s: seq<T>, x: T)
    requires NoDup(s) && x !in s
    ensures NoDup([x] + s)
  {
    var r := [x] + s;
    forall i, j | 0 <= i < j < |r| ensures r[i] != r[j] {
      assert r[j] == s[j - 1];
      if i > 0 {
        assert r[i] == s[i - 1];
      }
    }
  }

  /** The last element of a non-empty sequence. */
  function Last<T>(s: seq<T>): T
    requires |s| > 0
  {
    s[|s| - 1]
  }

  /** Prepending leaves the last element alone. */
  lemma LastAppend<T>(a: seq<T>, b: seq<T>)
    requires |b| > 0
    ensures Last(a + b) == Last(b)
  {
  }

  /** Removing a value other than the first keeps the first in front. */
  lemma WithoutFront<T>(s: seq<T>, x: T)
    requires |s| > 0 && s[0] != x
    ensures |Without(s, x)| > 0 && Without(s, x)[0] == s[0]
  {
  }

  /** Removing a value other than the last keeps the last at the back. */
  lemma {:induction false} WithoutLast<T>(s: seq<T>, x: T)
    requires |s| > 0 && Last(s) != x
    ensures |Without(s, x)| > 0 && Last(Without(s, x)) == Last(s)
  {
    if |s| > 1 {
      assert Last(s[1..]) == Last(s);
      WithoutLast(s[1..], x);
    }
  }

  /** Removing a value twice is removing it once. */
  lemma {:induction false} WithoutTwice<T>(s: seq<T>, x: T)
    ensures Without(Without(s, x), x) == Without(s, x)
  {
    if |s| > 0 {
      WithoutTwice(s[1..], x);
      if s[0] != x {
        assert ([s[0]] + Without(s[1..], x))[1..] == Without(s[1..], x);
      }
    }
  }

  /** Removing a value from a sequence it heads forgets that head. */
  lemma WithoutCons<T>(s: seq<T>, x: T)
    ensures Without([x] + s, x) == Without(s, x)
  {
    assert ([x] + s)[1..] == s;
  }

  /** Removal works piece by piece, so the elements that remain keep
      their order. */
  lemma {:induction false} WithoutAppend<T>(a: seq<T>, b: seq<T>, x: T)
    ensures Without(a + b, x) == Without(a, x) + Without(b, x)
  {
    if |a| > 0 {
      assert (a + b)[0] == a[0];
      assert (a + b)[1..] == a[1..] + b;
      WithoutAppend(a[1..], b, x);
    } else {
      assert a + b == b;
    }
  }
}

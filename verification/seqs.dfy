/**
 * Sequence helpers shared by the grouping and reading-order code: a lexicographic
 * key order, key filters, and the stable insertion sort that stands for Python's
 * `sorted(..., key=...)`.
 */
module Seqs {

  /** A two-part sort key compared lexicographically, like a Python pair. */
  datatype Key = Key(major: int, minor: int)

  predicate KeyLe(a: Key, b: Key) {
    a.major < b.major || (a.major == b.major && a.minor <= b.minor)
  }

  /** Every earlier element's key is at most every later element's key. */
  ghost predicate SortedBy<T>(s: seq<T>, key: T -> Key) {
    forall i, j :: 0 <= i < j < |s| ==> KeyLe(key(s[i]), key(s[j]))
  }

  /** The elements of `s` whose key is `k`, in their order in `s`. */
  function FilterKey<T>(s: seq<T>, key: T -> Key, k: Key): seq<T> {
    if |s| == 0 then []
    else if key(s[0]) == k then [s[0]] + FilterKey(s[1..], key, k)
    else FilterKey(s[1..], key, k)
  }

  /** Filtering distributes over concatenation. */
  lemma {:induction false} FilterKeyAppend<T>(a: seq<T>, b: seq<T>, key: T -> Key, k: Key)
    ensures FilterKey(a + b, key, k) == FilterKey(a, key, k) + FilterKey(b, key, k)
  {
    if |a| == 0 {
      assert a + b == b;
    } else {
      assert (a + b)[0] == a[0];
      assert (a + b)[1..] == a[1..] + b;
      FilterKeyAppend(a[1..], b, key, k);
    }
  }

  /**
   * Inserts `x` into the sorted `s` in front of the first element whose key is
   * not smaller, so elements with an equal key that are already there stay after it.
   */
  function Insert<T>(x: T, s: seq<T>, key: T -> Key): (r: seq<T>)
    requires SortedBy(s, key)
    ensures SortedBy(r, key)
    ensures multiset(r) == multiset(s) + multiset{x}
    ensures FilterKey(r, key, key(x)) == [x] + FilterKey(s, key, key(x))
    ensures forall k :: k != key(x) ==> FilterKey(r, key, k) == FilterKey(s, key, k)
  {
    var i := InsertionPoint(x, s, key);
    InsertAtSorted(x, s, key, i);
    InsertAtMultiset(x, s, i);
    InsertAtSame(x, s, key, i);
    InsertAtOthers(x, s, key, i);
    s[..i] + [x] + s[i..]
  }

  lemma InsertAtSame<T>(x: T, s: seq<T>, key: T -> Key, i: nat)
    requires i <= |s|
    requires forall j :: 0 <= j < i ==> !KeyLe(key(x), key(s[j]))
    ensures FilterKey(s[..i] + [x] + s[i..], key, key(x)) == [x] + FilterKey(s, key, key(x))
  {
    FilterKeyNone(s[..i], key, key(x));
    InsertAtFilter(x, s, key, i, key(x));
  }

  lemma InsertAtOthers<T>(x: T, s: seq<T>, key: T -> Key, i: nat)
    requires i <= |s|
    ensures forall k :: k != key(x) ==> FilterKey(s[..i] + [x] + s[i..], key, k) == FilterKey(s, key, k)
  {
    forall k | k != key(x)
      ensures FilterKey(s[..i] + [x] + s[i..], key, k) == FilterKey(s, key, k)
    {
      InsertAtFilter(x, s, key, i, k);
    }
  }

  /** The index of the first element of `s` whose key is not below `x`'s key. */
  function InsertionPoint<T>(x: T, s: seq<T>, key: T -> Key): (i: nat)
    ensures i <= |s|
    ensures forall j :: 0 <= j < i ==> !KeyLe(key(x), key(s[j]))
    ensures i < |s| ==> KeyLe(key(x), key(s[i]))
  {
    if |s| == 0 || KeyLe(key(x), key(s[0])) then 0
    else 1 + InsertionPoint(x, s[1..], key)
  }

  lemma InsertAtMultiset<T>(x: T, s: seq<T>, i: nat)
    requires i <= |s|
    ensures multiset(s[..i] + [x] + s[i..]) == multiset(s) + multiset{x}
  {
    calc {
      multiset(s[..i] + [x] + s[i..]);
      multiset(s[..i]) + multiset{x} + multiset(s[i..]);
      { assert s == s[..i] + s[i..]; }
      multiset(s) + multiset{x};
    }
  }

  lemma InsertAtFilter<T>(x: T, s: seq<T>, key: T -> Key, i: nat, k: Key)
    requires i <= |s|
    ensures FilterKey(s[..i] + [x] + s[i..], key, k)
         == FilterKey(s[..i], key, k) + FilterKey([x], key, k) + FilterKey(s[i..], key, k)
    ensures FilterKey(s, key, k) == FilterKey(s[..i], key, k) + FilterKey(s[i..], key, k)
  {
    FilterKeyAppend(s[..i] + [x], s[i..], key, k);
    FilterKeyAppend(s[..i], [x], key, k);
    FilterKeyAppend(s[..i], s[i..], key, k);
    assert s == s[..i] + s[i..];
  }

  lemma InsertAtSorted<T>(x: T, s: seq<T>, key: T -> Key, i: nat)
    requires SortedBy(s, key)
    requires i <= |s|
    requires forall j :: 0 <= j < i ==> !KeyLe(key(x), key(s[j]))
    requires i < |s| ==> KeyLe(key(x), key(s[i]))
    ensures SortedBy(s[..i] + [x] + s[i..], key)
  {
    var r := s[..i] + [x] + s[i..];
    assert forall a :: 0 <= a < i ==> r[a] == s[a];
    assert r[i] == x;
    assert forall a :: i < a < |r| ==> r[a] == s[a - 1];
    forall a, b | 0 <= a < b < |r|
      ensures KeyLe(key(r[a]), key(r[b]))
    {
      if b == i {
        assert !KeyLe(key(x), key(s[a]));
      } else if a == i {
        assert KeyLe(key(x), key(s[i]));
        assert i == b - 1 || KeyLe(key(s[i]), key(s[b - 1]));
      } else if a < i < b {
        assert KeyLe(key(s[a]), key(s[b - 1]));
      }
    }
  }

  /** A filter finds nothing when no element carries the key. */
  lemma {:induction false} FilterKeyNone<T>(s: seq<T>, key: T -> Key, k: Key)
    requires forall j :: 0 <= j < |s| ==> key(s[j]) != k
    ensures FilterKey(s, key, k) == []
  {
    if |s| > 0 {
      FilterKeyNone(s[1..], key, k);
    }
  }

  /**
   * Stable sort: the result is ordered by key, is a permutation of the input, and
   * keeps the input order among elements with equal keys.
   */
  function SortBy<T>(s: seq<T>, key: T -> Key): (r: seq<T>)
    ensures SortedBy(r, key)
    ensures multiset(r) == multiset(s)
    ensures forall k :: FilterKey(r, key, k) == FilterKey(s, key, k)
  {
    if |s| == 0 then []
    else
      assert s == [s[0]] + s[1..];
      Insert(s[0], SortBy(s[1..], key), key)
  }

  // ---------------------------------------------------------------------------
  // Distinct elements

  /** No element occurs twice. */
  predicate Distinct<T(==)>(s: seq<T>) {
    forall i, j :: 0 <= i < j < |s| ==> s[i] != s[j]
  }

  lemma {:induction false} DistinctCount<T>(s: seq<T>, x: T)
    requires Distinct(s)
    ensures multiset(s)[x] <= 1
  {
    if |s| > 0 {
      var t := s[..|s| - 1];
      assert s == t + [s[|s| - 1]];
      DistinctCount(t, x);
      if x == s[|s| - 1] {
        assert x !in t;
      }
    }
  }

  lemma RepeatCount<T>(s: seq<T>, i: nat, j: nat)
    requires i < j < |s| && s[i] == s[j]
    ensures multiset(s)[s[i]] >= 2
  {
    assert s == s[..j] + [s[j]] + s[j + 1..];
    assert s[i] in s[..j];
  }

  /** A permutation of a sequence without repeats has none either. */
  lemma DistinctPermutation<T>(a: seq<T>, b: seq<T>)
    requires multiset(a) == multiset(b) && Distinct(a)
    ensures Distinct(b)
  {
    forall i, j | 0 <= i < j < |b|
      ensures b[i] != b[j]
    {
      if b[i] == b[j] {
        RepeatCount(b, i, j);
        DistinctCount(a, b[i]);
      }
    }
  }

  /** The elements of a sequence without repeats number its length. */
  lemma {:induction false} DistinctCard<T>(s: seq<T>)
    requires Distinct(s)
    ensures |set x | x in s| == |s|
  {
    if |s| > 0 {
      var t := s[..|s| - 1];
      DistinctCard(t);
      assert s == t + [s[|s| - 1]];
      assert (set x | x in s) == (set x | x in t) + {s[|s| - 1]};
      assert s[|s| - 1] !in (set x | x in t);
    }
  }

  /** A sequence has at most as many distinct elements as entries, and as many only without repeats. */
  lemma {:induction false} ElementsCard<T>(s: seq<T>)
    ensures |set x | x in s| <= |s|
    ensures |set x | x in s| == |s| <==> Distinct(s)
  {
    if Distinct(s) {
      DistinctCard(s);
    }
    if |s| > 0 {
      var t, x := s[..|s| - 1], s[|s| - 1];
      ElementsCard(t);
      assert s == t + [x];
      assert (set y | y in s) == (set y | y in t) + {x};
      if x in t {
        var k :| 0 <= k < |t| && t[k] == x;
        assert s[k] == s[|s| - 1];
      } else if |set y | y in s| == |s| {
        forall i, j | 0 <= i < j < |s| ensures s[i] != s[j] {
          assert s[i] == t[i];
          if j < |s| - 1 {
            assert s[j] == t[j];
          }
        }
      }
    }
  }

  /** The integers `0, 1, ..., k - 1`. */
  function Range(k: nat): (r: seq<int>)
    ensures |r| == k && forall i :: 0 <= i < k ==> r[i] == i
  {
    seq(k, i => i)
  }

  /** At most `k` distinct values fit in `[0, k)`. */
  lemma DistinctBounded(s: seq<int>, k: nat)
    requires Distinct(s)
    requires forall i :: 0 <= i < |s| ==> 0 <= s[i] < k
    ensures |s| <= k
  {
    var a := set x | x in s;
    var b := set x | x in Range(k);
    DistinctCard(s);
    DistinctCard(Range(k));
    assert a <= b by {
      forall x | x in a ensures x in b {
        assert Range(k)[x] == x;
      }
    }
    assert b == a + (b - a);
    assert |b| == |a| + |b - a|;
  }

  // ---------------------------------------------------------------------------
  // Sums

  function SumOf<T>(s: seq<T>, f: T -> nat): nat {
    if |s| == 0 then 0 else SumOf(s[..|s| - 1], f) + f(s[|s| - 1])
  }

  lemma {:induction false} SumConcat<T>(a: seq<T>, b: seq<T>, f: T -> nat)
    ensures SumOf(a + b, f) == SumOf(a, f) + SumOf(b, f)
  {
    if |b| == 0 {
      assert a + b == a;
    } else {
      SumConcat(a, b[..|b| - 1], f);
      assert (a + b)[..|a + b| - 1] == a + b[..|b| - 1];
    }
  }

  /** Replacing one element changes the sum by the difference of the two. */
  lemma SumUpdate<T>(s: seq<T>, i: nat, x: T, f: T -> nat)
    requires i < |s|
    ensures SumOf(s[i := x], f) == SumOf(s, f) - f(s[i]) + f(x)
  {
    assert s == s[..i] + [s[i]] + s[i + 1..];
    assert s[i := x] == s[..i] + [x] + s[i + 1..];
    SumConcat(s[..i] + [s[i]], s[i + 1..], f);
    SumConcat(s[..i] + [x], s[i + 1..], f);
    SumConcat(s[..i], [s[i]], f);
    SumConcat(s[..i], [x], f);
  }

  /** The sum does not depend on the order of the elements. */
  lemma {:induction false} SumPermutation<T>(a: seq<T>, b: seq<T>, f: T -> nat)
    requires multiset(a) == multiset(b)
    ensures SumOf(a, f) == SumOf(b, f)
    decreases |a|
  {
    if |a| > 0 {
      var x := a[|a| - 1];
      var t := a[..|a| - 1];
      assert a == t + [x];
      assert x in multiset(b);
      var k :| 0 <= k < |b| && b[k] == x;
      var u := b[..k] + b[k + 1..];
      assert b == b[..k] + [x] + b[k + 1..];
      assert multiset(b) == multiset(b[..k]) + multiset{x} + multiset(b[k + 1..]);
      assert multiset(a) == multiset(t) + multiset{x};
      assert multiset(u) == multiset(b[..k]) + multiset(b[k + 1..]);
      assert multiset(t) == multiset(a) - multiset{x};
      assert multiset(u) == multiset(b) - multiset{x};
      SumPermutation(t, u, f);
      SumConcat(b[..k] + [x], b[k + 1..], f);
      SumConcat(b[..k], [x], f);
      SumConcat(b[..k], b[k + 1..], f);
    } else {
      assert |multiset(b)| == 0;
    }
  }
}

/**
 * The stream operations the services chain together: `filter`, a stable
 * `sorted(comparing(key))`, `flatMap` and summing. Each is specified by what
 * it keeps, in which order, and what it adds up to.
 */
module Lists {
  import opened Orders

  /** `stream.filter(p)`: the elements satisfying `p`, in their original order. */
  function Filter<T>(s: seq<T>, p: T -> bool): (r: seq<T>)
    ensures |r| <= |s|
    ensures forall i :: 0 <= i < |r| ==> p(r[i]) && r[i] in s
    ensures forall x :: x in s && p(x) ==> x in r
    ensures multiset(r) <= multiset(s)
  {
    if s == [] then []
    else
      assert s == [s[0]] + s[1..];
      if p(s[0]) then [s[0]] + Filter(s[1..], p) else Filter(s[1..], p)
  }

  /** Filtering distributes over concatenation: the order of the input is kept. */
  lemma {:induction false} FilterAppend<T>(a: seq<T>, b: seq<T>, p: T -> bool)
    ensures Filter(a + b, p) == Filter(a, p) + Filter(b, p)
  {
    if a == [] {
      assert a + b == b;
    } else {
      assert (a + b)[1..] == a[1..] + b;
      FilterAppend(a[1..], b, p);
    }
  }

  /** Filtering twice is filtering once by both conditions. */
  lemma {:induction false} FilterFilter<T>(s: seq<T>, p: T -> bool, q: T -> bool)
    ensures Filter(Filter(s, p), q) == Filter(s, x => p(x) && q(x))
  {
    if s != [] {
      FilterFilter(s[1..], p, q);
    }
  }

  /** Filtering by two conditions that agree on every element gives the same list. */
  lemma {:induction false} FilterEquivalent<T>(s: seq<T>, p: T -> bool, q: T -> bool)
    requires forall i :: 0 <= i < |s| ==> p(s[i]) == q(s[i])
    ensures Filter(s, p) == Filter(s, q)
  {
    if s != [] {
      FilterEquivalent(s[1..], p, q);
    }
  }

  /** Filtering keeps a sorted list sorted. */
  lemma {:induction false} FilterSorted<T, K>(s: seq<T>, p: T -> bool, key: T -> K, lt: (K, K) -> bool)
    requires SortedBy(s, key, lt)
    ensures SortedBy(Filter(s, p), key, lt)
  {
    if s != [] {
      var rest := Filter(s[1..], p);
      FilterSorted(s[1..], p, key, lt);
      if p(s[0]) {
        forall j | 0 <= j < |rest| ensures !lt(key(rest[j]), key(s[0])) {
          NotBelowHead(s, rest[j], key, lt);
        }
        var r := [s[0]] + rest;
        assert forall i, j :: 0 < i < j < |r| ==> r[i] == rest[i - 1] && r[j] == rest[j - 1];
      }
    }
  }

  lemma NotBelowHead<T, K>(s: seq<T>, x: T, key: T -> K, lt: (K, K) -> bool)
    requires SortedBy(s, key, lt) && s != [] && x in s[1..]
    ensures !lt(key(x), key(s[0]))
  {
    var m :| 0 <= m < |s[1..]| && s[1..][m] == x;
    assert s[m + 1] == x;
  }

  /** Inserts `x` before the first element whose key is not below that of `x`. */
  function InsertBy<T, K>(x: T, s: seq<T>, key: T -> K, lt: (K, K) -> bool): (r: seq<T>)
    ensures multiset(r) == multiset(s) + multiset{x}
    ensures |r| == |s| + 1
    ensures r[0] == x || (s != [] && r[0] == s[0])
  {
    if s == [] || !lt(key(s[0]), key(x)) then [x] + s
    else
      assert s == [s[0]] + s[1..];
      [s[0]] + InsertBy(x, s[1..], key, lt)
  }

  /** `sorted(Comparator.comparing(key))`: a stable insertion sort. */
  function SortBy<T, K>(s: seq<T>, key: T -> K, lt: (K, K) -> bool): (r: seq<T>)
    ensures multiset(r) == multiset(s)
    ensures |r| == |s|
  {
    if s == [] then []
    else
      assert s == [s[0]] + s[1..];
      InsertBy(s[0], SortBy(s[1..], key, lt), key, lt)
  }

  /** `stream.map(f)`: `f` of each element, in order. */
  function Mapped<T, U>(s: seq<T>, f: T -> U): (r: seq<U>)
    ensures |r| == |s|
    ensures forall i :: 0 <= i < |s| ==> r[i] == f(s[i])
  {
    seq(|s|, i requires 0 <= i < |s| => f(s[i]))
  }

  lemma MappedMembership<T, U>(s: seq<T>, f: T -> U)
    ensures forall u :: u in Mapped(s, f) <==> exists x :: x in s && u == f(x)
  {
    forall u | exists x :: x in s && u == f(x) ensures u in Mapped(s, f) {
      var x :| x in s && u == f(x);
      var i :| 0 <= i < |s| && s[i] == x;
      assert Mapped(s, f)[i] == u;
    }
  }

  /** The position of the first occurrence of `x`. */
  lemma {:induction false} FirstIndex<T>(s: seq<T>, x: T) returns (i: nat)
    requires x in s
    ensures i < |s| && s[i] == x
    ensures forall j :: 0 <= j < i ==> s[j] != x
  {
    if s[0] == x {
      i := 0;
    } else {
      var k := FirstIndex(s[1..], x);
      i := k + 1;
    }
  }

  /** Sorting keeps exactly the elements it was given. */
  lemma SortByMembership<T, K>(s: seq<T>, key: T -> K, lt: (K, K) -> bool)
    ensures forall x :: x in SortBy(s, key, lt) <==> x in s
  {
    var r := SortBy(s, key, lt);
    forall x ensures x in r <==> x in s {
      assert x in r <==> x in multiset(r);
      assert x in s <==> x in multiset(s);
    }
  }

  /** No element's key is strictly below that of an element before it. */
  ghost predicate SortedBy<T, K>(s: seq<T>, key: T -> K, lt: (K, K) -> bool) {
    forall i, j :: 0 <= i < j < |s| ==> !lt(key(s[j]), key(s[i]))
  }

  lemma {:induction false} InsertBySorted<T, K(!new)>(x: T, s: seq<T>, key: T -> K, lt: (K, K) -> bool)
    requires StrictTotalOrder(lt)
    requires SortedBy(s, key, lt)
    ensures SortedBy(InsertBy(x, s, key, lt), key, lt)
  {
    if s != [] && lt(key(s[0]), key(x)) {
      InsertBySorted(x, s[1..], key, lt);
      var r := InsertBy(x, s, key, lt);
      var t := InsertBy(x, s[1..], key, lt);
      assert r == [s[0]] + t;
      forall j | 0 < j < |r| ensures !lt(key(r[j]), key(r[0])) {
        assert r[j] in multiset(t);
        assert r[j] == x || r[j] in multiset(s[1..]);
        if r[j] != x {
          var k :| 0 <= k < |s[1..]| && s[1..][k] == r[j];
          assert s[k + 1] == r[j];
        }
      }
    }
  }

  /** The result of SortBy is sorted by the key. */
  lemma {:induction false} SortBySorted<T, K(!new)>(s: seq<T>, key: T -> K, lt: (K, K) -> bool)
    requires StrictTotalOrder(lt)
    ensures SortedBy(SortBy(s, key, lt), key, lt)
  {
    if s != [] {
      SortBySorted(s[1..], key, lt);
      InsertBySorted(s[0], SortBy(s[1..], key, lt), key, lt);
    }
  }

  /** A list already sorted by the key is left as it is. */
  lemma {:induction false} SortBySortedIsIdentity<T, K(!new)>(s: seq<T>, key: T -> K, lt: (K, K) -> bool)
    requires StrictTotalOrder(lt)
    requires SortedBy(s, key, lt)
    ensures SortBy(s, key, lt) == s
  {
    if s != [] {
      SortBySortedIsIdentity(s[1..], key, lt);
      var t := s[1..];
      if t != [] {
        assert !lt(key(t[0]), key(s[0]));
      }
    }
  }

  /** `stream.flatMap(f)`: the lists `f` gives for each element, one after another. */
  function FlatMap<T, U>(s: seq<T>, f: T -> seq<U>): (r: seq<U>)
  {
    if s == [] then [] else f(s[0]) + FlatMap(s[1..], f)
  }

  /** The sum of the lengths of the lists `f` gives for the elements of `s`. */
  function SumOfLengths<T, U>(s: seq<T>, f: T -> seq<U>): nat
  {
    if s == [] then 0 else |f(s[0])| + SumOfLengths(s[1..], f)
  }

  /** A flat-mapped list is as long as the lists it is made of, together. */
  lemma {:induction false} FlatMapLength<T, U>(s: seq<T>, f: T -> seq<U>)
    ensures |FlatMap(s, f)| == SumOfLengths(s, f)
  {
    if s != [] { FlatMapLength(s[1..], f); }
  }

  /** An element is in a flat-mapped list exactly when one of the parts holds it. */
  lemma {:induction false} FlatMapMembership<T, U>(s: seq<T>, f: T -> seq<U>, u: U)
    ensures u in FlatMap(s, f) <==> exists x :: x in s && u in f(x)
  {
    if s != [] {
      FlatMapMembership(s[1..], f, u);
      if u in f(s[0]) {
        assert s[0] in s;
      }
      if exists x :: x in s && u in f(x) {
        var x :| x in s && u in f(x);
        if x != s[0] {
          assert x in s[1..];
        }
      }
    }
  }

  /** `stream.map(value).reduce(ZERO, add)`. */
  function Sum<T>(s: seq<T>, value: T -> int): int
  {
    if s == [] then 0 else value(s[0]) + Sum(s[1..], value)
  }

  lemma {:induction false} SumAppend<T>(a: seq<T>, b: seq<T>, value: T -> int)
    ensures Sum(a + b, value) == Sum(a, value) + Sum(b, value)
  {
    if a == [] {
      assert a + b == b;
    } else {
      assert (a + b)[1..] == a[1..] + b;
      SumAppend(a[1..], b, value);
    }
  }

  /** The largest value, or `none` for an empty list: `map(value).max(compareTo).orElse(none)`. */
  function MaxOr<T>(s: seq<T>, value: T -> int, none: int): (r: int)
    ensures s == [] ==> r == none
    ensures s != [] ==> exists i :: 0 <= i < |s| && r == value(s[i])
    ensures forall i :: 0 <= i < |s| ==> value(s[i]) <= r
  {
    if s == [] then none
    else if |s| == 1 then value(s[0])
    else
      var rest := MaxOr(s[1..], value, none);
      assert forall i :: 1 <= i < |s| ==> s[i] == s[1..][i - 1];
      if value(s[0]) >= rest then value(s[0]) else rest
  }

  /** The smallest value, or `none` for an empty list: `map(value).min(compareTo).orElse(none)`. */
  function MinOr<T>(s: seq<T>, value: T -> int, none: int): (r: int)
    ensures s == [] ==> r == none
    ensures s != [] ==> exists i :: 0 <= i < |s| && r == value(s[i])
    ensures forall i :: 0 <= i < |s| ==> r <= value(s[i])
  {
    if s == [] then none
    else if |s| == 1 then value(s[0])
    else
      var rest := MinOr(s[1..], value, none);
      assert forall i :: 1 <= i < |s| ==> s[i] == s[1..][i - 1];
      if value(s[0]) <= rest then value(s[0]) else rest
  }
}

/**
 * `Collectors.groupingBy(key, Collectors.summingLong(value))` followed by
 * `sorted(Map.Entry.comparingByKey())`: a list of (key, value) entries becomes
 * one bucket per distinct key holding the sum of that key's values, in
 * ascending key order.
 */
module Grouping {
  import opened Orders

  /** The sum of all values. */
  function Total<K>(entries: seq<(K, int)>): int {
    if entries == [] then 0 else entries[0].1 + Total(entries[1..])
  }

  /** The sum of the values filed under `k`. */
  function SumFor<K(==)>(entries: seq<(K, int)>, k: K): int {
    if entries == [] then 0
    else (if entries[0].0 == k then entries[0].1 else 0) + SumFor(entries[1..], k)
  }

  /** The keys that occur. */
  function KeysOf<K, V>(entries: seq<(K, V)>): set<K> {
    set i | 0 <= i < |entries| :: entries[i].0
  }

  lemma KeysOfCons<K, V>(x: (K, V), s: seq<(K, V)>)
    ensures KeysOf([x] + s) == {x.0} + KeysOf(s)
  {
    var t := [x] + s;
    forall k | k in KeysOf(t) ensures k in {x.0} + KeysOf(s) {
      var i :| 0 <= i < |t| && t[i].0 == k;
      if i > 0 { assert s[i - 1].0 == k; }
    }
    forall k | k in KeysOf(s) ensures k in KeysOf(t) {
      var i :| 0 <= i < |s| && s[i].0 == k;
      assert t[i + 1].0 == k;
    }
    assert t[0].0 == x.0;
  }

  /** Every key is strictly below every later key: sorted, one bucket per key. */
  ghost predicate KeysIncreasing<K, V>(buckets: seq<(K, V)>, lt: (K, K) -> bool) {
    forall i, j :: 0 <= i < j < |buckets| ==> lt(buckets[i].0, buckets[j].0)
  }

  /** Adds `v` to the bucket of `k`, or opens a bucket for `k` before the first larger key. */
  function AddToBucket<K(==,!new)>(buckets: seq<(K, int)>, k: K, v: int, lt: (K, K) -> bool): (r: seq<(K, int)>)
    ensures Total(r) == Total(buckets) + v
    ensures forall j :: SumFor(r, j) == SumFor(buckets, j) + (if j == k then v else 0)
    ensures KeysOf(r) == KeysOf(buckets) + {k}
    ensures r[0].0 == k || (buckets != [] && r[0].0 == buckets[0].0)
  {
    if buckets == [] then [(k, v)]
    else if buckets[0].0 == k then
      KeysOfCons(buckets[0], buckets[1..]);
      KeysOfCons((k, buckets[0].1 + v), buckets[1..]);
      assert buckets == [buckets[0]] + buckets[1..];
      [(k, buckets[0].1 + v)] + buckets[1..]
    else if lt(k, buckets[0].0) then
      KeysOfCons((k, v), buckets);
      [(k, v)] + buckets
    else
      var rest := AddToBucket(buckets[1..], k, v, lt);
      KeysOfCons(buckets[0], buckets[1..]);
      KeysOfCons(buckets[0], rest);
      assert buckets == [buckets[0]] + buckets[1..];
      [buckets[0]] + rest
  }

  /** The buckets of all entries, in ascending key order. */
  function GroupSum<K(==,!new)>(entries: seq<(K, int)>, lt: (K, K) -> bool): (r: seq<(K, int)>)
    ensures Total(r) == Total(entries)
    ensures forall j :: SumFor(r, j) == SumFor(entries, j)
    ensures KeysOf(r) == KeysOf(entries)
  {
    if entries == [] then []
    else
      assert KeysOf(entries) == {entries[0].0} + KeysOf(entries[1..]);
      AddToBucket(GroupSum(entries[1..], lt), entries[0].0, entries[0].1, lt)
  }

  lemma {:induction false} AddToBucketIncreasing<K(!new)>(buckets: seq<(K, int)>, k: K, v: int, lt: (K, K) -> bool)
    requires StrictTotalOrder(lt)
    requires KeysIncreasing(buckets, lt)
    ensures KeysIncreasing(AddToBucket(buckets, k, v, lt), lt)
  {
    var r := AddToBucket(buckets, k, v, lt);
    if buckets != [] && buckets[0].0 != k && !lt(k, buckets[0].0) {
      var rest := AddToBucket(buckets[1..], k, v, lt);
      AddToBucketIncreasing(buckets[1..], k, v, lt);
      assert r == [buckets[0]] + rest;
      forall j | 0 < j < |r| ensures lt(r[0].0, r[j].0) {
        assert r[j].0 in KeysOf(rest);
        if r[j].0 != k {
          assert r[j].0 in KeysOf(buckets[1..]);
          var m :| 0 <= m < |buckets[1..]| && buckets[1..][m].0 == r[j].0;
          assert buckets[m + 1].0 == r[j].0;
        }
      }
    } else if buckets != [] && buckets[0].0 != k {
      forall i, j | 0 <= i < j < |r| ensures lt(r[i].0, r[j].0) {
        if i > 0 {
          assert r[i] == buckets[i - 1] && r[j] == buckets[j - 1];
        } else if j > 1 {
          assert r[j] == buckets[j - 1];
          assert lt(buckets[0].0, buckets[j - 1].0);
        }
      }
    }
  }

  /** The buckets come out sorted by key, one per key. */
  lemma {:induction false} GroupSumIncreasing<K(!new)>(entries: seq<(K, int)>, lt: (K, K) -> bool)
    requires StrictTotalOrder(lt)
    ensures KeysIncreasing(GroupSum(entries, lt), lt)
  {
    if entries != [] {
      GroupSumIncreasing(entries[1..], lt);
      AddToBucketIncreasing(GroupSum(entries[1..], lt), entries[0].0, entries[0].1, lt);
    }
  }

  /** In a list with one bucket per key, the sum filed under a bucket's key is that bucket's value. */
  lemma {:induction false} BucketHoldsItsSum<K(!new)>(buckets: seq<(K, int)>, i: nat, lt: (K, K) -> bool)
    requires StrictTotalOrder(lt)
    requires KeysIncreasing(buckets, lt)
    requires i < |buckets|
    ensures SumFor(buckets, buckets[i].0) == buckets[i].1
  {
    if i == 0 {
      NoOtherBucket(buckets[1..], buckets[0].0, lt);
    } else {
      assert lt(buckets[0].0, buckets[i].0);
      BucketHoldsItsSum(buckets[1..], i - 1, lt);
    }
  }

  lemma {:induction false} NoOtherBucket<K(!new)>(buckets: seq<(K, int)>, k: K, lt: (K, K) -> bool)
    requires StrictTotalOrder(lt)
    requires forall i :: 0 <= i < |buckets| ==> lt(k, buckets[i].0)
    ensures SumFor(buckets, k) == 0
  {
    if buckets != [] {
      NoOtherBucket(buckets[1..], k, lt);
    }
  }

  /**
   * What the grouping delivers: sorted buckets, one for each key that occurs,
   * each holding the sum of that key's values, all adding up to the total.
   */
  lemma GroupSumSpec<K(!new)>(entries: seq<(K, int)>, lt: (K, K) -> bool)
    requires StrictTotalOrder(lt)
    ensures KeysIncreasing(GroupSum(entries, lt), lt)
    ensures KeysOf(GroupSum(entries, lt)) == KeysOf(entries)
    ensures forall i :: 0 <= i < |GroupSum(entries, lt)| ==>
              GroupSum(entries, lt)[i].1 == SumFor(entries, GroupSum(entries, lt)[i].0)
    ensures Total(GroupSum(entries, lt)) == Total(entries)
  {
    var r := GroupSum(entries, lt);
    GroupSumIncreasing(entries, lt);
    forall i | 0 <= i < |r| ensures r[i].1 == SumFor(entries, r[i].0) {
      BucketHoldsItsSum(r, i, lt);
    }
  }

  /**
   * `collect(toMap(getKey, getValue, (e1, e2) -> e1, LinkedHashMap::new))`:
   * every key that occurs, mapped to the value of its first entry.
   */
  function ToMapFirstWins<K, V>(entries: seq<(K, V)>): (m: map<K, V>)
    ensures m.Keys == KeysOf(entries)
    ensures forall i :: 0 <= i < |entries| && (forall j :: 0 <= j < i ==> entries[j].0 != entries[i].0) ==>
              m[entries[i].0] == entries[i].1
  {
    if entries == [] then map[]
    else
      var rest := ToMapFirstWins(entries[1..]);
      KeysOfCons(entries[0], entries[1..]);
      assert entries == [entries[0]] + entries[1..];
      assert forall i :: 0 < i < |entries| ==> entries[i] == entries[1..][i - 1];
      rest[entries[0].0 := entries[0].1]
  }

  /** The keys of entries built one per element: exactly the elements' keys. */
  lemma KeysOfBuilt<T, K, V>(s: seq<T>, entries: seq<(K, V)>, name: T -> K)
    requires |entries| == |s|
    requires forall i :: 0 <= i < |s| ==> entries[i].0 == name(s[i])
    ensures forall k :: k in KeysOf(entries) <==> exists x :: x in s && name(x) == k
  {
    forall k | exists x :: x in s && name(x) == k ensures k in KeysOf(entries) {
      var x :| x in s && name(x) == k;
      var i :| 0 <= i < |s| && s[i] == x;
      assert entries[i].0 == k;
    }
  }

  /** Built one entry per element, the first element with a given key decides that key's value. */
  lemma FirstBuiltWins<T, K, V>(s: seq<T>, entries: seq<(K, V)>, name: T -> K, i: nat)
    requires |entries| == |s|
    requires forall i :: 0 <= i < |s| ==> entries[i].0 == name(s[i])
    requires i < |s|
    requires forall j :: 0 <= j < i ==> name(s[j]) != name(s[i])
    ensures ToMapFirstWins(entries)[name(s[i])] == entries[i].1
  {
    assert forall j :: 0 <= j < i ==> entries[j].0 != entries[i].0;
  }

  /** With one entry per key (sorted by a strict order), each key maps to its own entry's value. */
  lemma DistinctKeysToMap<K(!new), V>(entries: seq<(K, V)>, lt: (K, K) -> bool)
    requires StrictTotalOrder(lt)
    requires KeysIncreasing(entries, lt)
    ensures |ToMapFirstWins(entries)| == |entries|
    ensures forall i :: 0 <= i < |entries| ==> ToMapFirstWins(entries)[entries[i].0] == entries[i].1
  {
    var m := ToMapFirstWins(entries);
    forall i | 0 <= i < |entries| ensures m[entries[i].0] == entries[i].1 {
      forall j | 0 <= j < i ensures entries[j].0 != entries[i].0 {
        assert lt(entries[j].0, entries[i].0);
      }
    }
    KeysCount(entries, lt);
    assert m.Keys == KeysOf(entries);
  }

  /** Increasing keys are distinct: as many keys as entries. */
  lemma {:induction false} KeysCount<K(!new), V>(entries: seq<(K, V)>, lt: (K, K) -> bool)
    requires StrictTotalOrder(lt)
    requires KeysIncreasing(entries, lt)
    ensures |KeysOf(entries)| == |entries|
  {
    if entries != [] {
      KeysCount(entries[1..], lt);
      KeysOfCons(entries[0], entries[1..]);
      assert entries == [entries[0]] + entries[1..];
      assert entries[0].0 !in KeysOf(entries[1..]);
    }
  }
}

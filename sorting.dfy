/**
  Sorting a sequence by a key, as Python's list.sort(key=...) does it: the
  result is ordered by the key and records with equal keys keep their input
  order (the sort is stable).
 */
module Sorting {

  ghost predicate TotalOrder<K(!new)>(le: (K, K) -> bool) {
    && (forall a :: le(a, a))
    && (forall a, b :: le(a, b) && le(b, a) ==> a == b)
    && (forall a, b, c :: le(a, b) && le(b, c) ==> le(a, c))
    && (forall a, b :: le(a, b) || le(b, a))
  }

  predicate SortedBy<T, K>(s: seq<T>, key: T -> K, le: (K, K) -> bool) {
    forall i, j :: 0 <= i < j < |s| ==> le(key(s[i]), key(s[j]))
  }

  /** The records of s whose key is k, in their order in s. */
  function WithKey<T, K(==)>(s: seq<T>, key: T -> K, k: K): seq<T> {
    if s == [] then []
    else (if key(s[0]) == k then [s[0]] else []) + WithKey(s[1..], key, k)
  }

  /** Inserts x before the first record whose key is not below x's. */
  function InsertBy<T, K>(x: T, s: seq<T>, key: T -> K, le: (K, K) -> bool): seq<T> {
    if s == [] || le(key(x), key(s[0])) then [x] + s
    else [s[0]] + InsertBy(x, s[1..], key, le)
  }

  /** Insertion sort from the back: the head goes in front of every record
      with an equal key, so equal keys keep their input order. */
  function SortBy<T, K>(s: seq<T>, key: T -> K, le: (K, K) -> bool): seq<T> {
    if s == [] then [] else InsertBy(s[0], SortBy(s[1..], key, le), key, le)
  }

  lemma {:induction false} InsertByPermutes<T, K>(x: T, s: seq<T>, key: T -> K, le: (K, K) -> bool)
    ensures multiset(InsertBy(x, s, key, le)) == multiset(s) + multiset{x}
    ensures |InsertBy(x, s, key, le)| == |s| + 1
  {
    if s != [] && !le(key(x), key(s[0])) {
      InsertByPermutes(x, s[1..], key, le);
      assert s == [s[0]] + s[1..];
    }
  }

  lemma {:induction false} InsertBySorted<T, K(!new)>(x: T, s: seq<T>, key: T -> K, le: (K, K) -> bool)
    requires TotalOrder(le) && SortedBy(s, key, le)
    ensures SortedBy(InsertBy(x, s, key, le), key, le)
  {
    if s != [] && !le(key(x), key(s[0])) {
      InsertBySorted(x, s[1..], key, le);
      InsertByPermutes(x, s[1..], key, le);
      var r := InsertBy(x, s[1..], key, le);
      forall j | 0 <= j < |r|
        ensures le(key(s[0]), key(r[j]))
      {
        assert r[j] in multiset(r);
        assert r[j] == x || r[j] in multiset(s[1..]);
      }
    }
  }

  lemma {:induction false} InsertByWithKey<T, K(!new)>(x: T, s: seq<T>, key: T -> K, le: (K, K) -> bool, k: K)
    requires forall a :: le(a, a)
    ensures WithKey(InsertBy(x, s, key, le), key, k)
         == (if key(x) == k then [x] else []) + WithKey(s, key, k)
  {
    if s == [] || le(key(x), key(s[0])) {
      WithKeyCons(x, s, key, k);
    } else {
      var r := InsertBy(x, s[1..], key, le);
      InsertByWithKey(x, s[1..], key, le, k);
      WithKeyCons(s[0], r, key, k);
      assert key(x) == k ==> key(s[0]) != k by {
        assert le(key(s[0]), key(s[0]));
      }
    }
  }

  lemma WithKeyCons<T, K>(h: T, t: seq<T>, key: T -> K, k: K)
    ensures WithKey([h] + t, key, k) == (if key(h) == k then [h] else []) + WithKey(t, key, k)
  {
    assert ([h] + t)[1..] == t;
  }

  /** SortBy orders by the key. */
  lemma {:induction false} SortBySorted<T, K(!new)>(s: seq<T>, key: T -> K, le: (K, K) -> bool)
    requires TotalOrder(le)
    ensures SortedBy(SortBy(s, key, le), key, le)
  {
    if s != [] {
      SortBySorted(s[1..], key, le);
      InsertBySorted(s[0], SortBy(s[1..], key, le), key, le);
    }
  }

  /** SortBy neither drops nor duplicates a record. */
  lemma {:induction false} SortByPermutes<T, K>(s: seq<T>, key: T -> K, le: (K, K) -> bool)
    ensures multiset(SortBy(s, key, le)) == multiset(s)
    ensures |SortBy(s, key, le)| == |s|
  {
    if s != [] {
      SortByPermutes(s[1..], key, le);
      InsertByPermutes(s[0], SortBy(s[1..], key, le), key, le);
      assert s == [s[0]] + s[1..];
    }
  }

  /** SortBy is stable: the records sharing a key keep their input order. */
  lemma {:induction false} SortByStable<T, K(!new)>(s: seq<T>, key: T -> K, le: (K, K) -> bool, k: K)
    requires TotalOrder(le)
    ensures WithKey(SortBy(s, key, le), key, k) == WithKey(s, key, k)
  {
    if s != [] {
      SortByStable(s[1..], key, le, k);
      InsertByWithKey(s[0], SortBy(s[1..], key, le), key, le, k);
    }
  }

  lemma SortByStableForAllKeys<T, K(!new)>(s: seq<T>, key: T -> K, le: (K, K) -> bool)
    requires TotalOrder(le)
    ensures forall k :: WithKey(SortBy(s, key, le), key, k) == WithKey(s, key, k)
  {
    forall k {
      SortByStable(s, key, le, k);
    }
  }

  /** Input that is already ordered comes back unchanged. */
  lemma {:induction false} SortByOfSorted<T, K>(s: seq<T>, key: T -> K, le: (K, K) -> bool)
    requires SortedBy(s, key, le)
    ensures SortBy(s, key, le) == s
  {
    if s != [] {
      SortByOfSorted(s[1..], key, le);
      assert s == [s[0]] + s[1..];
    }
  }
}

/** Ordering of query results: `ORDER BY <key>` as a sort by an integer key. */
module Ordering {

  /** `s` is in ascending order of `key`; rows with equal keys may come in any order. */
  ghost predicate SortedBy<T>(s: seq<T>, key: T -> int) {
    forall i, j | 0 <= i < j < |s| :: key(s[i]) <= key(s[j])
  }

  /** Every element of `s` occurs in it exactly once. */
  ghost predicate Distinct<T>(s: seq<T>) {
    forall x | x in s :: multiset(s)[x] == 1
  }

  /** Puts `x` into the sorted sequence `s` before the first element with a larger key. */
  function Insert<T>(x: T, s: seq<T>, key: T -> int): (r: seq<T>)
    ensures multiset(r) == multiset(s) + multiset{x}
  {
    if s == [] || key(x) <= key(s[0]) then [x] + s
    else
      assert s == [s[0]] + s[1..];
      [s[0]] + Insert(x, s[1..], key)
  }

  lemma {:induction false} InsertSorted<T>(x: T, s: seq<T>, key: T -> int)
    requires SortedBy(s, key)
    ensures SortedBy(Insert(x, s, key), key)
  {
    if s != [] && key(s[0]) < key(x) {
      var rest := Insert(x, s[1..], key);
      InsertSorted(x, s[1..], key);
      InsertAbove(x, s[1..], key, key(s[0]));
      ConsSorted(s[0], rest, key);
    }
  }

  /** A head no larger than any element of a sorted tail makes a sorted sequence. */
  lemma ConsSorted<T>(a: T, s: seq<T>, key: T -> int)
    requires SortedBy(s, key) && forall i | 0 <= i < |s| :: key(a) <= key(s[i])
    ensures SortedBy([a] + s, key)
  {
    var r := [a] + s;
    forall i, j | 0 <= i < j < |r| ensures key(r[i]) <= key(r[j]) {
      assert r[j] == s[j - 1];
      if i > 0 {
        assert r[i] == s[i - 1];
      }
    }
  }

  /** A bound below `x` and every element of `s` bounds every element of the insertion. */
  lemma InsertAbove<T>(x: T, s: seq<T>, key: T -> int, lo: int)
    requires lo <= key(x) && forall i | 0 <= i < |s| :: lo <= key(s[i])
    ensures forall i | 0 <= i < |Insert(x, s, key)| :: lo <= key(Insert(x, s, key)[i])
  {
    var r := Insert(x, s, key);
    forall i | 0 <= i < |r| ensures lo <= key(r[i]) {
      assert r[i] in multiset(r);
      if r[i] != x {
        assert r[i] in multiset(s);
        var j :| 0 <= j < |s| && s[j] == r[i];
      }
    }
  }

  /** Insertion sort: a permutation of `s` in ascending order of `key`. */
  function SortBy<T>(s: seq<T>, key: T -> int): (r: seq<T>)
    ensures SortedBy(r, key)
    ensures multiset(r) == multiset(s)
  {
    if s == [] then []
    else
      assert s == [s[0]] + s[1..];
      InsertSorted(s[0], SortBy(s[1..], key), key);
      Insert(s[0], SortBy(s[1..], key), key)
  }

  /** Sorting neither loses, adds nor duplicates rows, and puts them in key order. */
  lemma SortKeepsRows<T>(s: seq<T>, key: T -> int)
    ensures |SortBy(s, key)| == |s|
    ensures forall x :: x in SortBy(s, key) <==> x in s
    ensures Distinct(s) ==> Distinct(SortBy(s, key))
    ensures forall i, j | 0 <= i < j < |SortBy(s, key)| :: key(SortBy(s, key)[i]) <= key(SortBy(s, key)[j])
  {
    var r := SortBy(s, key);
    assert SortedBy(r, key);
    assert |multiset(r)| == |multiset(s)|;
    forall x ensures x in r <==> x in s {
      assert x in r <==> x in multiset(r);
      assert x in s <==> x in multiset(s);
    }
  }
}

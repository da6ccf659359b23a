/**
 * A sort by a numeric key, largest first (`sort_values(ascending=False)`),
 * as an insertion sort over a sequence.
 */
module Sorting {

  predicate SortedDown<T>(s: seq<T>, rank: T -> int) {
    forall i, j :: 0 <= i < j < |s| ==> rank(s[i]) >= rank(s[j])
  }

  /** Puts x in front of the first element it does not rank below. */
  function InsertDown<T>(x: T, s: seq<T>, rank: T -> int): seq<T> {
    if s == [] then [x]
    else if rank(x) >= rank(s[0]) then [x] + s
    else [s[0]] + InsertDown(x, s[1..], rank)
  }

  function SortDown<T>(s: seq<T>, rank: T -> int): seq<T> {
    if s == [] then [] else InsertDown(s[0], SortDown(s[1..], rank), rank)
  }

  lemma SortedTail<T>(s: seq<T>, rank: T -> int)
    requires s != [] && SortedDown(s, rank)
    ensures SortedDown(s[1..], rank)
    ensures forall y :: y in s[1..] ==> rank(y) <= rank(s[0])
  {
    forall i, j | 0 <= i < j < |s[1..]|
      ensures rank(s[1..][i]) >= rank(s[1..][j])
    {
      assert s[1..][i] == s[i + 1] && s[1..][j] == s[j + 1];
    }
    forall y | y in s[1..]
      ensures rank(y) <= rank(s[0])
    {
      var m :| 0 <= m < |s[1..]| && s[1..][m] == y;
      assert s[m + 1] == y;
    }
  }

  /** Inserting only adds x. */
  lemma {:induction false} InsertDownElements<T>(x: T, s: seq<T>, rank: T -> int)
    ensures multiset(InsertDown(x, s, rank)) == multiset(s) + multiset{x}
    decreases |s|
  {
    if s != [] && rank(x) < rank(s[0]) {
      InsertDownElements(x, s[1..], rank);
      assert s == [s[0]] + s[1..];
    }
  }

  /** A head ranked at least as high as everything after it keeps a sorted sequence sorted. */
  lemma ConsSorted<T>(x: T, s: seq<T>, rank: T -> int)
    requires SortedDown(s, rank)
    requires forall y :: y in s ==> rank(y) <= rank(x)
    ensures SortedDown([x] + s, rank)
  {
    var r := [x] + s;
    forall i, j | 0 <= i < j < |r|
      ensures rank(r[i]) >= rank(r[j])
    {
      assert r[j] == s[j - 1];
      if i > 0 {
        assert r[i] == s[i - 1];
      }
    }
  }

  lemma {:induction false} InsertDownSorted<T>(x: T, s: seq<T>, rank: T -> int)
    requires SortedDown(s, rank)
    ensures SortedDown(InsertDown(x, s, rank), rank)
    decreases |s|
  {
    if s == [] {
      ConsSorted(x, s, rank);
    } else {
      SortedTail(s, rank);
      if rank(x) >= rank(s[0]) {
        assert forall y :: y in s ==> y == s[0] || y in s[1..];
        ConsSorted(x, s, rank);
      } else {
        InsertDownSorted(x, s[1..], rank);
        InsertDownElements(x, s[1..], rank);
        var t := InsertDown(x, s[1..], rank);
        forall y | y in t
          ensures rank(y) <= rank(s[0])
        {
          assert y in multiset(s[1..]) + multiset{x};
        }
        ConsSorted(s[0], t, rank);
      }
    }
  }

  /** The sort orders largest first and only reorders. */
  lemma {:induction false} SortDownSorted<T>(s: seq<T>, rank: T -> int)
    ensures SortedDown(SortDown(s, rank), rank)
    ensures multiset(SortDown(s, rank)) == multiset(s)
    decreases |s|
  {
    if s != [] {
      SortDownSorted(s[1..], rank);
      InsertDownSorted(s[0], SortDown(s[1..], rank), rank);
      InsertDownElements(s[0], SortDown(s[1..], rank), rank);
      assert s == [s[0]] + s[1..];
    }
  }
}

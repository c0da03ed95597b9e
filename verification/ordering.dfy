/** Sorting of query results by a numeric key (`.sort({ startDate: 1 })`,
    `.sort({ startDate: -1 })` read as ascending on the negated key). */
module Ordering {

  predicate SortedBy<T>(s: seq<T>, key: T -> int)
  {
    forall i, j :: 0 <= i < j < |s| ==> key(s[i]) <= key(s[j])
  }

  /** No element of `s` has a key below `b`. */
  predicate AtLeast<T>(s: seq<T>, b: int, key: T -> int)
  {
    forall i :: 0 <= i < |s| ==> b <= key(s[i])
  }

  /** Inserts `x` before the first element whose key is not smaller. */
  function InsertBy<T>(s: seq<T>, x: T, key: T -> int): (r: seq<T>)
    ensures |r| == |s| + 1
  {
    if s == [] then [x]
    else if key(x) <= key(s[0]) then [x] + s
    else [s[0]] + InsertBy(s[1..], x, key)
  }

  /** The insertion adds `x` and loses nothing. */
  lemma {:induction false} InsertByPermutes<T>(s: seq<T>, x: T, key: T -> int)
    ensures multiset(InsertBy(s, x, key)) == multiset(s) + multiset{x}
  {
    if s != [] && key(x) > key(s[0]) {
      InsertByPermutes(s[1..], x, key);
      assert s == [s[0]] + s[1..];
    }
  }

  /** A lower bound of `s` and of `x` bounds the result. */
  lemma {:induction false} InsertByBounded<T>(s: seq<T>, x: T, b: int, key: T -> int)
    requires AtLeast(s, b, key) && b <= key(x)
    ensures AtLeast(InsertBy(s, x, key), b, key)
  {
    if s != [] && key(x) > key(s[0]) {
      InsertByBounded(s[1..], x, b, key);
    }
  }

  /** Inserting into a sorted sequence keeps it sorted. */
  lemma {:induction false} InsertBySorted<T>(s: seq<T>, x: T, key: T -> int)
    requires SortedBy(s, key)
    ensures SortedBy(InsertBy(s, x, key), key)
  {
    if s != [] && key(x) > key(s[0]) {
      InsertBySorted(s[1..], x, key);
      InsertByBounded(s[1..], x, key(s[0]), key);
    }
  }
}

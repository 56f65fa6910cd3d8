/** Ordering by a two-part key, as LINQ's `OrderBy(...).ThenBy(...)` and
    SQL's `ORDER BY a, b` do it: a stable insertion sort. */
module Sorting {

  /** A sort key compared lexicographically. */
  datatype Key = Key(major: int, minor: int)

  predicate KeyLe(a: Key, b: Key) {
    a.major < b.major || (a.major == b.major && a.minor <= b.minor)
  }

  predicate Sorted<T>(s: seq<T>, key: T -> Key) {
    forall i, j :: 0 <= i < j < |s| ==> KeyLe(key(s[i]), key(s[j]))
  }

  /** The elements of `s` whose key is `k`, in order. */
  function WithKey<T>(s: seq<T>, key: T -> Key, k: Key): seq<T> {
    if |s| == 0 then []
    else (if key(s[0]) == k then [s[0]] else []) + WithKey(s[1..], key, k)
  }

  /** Inserts `x` before the first element whose key is not smaller. */
  function Insert<T>(x: T, s: seq<T>, key: T -> Key): seq<T> {
    if |s| == 0 || KeyLe(key(x), key(s[0])) then [x] + s
    else [s[0]] + Insert(x, s[1..], key)
  }

  function SortBy<T>(s: seq<T>, key: T -> Key): seq<T> {
    if |s| == 0 then [] else Insert(s[0], SortBy(s[1..], key), key)
  }

  lemma {:induction false} InsertSorted<T>(x: T, s: seq<T>, key: T -> Key)
    requires Sorted(s, key)
    ensures Sorted(Insert(x, s, key), key)
    ensures multiset(Insert(x, s, key)) == multiset{x} + multiset(s)
    ensures |Insert(x, s, key)| == |s| + 1
    decreases |s|
  {
    if |s| > 0 && !KeyLe(key(x), key(s[0])) {
      InsertSorted(x, s[1..], key);
      var t := Insert(x, s[1..], key);
      assert s == [s[0]] + s[1..];
      forall i | 0 <= i < |t|
        ensures KeyLe(key(s[0]), key(t[i]))
      {
        assert t[i] in multiset(t);
        if t[i] != x {
          assert t[i] in multiset(s[1..]);
          assert t[i] in s[1..];
        }
      }
    }
  }

  /** Inserting `x` places it first among the elements with its key. */
  lemma {:induction false} InsertWithKey<T>(x: T, s: seq<T>, key: T -> Key, k: Key)
    requires Sorted(s, key)
    ensures WithKey(Insert(x, s, key), key, k) == (if key(x) == k then [x] else []) + WithKey(s, key, k)
    decreases |s|
  {
    if |s| > 0 && !KeyLe(key(x), key(s[0])) {
      InsertWithKey(x, s[1..], key, k);
      assert Insert(x, s, key)[1..] == Insert(x, s[1..], key);
    }
  }

  /** The sort orders by the key, keeps every element, and is stable:
      elements with equal keys keep their relative order. */
  lemma {:induction false} SortByCorrect<T>(s: seq<T>, key: T -> Key)
    ensures Sorted(SortBy(s, key), key)
    ensures multiset(SortBy(s, key)) == multiset(s)
    ensures |SortBy(s, key)| == |s|
    ensures forall k :: WithKey(SortBy(s, key), key, k) == WithKey(s, key, k)
    decreases |s|
  {
    if |s| > 0 {
      SortByCorrect(s[1..], key);
      InsertSorted(s[0], SortBy(s[1..], key), key);
      assert s == [s[0]] + s[1..];
      forall k
        ensures WithKey(SortBy(s, key), key, k) == WithKey(s, key, k)
      {
        InsertWithKey(s[0], SortBy(s[1..], key), key, k);
      }
    }
  }
}

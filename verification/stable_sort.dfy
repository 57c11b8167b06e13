/** Python's `list.sort(key=...)` on a list of records with a numeric key: a
    stable sort into non-decreasing key order. It is modelled as an insertion
    sort, which is stable in the same sense as Python's Timsort: records with
    equal keys keep their relative order. */
module StableSort {

  predicate Sorted<T>(s: seq<T>, key: T -> real) {
    forall i, j :: 0 <= i < j < |s| ==> key(s[i]) <= key(s[j])
  }

  /** The records whose key is k, in list order. */
  function WithKey<T>(s: seq<T>, key: T -> real, k: real): (r: seq<T>)
    ensures |r| <= |s|
    decreases |s|
  {
    if |s| == 0 then []
    else (if key(s[0]) == k then [s[0]] else []) + WithKey(s[1..], key, k)
  }

  /** Puts x in front of the first record whose key is not below x's key. */
  function Insert<T>(x: T, s: seq<T>, key: T -> real): (r: seq<T>)
    decreases |s|
  {
    if |s| == 0 || key(x) <= key(s[0]) then [x] + s
    else [s[0]] + Insert(x, s[1..], key)
  }

  /** `sorted(xs, key=key)`. */
  function Sort<T>(xs: seq<T>, key: T -> real): (r: seq<T>)
    decreases |xs|
  {
    if |xs| == 0 then [] else Insert(xs[0], Sort(xs[1..], key), key)
  }

  lemma {:induction false} InsertSorted<T>(x: T, s: seq<T>, key: T -> real)
    requires Sorted(s, key)
    ensures Sorted(Insert(x, s, key), key)
    ensures |Insert(x, s, key)| == |s| + 1
    ensures |s| > 0 ==> Insert(x, s, key)[0] == x || Insert(x, s, key)[0] == s[0]
    decreases |s|
  {
    if |s| > 0 && key(x) > key(s[0]) {
      InsertSorted(x, s[1..], key);
    }
  }

  lemma {:induction false} InsertPerm<T>(x: T, s: seq<T>, key: T -> real)
    ensures multiset(Insert(x, s, key)) == multiset{x} + multiset(s)
    decreases |s|
  {
    if |s| > 0 && key(x) > key(s[0]) {
      InsertPerm(x, s[1..], key);
      assert s == [s[0]] + s[1..];
    }
  }

  lemma {:induction false} InsertWithKey<T>(x: T, s: seq<T>, key: T -> real, k: real)
    ensures WithKey(Insert(x, s, key), key, k) == (if key(x) == k then [x] else []) + WithKey(s, key, k)
    decreases |s|
  {
    if |s| == 0 || key(x) <= key(s[0]) {
      var r := [x] + s;
      assert Insert(x, s, key) == r;
      assert r[0] == x && r[1..] == s;
    } else {
      var rest := Insert(x, s[1..], key);
      InsertWithKey(x, s[1..], key, k);
      var r := [s[0]] + rest;
      assert Insert(x, s, key) == r;
      assert r[0] == s[0] && r[1..] == rest;
      // x goes after s[0], so at most one of them has key k
      assert key(x) != k || key(s[0]) != k;
    }
  }

  /** The sort returns the same records, in non-decreasing key order, and
      records with equal keys in their original relative order. */
  lemma SortFacts<T>(xs: seq<T>, key: T -> real)
    ensures Sorted(Sort(xs, key), key)
    ensures multiset(Sort(xs, key)) == multiset(xs)
    ensures forall k :: WithKey(Sort(xs, key), key, k) == WithKey(xs, key, k)
  {
    SortSorted(xs, key);
    SortPerm(xs, key);
    forall k ensures WithKey(Sort(xs, key), key, k) == WithKey(xs, key, k) {
      SortStable(xs, key, k);
    }
  }

  lemma {:induction false} SortSorted<T>(xs: seq<T>, key: T -> real)
    ensures Sorted(Sort(xs, key), key) && |Sort(xs, key)| == |xs|
    decreases |xs|
  {
    if |xs| > 0 {
      SortSorted(xs[1..], key);
      InsertSorted(xs[0], Sort(xs[1..], key), key);
    }
  }

  lemma {:induction false} SortPerm<T>(xs: seq<T>, key: T -> real)
    ensures multiset(Sort(xs, key)) == multiset(xs)
    decreases |xs|
  {
    if |xs| > 0 {
      SortPerm(xs[1..], key);
      InsertPerm(xs[0], Sort(xs[1..], key), key);
      assert xs == [xs[0]] + xs[1..];
    }
  }

  lemma {:induction false} SortStable<T>(xs: seq<T>, key: T -> real, k: real)
    ensures WithKey(Sort(xs, key), key, k) == WithKey(xs, key, k)
    decreases |xs|
  {
    if |xs| > 0 {
      SortStable(xs[1..], key, k);
      InsertWithKey(xs[0], Sort(xs[1..], key), key, k);
    }
  }
}

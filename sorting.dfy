/** Stable sorting of a sequence by a string key, as Python's `sorted(xs, key=k)`
    and `list.sort()` do it (the algorithm here is insertion sort; only its
    result matters to the callers). */
module Sorting {
  import opened StringOrder

  /** The keys of `s` are non-decreasing. */
  ghost predicate SortedBy<T>(s: seq<T>, key: T -> string) {
    forall i, j :: 0 <= i < j < |s| ==> LexLe(key(s[i]), key(s[j]))
  }

  /** The elements of `s` whose key is `k`, in their order in `s`. */
  function WithKey<T>(s: seq<T>, key: T -> string, k: string): seq<T>
    decreases |s|
  {
    if s == [] then [] else (if key(s[0]) == k then [s[0]] else []) + WithKey(s[1..], key, k)
  }

  lemma SortedCons<T>(y: T, t: seq<T>, key: T -> string)
    requires SortedBy(t, key)
    requires forall e :: e in t ==> LexLe(key(y), key(e))
    ensures SortedBy([y] + t, key)
  {
    var s := [y] + t;
    forall i, j | 0 <= i < j < |s| ensures LexLe(key(s[i]), key(s[j])) {
      if i > 0 {
        assert s[i] == t[i - 1] && s[j] == t[j - 1];
      } else {
        assert s[j] in t;
      }
    }
  }

  /** An element at or below the first key of a sorted list is at or below all of them. */
  lemma BelowHeadBelowAll<T>(x: T, s: seq<T>, key: T -> string)
    requires s != [] && SortedBy(s, key) && LexLe(key(x), key(s[0]))
    ensures forall e :: e in s ==> LexLe(key(x), key(e))
  {
    forall e | e in s ensures LexLe(key(x), key(e)) {
      var j :| 0 <= j < |s| && s[j] == e;
      if j > 0 { LexLeTransitive(key(x), key(s[0]), key(e)); }
    }
  }

  /** The head of `s` stays at or below everything once `x`, which is above it,
      is inserted into the tail. */
  lemma HeadBelowInserted<T>(x: T, s: seq<T>, t: seq<T>, key: T -> string)
    requires s != [] && SortedBy(s, key) && !LexLe(key(x), key(s[0]))
    requires multiset(t) == multiset(s[1..]) + multiset{x}
    ensures forall e :: e in t ==> LexLe(key(s[0]), key(e))
  {
    forall e | e in t ensures LexLe(key(s[0]), key(e)) {
      assert e in multiset(t);
      if e == x {
        LexLeTotal(key(x), key(s[0]));
      } else {
        var j :| 0 <= j < |s[1..]| && s[1..][j] == e;
        assert s[j + 1] == e;
      }
    }
  }

  /** Inserts `x` in front of the first element whose key is not below `x`'s. */
  function InsertBy<T>(x: T, s: seq<T>, key: T -> string): (r: seq<T>)
    requires SortedBy(s, key)
    ensures multiset(r) == multiset(s) + multiset{x}
    ensures SortedBy(r, key)
    decreases |s|
  {
    if s == [] then [x]
    else if LexLe(key(x), key(s[0])) then
      BelowHeadBelowAll(x, s, key);
      SortedCons(x, s, key);
      [x] + s
    else
      assert SortedBy(s[1..], key) by {
        forall i, j | 0 <= i < j < |s[1..]| ensures LexLe(key(s[1..][i]), key(s[1..][j])) {
          assert s[1..][i] == s[i + 1] && s[1..][j] == s[j + 1];
        }
      }
      var t := InsertBy(x, s[1..], key);
      assert s == [s[0]] + s[1..];
      HeadBelowInserted(x, s, t, key);
      SortedCons(s[0], t, key);
      [s[0]] + t
  }

  /** A sorted permutation of `s`. */
  function SortBy<T>(s: seq<T>, key: T -> string): (r: seq<T>)
    ensures multiset(r) == multiset(s)
    ensures SortedBy(r, key)
    decreases |s|
  {
    if s == [] then []
    else
      assert s == [s[0]] + s[1..];
      InsertBy(s[0], SortBy(s[1..], key), key)
  }

  lemma {:induction false} InsertByWithKey<T>(x: T, s: seq<T>, key: T -> string, k: string)
    requires SortedBy(s, key)
    ensures WithKey(InsertBy(x, s, key), key, k) == (if key(x) == k then [x] else []) + WithKey(s, key, k)
    decreases |s|
  {
    if s == [] {
    } else if LexLe(key(x), key(s[0])) {
      assert ([x] + s)[1..] == s;
    } else {
      var t := InsertBy(x, s[1..], key);
      InsertByWithKey(x, s[1..], key, k);
      LexLeReflexive(key(x));
      assert ([s[0]] + t)[1..] == t;
      var rest := WithKey(s[1..], key, k);
      assert WithKey(s, key, k) == (if key(s[0]) == k then [s[0]] else []) + rest;
      assert WithKey([s[0]] + t, key, k) == (if key(s[0]) == k then [s[0]] else []) + WithKey(t, key, k);
      if key(x) == k {
        assert key(s[0]) != k;
        assert WithKey([s[0]] + t, key, k) == [x] + rest;
      } else {
        assert WithKey(t, key, k) == rest;
      }
    }
  }

  /** Sorting is stable: the elements sharing any one key keep their order. */
  lemma {:induction false} SortByStable<T>(s: seq<T>, key: T -> string, k: string)
    ensures WithKey(SortBy(s, key), key, k) == WithKey(s, key, k)
    decreases |s|
  {
    if s != [] {
      SortByStable(s[1..], key, k);
      InsertByWithKey(s[0], SortBy(s[1..], key), key, k);
    }
  }
}

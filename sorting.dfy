/**
 * Python's `sorted(xs, key=...)` on integer keys: a stable sort. It is
 * specified here as insertion sort, which is stable by construction, and the
 * lemmas prove that the result is ordered, a permutation of the input, and
 * keeps the relative order of elements with equal keys.
 *
 * The key is given as a table from elements to integers; an element missing
 * from the table has key 0.
 */
module Sorting {

  function Key<T(==)>(keys: map<T, int>, x: T): int {
    if x in keys then keys[x] else 0
  }

  predicate SortedBy<T(==)>(s: seq<T>, keys: map<T, int>) {
    forall i, j :: 0 <= i < j < |s| ==> Key(keys, s[i]) <= Key(keys, s[j])
  }

  /** The elements of `s` whose key is `k`, in their order in `s`. */
  function WithKey<T(==)>(s: seq<T>, keys: map<T, int>, k: int): (r: seq<T>)
    ensures |r| <= |s|
  {
    if s == [] then []
    else (if Key(keys, s[0]) == k then [s[0]] else []) + WithKey(s[1..], keys, k)
  }

  /** `WithKey` keeps exactly the entries with key `k`. */
  lemma {:induction false} WithKeyMeans<T>(s: seq<T>, keys: map<T, int>, k: int)
    ensures var r := WithKey(s, keys, k);
      && (forall i :: 0 <= i < |r| ==> Key(keys, r[i]) == k && r[i] in s)
      && (forall x :: x in s && Key(keys, x) == k ==> x in r)
    decreases |s|
  {
    if s != [] {
      WithKeyMeans(s[1..], keys, k);
      var h, rest := if Key(keys, s[0]) == k then [s[0]] else [], WithKey(s[1..], keys, k);
      assert WithKey(s, keys, k) == h + rest;
      assert forall i :: 0 <= i < |rest| ==> rest[i] in s[1..];
      assert forall x :: x in s[1..] ==> x in s;
    }
  }

  /** Puts `x` before the first element whose key is not smaller than its own. */
  function Insert<T(==)>(x: T, t: seq<T>, keys: map<T, int>): (r: seq<T>)
    ensures |r| == |t| + 1
  {
    if t == [] || Key(keys, x) <= Key(keys, t[0]) then [x] + t
    else [t[0]] + Insert(x, t[1..], keys)
  }

  /** The stable sort of `s` by the keys in `keys`. */
  function SortBy<T(==)>(s: seq<T>, keys: map<T, int>): (r: seq<T>)
    ensures |r| == |s|
  {
    if s == [] then [] else Insert(s[0], SortBy(s[1..], keys), keys)
  }

  lemma {:induction false} InsertSorted<T>(x: T, t: seq<T>, keys: map<T, int>)
    requires SortedBy(t, keys)
    ensures SortedBy(Insert(x, t, keys), keys)
    ensures Insert(x, t, keys) != [] && Key(keys, Insert(x, t, keys)[0]) == (if t == [] || Key(keys, x) <= Key(keys, t[0]) then Key(keys, x) else Key(keys, t[0]))
    decreases |t|
  {
    if t == [] || Key(keys, x) <= Key(keys, t[0]) {
    } else {
      InsertSorted(x, t[1..], keys);
      var r := Insert(x, t[1..], keys);
      assert Insert(x, t, keys) == [t[0]] + r;
      forall j | 0 < j < |r| + 1
        ensures Key(keys, t[0]) <= Key(keys, ([t[0]] + r)[j])
      {
        if t[1..] == [] || Key(keys, x) <= Key(keys, t[1]) {
          assert Key(keys, t[0]) <= Key(keys, r[0]);
        } else {
          assert Key(keys, t[0]) <= Key(keys, r[0]);
        }
      }
    }
  }

  lemma {:induction false} InsertPermutes<T>(x: T, t: seq<T>, keys: map<T, int>)
    ensures multiset(Insert(x, t, keys)) == multiset{x} + multiset(t)
    decreases |t|
  {
    if t == [] || Key(keys, x) <= Key(keys, t[0]) {
    } else {
      InsertPermutes(x, t[1..], keys);
      assert t == [t[0]] + t[1..];
    }
  }

  lemma {:induction false} WithKeyAppend<T>(a: seq<T>, b: seq<T>, keys: map<T, int>, k: int)
    ensures WithKey(a + b, keys, k) == WithKey(a, keys, k) + WithKey(b, keys, k)
    decreases |a|
  {
    if a == [] {
      assert a + b == b;
    } else {
      var h := if Key(keys, a[0]) == k then [a[0]] else [];
      var x, y := WithKey(a[1..], keys, k), WithKey(b, keys, k);
      calc {
        WithKey(a + b, keys, k);
        { assert (a + b)[0] == a[0] && (a + b)[1..] == a[1..] + b; }
        h + WithKey(a[1..] + b, keys, k);
        { WithKeyAppend(a[1..], b, keys, k); }
        h + (x + y);
        { AppendAssoc(h, x, y); }
        (h + x) + y;
      }
    }
  }

  lemma AppendAssoc<T>(x: seq<T>, y: seq<T>, z: seq<T>)
    ensures x + (y + z) == (x + y) + z
  {
  }

  lemma {:induction false} InsertStable<T>(x: T, t: seq<T>, keys: map<T, int>, k: int)
    ensures WithKey(Insert(x, t, keys), keys, k) == (if Key(keys, x) == k then [x] else []) + WithKey(t, keys, k)
    decreases |t|
  {
    if t == [] || Key(keys, x) <= Key(keys, t[0]) {
      WithKeyAppend([x], t, keys, k);
    } else {
      InsertStable(x, t[1..], keys, k);
      WithKeyAppend([t[0]], Insert(x, t[1..], keys), keys, k);
      WithKeyAppend([t[0]], t[1..], keys, k);
      assert [t[0]] + t[1..] == t;
    }
  }

  /** The sorted queue is in non-decreasing key order. */
  lemma {:induction false} SortBySorted<T>(s: seq<T>, keys: map<T, int>)
    ensures SortedBy(SortBy(s, keys), keys)
    decreases |s|
  {
    if s != [] {
      SortBySorted(s[1..], keys);
      InsertSorted(s[0], SortBy(s[1..], keys), keys);
    }
  }

  /** Sorting neither loses nor adds an element. */
  lemma {:induction false} SortByPermutes<T>(s: seq<T>, keys: map<T, int>)
    ensures multiset(SortBy(s, keys)) == multiset(s)
    decreases |s|
  {
    if s != [] {
      SortByPermutes(s[1..], keys);
      InsertPermutes(s[0], SortBy(s[1..], keys), keys);
      assert s == [s[0]] + s[1..];
    }
  }

  /** Elements with equal keys keep their relative order (the sort is stable). */
  lemma {:induction false} SortByStable<T>(s: seq<T>, keys: map<T, int>, k: int)
    ensures WithKey(SortBy(s, keys), keys, k) == WithKey(s, keys, k)
    decreases |s|
  {
    if s != [] {
      SortByStable(s[1..], keys, k);
      InsertStable(s[0], SortBy(s[1..], keys), keys, k);
    }
  }

  /** Sorting an already sorted sequence changes nothing. */
  lemma {:induction false} SortBySortedIdentity<T>(s: seq<T>, keys: map<T, int>)
    requires SortedBy(s, keys)
    ensures SortBy(s, keys) == s
    decreases |s|
  {
    if s != [] {
      SortBySortedIdentity(s[1..], keys);
      assert SortBy(s[1..], keys) == s[1..];
      assert s[1..] == [] || Key(keys, s[0]) <= Key(keys, s[1]);
    }
  }
}

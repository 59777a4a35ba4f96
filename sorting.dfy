/** Python's `sorted(xs, key=...)` and `list.sort(key=...)`: a stable sort by a
    key. `SortBy` is the specification (a stable insertion sort over a
    sequence); `SortInPlace` performs it on an array. */
module Sorting {

  /** Non-decreasing by `key`. */
  predicate SortedBy<T>(s: seq<T>, key: T -> real) {
    forall i, j :: 0 <= i < j < |s| ==> key(s[i]) <= key(s[j])
  }

  /** Inserts `x` after every element whose key is not larger than its own. */
  function Insert<T>(s: seq<T>, x: T, key: T -> real): seq<T>
    decreases |s|
  {
    if s == [] || key(s[|s| - 1]) <= key(x) then s + [x]
    else Insert(s[..|s| - 1], x, key) + [s[|s| - 1]]
  }

  /** The stable sort of `s` by `key`. */
  function SortBy<T>(s: seq<T>, key: T -> real): seq<T>
    decreases |s|
  {
    if s == [] then [] else Insert(SortBy(s[..|s| - 1], key), s[|s| - 1], key)
  }

  /** The elements of `s` whose key is `v`, in their order in `s`. */
  function WithKey<T>(s: seq<T>, key: T -> real, v: real): seq<T>
    decreases |s|
  {
    if s == [] then []
    else WithKey(s[..|s| - 1], key, v) + (if key(s[|s| - 1]) == v then [s[|s| - 1]] else [])
  }

  function SumOf<T>(s: seq<T>, f: T -> int): int
    decreases |s|
  {
    if s == [] then 0 else SumOf(s[..|s| - 1], f) + f(s[|s| - 1])
  }

  /** No two elements of `s` have the same image under `f`. */
  ghost predicate DistinctBy<T, K>(s: seq<T>, f: T -> K) {
    forall i, j :: 0 <= i < j < |s| ==> f(s[i]) != f(s[j])
  }

  lemma {:induction false} InsertPermutes<T>(s: seq<T>, x: T, key: T -> real)
    ensures multiset(Insert(s, x, key)) == multiset(s) + multiset{x}
    decreases |s|
  {
    if !(s == [] || key(s[|s| - 1]) <= key(x)) {
      InsertPermutes(s[..|s| - 1], x, key);
      assert s == s[..|s| - 1] + [s[|s| - 1]];
    }
  }

  lemma {:induction false} InsertSorted<T>(s: seq<T>, x: T, key: T -> real)
    requires SortedBy(s, key)
    ensures SortedBy(Insert(s, x, key), key)
    decreases |s|
  {
    if !(s == [] || key(s[|s| - 1]) <= key(x)) {
      var init, last := s[..|s| - 1], s[|s| - 1];
      InsertSorted(init, x, key);
      InsertPermutes(init, x, key);
      var r := Insert(init, x, key);
      forall i | 0 <= i < |r| ensures key(r[i]) <= key(last) {
        assert r[i] in multiset(r);
        assert r[i] in multiset(init) || r[i] == x;
        if r[i] != x {
          var k :| 0 <= k < |init| && init[k] == r[i];
          assert s[k] == r[i];
        }
      }
    }
  }

  lemma {:induction false} InsertStable<T>(s: seq<T>, x: T, key: T -> real, v: real)
    ensures WithKey(Insert(s, x, key), key, v)
         == WithKey(s, key, v) + (if key(x) == v then [x] else [])
    decreases |s|
  {
    if s == [] || key(s[|s| - 1]) <= key(x) {
      assert (s + [x])[..|s + [x]| - 1] == s;
    } else {
      var init, last := s[..|s| - 1], s[|s| - 1];
      var r := Insert(init, x, key);
      InsertStable(init, x, key, v);
      assert (r + [last])[..|r + [last]| - 1] == r;
    }
  }

  lemma {:induction false} InsertSum<T>(s: seq<T>, x: T, key: T -> real, f: T -> int)
    ensures SumOf(Insert(s, x, key), f) == SumOf(s, f) + f(x)
    decreases |s|
  {
    if s == [] || key(s[|s| - 1]) <= key(x) {
      assert (s + [x])[..|s + [x]| - 1] == s;
    } else {
      var init, last := s[..|s| - 1], s[|s| - 1];
      var r := Insert(init, x, key);
      InsertSum(init, x, key, f);
      assert (r + [last])[..|r + [last]| - 1] == r;
    }
  }

  lemma {:induction false} InsertDistinct<T, K>(s: seq<T>, x: T, key: T -> real, f: T -> K)
    requires DistinctBy(s, f)
    requires forall i :: 0 <= i < |s| ==> f(s[i]) != f(x)
    ensures DistinctBy(Insert(s, x, key), f)
    decreases |s|
  {
    if s == [] || key(s[|s| - 1]) <= key(x) {
    } else {
      var init, last := s[..|s| - 1], s[|s| - 1];
      InsertDistinct(init, x, key, f);
      InsertPermutes(init, x, key);
      var r := Insert(init, x, key);
      forall i | 0 <= i < |r| ensures f(r[i]) != f(last) {
        assert r[i] in multiset(r);
        assert r[i] in multiset(init) || r[i] == x;
        if r[i] != x {
          var k :| 0 <= k < |init| && init[k] == r[i];
          assert s[k] == r[i];
        }
      }
    }
  }

  /** The sort is a permutation of its input. */
  lemma {:induction false} SortByPermutes<T>(s: seq<T>, key: T -> real)
    ensures multiset(SortBy(s, key)) == multiset(s)
    decreases |s|
  {
    if s != [] {
      SortByPermutes(s[..|s| - 1], key);
      InsertPermutes(SortBy(s[..|s| - 1], key), s[|s| - 1], key);
      assert s == s[..|s| - 1] + [s[|s| - 1]];
    }
  }

  /** Hence it has the same length and the same elements. */
  lemma SortByMembers<T>(s: seq<T>, key: T -> real)
    ensures |SortBy(s, key)| == |s|
    ensures forall x :: x in SortBy(s, key) ==> x in s
    ensures forall x :: x in s ==> x in SortBy(s, key)
  {
    var r := SortBy(s, key);
    SortByPermutes(s, key);
    assert |multiset(r)| == |multiset(s)|;
    forall x | x in r ensures x in s {
      assert x in multiset(r);
    }
    forall x | x in s ensures x in r {
      assert x in multiset(s);
    }
  }

  /** The sort is non-decreasing by its key. */
  lemma {:induction false} SortBySorted<T>(s: seq<T>, key: T -> real)
    ensures SortedBy(SortBy(s, key), key)
    decreases |s|
  {
    if s != [] {
      SortBySorted(s[..|s| - 1], key);
      InsertSorted(SortBy(s[..|s| - 1], key), s[|s| - 1], key);
    }
  }

  /** The sort is stable: elements with equal keys keep their relative order. */
  lemma {:induction false} SortByStable<T>(s: seq<T>, key: T -> real, v: real)
    ensures WithKey(SortBy(s, key), key, v) == WithKey(s, key, v)
    decreases |s|
  {
    if s != [] {
      SortByStable(s[..|s| - 1], key, v);
      InsertStable(SortBy(s[..|s| - 1], key), s[|s| - 1], key, v);
    }
  }

  /** Sorting does not change a sum over the elements. */
  lemma {:induction false} SortBySum<T>(s: seq<T>, key: T -> real, f: T -> int)
    ensures SumOf(SortBy(s, key), f) == SumOf(s, f)
    decreases |s|
  {
    if s != [] {
      SortBySum(s[..|s| - 1], key, f);
      InsertSum(SortBy(s[..|s| - 1], key), s[|s| - 1], key, f);
    }
  }

  /** Sorting keeps elements with pairwise distinct images distinct. */
  lemma {:induction false} SortByDistinct<T, K>(s: seq<T>, key: T -> real, f: T -> K)
    requires DistinctBy(s, f)
    ensures DistinctBy(SortBy(s, key), f)
    decreases |s|
  {
    if s != [] {
      var init, last := s[..|s| - 1], s[|s| - 1];
      SortByDistinct(init, key, f);
      SortByMembers(init, key);
      var r := SortBy(init, key);
      forall i | 0 <= i < |r| ensures f(r[i]) != f(last) {
        assert r[i] in r;
        var k :| 0 <= k < |init| && init[k] == r[i];
        assert s[k] == r[i];
      }
      InsertDistinct(r, last, key, f);
    }
  }

  /** Elements larger than `x` at the end of `s` stay after it. */
  lemma {:induction false} InsertBeforeLarger<T>(s: seq<T>, x: T, key: T -> real, j: nat)
    requires j <= |s|
    requires forall k :: j <= k < |s| ==> key(s[k]) > key(x)
    ensures Insert(s, x, key) == Insert(s[..j], x, key) + s[j..]
    decreases |s|
  {
    if j == |s| {
      assert s[..j] == s && s[j..] == [];
    } else {
      var init, last := s[..|s| - 1], s[|s| - 1];
      assert key(last) > key(x);
      assert forall k :: j <= k < |init| ==> init[k] == s[k];
      InsertBeforeLarger(init, x, key, j);
      assert init[..j] == s[..j];
      assert init[j..] + [last] == s[j..];
    }
  }

  /** Where the scan stops, `x` goes right after `s`. */
  lemma InsertAtStop<T>(s: seq<T>, x: T, key: T -> real)
    requires s == [] || key(s[|s| - 1]) <= key(x)
    ensures Insert(s, x, key) == s + [x]
  {
  }

  /** Moves `a[i]` left into the sorted prefix `a[..i]`, as one pass of insertion sort. */
  method InsertInPlace<T>(a: array<T>, i: nat, key: T -> real)
    requires i < a.Length
    modifies a
    ensures a[..i + 1] == Insert(old(a[..i]), old(a[i]), key)
    ensures forall k :: i < k < a.Length ==> a[k] == old(a[k])
  {
    ghost var prefix := a[..i];
    var x := a[i];
    var j := i;
    while j > 0 && key(a[j - 1]) > key(x)
      invariant 0 <= j <= i
      invariant forall k :: 0 <= k < j ==> a[k] == prefix[k]
      invariant forall k :: j < k <= i ==> a[k] == prefix[k - 1]
      invariant forall k :: i < k < a.Length ==> a[k] == old(a[k])
      invariant forall k :: j <= k < i ==> key(prefix[k]) > key(x)
    {
      a[j] := a[j - 1];
      j := j - 1;
    }
    assert j > 0 ==> key(prefix[j - 1]) <= key(x);
    a[j] := x;
    ShiftedIsInsert(a[..i + 1], prefix, x, key, j);
  }

  /** The array after the scan: `prefix` with `x` placed at `j`. */
  lemma ShiftedIsInsert<T>(b: seq<T>, prefix: seq<T>, x: T, key: T -> real, j: nat)
    requires |b| == |prefix| + 1 && j <= |prefix|
    requires forall k :: 0 <= k < j ==> b[k] == prefix[k]
    requires b[j] == x
    requires forall k :: j < k < |b| ==> b[k] == prefix[k - 1]
    requires forall k :: j <= k < |prefix| ==> key(prefix[k]) > key(x)
    requires j == 0 || key(prefix[j - 1]) <= key(x)
    ensures b == Insert(prefix, x, key)
  {
    InsertBeforeLarger(prefix, x, key, j);
    assert j > 0 ==> prefix[..j][j - 1] == prefix[j - 1];
    InsertAtStop(prefix[..j], x, key);
    var inserted := prefix[..j] + [x] + prefix[j..];
    forall k | 0 <= k < |b| ensures b[k] == inserted[k] {
      if k < j {
        assert inserted[k] == prefix[k];
      } else if k > j {
        assert inserted[k] == prefix[k - 1];
      }
    }
  }

  /** Stable insertion sort of an array in place, as `list.sort(key=...)` does. */
  method SortInPlace<T>(a: array<T>, key: T -> real)
    modifies a
    ensures a[..] == SortBy(old(a[..]), key)
  {
    ghost var input := a[..];
    for i := 0 to a.Length
      invariant a[..i] == SortBy(input[..i], key)
      invariant a[i..] == input[i..]
    {
      assert a[i] == input[i];
      InsertInPlace(a, i, key);
      assert input[..i + 1][..i] == input[..i];
      assert a[i + 1..] == input[i + 1..];
    }
    assert a[..] == a[..a.Length];
    assert input == input[..a.Length];
  }
}

/**
  `gigs.sort(...)` (backend/fetch-gigs/app.js, lines 294-298): an in-place sort
  by a numeric key whose comparator returns the difference of the keys.
  `Array.prototype.sort` is stable, so the result is the unique ordering that
  is ascending by key and keeps items with equal keys in their input order.
  The reference ordering here is insertion sort from the left, each new item
  placed after every earlier item whose key is not greater.
 */
module DateSort {

  predicate SortedBy<T>(s: seq<T>, key: T -> int) {
    forall i, j :: 0 <= i < j < |s| ==> key(s[i]) <= key(s[j])
  }

  /** `s` with `x` placed after the last element whose key is not greater than `x`'s. */
  function Insert<T>(s: seq<T>, x: T, key: T -> int): (r: seq<T>)
    ensures |r| == |s| + 1
  {
    if s == [] || key(s[|s| - 1]) <= key(x) then s + [x]
    else Insert(s[..|s| - 1], x, key) + [s[|s| - 1]]
  }

  /** The stable ascending ordering of `s` by `key`. */
  function InsertionSorted<T>(s: seq<T>, key: T -> int): (r: seq<T>)
    ensures |r| == |s|
  {
    if s == [] then [] else Insert(InsertionSorted(s[..|s| - 1], key), s[|s| - 1], key)
  }

  /** The elements of `s` whose key is `k`, in order. */
  function WithKey<T>(s: seq<T>, key: T -> int, k: int): seq<T> {
    if s == [] then []
    else WithKey(s[..|s| - 1], key, k) + (if key(s[|s| - 1]) == k then [s[|s| - 1]] else [])
  }

  // Insertion

  lemma {:induction false} InsertKeepsSorted<T>(s: seq<T>, x: T, key: T -> int)
    requires SortedBy(s, key)
    ensures SortedBy(Insert(s, x, key), key)
  {
    if s != [] && key(s[|s| - 1]) > key(x) {
      var init, last := s[..|s| - 1], s[|s| - 1];
      InsertKeepsSorted(init, x, key);
      InsertIsPermutation(init, x, key);
      var r0 := Insert(init, x, key);
      forall i | 0 <= i < |r0|
        ensures key(r0[i]) <= key(last)
      {
        assert r0[i] in multiset(r0);
        if r0[i] != x {
          assert r0[i] in multiset(init);
          var j :| 0 <= j < |init| && init[j] == r0[i];
          assert s[j] == r0[i];
        }
      }
      assert Insert(s, x, key) == r0 + [last];
    }
  }

  lemma {:induction false} InsertIsPermutation<T>(s: seq<T>, x: T, key: T -> int)
    ensures multiset(Insert(s, x, key)) == multiset(s) + multiset{x}
  {
    if s != [] && key(s[|s| - 1]) > key(x) {
      InsertIsPermutation(s[..|s| - 1], x, key);
      assert s == s[..|s| - 1] + [s[|s| - 1]];
    }
  }

  lemma WithKeyAppend<T>(s: seq<T>, x: T, key: T -> int, k: int)
    ensures WithKey(s + [x], key, k) == WithKey(s, key, k) + (if key(x) == k then [x] else [])
  {
    assert (s + [x])[..|s|] == s;
  }

  lemma {:induction false} InsertIsStable<T>(s: seq<T>, x: T, key: T -> int, k: int)
    ensures WithKey(Insert(s, x, key), key, k) == WithKey(s, key, k) + (if key(x) == k then [x] else [])
  {
    if s == [] || key(s[|s| - 1]) <= key(x) {
      WithKeyAppend(s, x, key, k);
    } else {
      var init, last := s[..|s| - 1], s[|s| - 1];
      InsertIsStable(init, x, key, k);
      WithKeyAppend(Insert(init, x, key), last, key, k);
      assert s == init + [last];
      WithKeyAppend(init, last, key, k);
    }
  }

  /** Where insertion puts `x` in a sequence: after position `j` when the
      element before `j` (if any) has a key not greater than `x`'s and all
      elements from `j` on have greater keys. */
  lemma {:induction false} InsertAt<T>(s: seq<T>, x: T, key: T -> int, j: nat)
    requires j <= |s|
    requires j == 0 || key(s[j - 1]) <= key(x)
    requires forall k :: j <= k < |s| ==> key(s[k]) > key(x)
    ensures Insert(s, x, key) == s[..j] + [x] + s[j..]
    decreases |s|
  {
    if |s| > j {
      var init := s[..|s| - 1];
      InsertAt(init, x, key, j);
      assert init[..j] == s[..j];
      assert init[j..] + [s[|s| - 1]] == s[j..];
    }
  }

  // The whole ordering

  lemma {:induction false} InsertionSortedIsSorted<T>(s: seq<T>, key: T -> int)
    ensures SortedBy(InsertionSorted(s, key), key)
  {
    if s != [] {
      InsertionSortedIsSorted(s[..|s| - 1], key);
      InsertKeepsSorted(InsertionSorted(s[..|s| - 1], key), s[|s| - 1], key);
    }
  }

  lemma {:induction false} InsertionSortedIsPermutation<T>(s: seq<T>, key: T -> int)
    ensures multiset(InsertionSorted(s, key)) == multiset(s)
  {
    if s != [] {
      InsertionSortedIsPermutation(s[..|s| - 1], key);
      InsertIsPermutation(InsertionSorted(s[..|s| - 1], key), s[|s| - 1], key);
      assert s == s[..|s| - 1] + [s[|s| - 1]];
    }
  }

  /** Elements with equal keys keep their input order. */
  lemma {:induction false} InsertionSortedIsStable<T>(s: seq<T>, key: T -> int, k: int)
    ensures WithKey(InsertionSorted(s, key), key, k) == WithKey(s, key, k)
  {
    if s != [] {
      InsertionSortedIsStable(s[..|s| - 1], key, k);
      InsertIsStable(InsertionSorted(s[..|s| - 1], key), s[|s| - 1], key, k);
    }
  }

  // Uniqueness: any stable sort gives the same ordering

  lemma {:induction false} ClassMember<T>(s: seq<T>, key: T -> int, k: int, x: T)
    requires x in WithKey(s, key, k)
    ensures x in s && key(x) == k
  {
    var init, last := s[..|s| - 1], s[|s| - 1];
    if x in WithKey(init, key, k) {
      ClassMember(init, key, k, x);
      assert s == init + [last];
    }
  }

  /** The last element of a sequence ends the class of its key. */
  lemma LastEndsItsClass<T>(s: seq<T>, key: T -> int)
    requires s != []
    ensures var c := WithKey(s, key, key(s[|s| - 1])); c != [] && c[|c| - 1] == s[|s| - 1]
  {
    assert s == s[..|s| - 1] + [s[|s| - 1]];
  }

  /** The last element of a sorted sequence has its greatest key. */
  lemma LastIsGreatest<T>(t: seq<T>, key: T -> int, x: T)
    requires SortedBy(t, key) && x in t
    ensures key(x) <= key(t[|t| - 1])
  {
    var i :| 0 <= i < |t| && t[i] == x;
    if i < |t| - 1 {
      assert key(t[i]) <= key(t[|t| - 1]);
    }
  }

  /** The last element of `t` occurs in any sorted `u` with the same key
      classes, with a key no greater than `u`'s last. */
  lemma LastBelow<T>(t: seq<T>, u: seq<T>, key: T -> int)
    requires t != [] && SortedBy(u, key)
    requires WithKey(t, key, key(t[|t| - 1])) == WithKey(u, key, key(t[|t| - 1]))
    ensures u != [] && key(t[|t| - 1]) <= key(u[|u| - 1])
  {
    var tl := t[|t| - 1];
    LastEndsItsClass(t, key);
    var c := WithKey(u, key, key(tl));
    assert tl == c[|c| - 1] && tl in c;
    ClassMember(u, key, key(tl), tl);
    LastIsGreatest(u, key, tl);
  }

  /** Sorted sequences with the same key classes end with the same element. */
  lemma SameLast<T>(t: seq<T>, u: seq<T>, key: T -> int)
    requires t != [] && u != []
    requires SortedBy(t, key) && SortedBy(u, key)
    requires forall k :: WithKey(t, key, k) == WithKey(u, key, k)
    ensures t[|t| - 1] == u[|u| - 1]
  {
    LastBelow(t, u, key);
    LastBelow(u, t, key);
    LastEndsItsClass(t, key);
    LastEndsItsClass(u, key);
    assert WithKey(t, key, key(t[|t| - 1])) == WithKey(u, key, key(u[|u| - 1]));
  }

  /** Removing the same last element keeps the key classes equal. */
  lemma DropSameLast<T>(t0: seq<T>, u0: seq<T>, x: T, key: T -> int)
    requires forall k :: WithKey(t0 + [x], key, k) == WithKey(u0 + [x], key, k)
    ensures forall k :: WithKey(t0, key, k) == WithKey(u0, key, k)
  {
    forall k
      ensures WithKey(t0, key, k) == WithKey(u0, key, k)
    {
      WithKeyAppend(t0, x, key, k);
      WithKeyAppend(u0, x, key, k);
      assert WithKey(t0 + [x], key, k) == WithKey(u0 + [x], key, k);
      var a, b := WithKey(t0, key, k), WithKey(u0, key, k);
      if key(x) == k {
        assert a + [x] == b + [x];
        assert a == (a + [x])[..|a|] && b == (b + [x])[..|b|];
      } else {
        assert a + [] == a && b + [] == b;
      }
    }
  }

  /** Two sorted sequences with the same elements of each key, in the same
      order, are equal. */
  lemma {:induction false} SortedWithSameKeyClassesAreEqual<T>(t: seq<T>, u: seq<T>, key: T -> int)
    requires SortedBy(t, key) && SortedBy(u, key)
    requires forall k :: WithKey(t, key, k) == WithKey(u, key, k)
    ensures t == u
    decreases |t|
  {
    if t == [] {
      if u != [] {
        LastEndsItsClass(u, key);
      }
    } else if u == [] {
      LastEndsItsClass(t, key);
    } else {
      SameLast(t, u, key);
      var t0, u0, x := t[..|t| - 1], u[..|u| - 1], t[|t| - 1];
      assert t == t0 + [x] && u == u0 + [x];
      DropSameLast(t0, u0, x, key);
      SortedWithSameKeyClassesAreEqual(t0, u0, key);
    }
  }

  /** Any ordering that is ascending by key and keeps equal keys in input
      order, as a stable `sort` produces, is the insertion-sorted one. */
  lemma StableSortIsInsertionSorted<T>(s: seq<T>, t: seq<T>, key: T -> int)
    requires SortedBy(t, key)
    requires forall k :: WithKey(t, key, k) == WithKey(s, key, k)
    ensures t == InsertionSorted(s, key)
  {
    InsertionSortedIsSorted(s, key);
    forall k
      ensures WithKey(t, key, k) == WithKey(InsertionSorted(s, key), key, k)
    {
      InsertionSortedIsStable(s, key, k);
    }
    SortedWithSameKeyClassesAreEqual(t, InsertionSorted(s, key), key);
  }

  // The in-place sort

  /** Moves `a[i]` left past the elements before it with greater keys,
      shifting those one place right. */
  method ShiftIntoPlace<T>(a: array<T>, i: int, key: T -> int)
    requires 0 <= i < a.Length
    modifies a
    ensures a[..i + 1] == Insert(old(a[..i]), old(a[i]), key)
    ensures a[i + 1..] == old(a[i + 1..])
  {
    var x := a[i];
    ghost var before := a[..];
    var j := i;
    while j > 0 && key(a[j - 1]) > key(x)
      invariant 0 <= j <= i
      invariant forall k :: 0 <= k < j ==> a[k] == before[k]
      invariant forall k :: j < k <= i ==> a[k] == before[k - 1]
      invariant forall k :: i < k < a.Length ==> a[k] == before[k]
      invariant forall k :: j <= k < i ==> key(before[k]) > key(x)
    {
      a[j] := a[j - 1];
      j := j - 1;
    }
    a[j] := x;
    ghost var sorted := before[..i];
    InsertAt(sorted, x, key, j);
    ghost var inserted := sorted[..j] + [x] + sorted[j..];
    forall k | 0 <= k <= i
      ensures a[k] == inserted[k]
    {
      if k < j {
        assert inserted[k] == sorted[k];
      } else if k > j {
        assert inserted[k] == sorted[k - 1];
      }
    }
    assert a[..i + 1] == inserted;
  }

  /** Sorts `a` in place: each element in turn is shifted left past the
      already sorted elements with greater keys. */
  method SortInPlace<T>(a: array<T>, key: T -> int)
    modifies a
    ensures a[..] == InsertionSorted(old(a[..]), key)
  {
    ghost var input := a[..];
    var i := 0;
    while i < a.Length
      invariant 0 <= i <= a.Length
      invariant a[..i] == InsertionSorted(input[..i], key)
      invariant a[i..] == input[i..]
    {
      ShiftIntoPlace(a, i, key);
      assert input[..i + 1][..i] == input[..i];
      assert input[..i + 1][i] == input[i];
      i := i + 1;
    }
    assert input[..i] == input;
  }
}

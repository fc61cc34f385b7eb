/** A stable in-place sort, standing for `Array.prototype.sort`, which the
    ECMAScript standard requires to be stable since its 2019 edition.
    `before(x, y)` says that `x` must come strictly before `y` (the
    comparator returns a negative number); elements that neither must precede
    keep their input order. The algorithm is an insertion sort, proved equal
    to the function `InsertionSort`, whose properties are proved separately. */
module Sorting {

  import KeyedDedup
  import opened Lists

  /** Puts `x` behind the last element of `s` that it must not precede. */
  function Insert<T>(s: seq<T>, x: T, before: (T, T) -> bool): seq<T> {
    if s == [] || !before(x, s[|s| - 1]) then s + [x]
    else Insert(s[..|s| - 1], x, before) + [s[|s| - 1]]
  }

  function InsertionSort<T>(s: seq<T>, before: (T, T) -> bool): seq<T> {
    if s == [] then []
    else Insert(InsertionSort(s[..|s| - 1], before), s[|s| - 1], before)
  }

  /** No element must come before one placed ahead of it. */
  predicate Sorted<T>(s: seq<T>, before: (T, T) -> bool) {
    forall i, j :: 0 <= i < j < |s| ==> !before(s[j], s[i])
  }

  /** `before` is asymmetric and "not before" is transitive: what a
      comparator must satisfy for `sort` to be meaningful. */
  ghost predicate StrictWeakOrder<T(!new)>(before: (T, T) -> bool) {
    && (forall x, y :: before(x, y) ==> !before(y, x))
    && (forall x, y, z :: !before(x, y) && !before(y, z) ==> !before(x, z))
  }

  /** Sorts `a` in place; the result is `InsertionSort` of the old contents. */
  method SortInPlace<T>(a: array<T>, before: (T, T) -> bool)
    modifies a
    ensures a[..] == InsertionSort(old(a[..]), before)
  {
    ghost var input := a[..];
    var i := 0;
    while i < a.Length
      invariant 0 <= i <= a.Length
      invariant a[..i] == InsertionSort(input[..i], before)
      invariant forall k :: i <= k < a.Length ==> a[k] == input[k]
    {
      InsertLast(a, i, before);
      assert input[..i + 1][..i] == input[..i];
      i := i + 1;
    }
    assert input[..a.Length] == input;
  }

  /** Moves `a[i]` left into the part `a[..i]` already sorted, shifting the
      elements it must precede one place to the right. */
  method InsertLast<T>(a: array<T>, i: nat, before: (T, T) -> bool)
    requires i < a.Length
    modifies a
    ensures a[..i + 1] == Insert(old(a[..i]), old(a[i]), before)
    ensures forall k :: i < k < a.Length ==> a[k] == old(a[k])
  {
    ghost var done := a[..i];
    var x := a[i];
    var j := i;
    assert done[..j] == done && done[j..] == [];
    while j > 0 && before(x, a[j - 1])
      invariant 0 <= j <= i
      invariant forall k :: 0 <= k < j ==> a[k] == done[k]
      invariant forall k :: j < k <= i ==> a[k] == done[k - 1]
      invariant forall k :: i < k < a.Length ==> a[k] == old(a[k])
      invariant Insert(done, x, before) == Insert(done[..j], x, before) + done[j..]
    {
      InsertPeel(done, j, x, before);
      a[j] := a[j - 1];
      j := j - 1;
    }
    InsertStop(done, j, x, before);
    a[j] := x;
    Assembled(a[..], done, j, x);
  }

  /** A sequence that agrees with `done` before `j`, holds `x` at `j` and
      `done` shifted one place right after it. */
  lemma Assembled<T>(b: seq<T>, done: seq<T>, j: nat, x: T)
    requires j <= |done| < |b| && b[j] == x
    requires forall k :: 0 <= k < j ==> b[k] == done[k]
    requires forall k :: j < k <= |done| ==> b[k] == done[k - 1]
    ensures b[..|done| + 1] == done[..j] + [x] + done[j..]
  {
    var r := done[..j] + [x] + done[j..];
    forall k | 0 <= k <= |done| ensures b[k] == r[k] {
      if k < j {
        assert r[k] == done[k];
      } else if k > j {
        assert r[k] == done[k - 1];
      }
    }
  }

  lemma InsertStop<T>(s: seq<T>, j: nat, x: T, before: (T, T) -> bool)
    requires j <= |s| && (j == 0 || !before(x, s[j - 1]))
    ensures Insert(s[..j], x, before) == s[..j] + [x]
  {
  }

  lemma InsertPeel<T>(s: seq<T>, j: nat, x: T, before: (T, T) -> bool)
    requires 0 < j <= |s| && before(x, s[j - 1])
    ensures Insert(s[..j], x, before) + s[j..] == Insert(s[..j - 1], x, before) + s[j - 1..]
  {
    assert s[..j][..j - 1] == s[..j - 1];
    assert s[j - 1..] == [s[j - 1]] + s[j..];
  }

  lemma {:induction false} InsertPermutes<T>(s: seq<T>, x: T, before: (T, T) -> bool)
    ensures multiset(Insert(s, x, before)) == multiset(s) + multiset{x}
  {
    if s != [] && before(x, s[|s| - 1]) {
      InsertPermutes(s[..|s| - 1], x, before);
      assert s == s[..|s| - 1] + [s[|s| - 1]];
    }
  }

  /** Sorting only reorders. */
  lemma {:induction false} SortPermutes<T>(s: seq<T>, before: (T, T) -> bool)
    ensures multiset(InsertionSort(s, before)) == multiset(s)
  {
    if s != [] {
      var init, last := s[..|s| - 1], s[|s| - 1];
      var sorted := InsertionSort(init, before);
      calc {
        multiset(InsertionSort(s, before));
        multiset(Insert(sorted, last, before));
        { InsertPermutes(sorted, last, before); }
        multiset(sorted) + multiset{last};
        { SortPermutes(init, before); }
        multiset(init) + multiset{last};
        multiset(init + [last]);
        { assert s == init + [last]; }
        multiset(s);
      }
    }
  }

  lemma {:induction false} InsertSorted<T(!new)>(s: seq<T>, x: T, before: (T, T) -> bool)
    requires StrictWeakOrder(before) && Sorted(s, before)
    ensures Sorted(Insert(s, x, before), before)
  {
    if s != [] && before(x, s[|s| - 1]) {
      var init, last := s[..|s| - 1], s[|s| - 1];
      InsertSorted(init, x, before);
      var r := Insert(init, x, before);
      InsertPermutes(init, x, before);
      forall k | 0 <= k < |r| ensures !before(last, r[k]) {
        assert r[k] in multiset(init) + multiset{x};
        if r[k] != x {
          var m :| 0 <= m < |init| && init[m] == r[k];
          assert s[m] == r[k];
        }
      }
    }
  }

  /** Under a strict weak order the result is sorted. */
  lemma {:induction false} SortSorted<T(!new)>(s: seq<T>, before: (T, T) -> bool)
    requires StrictWeakOrder(before)
    ensures Sorted(InsertionSort(s, before), before)
  {
    if s != [] {
      SortSorted(s[..|s| - 1], before);
      InsertSorted(InsertionSort(s[..|s| - 1], before), s[|s| - 1], before);
    }
  }

  /** Inserting `x` keeps the group members in the order of `s + [x]`. */
  lemma {:induction false} InsertStable<T(!new)>(s: seq<T>, x: T, before: (T, T) -> bool, group: T -> bool)
    requires forall u, v :: before(u, v) ==> !(group(u) && group(v))
    ensures Filter(Insert(s, x, before), group) == Filter(s + [x], group)
  {
    if s != [] && before(x, s[|s| - 1]) {
      var init, last := s[..|s| - 1], s[|s| - 1];
      InsertStable(init, x, before, group);
      // x moves ahead of `last` only because it must precede it, so they are not both in the group
      assert !(group(x) && group(last));
      var X, L := (if group(x) then [x] else []), (if group(last) then [last] else []);
      assert X + L == L + X;
      calc {
        Filter(Insert(s, x, before), group);
        Filter(Insert(init, x, before) + [last], group);
        { FilterSnoc(Insert(init, x, before), last, group); }
        Filter(init + [x], group) + L;
        { FilterSnoc(init, x, group); }
        Filter(init, group) + X + L;
        Filter(init, group) + L + X;
        { FilterSnoc(init, last, group); assert s == init + [last]; }
        Filter(s, group) + X;
        { FilterSnoc(s, x, group); }
        Filter(s + [x], group);
      }
    }
  }

  /** Stability: the elements of any group whose members never have to
      precede one another (for a comparator, those it calls equal) come out in
      their input order. */
  lemma {:induction false} SortStable<T(!new)>(s: seq<T>, before: (T, T) -> bool, group: T -> bool)
    requires forall u, v :: before(u, v) ==> !(group(u) && group(v))
    ensures Filter(InsertionSort(s, before), group) == Filter(s, group)
  {
    if s != [] {
      var init, last := s[..|s| - 1], s[|s| - 1];
      SortStable(init, before, group);
      InsertStable(InsertionSort(init, before), last, before, group);
      FilterSnoc(InsertionSort(init, before), last, group);
      FilterSnoc(init, last, group);
      assert s == init + [last];
    }
  }

  lemma {:induction false} InsertKeepsDistinct<T, K>(s: seq<T>, x: T, before: (T, T) -> bool, key: T -> K)
    requires KeyedDedup.DistinctKeys(s, key)
    requires forall i :: 0 <= i < |s| ==> key(s[i]) != key(x)
    ensures KeyedDedup.DistinctKeys(Insert(s, x, before), key)
  {
    if s != [] && before(x, s[|s| - 1]) {
      var init, last := s[..|s| - 1], s[|s| - 1];
      InsertKeepsDistinct(init, x, before, key);
      var r := Insert(init, x, before);
      InsertPermutes(init, x, before);
      forall k | 0 <= k < |r| ensures key(r[k]) != key(last) {
        assert r[k] in multiset(init) + multiset{x};
        if r[k] != x {
          var m :| 0 <= m < |init| && init[m] == r[k];
          assert s[m] == r[k];
        }
      }
    }
  }

  /** Sorting never brings two elements with the same key together that were
      not there before: distinct keys stay distinct. */
  lemma {:induction false} SortKeepsDistinct<T, K>(s: seq<T>, before: (T, T) -> bool, key: T -> K)
    requires KeyedDedup.DistinctKeys(s, key)
    ensures KeyedDedup.DistinctKeys(InsertionSort(s, before), key)
  {
    if s != [] {
      var init, last := s[..|s| - 1], s[|s| - 1];
      SortKeepsDistinct(init, before, key);
      var t := InsertionSort(init, before);
      SortPermutes(init, before);
      forall k | 0 <= k < |t| ensures key(t[k]) != key(last) {
        assert t[k] in multiset(init);
        var m :| 0 <= m < |init| && init[m] == t[k];
        assert s[m] == t[k];
      }
      InsertKeepsDistinct(t, last, before, key);
    }
  }

  /** Dropping elements keeps a sorted sequence sorted. */
  lemma {:induction false} FilterSorted<T>(s: seq<T>, p: T -> bool, before: (T, T) -> bool)
    requires Sorted(s, before)
    ensures Sorted(Filter(s, p), before)
  {
    if s != [] {
      var init, last := s[..|s| - 1], s[|s| - 1];
      FilterSorted(init, p, before);
      FilterMembers(init, p);
      var f := Filter(init, p);
      forall k | 0 <= k < |f| ensures !before(last, f[k]) {
        assert f[k] in init;
        var m :| 0 <= m < |init| && init[m] == f[k];
        assert s[m] == f[k];
      }
    }
  }
}

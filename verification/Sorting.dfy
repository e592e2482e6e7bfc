/**
 Stable insertion sort over a strict weak order, standing for Go's
 `sort.SliceStable` and `sort.Strings`, and the fact the index proofs rest on:
 a strictly sorted sequence is determined by its elements alone.
 */
module Sorting {

  ghost predicate StrictWeakOrder<T(!new)>(less: (T, T) -> bool) {
    && (forall x :: !less(x, x))
    && (forall x, y, z :: less(x, y) && less(y, z) ==> less(x, z))
    && (forall x, y, z :: less(x, z) ==> less(x, y) || less(y, z))
  }

  ghost predicate Sorted<T>(less: (T, T) -> bool, s: seq<T>) {
    forall i, j :: 0 <= i < j < |s| ==> !less(s[j], s[i])
  }

  ghost predicate StrictlySorted<T>(less: (T, T) -> bool, s: seq<T>) {
    forall i, j :: 0 <= i < j < |s| ==> less(s[i], s[j])
  }

  ghost predicate NoDuplicates<T>(s: seq<T>) {
    forall i, j :: 0 <= i < j < |s| ==> s[i] != s[j]
  }

  /** Places `x` after every element that is not greater than it. */
  function Insert<T>(less: (T, T) -> bool, s: seq<T>, x: T): (r: seq<T>)
    ensures |r| == |s| + 1
    ensures multiset(r) == multiset(s) + multiset{x}
  {
    if s == [] then [x]
    else
      var last := |s| - 1;
      assert s == s[..last] + [s[last]];
      if less(x, s[last]) then Insert(less, s[..last], x) + [s[last]] else s + [x]
  }

  function StableSort<T>(less: (T, T) -> bool, s: seq<T>): (r: seq<T>)
    ensures |r| == |s|
    ensures multiset(r) == multiset(s)
  {
    if s == [] then []
    else
      var last := |s| - 1;
      assert s == s[..last] + [s[last]];
      Insert(less, StableSort(less, s[..last]), s[last])
  }

  lemma SameElements<T>(a: seq<T>, b: seq<T>)
    requires multiset(a) == multiset(b)
    ensures forall x :: x in a <==> x in b
  {
    forall x ensures x in a <==> x in b {
      assert x in a <==> x in multiset(a);
      assert x in b <==> x in multiset(b);
    }
  }

  lemma {:induction false} InsertKeepsSorted<T(!new)>(less: (T, T) -> bool, s: seq<T>, x: T)
    requires StrictWeakOrder(less) && Sorted(less, s)
    ensures Sorted(less, Insert(less, s, x))
  {
    if s != [] {
      var last := |s| - 1;
      if less(x, s[last]) {
        var front := Insert(less, s[..last], x);
        InsertKeepsSorted(less, s[..last], x);
        forall i | 0 <= i < |front| ensures !less(s[last], front[i]) {
          assert front[i] in multiset(front);
          if front[i] != x {
            assert front[i] in s[..last];
          }
        }
      }
    }
  }

  lemma {:induction false} StableSortSorts<T(!new)>(less: (T, T) -> bool, s: seq<T>)
    requires StrictWeakOrder(less)
    ensures Sorted(less, StableSort(less, s))
  {
    if s != [] {
      StableSortSorts(less, s[..|s| - 1]);
      InsertKeepsSorted(less, StableSort(less, s[..|s| - 1]), s[|s| - 1]);
    }
  }

  /** Two strictly sorted sequences over the same elements are the same sequence. */
  lemma {:induction false} StrictlySortedIsUnique<T(!new)>(less: (T, T) -> bool, a: seq<T>, b: seq<T>)
    requires StrictWeakOrder(less)
    requires StrictlySorted(less, a) && StrictlySorted(less, b)
    requires forall x :: x in a <==> x in b
    ensures a == b
  {
    var both := a + b;
    if both != [] {
      assert both[0] in a && both[0] in b;
      assert a[0] in b && b[0] in a;
      assert a[0] == b[0];
      forall x ensures x in a[1..] <==> x in b[1..] {
        if x in a[1..] { assert x in b && less(a[0], x); }
        if x in b[1..] { assert x in a && less(b[0], x); }
      }
      StrictlySortedIsUnique(less, a[1..], b[1..]);
      assert a == [a[0]] + a[1..] && b == [b[0]] + b[1..];
    }
  }

  lemma {:induction false} DistinctIffMultiplicityOne<T>(s: seq<T>)
    ensures NoDuplicates(s) <==> forall x :: x in s ==> multiset(s)[x] == 1
  {
    if s != [] {
      var last := |s| - 1;
      assert s == s[..last] + [s[last]];
      DistinctIffMultiplicityOne(s[..last]);
      assert multiset(s)[s[last]] == multiset(s[..last])[s[last]] + 1;
      assert NoDuplicates(s) <==> NoDuplicates(s[..last]) && s[last] !in s[..last];
      assert forall x :: x in s[..last] ==> x in s && multiset(s)[x] >= multiset(s[..last])[x] >= 1;
      assert s[last] in s;
    }
  }

  lemma DistinctConcat<T>(a: seq<T>, b: seq<T>)
    requires NoDuplicates(a) && NoDuplicates(b)
    requires forall x :: x in a ==> x !in b
    ensures NoDuplicates(a + b)
  {
    forall i, j | 0 <= i < j < |a + b| ensures (a + b)[i] != (a + b)[j] {
      if i < |a| <= j { assert a[i] in a && b[j - |a|] in b; }
    }
  }

  /** Every two different elements of `s` are ordered one way or the other. */
  ghost predicate Comparable<T>(less: (T, T) -> bool, s: seq<T>) {
    forall x, y :: x in s && y in s && x != y ==> less(x, y) || less(y, x)
  }

  lemma SortOfDistinct<T(!new)>(less: (T, T) -> bool, s: seq<T>, sorted: seq<T>)
    requires StrictWeakOrder(less) && NoDuplicates(s) && Comparable(less, s)
    requires StrictlySorted(less, sorted) && forall x :: x in sorted <==> x in s
    ensures StableSort(less, s) == sorted
  {
    SortIsStrict(less, s);
    StrictlySortedIsUnique(less, StableSort(less, s), sorted);
  }

  lemma SortedDistinctIsStrict<T>(less: (T, T) -> bool, r: seq<T>)
    requires Sorted(less, r) && NoDuplicates(r) && Comparable(less, r)
    ensures StrictlySorted(less, r)
  {
    forall i, j | 0 <= i < j < |r| ensures less(r[i], r[j]) {
      assert r[i] in r && r[j] in r;
    }
  }

  /** Sorting distinct elements lists each of them once, in strictly increasing order. */
  lemma SortIsStrict<T(!new)>(less: (T, T) -> bool, s: seq<T>)
    requires StrictWeakOrder(less) && NoDuplicates(s) && Comparable(less, s)
    ensures StrictlySorted(less, StableSort(less, s))
    ensures NoDuplicates(StableSort(less, s))
    ensures forall x :: x in StableSort(less, s) <==> x in s
  {
    var r := StableSort(less, s);
    StableSortSorts(less, s);
    SameElements(s, r);
    SortKeepsDistinct(less, s);
    SortedDistinctIsStrict(less, r);
  }

  lemma SortKeepsDistinct<T>(less: (T, T) -> bool, s: seq<T>)
    requires NoDuplicates(s)
    ensures NoDuplicates(StableSort(less, s))
  {
    SameElements(s, StableSort(less, s));
    DistinctIffMultiplicityOne(s);
    DistinctIffMultiplicityOne(StableSort(less, s));
  }

  /** Sorting forgets the order in which distinct elements were collected. */
  lemma SortForgetsOrder<T(!new)>(less: (T, T) -> bool, a: seq<T>, b: seq<T>)
    requires StrictWeakOrder(less)
    requires NoDuplicates(a) && NoDuplicates(b) && Comparable(less, a)
    requires forall x :: x in a <==> x in b
    ensures StableSort(less, a) == StableSort(less, b)
  {
    SortIsStrict(less, b);
    SortOfDistinct(less, a, StableSort(less, b));
  }

  /** Go's string order, which on UTF-8 is the order of code points. */
  predicate StringLess(a: string, b: string) {
    b != [] && (a == [] || a[0] < b[0] || (a[0] == b[0] && StringLess(a[1..], b[1..])))
  }

  /** Behind the first k characters, which they share, `a` ends or has the smaller one. */
  ghost predicate SplitsBelow(a: string, b: string, k: nat) {
    k <= |a| && k < |b| && a[..k] == b[..k] && (k == |a| || a[k] < b[k])
  }

  /** The order is that of the first difference. */
  lemma {:induction false} StringLessMeaning(a: string, b: string)
    ensures StringLess(a, b) <==> exists k: nat :: SplitsBelow(a, b, k)
  {
    if a == [] || b == [] || a[0] != b[0] {
      assert StringLess(a, b) ==> SplitsBelow(a, b, 0);
      if k: nat :| SplitsBelow(a, b, k) {
        assert k == 0;
      }
    } else {
      StringLessMeaning(a[1..], b[1..]);
      if k: nat :| SplitsBelow(a[1..], b[1..], k) {
        assert a[..k + 1] == [a[0]] + a[1..][..k] && b[..k + 1] == [b[0]] + b[1..][..k];
        assert SplitsBelow(a, b, k + 1);
      }
      if k: nat :| SplitsBelow(a, b, k) {
        assert k > 0;
        assert a[1..][..k - 1] == a[..k][1..] && b[1..][..k - 1] == b[..k][1..];
        assert SplitsBelow(a[1..], b[1..], k - 1);
      }
    }
  }

  lemma {:induction false} StringLessConnected(a: string, b: string)
    ensures !StringLess(a, a)
    ensures a == b || StringLess(a, b) || StringLess(b, a)
    ensures !(StringLess(a, b) && StringLess(b, a))
  {
    if a != [] && b != [] {
      StringLessConnected(a[1..], b[1..]);
      assert a == [a[0]] + a[1..] && b == [b[0]] + b[1..];
    } else if a != [] {
      StringLessConnected(a[1..], []);
    }
  }

  lemma {:induction false} StringLessTransitive(a: string, b: string, c: string)
    requires StringLess(a, b) && StringLess(b, c)
    ensures StringLess(a, c)
  {
    if a != [] && a[0] == b[0] == c[0] {
      StringLessTransitive(a[1..], b[1..], c[1..]);
    }
  }

  lemma StringLessIsStrictWeakOrder()
    ensures StrictWeakOrder(StringLess)
  {
    forall x, y ensures !StringLess(x, x) && (x == y || StringLess(x, y) || StringLess(y, x)) {
      StringLessConnected(x, y);
    }
    forall x, y, z | StringLess(x, y) && StringLess(y, z) ensures StringLess(x, z) {
      StringLessTransitive(x, y, z);
    }
  }

  lemma StringsAreComparable(s: seq<string>)
    ensures Comparable(StringLess, s)
  {
    forall x, y | x in s && y in s && x != y ensures StringLess(x, y) || StringLess(y, x) {
      StringLessConnected(x, y);
    }
  }

  /** `sort.Strings` on distinct strings. */
  lemma SortStringsIsStrict(s: seq<string>)
    requires NoDuplicates(s)
    ensures StrictlySorted(StringLess, StableSort(StringLess, s))
    ensures NoDuplicates(StableSort(StringLess, s))
    ensures forall x :: x in StableSort(StringLess, s) <==> x in s
  {
    StringLessIsStrictWeakOrder();
    StringsAreComparable(s);
    SortIsStrict(StringLess, s);
  }

  lemma SortStringsForgetsOrder(a: seq<string>, b: seq<string>)
    requires NoDuplicates(a) && NoDuplicates(b)
    requires forall x :: x in a <==> x in b
    ensures StableSort(StringLess, a) == StableSort(StringLess, b)
  {
    StringLessIsStrictWeakOrder();
    StringsAreComparable(a);
    SortForgetsOrder(StringLess, a, b);
  }
}

/** First match and filter over a sequence, the shape of every lookup loop in the router. */
module Scanning {
  import opened Text

  ghost function First<T>(p: T -> bool, s: seq<T>): Option<T> {
    if s == [] then None
    else
      var front := First(p, s[..|s| - 1]);
      if front.Some? then front else if p(s[|s| - 1]) then Some(s[|s| - 1]) else None
  }

  ghost predicate IsFirst<T>(p: T -> bool, s: seq<T>, i: nat) {
    i < |s| && p(s[i]) && forall j :: 0 <= j < i ==> !p(s[j])
  }

  ghost predicate NoneOf<T>(p: T -> bool, s: seq<T>) {
    forall j :: 0 <= j < |s| ==> !p(s[j])
  }

  /** `First` is the element at the least index that passes the test. */
  lemma {:induction false} FirstMeaning<T>(p: T -> bool, s: seq<T>)
    ensures First(p, s).None? <==> NoneOf(p, s)
    ensures First(p, s).Some? ==> exists i: nat :: IsFirst(p, s, i) && s[i] == First(p, s).value
  {
    if s != [] {
      var n := |s| - 1;
      FirstMeaning(p, s[..n]);
      assert forall j :: 0 <= j < n ==> s[j] == s[..n][j];
      if First(p, s[..n]).Some? {
        var i: nat :| IsFirst(p, s[..n], i) && s[..n][i] == First(p, s[..n]).value;
        assert IsFirst(p, s, i);
      } else {
        assert forall j :: 0 <= j < n ==> !p(s[..n][j]);
        assert p(s[n]) ==> IsFirst(p, s, n);
      }
    }
  }

  lemma FirstIs<T>(p: T -> bool, s: seq<T>, i: nat)
    requires IsFirst(p, s, i)
    ensures First(p, s) == Some(s[i])
  {
    FirstMeaning(p, s);
    assert !NoneOf(p, s);
    var k: nat :| IsFirst(p, s, k) && s[k] == First(p, s).value;
    assert k == i;
  }

  lemma FirstIsMember<T>(p: T -> bool, s: seq<T>)
    ensures First(p, s).Some? ==> First(p, s).value in s && p(First(p, s).value)
  {
    FirstMeaning(p, s);
  }

  ghost function Filter<T>(p: T -> bool, s: seq<T>): seq<T> {
    if s == [] then []
    else if p(s[|s| - 1]) then Filter(p, s[..|s| - 1]) + [s[|s| - 1]] else Filter(p, s[..|s| - 1])
  }

  lemma {:induction false} FilterMeaning<T>(p: T -> bool, s: seq<T>)
    ensures forall x :: x in Filter(p, s) <==> x in s && p(x)
  {
    if s != [] {
      FilterMeaning(p, s[..|s| - 1]);
      assert s == s[..|s| - 1] + [s[|s| - 1]];
    }
  }

  /** Filtering first and testing later finds what testing both at once finds. */
  lemma {:induction false} FirstOfFilter<T>(p: T -> bool, q: T -> bool, both: T -> bool, s: seq<T>)
    requires forall x :: x in s ==> (both(x) <==> p(x) && q(x))
    ensures First(q, Filter(p, s)) == First(both, s)
  {
    if s != [] {
      var front := Filter(p, s[..|s| - 1]);
      FirstOfFilter(p, q, both, s[..|s| - 1]);
      assert (front + [s[|s| - 1]])[..|front|] == front;
      assert s[|s| - 1] in s;
    }
  }

  lemma FirstOfSnoc<T>(p: T -> bool, s: seq<T>, x: T)
    ensures First(p, s + [x]) == var front := First(p, s); if front.Some? then front else if p(x) then Some(x) else None
  {
    assert (s + [x])[..|s|] == s;
  }
}

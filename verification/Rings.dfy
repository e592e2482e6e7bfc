/** The circular write shared by the two in-memory stores of cdr_storage.go. */
module Rings {
  import opened Numbers

  datatype Ring<T> = Ring(slots: seq<T>, ind: nat, end: nat)

  ghost predicate Valid<T>(r: Ring<T>) { r.end < |r.slots| && r.ind <= |r.slots| }

  function Fresh<T>(size: nat, zero: T): Ring<T> { Ring(seq(size, _ => zero), 0, 0) }

  function Put<T>(r: Ring<T>, x: T): (r': Ring<T>)
    requires Valid(r)
    ensures Valid(r') && |r'.slots| == |r.slots|
  {
    var i := if r.ind == |r.slots| then 0 else r.ind;
    Ring(r.slots[i := x], i + 1, i)
  }

  function PutAll<T>(r: Ring<T>, xs: seq<T>): (r': Ring<T>)
    requires Valid(r)
    ensures Valid(r') && |r'.slots| == |r.slots|
  {
    if xs == [] then r else Put(PutAll(r, xs[..|xs| - 1]), xs[|xs| - 1])
  }

  lemma {:induction false} PutAllAppend<T>(r: Ring<T>, xs: seq<T>, ys: seq<T>)
    requires Valid(r)
    ensures PutAll(PutAll(r, xs), ys) == PutAll(r, xs + ys)
  {
    if ys == [] {
      assert xs + ys == xs;
    } else {
      PutAllAppend(r, xs, ys[..|ys| - 1]);
      assert (xs + ys)[..|xs + ys| - 1] == xs + ys[..|ys| - 1];
    }
  }

  /** Going one further around the ring either returns to the slot or moves one away from it. */
  lemma NextDistance(d: int, n: nat)
    requires n > 0
    ensures (d + 1) % n == if d % n + 1 == n then 0 else d % n + 1
  {
    var q, r := d / n, d % n;
    assert d == q * n + r;
    if r + 1 == n {
      assert d + 1 == (q + 1) * n + 0;
      DivisionUnique(d + 1, n, q + 1, 0);
    } else {
      DivisionUnique(d + 1, n, q, r + 1);
    }
  }

  /** The position after k writes to a fresh ring. */
  lemma {:induction false} PositionAfter<T>(size: nat, zero: T, xs: seq<T>)
    requires size > 0
    ensures var r := PutAll(Fresh(size, zero), xs);
            xs != [] ==> r.end == (|xs| - 1) % size && r.ind == r.end + 1
  {
    if |xs| > 1 {
      PositionAfter(size, zero, xs[..|xs| - 1]);
      NextDistance(|xs| - 2, size);
    } else if |xs| == 1 {
      assert PutAll(Fresh(size, zero), xs[..0]) == Fresh(size, zero);
      DivisionUnique(0, size, 0, 0);
    }
  }

  lemma DistanceBound(d: nat, n: nat)
    requires n > 0
    ensures 0 <= d % n <= d
  {
    assert d == d / n * n + d % n;
    assert d / n * n >= 0;
  }

  /** Write number m lands on slot i exactly when the distance from i to m is a whole number of turns. */
  lemma SlotIsHit(m: nat, i: nat, n: nat)
    requires i < n
    ensures m % n == i <==> (m - i) % n == 0
  {
    var q, r := m / n, m % n;
    assert m == q * n + r;
    if r >= i {
      DivisionUnique(m - i, n, q, r - i);
    } else {
      assert m - i == (q - 1) * n + (n + r - i);
      DivisionUnique(m - i, n, q - 1, n + r - i);
    }
  }

  /** The number of the newest of k writes that landed on slot i. */
  function Newest(k: nat, size: nat, i: nat): (m: nat)
    requires i < size && i < k
    ensures m < k
  {
    DistanceBound(k - 1 - i, size);
    k - 1 - (k - 1 - i) % size
  }

  lemma NewestStep(k: nat, size: nat, i: nat)
    requires i < size && i < k
    ensures (k - 1) % size == i ==> Newest(k, size, i) == k - 1
    ensures (k - 1) % size != i ==> i < k - 1 && Newest(k, size, i) == Newest(k - 1, size, i)
  {
    SlotIsHit(k - 1, i, size);
    NextDistance(k - 2 - i, size);
    if i == k - 1 { DivisionUnique(i, size, 0, i); }
  }

  /** Every slot holds the newest write that landed on it, or is untouched. */
  lemma {:induction false} SlotAfter<T>(size: nat, zero: T, xs: seq<T>, i: nat)
    requires i < size
    ensures PutAll(Fresh(size, zero), xs).slots[i] == if i < |xs| then xs[Newest(|xs|, size, i)] else zero
  {
    if xs != [] {
      SlotAfter(size, zero, xs[..|xs| - 1], i);
      PositionAfter(size, zero, xs);
      if i < |xs| {
        NewestStep(|xs|, size, i);
      } else {
        DistanceBound(|xs| - 1, size);
      }
    }
  }

  /** Up to the slot of the last write, the newest writes are consecutive. */
  lemma NewestInLowSlots(k: nat, size: nat, i: nat)
    requires 0 < size && 0 < k && i <= (k - 1) % size
    ensures i < size && i < k && Newest(k, size, i) == k - 1 - (k - 1) % size + i
  {
    var q, end := (k - 1) / size, (k - 1) % size;
    DistanceBound(k - 1, size);
    assert k - 1 == q * size + end;
    DivisionUnique(k - 1 - i, size, q, end - i);
  }

  // ---- Writing ahead of a reader ----

  /** How many writes it takes to reach slot j, from 0. */
  function Ahead<T>(r: Ring<T>, j: nat): (d: nat)
    requires Valid(r)
    ensures d < |r.slots|
  {
    (j - r.ind) % |r.slots|
  }

  lemma PutMovesCloser<T>(r: Ring<T>, x: T, j: nat)
    requires Valid(r) && j < |r.slots| && Ahead(r, j) > 0
    ensures Put(r, x).slots[j] == r.slots[j] && Ahead(Put(r, x), j) == Ahead(r, j) - 1
  {
    var n := |r.slots|;
    var start := if r.ind == n then 0 else r.ind;
    if r.ind == n {
      assert j - n == -1 * n + j;
      DivisionUnique(j - n, n, -1, j);
      DivisionUnique(j, n, 0, j);
    }
    assert Ahead(r, j) == (j - start) % n;
    assert 0 % n == 0;
    NextDistance(j - start - 1, n);
  }

  /** A slot survives as many writes as lie between the write position and it. */
  lemma {:induction false} PutAllSpares<T>(r: Ring<T>, xs: seq<T>, j: nat)
    requires Valid(r) && j < |r.slots| && |xs| <= Ahead(r, j)
    ensures PutAll(r, xs).slots[j] == r.slots[j]
    ensures Ahead(PutAll(r, xs), j) == Ahead(r, j) - |xs|
  {
    if xs != [] {
      PutAllSpares(r, xs[..|xs| - 1], j);
      PutMovesCloser(PutAll(r, xs[..|xs| - 1]), xs[|xs| - 1], j);
    }
  }
}

/** The table of agent connections of flow_rpc.go: bounded slices with deletion in place. */
module FlowConnections {
  import opened Sorting
  import opened Text

  type Conn = nat

  const MAX_CONNECTIONS := 2

  function Without(s: seq<Conn>, c: Conn): (r: seq<Conn>)
    ensures forall x :: x in r <==> x in s && x != c
    ensures |r| <= |s| && (c !in s ==> r == s)
  {
    if s == [] then []
    else
      var front, last := Without(s[..|s| - 1], c), s[|s| - 1];
      assert s == s[..|s| - 1] + [last];
      if last == c then front else front + [last]
  }

  lemma {:induction false} WithoutOne(s: seq<Conn>, i: nat)
    requires NoDuplicates(s) && i < |s|
    ensures Without(s, s[i]) == s[..i] + s[i + 1..]
  {
    var n := |s| - 1;
    if i == n {
      assert s[i] !in s[..n];
      assert s[i + 1..] == [];
    } else {
      WithoutOne(s[..n], i);
      assert s[..i] + s[i + 1..] == s[..n][..i] + s[..n][i + 1..] + [s[n]];
    }
  }

  lemma {:induction false} WithoutKeepsDistinct(s: seq<Conn>, c: Conn)
    requires NoDuplicates(s)
    ensures NoDuplicates(Without(s, c))
  {
    if s != [] {
      WithoutKeepsDistinct(s[..|s| - 1], c);
      assert s[|s| - 1] !in s[..|s| - 1];
    }
  }

  /** A Go slice: a backing array shared by every header that aliases it, and a length. */
  class ConnectionSlice {
    const buf: array<Conn>
    var len: nat

    ghost predicate Valid()
      reads this, buf
    {
      len <= buf.Length && NoDuplicates(buf[..len])
    }

    constructor (capacity: nat)
      ensures Valid() && fresh(buf) && buf.Length == capacity && len == 0
    {
      buf := new Conn[capacity](_ => 0);
      len := 0;
    }

    /** Admission: refused when full, else appended in place, so the capacity never grows. */
    method Add(c: Conn) returns (admitted: bool)
      requires Valid() && c !in buf[..len]
      modifies this, buf
      ensures Valid() && admitted == (old(len) < buf.Length)
      ensures buf[..len] == if admitted then old(buf[..len]) + [c] else old(buf[..len])
    {
      if len == buf.Length {
        return false;
      }
      buf[len] := c;
      len := len + 1;
      assert buf[..len - 1] == old(buf[..len]);
      return true;
    }

    /** Go's `append(conns[:i], conns[i+1:]...)` on one backing array: the tail moves left over the cut. */
    method CutOut(i: nat)
      requires i < len <= buf.Length
      modifies this`len, buf
      ensures len == old(len) - 1
      ensures buf[..len] == old(buf[..i]) + old(buf[i + 1..len])
      ensures buf[len] == old(buf[len - 1])
    {
      forall k | i <= k < len - 1 {
        buf[k] := buf[k + 1];
      }
      len := len - 1;
    }

    /**
     `range` keeps the length it started with and reads the shared array, while each
     match shifts the array left under it and shortens only the local header.
     */
    method Delete(c: Conn)
      requires Valid()
      modifies this, buf
      ensures Valid()
      ensures buf[..len] == Without(old(buf[..len]), c)
    {
      ghost var was := buf[..len];
      ghost var hit: Option<nat> := None;
      var ranged := len;
      for i := 0 to ranged
        invariant hit.None? ==> len == ranged && buf[..ranged] == was && c !in was[..i]
        invariant hit.Some? ==> hit.value < i && was[hit.value] == c
        invariant hit.Some? ==> len == ranged - 1 && buf[..len] == was[..hit.value] + was[hit.value + 1..]
        invariant hit.Some? && i < ranged ==> buf[ranged - 1] == was[ranged - 1]
        invariant hit.Some? ==> forall k :: i <= k < ranged ==> buf[k] != c
      {
        if buf[i] == c {
          assert hit.None?;
          CutOut(i);
          hit := Some(i);
        }
      }
      if hit.Some? {
        WithoutOne(was, hit.value);
      } else {
        assert was[..ranged] == was;
      }
      WithoutKeepsDistinct(was, c);
    }
  }

  // ---- Any run of connects and disconnects ----

  datatype Event =
    | Connect(endpoint: string, conn: Conn, configured: bool, upgraded: bool)
    | Disconnect(endpoint: string, conn: Conn)

  type Table = map<string, seq<Conn>>

  function Listed(t: Table, endpoint: string): seq<Conn> { if endpoint in t then t[endpoint] else [] }

  predicate Admits(t: Table, e: Event) {
    e.Connect? && e.configured && |Listed(t, e.endpoint)| < MAX_CONNECTIONS && e.upgraded
  }

  function Step(t: Table, e: Event): Table {
    match e
    case Connect(endpoint, conn, _, _) => if Admits(t, e) then t[endpoint := Listed(t, endpoint) + [conn]] else t
    case Disconnect(endpoint, conn) => if endpoint in t then t[endpoint := Without(t[endpoint], conn)] else t
  }

  function Run(events: seq<Event>): Table {
    if events == [] then map[] else Step(Run(events[..|events| - 1]), events[|events| - 1])
  }

  /** Every connection is a new object: no two connects carry the same one. */
  ghost predicate FreshConnections(events: seq<Event>) {
    forall i, j :: 0 <= i < j < |events| && events[i].Connect? && events[j].Connect? ==>
      events[i].conn != events[j].conn
  }

  /** The i-th event admitted the connection and no later one deletes it. */
  ghost predicate AliveSince(events: seq<Event>, endpoint: string, c: Conn, i: nat) {
    && i < |events|
    && events[i].Connect? && events[i].endpoint == endpoint && events[i].conn == c
    && Admits(Run(events[..i]), events[i])
    && forall j :: i < j < |events| ==> events[j] != Disconnect(endpoint, c)
  }

  ghost predicate Alive(events: seq<Event>, endpoint: string, c: Conn) {
    exists i: nat :: AliveSince(events, endpoint, c, i)
  }

  lemma AliveSinceSnoc(events: seq<Event>, endpoint: string, c: Conn, i: nat)
    requires i < |events| - 1
    ensures AliveSince(events, endpoint, c, i)
       <==> AliveSince(events[..|events| - 1], endpoint, c, i) && events[|events| - 1] != Disconnect(endpoint, c)
  {
    var front := events[..|events| - 1];
    assert front[..i] == events[..i] && front[i] == events[i];
    assert forall j :: i < j < |front| ==> front[j] == events[j];
  }

  lemma AliveSnoc(events: seq<Event>, endpoint: string, c: Conn)
    requires events != []
    ensures var n := |events| - 1;
            (Alive(events, endpoint, c)
             <==> || (Alive(events[..n], endpoint, c) && events[n] != Disconnect(endpoint, c))
                  || AliveSince(events, endpoint, c, n))
  {
    var n := |events| - 1;
    if Alive(events, endpoint, c) {
      var i: nat :| AliveSince(events, endpoint, c, i);
      if i < n { AliveSinceSnoc(events, endpoint, c, i); }
    }
    if Alive(events[..n], endpoint, c) && events[n] != Disconnect(endpoint, c) {
      var i: nat :| AliveSince(events[..n], endpoint, c, i);
      AliveSinceSnoc(events, endpoint, c, i);
    }
  }

  /** Each endpoint's list is duplicate-free, at most two long, and holds exactly the live connections. */
  lemma {:induction false} ListsHoldLiveConnections(events: seq<Event>, endpoint: string)
    requires FreshConnections(events)
    ensures var l := Listed(Run(events), endpoint);
            && NoDuplicates(l) && |l| <= 2
            && forall c :: c in l <==> Alive(events, endpoint, c)
  {
    if events != [] {
      var n := |events| - 1;
      var before := Listed(Run(events[..n]), endpoint);
      ListsHoldLiveConnections(events[..n], endpoint);
      forall c ensures c in Listed(Run(events), endpoint) <==> Alive(events, endpoint, c) {
        AliveSnoc(events, endpoint, c);
      }
      var e := events[n];
      if e.endpoint == endpoint {
        if e.Connect? {
          assert !Alive(events[..n], endpoint, e.conn);
        } else {
          WithoutKeepsDistinct(before, e.conn);
        }
      }
    }
  }

  /** A connection is admitted exactly when its endpoint is configured, it upgrades, and no two others are live. */
  lemma AdmittedIff(events: seq<Event>, e: Event)
    requires FreshConnections(events) && e.Connect?
    ensures Admits(Run(events), e) <==>
              && e.configured && e.upgraded
              && forall a, b :: Alive(events, e.endpoint, a) && Alive(events, e.endpoint, b) ==> a == b
  {
    var l := Listed(Run(events), e.endpoint);
    ListsHoldLiveConnections(events, e.endpoint);
    if |l| >= 2 {
      assert l[0] in l && l[1] in l && l[0] != l[1];
    }
  }
}

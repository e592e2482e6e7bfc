/**
 The SIP trace ring of cdr_storage.go. The search drops the lock around each
 callback, so other goroutines may write any number of traces meanwhile.
 */
module TraceStorage {
  import opened Rings
  import opened Text

  datatype Trace = Trace(callId: string, originatorCallId: string, msg: string)

  const UNSET := Trace("", "", "")

  predicate Concerns(v: Trace, callId: string) { v.callId == callId || v.originatorCallId == callId }

  /** A callback: the slot it was read from and the trace handed over. */
  datatype Delivery = Delivery(slot: nat, trace: Trace)

  /** What a search hands over, the ring it leaves behind, and how many traces were written meanwhile. */
  datatype Outcome = Outcome(deliveries: seq<Delivery>, ring: Ring<Trace>, written: nat)

  /** The traces written during the first of the remaining callbacks. */
  function Meanwhile(env: seq<seq<Trace>>): seq<Trace> { if env == [] then [] else env[0] }

  function Later(env: seq<seq<Trace>>): seq<seq<Trace>> { if env == [] then [] else env[1..] }

  /** The scan from slot i on, with `env` listing what is written during each callback to come. */
  function ScanFrom(r: Ring<Trace>, i: nat, callId: string, env: seq<seq<Trace>>): Outcome
    requires Valid(r)
    decreases |r.slots| - i
  {
    if i >= |r.slots| then Outcome([], r, 0)
    else if Concerns(r.slots[i], callId) then
      var rest := ScanFrom(PutAll(r, Meanwhile(env)), i + 1, callId, Later(env));
      Outcome([Delivery(i, r.slots[i])] + rest.deliveries, rest.ring, |Meanwhile(env)| + rest.written)
    else ScanFrom(r, i + 1, callId, env)
  }

  /** The ring as it is when slot j is read, the scan standing at slot i. */
  function RingAt(r: Ring<Trace>, i: nat, j: nat, callId: string, env: seq<seq<Trace>>): (r': Ring<Trace>)
    requires Valid(r) && i <= j < |r.slots|
    ensures Valid(r') && |r'.slots| == |r.slots|
    decreases j - i
  {
    if i == j then r
    else if Concerns(r.slots[i], callId) then RingAt(PutAll(r, Meanwhile(env)), i + 1, j, callId, Later(env))
    else RingAt(r, i + 1, j, callId, env)
  }

  /** Deliveries come in slot order, so no slot is delivered twice and there are at most N of them. */
  lemma {:induction false} DeliveriesAscend(r: Ring<Trace>, i: nat, callId: string, env: seq<seq<Trace>>)
    requires Valid(r) && i <= |r.slots|
    ensures var d := ScanFrom(r, i, callId, env).deliveries;
            && |d| <= |r.slots| - i
            && (forall a :: 0 <= a < |d| ==> i <= d[a].slot < |r.slots|)
            && (forall a, b :: 0 <= a < b < |d| ==> d[a].slot < d[b].slot)
    decreases |r.slots| - i
  {
    if i < |r.slots| {
      if Concerns(r.slots[i], callId) {
        DeliveriesAscend(PutAll(r, Meanwhile(env)), i + 1, callId, Later(env));
      } else {
        DeliveriesAscend(r, i + 1, callId, env);
      }
    }
  }

  /** A slot is delivered exactly when what it holds at the moment it is read matches, and that is what is delivered. */
  lemma {:induction false} DeliveredIff(r: Ring<Trace>, i: nat, j: nat, callId: string, env: seq<seq<Trace>>, v: Trace)
    requires Valid(r) && i <= j < |r.slots|
    ensures Delivery(j, v) in ScanFrom(r, i, callId, env).deliveries
       <==> v == RingAt(r, i, j, callId, env).slots[j] && (v.callId == callId || v.originatorCallId == callId)
    decreases j - i
  {
    var stopped := Concerns(r.slots[i], callId);
    var next := if stopped then PutAll(r, Meanwhile(env)) else r;
    var env' := if stopped then Later(env) else env;
    DeliveriesAscend(next, i + 1, callId, env');
    if i < j {
      DeliveredIff(next, i + 1, j, callId, env', v);
    }
  }

  /** All that is written during the first m callbacks. */
  function WrittenIn(env: seq<seq<Trace>>, m: nat): seq<Trace> { Joined(if m < |env| then env[..m] else env) }

  lemma WrittenInStep(r: Ring<Trace>, env: seq<seq<Trace>>, m: nat)
    requires Valid(r)
    ensures PutAll(PutAll(r, Meanwhile(env)), WrittenIn(Later(env), m)) == PutAll(r, WrittenIn(env, m + 1))
  {
    if env == [] {
      assert WrittenIn(env, m + 1) == [];
    } else {
      var rest := if m < |env| - 1 then env[1..][..m] else env[1..];
      JoinedCons(env[0], rest);
      assert (if m + 1 < |env| then env[..m + 1] else env) == [env[0]] + rest;
      PutAllAppend(r, env[0], Joined(rest));
    }
  }

  /** The m deliveries before are of earlier slots, and the next is of slot j if and only if what it holds matches. */
  ghost predicate IsNext(d: seq<Delivery>, m: nat, j: nat, v: Trace, callId: string) {
    && m <= |d| && (forall a :: 0 <= a < m ==> d[a].slot < j) && (forall a :: m <= a < |d| ==> j <= d[a].slot)
    && (v.callId == callId || v.originatorCallId == callId <==> m < |d| && d[m] == Delivery(j, v))
  }

  lemma IsNextCons(first: Delivery, d: seq<Delivery>, m: nat, j: nat, v: Trace, callId: string)
    requires IsNext(d, m, j, v, callId) && first.slot < j
    ensures IsNext([first] + d, m + 1, j, v, callId)
  {
  }

  /** Slot j is read after exactly what was written during the m callbacks for the slots before it. */
  lemma {:induction false} SlotIsReadOnce(r: Ring<Trace>, i: nat, j: nat, callId: string, env: seq<seq<Trace>>)
    returns (m: nat)
    requires Valid(r) && i <= j < |r.slots|
    ensures RingAt(r, i, j, callId, env) == PutAll(r, WrittenIn(env, m))
    ensures IsNext(ScanFrom(r, i, callId, env).deliveries, m, j, PutAll(r, WrittenIn(env, m)).slots[j], callId)
    decreases j - i
  {
    var stops := Concerns(r.slots[i], callId);
    var next, env' := if stops then PutAll(r, Meanwhile(env)) else r, if stops then Later(env) else env;
    var rest := ScanFrom(next, i + 1, callId, env').deliveries;
    if i == j {
      m := 0;
      DeliveriesAscend(next, i + 1, callId, env');
      assert WrittenIn(env, 0) == [];
    } else {
      m := SlotIsReadOnce(next, i + 1, j, callId, env');
      if stops {
        WrittenInStep(r, env, m);
        IsNextCons(Delivery(i, r.slots[i]), rest, m, j, PutAll(next, WrittenIn(env', m)).slots[j], callId);
        m := m + 1;
      }
    }
  }

  /** The search leaves behind the ring with all that was written during its callbacks, and nothing else. */
  lemma {:induction false} RingAfterScan(r: Ring<Trace>, i: nat, callId: string, env: seq<seq<Trace>>)
    requires Valid(r)
    ensures var o := ScanFrom(r, i, callId, env); o.ring == PutAll(r, WrittenIn(env, |o.deliveries|))
    decreases |r.slots| - i
  {
    if i >= |r.slots| {
      assert WrittenIn(env, 0) == [];
    } else if Concerns(r.slots[i], callId) {
      var next := PutAll(r, Meanwhile(env));
      var o, rest := ScanFrom(r, i, callId, env), ScanFrom(next, i + 1, callId, Later(env));
      assert o.ring == rest.ring && |o.deliveries| == |rest.deliveries| + 1;
      RingAfterScan(next, i + 1, callId, Later(env));
      WrittenInStep(r, env, |rest.deliveries|);
    } else {
      RingAfterScan(r, i + 1, callId, env);
    }
  }

  /** A matching trace that stays in its slot until it is read is delivered exactly once. */
  lemma StableTraceIsDeliveredOnce(r: Ring<Trace>, j: nat, callId: string, env: seq<seq<Trace>>)
    requires Valid(r) && j < |r.slots| && Concerns(r.slots[j], callId)
    requires RingAt(r, 0, j, callId, env).slots[j] == r.slots[j]
    ensures var d := ScanFrom(r, 0, callId, env).deliveries;
            exists a :: 0 <= a < |d| && d[a] == Delivery(j, r.slots[j])
                        && forall b :: 0 <= b < |d| && d[b].slot == j ==> b == a
  {
    var d := ScanFrom(r, 0, callId, env).deliveries;
    DeliveredIff(r, 0, j, callId, env, r.slots[j]);
    DeliveriesAscend(r, 0, callId, env);
    var a :| 0 <= a < |d| && d[a] == Delivery(j, r.slots[j]);
    assert forall b :: 0 <= b < |d| && d[b].slot == j ==> b == a;
  }

  /** Few enough writes during the scan leave a slot as it was. */
  lemma {:induction false} FewWritesSpareTheSlot(r: Ring<Trace>, i: nat, j: nat, callId: string, env: seq<seq<Trace>>)
    requires Valid(r) && i <= j < |r.slots|
    requires ScanFrom(r, i, callId, env).written <= Ahead(r, j)
    ensures RingAt(r, i, j, callId, env).slots[j] == r.slots[j]
    decreases j - i
  {
    if i < j {
      if Concerns(r.slots[i], callId) {
        PutAllSpares(r, Meanwhile(env), j);
        FewWritesSpareTheSlot(PutAll(r, Meanwhile(env)), i + 1, j, callId, Later(env));
      } else {
        FewWritesSpareTheSlot(r, i + 1, j, callId, env);
      }
    }
  }

  /** So every matching trace further ahead of the write position than the writes made is delivered. */
  lemma FewWritesDeliver(r: Ring<Trace>, j: nat, callId: string, env: seq<seq<Trace>>)
    requires Valid(r) && j < |r.slots| && Concerns(r.slots[j], callId)
    requires ScanFrom(r, 0, callId, env).written <= Ahead(r, j)
    ensures Delivery(j, r.slots[j]) in ScanFrom(r, 0, callId, env).deliveries
  {
    FewWritesSpareTheSlot(r, 0, j, callId, env);
    DeliveredIff(r, 0, j, callId, env, r.slots[j]);
  }

  class SipTracerMemoryStorage {
    const data: array<Trace>
    var ind: nat
    var end: nat

    ghost predicate Valid()
      reads this, data
    {
      end < data.Length && ind <= data.Length
    }

    ghost function Contents(): (r: Ring<Trace>)
      requires Valid()
      reads this, data
      ensures Rings.Valid(r)
    {
      Ring(data[..], ind, end)
    }

    constructor (size: nat)
      requires size > 0
      ensures Valid() && fresh(data) && Contents() == Fresh(size, UNSET)
    {
      data := new Trace[size](_ => UNSET);
      ind, end := 0, 0;
      new;
      assert data[..] == Fresh<Trace>(size, UNSET).slots;
    }

    method WriteTrace(trace: Trace)
      requires Valid()
      modifies this, data
      ensures Valid() && Contents() == Put(old(Contents()), trace)
    {
      if ind == data.Length {
        ind := 0;
      }
      data[ind] := trace;
      end := ind;
      ind := ind + 1;
      assert data[..] == old(data[..])[end := trace];
    }

    /** The lock is free during the callback: these are the writes of the other goroutines. */
    method Interfere(traces: seq<Trace>)
      requires Valid()
      modifies this, data
      ensures Valid() && Contents() == PutAll(old(Contents()), traces)
    {
      for k := 0 to |traces|
        invariant Valid() && Contents() == PutAll(old(Contents()), traces[..k])
      {
        assert traces[..k + 1][..k] == traces[..k];
        WriteTrace(traces[k]);
      }
      assert traces[..|traces|] == traces;
    }

    method SIPTraceFind(callId: string, env: seq<seq<Trace>>) returns (deliveries: seq<Delivery>)
      requires Valid()
      modifies this, data
      ensures Valid()
      ensures deliveries == ScanFrom(old(Contents()), 0, callId, env).deliveries
      ensures Contents() == ScanFrom(old(Contents()), 0, callId, env).ring
    {
      deliveries := [];
      var pending := env;
      var i := 0;
      while i < data.Length
        invariant Valid() && i <= data.Length
        invariant ScanFrom(old(Contents()), 0, callId, env).deliveries
               == deliveries + ScanFrom(Contents(), i, callId, pending).deliveries
        invariant ScanFrom(old(Contents()), 0, callId, env).ring == ScanFrom(Contents(), i, callId, pending).ring
      {
        var v := data[i];
        if v.callId == callId || v.originatorCallId == callId {
          ghost var before := Contents();
          deliveries := deliveries + [Delivery(i, v)];
          Interfere(Meanwhile(pending));
          assert ScanFrom(before, i, callId, pending).deliveries
              == [Delivery(i, v)] + ScanFrom(Contents(), i + 1, callId, Later(pending)).deliveries;
          pending := Later(pending);
        }
        i := i + 1;
      }
    }
  }
}

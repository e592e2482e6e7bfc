/** The in-memory call detail log of cdr_storage.go: a circular array with a filtered newest-first read. */
module CdrStorage {
  import opened Numbers
  import opened Rings
  import opened Scanning
  import opened Text

  /** Times count from Go's zero time, so 0 is `time.Time{}`. */
  datatype Cdr = Cdr(
    callId: string, originatorCallId: string, startTime: int, callerId: string, calleeId: string,
    startTimeFormatted: string)

  const UNSET := Cdr("", "", 0, "", "", "")

  datatype ReadOptions = ReadOptions(
    fromTime: int, toTime: int, from: string, to: string, callId: string, originatorCallId: string)

  /** The originator filter looks at the record's own call ID, as the code does. */
  predicate Matches(d: Cdr, o: ReadOptions) {
    && (o.fromTime != 0 && o.toTime != 0 ==> o.fromTime <= d.startTime <= o.toTime)
    && (o.from == "" || HasSubstring(d.callerId, o.from))
    && (o.to == "" || HasSubstring(d.calleeId, o.to))
    && (o.callId == "" || HasSubstring(d.callId, o.callId))
    && (o.originatorCallId == "" || HasSubstring(d.callId, o.originatorCallId))
  }

  /** `sub` occurs in `s`. */
  ghost predicate Holds(s: string, sub: string) { exists a, b :: IsMadeOf(s, a, sub, b) }

  ghost predicate InPeriod(d: Cdr, o: ReadOptions) {
    o.fromTime != 0 && o.toTime != 0 ==> o.fromTime <= d.startTime && d.startTime <= o.toTime
  }

  /** The filter field by field, the originator being looked for in the record's own call ID. */
  ghost predicate Passes(d: Cdr, o: ReadOptions) {
    && InPeriod(d, o) && Holds(d.callerId, o.from) && Holds(d.calleeId, o.to)
    && Holds(d.callId, o.callId) && Holds(d.callId, o.originatorCallId)
  }

  /** What the options ask for. */
  ghost predicate Asked(d: Cdr, o: ReadOptions) {
    && InPeriod(d, o) && Holds(d.callerId, o.from) && Holds(d.calleeId, o.to)
    && Holds(d.callId, o.callId) && Holds(d.originatorCallId, o.originatorCallId)
  }

  lemma HoldsIff(s: string, sub: string)
    ensures Holds(s, sub) <==> sub == "" || HasSubstring(s, sub)
  {
    SubstringMeaning(s, sub);
    assert IsMadeOf(s, "", "", s);
  }

  lemma MatchesIff(d: Cdr, o: ReadOptions)
    ensures Matches(d, o) <==> Passes(d, o)
  {
    HoldsIff(d.callerId, o.from);
    HoldsIff(d.calleeId, o.to);
    HoldsIff(d.callId, o.callId);
    HoldsIff(d.callId, o.originatorCallId);
  }

  predicate EmptyPeriod(o: ReadOptions) { o.fromTime != 0 && o.toTime != 0 && o.fromTime > o.toTime }

  /** The filter is the one asked for exactly when no originator is given or the period lets nothing through. */
  lemma FilterIsAsAskedIff(o: ReadOptions)
    ensures (forall d :: Matches(d, o) <==> Asked(d, o)) <==> o.originatorCallId == "" || EmptyPeriod(o)
  {
    if o.originatorCallId == "" || EmptyPeriod(o) {
      forall d ensures Matches(d, o) <==> Asked(d, o) {
        MatchesIff(d, o);
        if o.originatorCallId == "" {
          HoldsIff(d.callId, "");
          HoldsIff(d.originatorCallId, "");
        }
      }
    } else {
      var d := WrongRecord(o);
      assert Matches(d, o) && !Asked(d, o);
    }
  }

  /** A record with no originator that a search by originator nevertheless delivers. */
  lemma WrongRecord(o: ReadOptions) returns (d: Cdr)
    requires o.originatorCallId != "" && !EmptyPeriod(o)
    ensures Matches(d, o) && !Asked(d, o) && d.startTime != 0
  {
    d := Cdr(o.callId + o.originatorCallId, "", if o.fromTime == 0 then 1 else o.fromTime, o.from, o.to, "");
    assert HasPrefix(o.from[0..], o.from) && HasPrefix(o.to[0..], o.to);
    assert HasPrefix(d.callId[0..], o.callId) && HasPrefix(d.callId[|o.callId|..], o.originatorCallId);
    assert !Holds("", o.originatorCallId);
  }

  function Wanted(o: ReadOptions): Cdr -> bool { (d: Cdr) => Matches(d, o) }

  ghost function AskedBy(o: ReadOptions): Cdr -> bool { (d: Cdr) => Asked(d, o) }

  function Reversed<T>(s: seq<T>): (r: seq<T>)
    ensures |r| == |s|
    ensures forall i :: 0 <= i < |s| ==> r[i] == s[|s| - 1 - i]
  {
    if s == [] then [] else [s[|s| - 1]] + Reversed(s[..|s| - 1])
  }

  function Take<T>(s: seq<T>, n: nat): seq<T> { if |s| <= n then s else s[..n] }

  /** The matches among some records, newest first, up to the first record without a start time. */
  ghost function NewestMatches(p: Cdr -> bool, records: seq<Cdr>): seq<Cdr> {
    if records == [] || records[|records| - 1].startTime == 0 then []
    else
      var newest, older := records[|records| - 1], NewestMatches(p, records[..|records| - 1]);
      if p(newest) then [newest] + older else older
  }

  /** When every record has a start time, that is the filtered records in reverse. */
  lemma {:induction false} NewestMatchesIsReversedFilter(p: Cdr -> bool, records: seq<Cdr>)
    requires forall i :: 0 <= i < |records| ==> records[i].startTime != 0
    ensures NewestMatches(p, records) == Reversed(Filter(p, records))
  {
    if records != [] {
      NewestMatchesIsReversedFilter(p, records[..|records| - 1]);
      var older := Filter(p, records[..|records| - 1]);
      if p(records[|records| - 1]) {
        assert (older + [records[|records| - 1]])[..|older|] == older;
      }
    }
  }

  // ---- Which records a read selects, by their places ----

  /** The record and all newer ones have a start time. */
  ghost predicate SetFrom(records: seq<Cdr>, j: int) {
    forall i :: j <= i < |records| && i >= 0 ==> records[i].startTime != 0
  }

  /** All the places that qualify, from the highest down. */
  ghost predicate ListsDown(qualifies: nat -> bool, places: seq<nat>) {
    && (forall i, j :: 0 <= i < j < |places| ==> places[i] > places[j])
    && (forall i :: 0 <= i < |places| ==> qualifies(places[i]))
    && (forall k: nat :: qualifies(k) ==> k in places)
  }

  lemma ListsDownGrows(before: nat -> bool, now: nat -> bool, n: nat, places: seq<nat>)
    requires ListsDown(before, places)
    requires forall k: nat :: (before(k) ==> k < n) && (now(k) ==> k <= n) && (k < n ==> (now(k) <==> before(k)))
    ensures ListsDown(now, if now(n) then [n] + places else places)
  {
    var all := if now(n) then [n] + places else places;
    forall k: nat | now(k) ensures k in all {
      if k < n { assert k in places; }
    }
  }

  /** The record at this place passes and lies before the first unset one. */
  ghost function Selected(p: Cdr -> bool, records: seq<Cdr>): nat -> bool {
    (k: nat) => k < |records| && SetFrom(records, k) && p(records[k])
  }

  ghost predicate AreAt(found: seq<Cdr>, records: seq<Cdr>, places: seq<nat>) {
    |found| == |places| && forall i :: 0 <= i < |places| ==> places[i] < |records| && found[i] == records[places[i]]
  }

  lemma {:induction false} NewestMatchesMeaning(p: Cdr -> bool, records: seq<Cdr>) returns (places: seq<nat>)
    ensures ListsDown(Selected(p, records), places) && AreAt(NewestMatches(p, records), records, places)
  {
    if records == [] || records[|records| - 1].startTime == 0 {
      places := [];
      NothingSelected(p, records);
    } else {
      var n := |records| - 1;
      places := NewestMatchesMeaning(p, records[..n]);
      SelectedOfFront(p, records);
      ListsDownGrows(Selected(p, records[..n]), Selected(p, records), n, places);
      AreAtGrows(NewestMatches(p, records[..n]), records, places);
      places := if p(records[n]) then [n] + places else places;
    }
  }

  lemma NothingSelected(p: Cdr -> bool, records: seq<Cdr>)
    requires records == [] || records[|records| - 1].startTime == 0
    ensures forall k: nat :: !Selected(p, records)(k)
  {
  }

  lemma SelectedOfFront(p: Cdr -> bool, records: seq<Cdr>)
    requires records != [] && records[|records| - 1].startTime != 0
    ensures var n, front := |records| - 1, records[..|records| - 1];
            && (Selected(p, records)(n) <==> p(records[n]))
            && forall k: nat ::
                 && (Selected(p, front)(k) ==> k < n) && (Selected(p, records)(k) ==> k <= n)
                 && (k < n ==> (Selected(p, records)(k) <==> Selected(p, front)(k)))
  {
    forall k: nat | k < |records| - 1
      ensures Selected(p, records)(k) <==> Selected(p, records[..|records| - 1])(k)
    {
      SetFromSnoc(records, k);
    }
  }

  lemma AreAtGrows(found: seq<Cdr>, records: seq<Cdr>, places: seq<nat>)
    requires records != [] && AreAt(found, records[..|records| - 1], places)
    ensures AreAt(found, records, places)
    ensures AreAt([records[|records| - 1]] + found, records, [|records| - 1] + places)
  {
  }

  lemma SetFromSnoc(records: seq<Cdr>, k: nat)
    requires k < |records| - 1 && records[|records| - 1].startTime != 0
    ensures SetFrom(records, k) <==> SetFrom(records[..|records| - 1], k)
  {
    var n := |records| - 1;
    assert forall i :: k <= i < n ==> records[..n][i] == records[i];
    if SetFrom(records[..n], k) {
      forall i | k <= i < |records| ensures records[i].startTime != 0 {
        assert i < n ==> records[..n][i].startTime != 0;
      }
    }
  }

  lemma {:induction false} SameFilterSameMatches(p: Cdr -> bool, q: Cdr -> bool, records: seq<Cdr>)
    requires forall d :: p(d) <==> q(d)
    ensures NewestMatches(p, records) == NewestMatches(q, records)
  {
    if records != [] { SameFilterSameMatches(p, q, records[..|records| - 1]); }
  }

  /** So exactly under that condition does every read deliver what was asked for, whatever is stored. */
  lemma ReadsAreAsAskedIff(o: ReadOptions)
    ensures (forall records :: NewestMatches(Wanted(o), records) == NewestMatches(AskedBy(o), records))
       <==> o.originatorCallId == "" || EmptyPeriod(o)
  {
    FilterIsAsAskedIff(o);
    if o.originatorCallId == "" || EmptyPeriod(o) {
      forall records ensures NewestMatches(Wanted(o), records) == NewestMatches(AskedBy(o), records) {
        SameFilterSameMatches(Wanted(o), AskedBy(o), records);
      }
    } else {
      var d := WrongRecord(o);
      var records := [d];
      assert records[..0] == [] && Wanted(o)(d) && !AskedBy(o)(d);
      assert NewestMatches(Wanted(o), records)[0] == d;
      assert NewestMatches(AskedBy(o), records) == [];
    }
  }

  /** How many of k records the read can reach. */
  function Reach(k: nat, size: nat): (w: nat)
    requires size > 0
    ensures w <= k
  {
    if k == 0 then 0 else DistanceBound(k - 1, size); (k - 1) % size + 1
  }

  /** The read sees all that the ring still holds if and only if it has not wrapped or has just wrapped. */
  lemma ReachIsWholeIff(k: nat, size: nat)
    requires size > 0
    ensures Reach(k, size) == (if k < size then k else size) <==> k <= size || k % size == 0
  {
    if k > 0 {
      NextDistance(k - 1, size);
      if k <= size { DivisionUnique(k - 1, size, 0, k - 1); }
    }
  }

  function Reachable<T>(history: seq<T>, size: nat): seq<T>
    requires size > 0
  {
    history[|history| - Reach(|history|, size)..]
  }

  /** The slots from 0 to the last write hold exactly the reachable records in order. */
  lemma LowSlotsAreReachable<T>(size: nat, zero: T, history: seq<T>)
    requires size > 0 && history != []
    ensures var r := PutAll(Fresh(size, zero), history);
            r.slots[..r.end + 1] == Reachable(history, size)
  {
    var k := |history|;
    var r := PutAll(Fresh(size, zero), history);
    PositionAfter(size, zero, history);
    DistanceBound(k - 1, size);
    forall i | 0 <= i <= r.end ensures r.slots[i] == Reachable(history, size)[i] {
      NewestInLowSlots(k, size, i);
      SlotAfter(size, zero, history, i);
    }
  }

  /** What a read into a large enough buffer finds, slot by slot downwards from the last write. */
  ghost function Readable(size: nat, history: seq<Cdr>, p: Cdr -> bool): seq<Cdr>
    requires size > 0
  {
    var r := PutAll(Fresh(size, UNSET), history);
    NewestMatches(p, r.slots[..r.end + 1])
  }

  /** After any writes, a read finds the matches among the last ((k-1) mod N) + 1 records, newest first. */
  lemma ReadFindsReachable(size: nat, history: seq<Cdr>, p: Cdr -> bool)
    requires size > 0
    ensures Readable(size, history, p) == NewestMatches(p, Reachable(history, size))
  {
    if history == [] {
      assert PutAll(Fresh(size, UNSET), history).slots[0] == UNSET;
    } else {
      LowSlotsAreReachable(size, UNSET, history);
    }
  }

  /** While no more than N records were written, all of them having a start time, the read is exact. */
  lemma ReadIsExactUntilFull(size: nat, history: seq<Cdr>, p: Cdr -> bool)
    requires 0 < size && |history| <= size
    requires forall i :: 0 <= i < |history| ==> history[i].startTime != 0
    ensures Readable(size, history, p) == Reversed(Filter(p, history))
  {
    ReadFindsReachable(size, history, p);
    ReachIsWholeIff(|history|, size);
    assert Reachable(history, size) == history;
    NewestMatchesIsReversedFilter(p, history);
  }

  class CdrMemoryStorage {
    const data: array<Cdr>
    var ind: nat
    var end: nat
    ghost var history: seq<Cdr>

    ghost predicate Valid()
      reads this, data
    {
      && data.Length > 0
      && Ring(data[..], ind, end) == PutAll(Fresh(data.Length, UNSET), history)
    }

    constructor (size: nat)
      requires size > 0
      ensures Valid() && fresh(data) && data.Length == size && history == []
    {
      data := new Cdr[size](_ => UNSET);
      ind, end := 0, 0;
      history := [];
      new;
      assert data[..] == Fresh<Cdr>(size, UNSET).slots;
    }

    /** `rendered` is the start time in RFC 3339, used when the record brings no text of its own. */
    method CDRWrite(cdr: Cdr, rendered: string)
      requires Valid()
      modifies this, data
      ensures Valid()
      ensures history == old(history)
                         + [if cdr.startTimeFormatted == "" then cdr.(startTimeFormatted := rendered) else cdr]
    {
      if ind == data.Length {
        ind := 0;
      }
      var record := cdr;
      if record.startTimeFormatted == "" {
        record := record.(startTimeFormatted := rendered);
      }
      data[ind] := record;
      end := ind;
      ind := ind + 1;
      assert (history + [record])[..|history|] == history;
      history := history + [record];
      assert data[..] == old(data[..])[end := record];
    }

    /** Fills `buf` from the front with the first matches, newest first, of the reachable records. */
    method CDRRead(buf: array<Cdr>, opts: ReadOptions) returns (n: nat)
      requires Valid() && buf != data
      modifies buf
      ensures Valid() && n <= buf.Length
      ensures buf[..n] == Take(NewestMatches(Wanted(opts), Reachable(history, data.Length)), buf.Length)
      ensures buf[n..] == old(buf[n..])
      ensures IsAnswer(Reachable(history, data.Length), opts, buf[..n], buf.Length)
    {
      n := ReadNewestFirst(buf, opts);
      TakenIsAnswer(Reachable(history, data.Length), opts, buf[..n], buf.Length);
    }

    method ReadNewestFirst(buf: array<Cdr>, opts: ReadOptions) returns (n: nat)
      requires Valid() && buf != data
      modifies buf
      ensures Valid() && n <= buf.Length
      ensures buf[..n] == Take(NewestMatches(Wanted(opts), Reachable(history, data.Length)), buf.Length)
      ensures buf[n..] == old(buf[n..])
    {
      ReadFindsReachable(data.Length, history, Wanted(opts));
      n := FillNewestFirst(data, end, buf, Wanted(opts));
    }
  }

  /** What a read with room for `room` records delivers: those at the first places that pass, field by field. */
  ghost predicate IsAnswer(records: seq<Cdr>, o: ReadOptions, found: seq<Cdr>, room: nat) {
    exists places: seq<nat> :: ListsDown(Found(records, o), places) && IsFilled(records, places, found, room)
  }

  /** The record passes the filter, field by field, and lies before the first unset one. */
  ghost function Found(records: seq<Cdr>, o: ReadOptions): nat -> bool {
    (k: nat) => k < |records| && SetFrom(records, k) && Passes(records[k], o)
  }

  ghost predicate IsFilled(records: seq<Cdr>, places: seq<nat>, found: seq<Cdr>, room: nat) {
    && |found| == Min(|places|, room)
    && forall i :: 0 <= i < |found| ==> places[i] < |records| && found[i] == records[places[i]]
  }

  lemma TakenIsAnswer(records: seq<Cdr>, o: ReadOptions, found: seq<Cdr>, room: nat)
    requires found == Take(NewestMatches(Wanted(o), records), room)
    ensures IsAnswer(records, o, found, room)
  {
    var places := NewestMatchesMeaning(Wanted(o), records);
    forall d ensures Wanted(o)(d) <==> Passes(d, o) {
      MatchesIff(d, o);
    }
    assert forall k: nat :: Selected(Wanted(o), records)(k) <==> Found(records, o)(k);
    assert ListsDown(Found(records, o), places);
    assert IsFilled(records, places, found, room);
  }

  /** The loop of the read: down from the last write, until the buffer is full, slot 0 is passed or a slot is unset. */
  method FillNewestFirst(data: array<Cdr>, end: nat, buf: array<Cdr>, wanted: Cdr -> bool) returns (n: nat)
    requires end < data.Length && buf != data
    modifies buf
    ensures n <= buf.Length
    ensures buf[..n] == Take(NewestMatches(wanted, data[..end + 1]), buf.Length)
    ensures buf[n..] == old(buf[n..])
  {
    ghost var slots := data[..];
    ghost var all := NewestMatches(wanted, slots[..end + 1]);
    assert data[..end + 1] == slots[..end + 1];
    n := 0;
    var i: int := end;
    while i >= 0 && n < buf.Length
      invariant -1 <= i <= end && n <= buf.Length
      invariant all == buf[..n] + NewestMatches(wanted, slots[..i + 1])
      invariant buf[n..] == old(buf[n..])
    {
      var d := data[i];
      ghost var found, rest := buf[..n], NewestMatches(wanted, slots[..i]);
      NewestMatchesSnoc(wanted, slots[..i], d);
      assert slots[..i] + [d] == slots[..i + 1];
      i := i - 1;
      if d.startTime == 0 {
        assert all == found;
        break;
      }
      if !wanted(d) {
        continue;
      }
      assert all == (found + [d]) + rest;
      buf[n] := d;
      n := n + 1;
      assert buf[..n] == found + [d];
    }
    assert buf[..n] == Take(all, buf.Length);
  }

  lemma NewestMatchesSnoc(p: Cdr -> bool, older: seq<Cdr>, newest: Cdr)
    ensures NewestMatches(p, older + [newest])
         == if newest.startTime == 0 then []
            else if p(newest) then [newest] + NewestMatches(p, older) else NewestMatches(p, older)
  {
    assert (older + [newest])[..|older|] == older;
  }
}

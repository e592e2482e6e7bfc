/**
 Client transactions of flow_rpc.go: any number of `doRequest` calls wait on one
 connection while its reader hands incoming responses to their callbacks.
 */
module FlowTransactions {
  import opened Text

  datatype Response = Response(id: string, code: int, body: string)

  /** `None` is an error: a failed write, a timeout or a cancelled context. */
  datatype Phase = Waiting | Returning(result: Option<Response>) | Returned(result: Option<Response>)

  /** `channel` is the one-place buffer; `offered` records every final response that entered it. */
  datatype Tx = Tx(channel: Option<Response>, phase: Phase, offered: seq<Response>)

  /** `table` holds the registered callbacks; `reader` is the response whose callback is being run. */
  datatype State = State(table: set<string>, txs: map<string, Tx>, reader: Option<Response>, arrived: seq<Response>)

  const INIT := State({}, map[], None, [])

  datatype Act =
    | Begin(id: string)      // registers the callback under a new ID
    | Arrive(res: Response)  // the reader looks the ID up
    | Callback               // the callback drops a provisional, or sends a final one into the channel
    | CallbackCancelled      // the callback gives up because the dialog's context ended
    | Receive(id: string)    // the waiting call takes the response
    | GiveUp(id: string)     // the waiting call ends in an error
    | Finish(id: string)     // the deferred removal of the entry

  predicate Enabled(s: State, a: Act) {
    match a
    case Begin(id) => id !in s.txs && id != ""
    case Arrive(res) => s.reader.None? && res.id != "" && res.code > 0
    case Callback => s.reader.Some? && s.reader.value.id in s.txs
                     && (s.reader.value.code < 200 || s.txs[s.reader.value.id].channel.None?)
    case CallbackCancelled => s.reader.Some? && s.reader.value.code >= 200
    case Receive(id) => id in s.txs && s.txs[id].phase == Waiting && s.txs[id].channel.Some?
    case GiveUp(id) => id in s.txs && s.txs[id].phase == Waiting
    case Finish(id) => id in s.txs && s.txs[id].phase.Returning?
  }

  function Apply(s: State, a: Act): State
    requires Enabled(s, a)
  {
    match a
    case Begin(id) => s.(table := s.table + {id}, txs := s.txs[id := Tx(None, Waiting, [])])
    case Arrive(res) =>
      s.(arrived := s.arrived + [res], reader := if res.id in s.table then Some(res) else None)
    case Callback =>
      var res := s.reader.value;
      if res.code < 200 then s.(reader := None)
      else
        var tx := s.txs[res.id];
        s.(reader := None, txs := s.txs[res.id := tx.(channel := Some(res), offered := tx.offered + [res])])
    case CallbackCancelled => s.(reader := None)
    case Receive(id) =>
      s.(txs := s.txs[id := s.txs[id].(phase := Returning(s.txs[id].channel), channel := None)])
    case GiveUp(id) => s.(txs := s.txs[id := s.txs[id].(phase := Returning(None))])
    case Finish(id) =>
      s.(table := s.table - {id}, txs := s.txs[id := s.txs[id].(phase := Returned(s.txs[id].phase.result))])
  }

  function Exec(acts: seq<Act>): Option<State> {
    if acts == [] then Some(INIT)
    else
      var before, a := Exec(acts[..|acts| - 1]), acts[|acts| - 1];
      if before.Some? && Enabled(before.value, a) then Some(Apply(before.value, a)) else None
  }

  ghost predicate TxInv(s: State, id: string, tx: Tx) {
    && (forall i :: 0 <= i < |tx.offered| ==>
          tx.offered[i].id == id && tx.offered[i].code >= 200 && tx.offered[i] in s.arrived)
    && (tx.phase == Waiting ==> tx.offered == if tx.channel.Some? then [tx.channel.value] else [])
    && (tx.phase != Waiting && tx.phase.result.Some? ==> tx.offered != [] && tx.offered[0] == tx.phase.result.value)
    && (id in s.table <==> !tx.phase.Returned?)
  }

  ghost predicate Inv(s: State) {
    && s.table <= s.txs.Keys
    && (s.reader.Some? ==> s.reader.value.id in s.txs && s.reader.value in s.arrived)
    && forall id :: id in s.txs ==> TxInv(s, id, s.txs[id])
  }

  lemma InvKept(s: State, a: Act)
    requires Inv(s) && Enabled(s, a)
    ensures Inv(Apply(s, a))
  {
    var s' := Apply(s, a);
    assert forall r :: r in s.arrived ==> r in s'.arrived;
    forall id | id in s'.txs ensures TxInv(s', id, s'.txs[id]) {
      if id in s.txs {
        assert TxInv(s, id, s.txs[id]);
      }
    }
  }

  lemma {:induction false} RunsKeepInv(acts: seq<Act>)
    ensures Exec(acts).Some? ==> Inv(Exec(acts).value)
  {
    if acts != [] {
      RunsKeepInv(acts[..|acts| - 1]);
      var before := Exec(acts[..|acts| - 1]);
      if before.Some? && Enabled(before.value, acts[|acts| - 1]) {
        InvKept(before.value, acts[|acts| - 1]);
      }
    }
  }

  /**
   In every interleaving a successful call returns a response that arrived for its own
   ID, is final, and is the first such one its channel was offered; and a call that
   has returned, successfully or not, leaves no entry behind.
   */
  lemma ReturnedCallsAreAnswered(acts: seq<Act>, id: string)
    requires Exec(acts).Some? && id in Exec(acts).value.txs && Exec(acts).value.txs[id].phase.Returned?
    ensures var s := Exec(acts).value;
            && id !in s.table
            && (s.txs[id].phase.result.Some? ==>
                  var r := s.txs[id].phase.result.value;
                  r.id == id && r.code >= 200 && r in s.arrived && [r] <= s.txs[id].offered)
  {
    RunsKeepInv(acts);
    assert TxInv(Exec(acts).value, id, Exec(acts).value.txs[id]);
  }

  /** The entries left are exactly the calls still in progress. */
  lemma EntriesAreCallsInProgress(acts: seq<Act>)
    requires Exec(acts).Some?
    ensures var s := Exec(acts).value;
            s.table == set id | id in s.txs && !s.txs[id].phase.Returned?
  {
    RunsKeepInv(acts);
    var s := Exec(acts).value;
    assert forall id :: id in s.txs ==> TxInv(s, id, s.txs[id]);
  }

  // ---- What arrives is returned ----

  /** The first final response that arrives for the call once it has begun. */
  function FirstFinal(acts: seq<Act>, id: string): Option<Response> {
    if acts == [] then None
    else
      var front, a := acts[..|acts| - 1], acts[|acts| - 1];
      if FirstFinal(front, id).Some? then FirstFinal(front, id)
      else if a.Arrive? && a.res.id == id && a.res.code >= 200 && Begin(id) in front then Some(a.res)
      else None
  }

  /** The call is not given up, and no callback is cut short by the end of the dialog. */
  ghost predicate Undisturbed(acts: seq<Act>, id: string) {
    GiveUp(id) !in acts && CallbackCancelled !in acts
  }

  /** The response has been offered to the call, or its callback is about to run. */
  ghost predicate IsOnItsWay(s: State, id: string, first: Option<Response>)
    requires id in s.txs
  {
    var tx := s.txs[id];
    && (first.Some? ==> first.value.id == id && first.value.code >= 200)
    && (first.Some? ==> if tx.offered != [] then tx.offered[0] == first.value else s.reader == first)
    && (first.None? ==> tx.offered == [] && !(s.reader.Some? && s.reader.value.id == id && s.reader.value.code >= 200))
    && (tx.phase != Waiting ==> tx.phase.result.Some?)
  }

  lemma OnItsWayKept(s: State, a: Act, id: string, first: Option<Response>)
    requires Inv(s) && Enabled(s, a) && id in s.txs && IsOnItsWay(s, id, first)
    requires a != GiveUp(id) && a != CallbackCancelled
    ensures IsOnItsWay(Apply(s, a), id,
              if first.None? && a.Arrive? && a.res.id == id && a.res.code >= 200 then Some(a.res) else first)
  {
    assert TxInv(s, id, s.txs[id]);
  }

  lemma {:induction false} BegunIff(acts: seq<Act>, id: string)
    requires Exec(acts).Some?
    ensures id in Exec(acts).value.txs <==> Begin(id) in acts
  {
    if acts != [] {
      BegunIff(acts[..|acts| - 1], id);
      assert acts == acts[..|acts| - 1] + [acts[|acts| - 1]];
    }
  }

  lemma {:induction false} RunsKeepItOnItsWay(acts: seq<Act>, id: string)
    requires Exec(acts).Some? && Undisturbed(acts, id) && Begin(id) in acts
    ensures id in Exec(acts).value.txs && IsOnItsWay(Exec(acts).value, id, FirstFinal(acts, id))
  {
    var front, a := acts[..|acts| - 1], acts[|acts| - 1];
    assert acts == front + [a];
    RunsKeepInv(front);
    BegunIff(front, id);
    if Begin(id) in front {
      RunsKeepItOnItsWay(front, id);
      OnItsWayKept(Exec(front).value, a, id, FirstFinal(front, id));
    } else {
      NothingBeforeBegin(front, id);
    }
  }

  lemma {:induction false} NothingBeforeBegin(acts: seq<Act>, id: string)
    requires Begin(id) !in acts
    ensures FirstFinal(acts, id).None?
  {
    if acts != [] {
      assert forall x :: x in acts[..|acts| - 1] ==> x in acts;
      NothingBeforeBegin(acts[..|acts| - 1], id);
    }
  }

  /**
   In every interleaving, once a final response has arrived for an undisturbed call, either
   the call has it as its result or the next step towards that is open; the first one counts.
   */
  lemma ArrivedResponseIsReturned(acts: seq<Act>, id: string)
    requires Exec(acts).Some? && Undisturbed(acts, id) && Begin(id) in acts && FirstFinal(acts, id).Some?
    ensures var s, first := Exec(acts).value, FirstFinal(acts, id);
            && id in s.txs
            && (s.txs[id].phase != Waiting ==> s.txs[id].phase.result == first)
            && (s.txs[id].phase == Waiting ==>
                  || (Enabled(s, Receive(id)) && s.txs[id].channel == first)
                  || (Enabled(s, Callback) && s.reader == first))
  {
    RunsKeepInv(acts);
    RunsKeepItOnItsWay(acts, id);
    assert TxInv(Exec(acts).value, id, Exec(acts).value.txs[id]);
  }

  /** A call fails if and only if it was given up. */
  lemma {:induction false} FailsIffGivenUp(acts: seq<Act>, id: string)
    requires Exec(acts).Some? && id in Exec(acts).value.txs
    ensures var phase := Exec(acts).value.txs[id].phase;
            GiveUp(id) in acts <==> phase != Waiting && phase.result.None?
  {
    var front, a := acts[..|acts| - 1], acts[|acts| - 1];
    assert acts == front + [a];
    if id in Exec(front).value.txs {
      FailsIffGivenUp(front, id);
    } else {
      NotGivenUpBefore(front, id);
    }
  }

  lemma {:induction false} NotGivenUpBefore(acts: seq<Act>, id: string)
    requires Exec(acts).Some? && id !in Exec(acts).value.txs
    ensures GiveUp(id) !in acts
  {
    if acts != [] {
      NotGivenUpBefore(acts[..|acts| - 1], id);
      assert acts == acts[..|acts| - 1] + [acts[|acts| - 1]];
    }
  }
}

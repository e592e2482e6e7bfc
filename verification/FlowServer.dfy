/**
 The request loop of flow_rpc.go as code: the variables its closures share, the operation
 switch, and every write to the wire. Ghost fields follow the script of the request at hand.
 */
module FlowServer {
  import Config
  import opened FlowDialog
  import opened FlowRequests
  import opened Text

  class ServerDialog {
    const endpoints: Endpoints
    var media: bool
    var wire: seq<Response>
    var next: Option<Config.Endpoint>
    var calls: Outcomes  // of the library calls still to come in the current request

    ghost var id: string           // of the current request
    ghost var base: seq<Response>  // the wire before it
    ghost var sent: seq<int>       // its provisional codes so far
    ghost var ahead: Script        // what is left of its operation
    ghost var goal: Performed      // what the whole operation amounts to

    constructor (endpoints: Endpoints)
      ensures this.endpoints == endpoints && AsLoop(true) == STARTED
    {
      this.endpoints := endpoints;
      media, wire, next, calls := false, [], None, [];
    }

    ghost function AsLoop(running: bool): Loop
      reads this
    {
      Loop(media, wire, next, running)
    }

    /** What was sent and what lies ahead make up the goal. */
    ghost predicate Follows()
      reads this
    {
      var p := Perform(ahead, calls, media);
      wire == base + Tagged(id, sent) && goal == p.(progress := sent + p.progress)
    }

    /** The operation is over and was the goal. */
    ghost predicate Came(ended: Ended)
      reads this
    {
      wire == base + Tagged(id, sent) && goal == Performed(sent, ended, media)
    }

    lemma Finished()
      requires Follows() && ahead.Finish?
      ensures Came(Returned(ahead.fault))
    {
      assert sent + [] == sent;
    }

    // ---- Single steps ----

    method CallLibrary() returns (err: Option<Fault>)
      requires Follows() && (ahead.Call? || (ahead.StartListen? && media))
      modifies this`calls, this`ahead
      ensures err.None? ==> Follows() && ahead == old(ahead.rest)
      ensures err.Some? ==> Came(Returned(err))
    {
      assert sent + [] == sent;
      assert Perform(ahead, calls, media) == AfterCall(ahead.rest, calls, media);
      var outcome := None;
      if calls != [] {
        outcome := calls[0];
        calls := calls[1..];
      }
      ahead := ahead.rest;
      return if outcome.Some? then Some(Lib(outcome.value)) else None;
    }

    method WriteResponse(request: Request, code: int)
      modifies this`wire
      ensures wire == old(wire) + [Response(request.id, code)]
    {
      wire := wire + [Response(request.id, code)];
    }

    method WriteProgress(request: Request, code: int)
      requires Follows() && ahead.Progress? && ahead.code == code && request.id == id
      modifies this`wire, this`sent, this`ahead
      ensures Follows() && ahead == old(ahead.rest)
    {
      WriteResponse(request, code);
      ghost var later := Perform(ahead.rest, calls, media).progress;
      assert Tagged(id, sent + [code]) == Tagged(id, sent) + [Response(id, code)];
      assert sent + ([code] + later) == (sent + [code]) + later;
      sent, ahead := sent + [code], ahead.rest;
    }

    /** A method call on the dialog's media gets through unless there is none. */
    method TouchMedia() returns (ok: bool)
      requires Follows() && ahead.Touch?
      modifies this`ahead
      ensures ok ==> Follows() && media && ahead == old(ahead.rest)
      ensures !ok ==> Came(Panicked)
    {
      assert sent + [] == sent;
      ahead := ahead.rest;
      return media;
    }

    method StartListen() returns (err: Option<Fault>)
      requires Follows() && ahead.StartListen?
      modifies this`calls, this`ahead
      ensures err.None? ==> Follows() && ahead == old(ahead.rest)
      ensures err.Some? ==> Came(Returned(err))
    {
      assert sent + [] == sent;
      if !media {
        return Some(Lib(PLAIN_ERROR));
      }
      err := CallLibrary();
    }

    // ---- The operations ----

    method DoRing() returns (ended: Ended)
      requires Follows() && ahead == ScriptOf(Ring, false, endpoints)
      modifies this`calls, this`ahead
      ensures Came(ended)
    {
      var err := CallLibrary();
      if err.None? { Finished(); }
      return Returned(err);
    }

    method DoAnswer() returns (ended: Ended)
      requires Follows() && ahead == ScriptOf(Answer, false, endpoints)
      modifies this`calls, this`ahead, this`media
      ensures Came(ended)
    {
      var err := CallLibrary();
      if err.Some? {
        return Returned(err);
      }
      media := true;
      ahead := ahead.rest;
      err := StartListen();
      if err.None? { Finished(); }
      return Returned(err);
    }

    method DoHangup() returns (ended: Ended)
      requires Follows() && ahead == ScriptOf(Hangup, false, endpoints)
      modifies this`calls, this`ahead
      ensures Came(ended)
    {
      var err := CallLibrary();
      if err.Some? {
        return Returned(err);
      }
      Finished();
      return Returned(Some(Exit(None)));
    }

    method DoReadDtmf(request: Request, confirmed: bool) returns (ended: Ended)
      requires Follows() && ahead == ScriptOf(ReadDtmf, confirmed, endpoints) && request.id == id
      modifies this`calls, this`ahead, this`sent, this`wire
      ensures Came(ended)
    {
      if !confirmed {
        Finished();
        return Returned(Some(Reply(400)));
      }
      var err := CallLibrary();
      if err.Some? {
        return Returned(err);
      }
      var ok := TouchMedia();
      if !ok {
        return Panicked;
      }
      err := CallLibrary();
      if err.Some? {
        return Returned(err);
      }
      WriteProgress(request, 183);
      err := CallLibrary();
      if err.Some? {
        return Returned(err);
      }
      err := CallLibrary();
      if err.Some? {
        return Returned(err);
      }
      err := StartListen();
      if err.None? { Finished(); }
      return Returned(err);
    }

    method DoListen(request: Request, durationSec: int, wav: bool) returns (ended: Ended)
      requires Follows() && ahead == ScriptOf(Listen(durationSec, wav), false, endpoints) && request.id == id
      modifies this`calls, this`ahead, this`sent, this`wire
      ensures Came(ended)
    {
      var err := CallLibrary();
      if err.Some? {
        return Returned(err);
      }
      if durationSec > 30 {
        Finished();
        return Returned(Some(Reply(400)));
      }
      err := CallLibrary();
      if err.Some? {
        return Returned(err);
      }
      var ok := TouchMedia();
      if !ok {
        return Panicked;
      }
      err := CallLibrary();
      if err.Some? {
        return Returned(err);
      }
      WriteProgress(request, 183);
      err := CallLibrary();
      if err.Some? {
        return Returned(err);
      }
      WriteProgress(request, 190);
      if wav {
        err := CallLibrary();
        if err.Some? {
          return Returned(err);
        }
      }
      err := CallLibrary();
      if err.Some? {
        return Returned(err);
      }
      err := StartListen();
      if err.None? { Finished(); }
      return Returned(err);
    }

    method DoPlay(request: Request, confirmed: bool, uri: PlayUri) returns (ended: Ended)
      requires Follows() && ahead == ScriptOf(Play(uri), confirmed, endpoints) && request.id == id
      modifies this`calls, this`ahead, this`sent, this`wire
      ensures Came(ended)
    {
      if !confirmed {
        Finished();
        return Returned(Some(Reply(400)));
      }
      var err := CallLibrary();
      if err.Some? {
        return Returned(err);
      }
      var ok := TouchMedia();
      if !ok {
        return Panicked;
      }
      err := CallLibrary();
      if err.Some? {
        return Returned(err);
      }
      WriteProgress(request, 183);
      if uri == FileUri {
        err := CallLibrary();
        if err.None? { Finished(); }
        return Returned(err);
      }
      if uri == HttpUri {
        err := CallLibrary();
        if err.None? { Finished(); }
        return Returned(err);
      }
      Finished();
      return Returned(Some(Reply(400)));
    }

    method DoEcho(request: Request, confirmed: bool) returns (ended: Ended)
      requires Follows() && ahead == ScriptOf(Echo, confirmed, endpoints) && request.id == id
      modifies this`calls, this`ahead, this`sent, this`wire
      ensures Came(ended)
    {
      if !confirmed {
        Finished();
        return Returned(Some(Reply(400)));
      }
      WriteProgress(request, 183);
      var ok := TouchMedia();
      if !ok {
        return Panicked;
      }
      var err := CallLibrary();
      if err.None? { Finished(); }
      return Returned(err);
    }

    method DoRedirect(name: string) returns (ended: Ended)
      requires Follows() && ahead == ScriptOf(Redirect(name), false, endpoints)
      modifies this`calls, this`ahead
      ensures Came(ended)
    {
      var err := CallLibrary();
      if err.Some? {
        return Returned(err);
      }
      Finished();
      if name !in endpoints {
        return Returned(Some(Reply(400)));
      }
      var end := endpoints[name];
      if end.matchType == Config.Flow {
        return Returned(Some(Reply(400)));
      }
      return Returned(Some(Exit(Some(end))));
    }

    /** The switch over the operations. */
    method Operate(request: Request, confirmed: bool) returns (ended: Ended)
      requires Follows() && ahead == ScriptOf(request.op, confirmed, endpoints) && request.id == id
      modifies this`calls, this`ahead, this`sent, this`wire, this`media
      ensures Came(ended)
    {
      match request.op {
        case Ring => ended := DoRing();
        case Answer => ended := DoAnswer();
        case Hangup => ended := DoHangup();
        case ReadDtmf => ended := DoReadDtmf(request, confirmed);
        case Listen(durationSec, wav) => ended := DoListen(request, durationSec, wav);
        case Play(uri) => ended := DoPlay(request, confirmed, uri);
        case Echo => ended := DoEcho(request, confirmed);
        case Redirect(name) => ended := DoRedirect(name);
        case UnknownOp =>
          Finished();
          return Returned(Some(Lib(PLAIN_ERROR)));
      }
    }

    // ---- The loop ----

    /** The one write that answers a request, by what its operation returned. */
    method Conclude(item: Item, err: Option<Fault>) returns (goesOn: bool)
      modifies this`wire, this`next
      ensures var v := Classify(err, item.env);
              && wire == old(wire) + [Response(item.request.id, v.code)] && goesOn == v.goesOn
              && next == if v.redirect.Some? then v.redirect else old(next)
    {
      var request, env := item.request, item.env;
      if err.Some? {
        match err.value {
          case Lib(e) =>
            if e.cancelled && env.requestCancelled {
              WriteResponse(request, 499);
              return false;
            }
            if (e.cancelled || e.netClosed) && env.dialogEnded {
              WriteResponse(request, 487);
              return false;
            }
            WriteResponse(request, 500);
            return false;
          case Reply(code) =>
            WriteResponse(request, code);
            return true;
          case Exit(redirect) =>
            WriteResponse(request, 200);
            if redirect.Some? {
              next := redirect;
            }
            return false;
        }
      }
      WriteResponse(request, 200);
      return true;
    }

    method Begin(item: Item)
      modifies this`calls, this`id, this`base, this`sent, this`ahead, this`goal
      ensures Follows() && ahead == ScriptOf(item.request.op, item.env.confirmed, endpoints)
      ensures id == item.request.id && base == wire && goal == Done(item, media, endpoints)
    {
      calls := item.env.calls;
      id, base, sent := item.request.id, wire, [];
      ahead, goal := ScriptOf(item.request.op, item.env.confirmed, endpoints), Done(item, media, endpoints);
      assert [] + goal.progress == goal.progress;
    }

    /** One turn of the loop: the operation, and then the write that answers it. */
    method TakeTurn(item: Item) returns (goesOn: bool)
      modifies this
      ensures AsLoop(goesOn) == Handle(Flows(endpoints), old(AsLoop(true)), item)
      ensures old(wire) <= wire
      ensures IsAnswerTo(item.request.id, wire[|old(wire)|..]) <==> !LacksMedia(item, old(media))
    {
      Begin(item);
      ghost var was := AsLoop(true);
      var ended := Operate(item.request, item.env.confirmed);
      TurnIsHandle(item, was, ended);
      if ended.Panicked? {
        return false;
      }
      goesOn := Conclude(item, ended.fault);
    }

    /** What a request gets, on the wire, and how the loop goes on. */
    method ServeRequest(item: Item) returns (goesOn: bool)
      modifies this
      ensures AsLoop(goesOn) == Handle(Flows(endpoints), old(AsLoop(true)), item)
      ensures old(wire) <= wire
      ensures IsAnswerTo(item.request.id, wire[|old(wire)|..]) <==> !LacksMedia(item, old(media))
      ensures !LacksMedia(item, old(media)) ==> IsTurn(endpoints, old(AsLoop(true)), item, AsLoop(goesOn))
    {
      ghost var was := AsLoop(true);
      goesOn := TakeTurn(item);
      if !LacksMedia(item, was.media) {
        TurnMeaning(endpoints, was, item);
      }
    }

    /** What the turn still has to do once the operation is over. */
    lemma TurnIsHandle(item: Item, was: Loop, ended: Ended)
      requires Came(ended) && goal == Done(item, was.media, endpoints) && id == item.request.id
      requires base == was.wire && next == was.next
      ensures var l := Handle(Flows(endpoints), was, item);
              && l.media == media && was.wire <= l.wire
              && (IsAnswerTo(id, l.wire[|was.wire|..]) <==> !LacksMedia(item, was.media))
              && (ended.Panicked? ==> l == AsLoop(false))
      ensures ended.Returned? ==>
                var l, v := Handle(Flows(endpoints), was, item), Classify(ended.fault, item.env);
                && l.wire == wire + [Response(id, v.code)] && l.running == v.goesOn
                && l.next == if v.redirect.Some? then v.redirect else next
    {
      var a := Answered(item, was.media, ended);
      assert (was.wire + a.messages)[|was.wire|..] == a.messages;
    }

    lemma Answered(item: Item, had: bool, ended: Ended) returns (a: Handled)
      requires Came(ended) && goal == Done(item, had, endpoints) && id == item.request.id
      ensures a == Flows(endpoints)(item, had) && a.media == media
      ensures IsAnswerTo(id, a.messages) <==> !LacksMedia(item, had)
      ensures ended.Panicked? ==> base + a.messages == wire && !a.goesOn && a.redirect == None
      ensures ended.Returned? ==>
                var v := Classify(ended.fault, item.env);
                && base + a.messages == wire + [Response(id, v.code)]
                && a.goesOn == v.goesOn && a.redirect == v.redirect
    {
      AnsweredIff(item, had, endpoints);
      a := Respond(item, had, endpoints);
      if ended.Returned? {
        var code := Classify(ended.fault, item.env).code;
        assert Tagged(id, sent + [code]) == Tagged(id, sent) + [Response(id, code)];
      }
    }

    /** Serves the requests in turn until one ends the loop; `served` of them were taken. */
    method Serve(inbox: seq<Item>) returns (running: bool, served: nat)
      requires AsLoop(true) == STARTED
      modifies this
      ensures served <= |inbox| && AsLoop(running) == LoopOver(Flows(endpoints), inbox[..served])
      ensures Uninterrupted(Flows(endpoints), inbox[..served])
      ensures running ==> served == |inbox|
    {
      ghost var h := Flows(endpoints);
      running, served := true, 0;
      while served < |inbox| && running
        invariant served <= |inbox|
        invariant AsLoop(running) == LoopOver(h, inbox[..served])
        invariant Uninterrupted(h, inbox[..served])
        decreases |inbox| - served
      {
        LoopOverSnoc(h, inbox[..served], inbox[served]);
        assert inbox[..served] + [inbox[served]] == inbox[..served + 1];
        running := ServeRequest(inbox[served]);
        served := served + 1;
      }
    }
  }
}

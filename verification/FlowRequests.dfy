/**
 The operations a flow agent may request in flow_rpc.go, and how each is answered.
 Library calls inside an operation may fail in any way; writes to the connection are
 taken to succeed, and a call on media that is not there to panic.
 */
module FlowRequests {
  import opened Config
  import opened Text

  datatype PlayUri = FileUri | HttpUri | OtherUri

  /** The operation with the arguments its data decodes to. */
  datatype Op =
    | Ring | Answer | Hangup | ReadDtmf | Listen(durationSec: int, wav: bool) | Play(uri: PlayUri) | Echo
    | Redirect(endpoint: string) | UnknownOp

  datatype Request = Request(id: string, op: Op)

  datatype Response = Response(id: string, code: int)

  /** A library error, by what `errors.Is` says of it. */
  datatype LibError = LibError(cancelled: bool, netClosed: bool)

  /** An error made in the code itself is neither a cancellation nor a closed connection. */
  const PLAIN_ERROR := LibError(false, false)

  datatype Fault = Lib(e: LibError) | Reply(code: int) | Exit(redirect: Option<Endpoint>)

  type Outcomes = seq<Option<LibError>>

  /** The surroundings of one request: the outcome of its k-th library call, and the states tested on the way. */
  datatype Env = Env(calls: Outcomes, confirmed: bool, requestCancelled: bool, dialogEnded: bool)

  datatype Item = Item(request: Request, env: Env)

  // ---- One operation, as the calls and messages it goes through ----

  datatype Script =
    | Finish(fault: Option<Fault>)
    | Call(rest: Script)                 // a library call; its failure ends the operation
    | Progress(code: int, rest: Script)  // a provisional response
    | Touch(rest: Script)                // uses the dialog's media; panics when there is none
    | MediaReady(rest: Script)           // the call is answered: from here on there is media
    | StartListen(rest: Script)          // fails without media, and is a library call with it

  const BAD_REQUEST := Finish(Some(Reply(400)))
  const OK := Finish(None)

  function ScriptOf(op: Op, confirmed: bool, endpoints: map<string, Endpoint>): Script {
    match op
    case Ring => Call(OK)
    case Answer => Call(MediaReady(StartListen(OK)))
    case Hangup => Call(Finish(Some(Exit(None))))
    case ReadDtmf =>
      if !confirmed then BAD_REQUEST else Call(Touch(Call(Progress(183, Call(Call(StartListen(OK)))))))
    case Listen(durationSec, wav) =>
      if durationSec > 30 then Call(BAD_REQUEST)
      else
        var deliver := Call(StartListen(OK));
        Call(Call(Touch(Call(Progress(183, Call(Progress(190, if wav then Call(deliver) else deliver)))))))
    case Play(uri) =>
      if !confirmed then BAD_REQUEST
      else Call(Touch(Call(Progress(183, if uri == OtherUri then BAD_REQUEST else Call(OK)))))
    case Echo => if !confirmed then BAD_REQUEST else Progress(183, Touch(Call(OK)))
    case Redirect(name) =>
      Call(if IsTarget(endpoints, name) then Finish(Some(Exit(Some(endpoints[name])))) else BAD_REQUEST)
    case UnknownOp => Finish(Some(Lib(PLAIN_ERROR)))
  }

  predicate IsTarget(endpoints: map<string, Endpoint>, name: string) {
    name in endpoints && endpoints[name].matchType != Flow
  }

  datatype Ended = Returned(fault: Option<Fault>) | Panicked

  /** Provisional codes sent, how the operation ended, and whether the dialog then has media. */
  datatype Performed = Performed(progress: seq<int>, ended: Ended, media: bool)

  /** Goes through the script until something fails; `calls` are the outcomes still to come. */
  function Perform(script: Script, calls: Outcomes, media: bool): Performed
    decreases script, 0
  {
    match script
    case Finish(fault) => Performed([], Returned(fault), media)
    case Call(rest) => AfterCall(rest, calls, media)
    case Progress(code, rest) =>
      var p := Perform(rest, calls, media);
      p.(progress := [code] + p.progress)
    case Touch(rest) => if media then Perform(rest, calls, media) else Performed([], Panicked, media)
    case MediaReady(rest) => Perform(rest, calls, true)
    case StartListen(rest) =>
      if media then AfterCall(rest, calls, media) else Performed([], Returned(Some(Lib(PLAIN_ERROR))), media)
  }

  function AfterCall(rest: Script, calls: Outcomes, media: bool): Performed
    decreases rest, 1
  {
    if Next(calls).Some? then Performed([], Returned(Some(Lib(Next(calls).value))), media)
    else Perform(rest, Later(calls), media)
  }

  /** The outcome of the next call; calls beyond the given outcomes succeed. */
  function Next(calls: Outcomes): Option<LibError> { if calls == [] then None else calls[0] }

  function Later(calls: Outcomes): Outcomes { if calls == [] then [] else calls[1..] }

  // ---- The answer to one request ----

  /** The final code, whether the loop goes on, and where the call is redirected. */
  datatype Verdict = Verdict(code: int, goesOn: bool, redirect: Option<Endpoint>)

  function Classify(fault: Option<Fault>, env: Env): Verdict {
    match fault
    case None => Verdict(200, true, None)
    case Some(Lib(e)) =>
      if e.cancelled && env.requestCancelled then Verdict(499, false, None)
      else if (e.cancelled || e.netClosed) && env.dialogEnded then Verdict(487, false, None)
      else Verdict(500, false, None)
    case Some(Reply(code)) => Verdict(code, true, None)
    case Some(Exit(redirect)) => Verdict(200, false, redirect)
  }

  function Done(item: Item, media: bool, endpoints: map<string, Endpoint>): Performed {
    Perform(ScriptOf(item.request.op, item.env.confirmed, endpoints), item.env.calls, media)
  }

  function Tagged(id: string, codes: seq<int>): seq<Response> {
    seq(|codes|, i requires 0 <= i < |codes| => Response(id, codes[i]))
  }

  /** Everything written for one request, and what the loop is left with. */
  datatype Handled = Handled(messages: seq<Response>, media: bool, goesOn: bool, redirect: Option<Endpoint>)

  function Respond(item: Item, media: bool, endpoints: map<string, Endpoint>): Handled {
    var id, done := item.request.id, Done(item, media, endpoints);
    if done.ended.Panicked? then Handled(Tagged(id, done.progress), done.media, false, None)
    else
      var verdict := Classify(done.ended.fault, item.env);
      Handled(Tagged(id, done.progress + [verdict.code]), done.media, verdict.goesOn, verdict.redirect)
  }

  // ---- What a script does, for all outcomes of its calls ----

  /** None of the first n calls fails. */
  predicate Clean(calls: Outcomes, n: nat) { forall k :: 0 <= k < n && k < |calls| ==> calls[k].None? }

  lemma CleanStep(calls: Outcomes, n: nat)
    ensures Clean(calls, n + 1) <==> Next(calls).None? && Clean(Later(calls), n)
  {
    if Next(calls).None? && Clean(Later(calls), n) {
      forall k | 0 <= k < n + 1 && k < |calls| ensures calls[k].None? {
        assert k > 0 ==> calls[k] == Later(calls)[k - 1];
      }
    }
    if Clean(calls, n + 1) {
      forall k | 0 <= k < n && k < |Later(calls)| ensures Later(calls)[k].None? {
        assert Later(calls)[k] == calls[k + 1];
      }
    }
  }

  /** What there is to know of a script without going through it. */
  datatype Outline = Outline(
    codes: seq<int>,             // all its provisional codes
    fault: Option<Fault>,        // how it ends
    calls: nat,                  // its library calls
    callsToReport: nat,          // those before the last provisional code
    callsToTouch: Option<nat>,   // those before media is used without asking, if it is
    needsMedia: bool,            // it uses media that it has not provided itself
    needsMediaToReport: bool,    // and does so before the last provisional code
    providesMedia: bool) {

    function AddCall(): Outline {
      this.(calls := calls + 1, callsToReport := if codes == [] then 0 else callsToReport + 1,
            callsToTouch := if callsToTouch.Some? then Some(callsToTouch.value + 1) else None)
    }

    function AddUse(panics: bool): Outline {
      this.(callsToTouch := if panics then Some(0) else None, needsMedia := true, needsMediaToReport := codes != [])
    }
  }

  function OutlineOf(script: Script): Outline {
    match script
    case Finish(fault) => Outline([], fault, 0, 0, None, false, false, false)
    case Call(rest) => OutlineOf(rest).AddCall()
    case Progress(code, rest) => OutlineOf(rest).(codes := [code] + OutlineOf(rest).codes)
    case Touch(rest) => OutlineOf(rest).AddUse(true)
    case MediaReady(rest) =>
      OutlineOf(rest).(callsToTouch := None, needsMedia := false, needsMediaToReport := false, providesMedia := true)
    case StartListen(rest) => OutlineOf(rest).AddCall().AddUse(false)
  }

  /** The codes sent are the first of the script's, and all of them if and only if nothing fails before the last. */
  lemma {:induction false} ProgressIff(script: Script, calls: Outcomes, media: bool)
    ensures var progress, o := Perform(script, calls, media).progress, OutlineOf(script);
            && progress <= o.codes
            && (progress == o.codes <==> Clean(calls, o.callsToReport) && (media || !o.needsMediaToReport))
  {
    if !script.Finish? {
      CleanStep(calls, OutlineOf(script.rest).callsToReport);
      ProgressIff(script.rest, calls, media);
      ProgressIff(script.rest, calls, true);
      ProgressIff(script.rest, Later(calls), media);
    }
  }

  /** It panics if and only if its calls lead it to media that is not there. */
  lemma {:induction false} PanicsIff(script: Script, calls: Outcomes, media: bool)
    ensures var o := OutlineOf(script);
            Perform(script, calls, media).ended.Panicked? <==>
              !media && o.callsToTouch.Some? && Clean(calls, o.callsToTouch.value)
  {
    if !script.Finish? {
      var o := OutlineOf(script.rest);
      if o.callsToTouch.Some? {
        CleanStep(calls, o.callsToTouch.value);
      }
      PanicsIff(script.rest, calls, media);
      PanicsIff(script.rest, calls, true);
      PanicsIff(script.rest, Later(calls), media);
    }
  }

  /** It ends as written if and only if no call fails and its media is there; any other end is a library error. */
  lemma {:induction false} EndsIff(script: Script, calls: Outcomes, media: bool)
    ensures var ended, o := Perform(script, calls, media).ended, OutlineOf(script);
            var fine := Clean(calls, o.calls) && (media || !o.needsMedia);
            && (fine ==> ended == Returned(o.fault))
            && (!fine ==> ended.Panicked? || (ended.fault.Some? && ended.fault.value.Lib?))
  {
    if !script.Finish? {
      CleanStep(calls, OutlineOf(script.rest).calls);
      EndsIff(script.rest, calls, media);
      EndsIff(script.rest, calls, true);
      EndsIff(script.rest, Later(calls), media);
    }
  }

  /** The k-th call fails with `e`, is made, and is the first to fail; what comes before it finds its media. */
  ghost predicate FailsAt(o: Outline, calls: Outcomes, media: bool, k: nat, e: LibError) {
    && k < o.calls && k < |calls| && calls[k] == Some(e) && Clean(calls, k)
    && (media || !o.needsMedia || (o.callsToTouch.Some? && k < o.callsToTouch.value))
  }

  lemma {:induction false} FailsWithFirst(script: Script, calls: Outcomes, media: bool, k: nat, e: LibError)
    requires FailsAt(OutlineOf(script), calls, media, k, e)
    ensures Perform(script, calls, media).ended == Returned(Some(Lib(e)))
  {
    if IsCall(script) {
      if k > 0 {
        CleanStep(calls, k - 1);
        assert Later(calls)[k - 1] == calls[k];
        FailsWithFirst(script.rest, Later(calls), media, k - 1, e);
      }
    } else {
      FailsWithFirst(script.rest, calls, media || script.MediaReady?, k, e);
    }
  }

  predicate IsCall(script: Script) { script.Call? || script.StartListen? }

  // ---- What each operation does ----

  function Provisionals(op: Op, confirmed: bool): seq<int> {
    match op
    case Listen(durationSec, _) => if durationSec > 30 then [] else [183, 190]
    case ReadDtmf => if confirmed then [183] else []
    case Play(_) => if confirmed then [183] else []
    case Echo => if confirmed then [183] else []
    case _ => []
  }

  /** Refused in good order: before an answer, beyond limits, or naming something that is not there. */
  predicate IsRefused(op: Op, confirmed: bool, endpoints: map<string, Endpoint>) {
    match op
    case Listen(durationSec, _) => durationSec > 30
    case ReadDtmf => !confirmed
    case Play(uri) => !confirmed || uri == OtherUri
    case Echo => !confirmed
    case Redirect(name) => name !in endpoints || endpoints[name].matchType == Flow
    case _ => false
  }

  function FinalFault(op: Op, confirmed: bool, endpoints: map<string, Endpoint>): Option<Fault> {
    if IsRefused(op, confirmed, endpoints) then Some(Reply(400))
    else
      match op
      case Hangup => Some(Exit(None))
      case Redirect(name) => Some(Exit(Some(endpoints[name])))
      case UnknownOp => Some(Lib(PLAIN_ERROR))
      case _ => None
  }

  /** The calls an operation makes before it uses the dialog's media, if it does. */
  function CallsToMedia(op: Op, confirmed: bool): Option<nat> {
    match op
    case Listen(durationSec, _) => if durationSec > 30 then None else Some(2)
    case ReadDtmf => if confirmed then Some(1) else None
    case Play(_) => if confirmed then Some(1) else None
    case Echo => if confirmed then Some(0) else None
    case _ => None
  }

  /** The calls before the last provisional response. */
  function CallsToLastProvisional(op: Op, confirmed: bool): nat {
    if Provisionals(op, confirmed) == [] || op.Echo? then 0 else if op.Listen? then 4 else 2
  }

  function CallsInAll(op: Op, confirmed: bool): nat {
    match op
    case Ring => 1
    case Answer => 2
    case Hangup => 1
    case ReadDtmf => if confirmed then 5 else 0
    case Listen(durationSec, wav) => if durationSec > 30 then 1 else if wav then 7 else 6
    case Play(uri) => if !confirmed then 0 else if uri == OtherUri then 2 else 3
    case Echo => if confirmed then 1 else 0
    case Redirect(_) => 1
    case UnknownOp => 0
  }

  function OutlineFor(op: Op, confirmed: bool, endpoints: map<string, Endpoint>): Outline {
    var uses := CallsToMedia(op, confirmed);
    Outline(
      Provisionals(op, confirmed), FinalFault(op, confirmed, endpoints), CallsInAll(op, confirmed),
      CallsToLastProvisional(op, confirmed), uses, uses.Some?, uses.Some? && !op.Echo?, op == Answer)
  }

  /** The tables above describe the scripts. */
  lemma OutlineOfOperation(op: Op, confirmed: bool, endpoints: map<string, Endpoint>)
    ensures OutlineOf(ScriptOf(op, confirmed, endpoints)) == OutlineFor(op, confirmed, endpoints)
  {
    match op
    case Listen(durationSec, wav) => OutlineOfListen(durationSec, wav, confirmed, endpoints);
    case ReadDtmf => OutlineOfReadDtmf(confirmed, endpoints);
    case Play(uri) => OutlineOfPlay(uri, confirmed, endpoints);
    case _ =>
  }

  lemma OutlineOfListen(durationSec: int, wav: bool, confirmed: bool, endpoints: map<string, Endpoint>)
    ensures var op := Listen(durationSec, wav);
            OutlineOf(ScriptOf(op, confirmed, endpoints)) == OutlineFor(op, confirmed, endpoints)
  {
    var deliver := Call(StartListen(OK));
    var written := if wav then Call(deliver) else deliver;
    assert OutlineOf(written) == Outline([], None, if wav then 3 else 2, 0, None, true, false, false);
    var copied := Call(Progress(190, written));
    assert OutlineOf(copied) == Outline([190], None, if wav then 4 else 3, 1, None, true, false, false);
    var recorded := Call(Progress(183, copied));
    assert OutlineOf(recorded) == Outline([183, 190], None, if wav then 5 else 4, 2, None, true, false, false);
  }

  lemma OutlineOfReadDtmf(confirmed: bool, endpoints: map<string, Endpoint>)
    ensures OutlineOf(ScriptOf(ReadDtmf, confirmed, endpoints)) == OutlineFor(ReadDtmf, confirmed, endpoints)
  {
    var read := Call(Call(StartListen(OK)));
    assert OutlineOf(read) == Outline([], None, 3, 0, None, true, false, false);
  }

  lemma OutlineOfPlay(uri: PlayUri, confirmed: bool, endpoints: map<string, Endpoint>)
    ensures OutlineOf(ScriptOf(Play(uri), confirmed, endpoints)) == OutlineFor(Play(uri), confirmed, endpoints)
  {
  }

  /**
   Whatever its calls do and whether or not there is media, an operation sends the first of
   its provisional codes, all of them exactly when no call before the last one fails; it
   panics exactly when it gets to missing media; and it ends as its arguments decide exactly
   when no call fails and its media is there.
   */
  lemma OperationOutcome(op: Op, confirmed: bool, endpoints: map<string, Endpoint>, calls: Outcomes, media: bool)
    ensures var p := Perform(ScriptOf(op, confirmed, endpoints), calls, media);
            var uses := CallsToMedia(op, confirmed);
            && p.progress <= Provisionals(op, confirmed)
            && (p.progress == Provisionals(op, confirmed) <==>
                  Clean(calls, CallsToLastProvisional(op, confirmed)) && (media || uses.None? || op.Echo?))
            && (p.ended.Panicked? <==> !media && uses.Some? && Clean(calls, uses.value))
            && (p.ended == Returned(FinalFault(op, confirmed, endpoints)) <==>
                  Clean(calls, CallsInAll(op, confirmed)) && (media || uses.None?))
  {
    var script := ScriptOf(op, confirmed, endpoints);
    OutlineOfOperation(op, confirmed, endpoints);
    ProgressIff(script, calls, media);
    PanicsIff(script, calls, media);
    EndsIff(script, calls, media);
  }

  predicate Answers(item: Item) { item.request.op == Answer && Next(item.env.calls).None? }

  /** Media is there afterwards exactly when it was before or this request answered the call. */
  lemma MediaAfterIff(item: Item, media: bool, endpoints: map<string, Endpoint>)
    ensures Respond(item, media, endpoints).media <==> media || Answers(item)
  {
    var op, confirmed, calls := item.request.op, item.env.confirmed, item.env.calls;
    KeepsMedia(ScriptOf(op, confirmed, endpoints), calls, media);
    KeepsMedia(StartListen(OK), Later(calls), true);
    OutlineOfOperation(op, confirmed, endpoints);
  }

  lemma {:induction false} KeepsMedia(script: Script, calls: Outcomes, media: bool)
    ensures media ==> Perform(script, calls, media).media
    ensures !OutlineOf(script).providesMedia ==> Perform(script, calls, media).media == media
  {
    if !script.Finish? {
      KeepsMedia(script.rest, calls, media);
      KeepsMedia(script.rest, calls, true);
      KeepsMedia(script.rest, Later(calls), media);
    }
  }

  // ---- Properties of one answer ----

  predicate IsProvisional(code: int) { 100 <= code < 200 }

  predicate IsFinal(code: int) { 200 <= code }

  /** Provisional responses to this request only. */
  ghost predicate IsProgressOn(id: string, block: seq<Response>) {
    forall i :: 0 <= i < |block| ==> block[i].id == id && IsProvisional(block[i].code)
  }

  /** Zero or more provisional responses and then exactly one final one, all to the same request. */
  ghost predicate IsAnswerTo(id: string, block: seq<Response>) {
    && block != []
    && IsProgressOn(id, block[..|block| - 1])
    && block[|block| - 1].id == id && IsFinal(block[|block| - 1].code)
  }

  /** The request gets to media that is not there. */
  predicate LacksMedia(item: Item, media: bool) {
    var uses := CallsToMedia(item.request.op, item.env.confirmed);
    !media && uses.Some? && Clean(item.env.calls, uses.value)
  }

  lemma ProvisionalsAreProvisional(op: Op, confirmed: bool)
    ensures forall i :: 0 <= i < |Provisionals(op, confirmed)| ==> IsProvisional(Provisionals(op, confirmed)[i])
  {
  }

  lemma TaggedIsAnswer(id: string, progress: seq<int>, code: int)
    requires forall i :: 0 <= i < |progress| ==> IsProvisional(progress[i])
    ensures IsProgressOn(id, Tagged(id, progress))
    ensures IsFinal(code) ==> IsAnswerTo(id, Tagged(id, progress + [code]))
  {
    var block := Tagged(id, progress + [code]);
    assert block[..|block| - 1] == Tagged(id, progress);
  }

  /** The final code of whatever an operation may end in. */
  lemma VerdictIsFinal(item: Item, media: bool, endpoints: map<string, Endpoint>)
    ensures var ended := Done(item, media, endpoints).ended;
            ended.Returned? ==> IsFinal(Classify(ended.fault, item.env).code)
  {
    var op, confirmed := item.request.op, item.env.confirmed;
    EndsIff(ScriptOf(op, confirmed, endpoints), item.env.calls, media);
    OutlineOfOperation(op, confirmed, endpoints);
  }

  /** A request is answered, whatever its calls do, if and only if it does not get to missing media. */
  lemma AnsweredIff(item: Item, media: bool, endpoints: map<string, Endpoint>)
    ensures var id, messages := item.request.id, Respond(item, media, endpoints).messages;
            if LacksMedia(item, media) then IsProgressOn(id, messages) else IsAnswerTo(id, messages)
  {
    var op, confirmed, done := item.request.op, item.env.confirmed, Done(item, media, endpoints);
    OperationOutcome(op, confirmed, endpoints, item.env.calls, media);
    ProvisionalsAreProvisional(op, confirmed);
    VerdictIsFinal(item, media, endpoints);
    var code := if done.ended.Panicked? then 0 else Classify(done.ended.fault, item.env).code;
    assert forall i :: 0 <= i < |done.progress| ==> done.progress[i] == Provisionals(op, confirmed)[i];
    TaggedIsAnswer(item.request.id, done.progress, code);
  }

  // ---- The final code ----

  /** No call fails and no media is missing. */
  ghost predicate GoesWell(item: Item, media: bool) {
    var op, confirmed := item.request.op, item.env.confirmed;
    Clean(item.env.calls, CallsInAll(op, confirmed)) && (media || CallsToMedia(op, confirmed).None?)
  }

  /** The first call to fail does so with this error, before any missing media is used. */
  ghost predicate FailsWith(item: Item, media: bool, e: LibError) {
    var op, confirmed, calls := item.request.op, item.env.confirmed, item.env.calls;
    var uses := CallsToMedia(op, confirmed);
    exists k: nat :: k < CallsInAll(op, confirmed) && k < |calls| && calls[k] == Some(e) && Clean(calls, k)
                     && (media || uses.None? || k < uses.value)
  }

  lemma OneOfThree(item: Item, media: bool)
    ensures GoesWell(item, media) || LacksMedia(item, media) || exists e :: FailsWith(item, media, e)
  {
    var op, confirmed, calls := item.request.op, item.env.confirmed, item.env.calls;
    var n, uses := CallsInAll(op, confirmed), CallsToMedia(op, confirmed);
    if !Clean(calls, n) {
      var k := FirstFailure(calls, n);
      if media || uses.None? || k < uses.value {
        assert FailsWith(item, media, calls[k].value);
      }
    }
  }

  lemma {:induction false} FirstFailure(calls: Outcomes, n: nat) returns (k: nat)
    requires !Clean(calls, n)
    ensures k < n && k < |calls| && calls[k].Some? && Clean(calls, k)
  {
    if Clean(calls, n - 1) {
      k := n - 1;
    } else {
      k := FirstFailure(calls, n - 1);
    }
  }

  /** The code a request ends with, by its operation when all goes well and by the error when a call fails. */
  ghost predicate IsFinalCode(item: Item, media: bool, endpoints: map<string, Endpoint>, code: int) {
    var op, env := item.request.op, item.env;
    && (GoesWell(item, media) ==>
          code == if IsRefused(op, env.confirmed, endpoints) then 400 else if op == UnknownOp then 500 else 200)
    && (forall e :: FailsWith(item, media, e) ==>
          code == if e.cancelled && env.requestCancelled then 499
                  else if (e.cancelled || e.netClosed) && env.dialogEnded then 487
                  else 500)
  }

  /** Where a request that goes well sends the call. */
  ghost function Target(item: Item, media: bool, endpoints: map<string, Endpoint>): Option<Endpoint> {
    if GoesWell(item, media) && item.request.op.Redirect? && !IsRefused(item.request.op, item.env.confirmed, endpoints)
    then Some(endpoints[item.request.op.endpoint]) else None
  }

  /** After these the loop takes the next request: a refusal, or a success that does not end the call. */
  ghost predicate GoesOnAfter(item: Item, media: bool, endpoints: map<string, Endpoint>) {
    var op := item.request.op;
    && GoesWell(item, media)
    && (IsRefused(op, item.env.confirmed, endpoints) || !(op.Hangup? || op.Redirect? || op.UnknownOp?))
  }

  lemma EndedMeaning(item: Item, media: bool, endpoints: map<string, Endpoint>)
    ensures var ended := Done(item, media, endpoints).ended;
            && (GoesWell(item, media) ==>
                  ended == Returned(FinalFault(item.request.op, item.env.confirmed, endpoints)))
            && (forall e :: FailsWith(item, media, e) ==> ended == Returned(Some(Lib(e))))
  {
    var op, confirmed, calls := item.request.op, item.env.confirmed, item.env.calls;
    var script := ScriptOf(op, confirmed, endpoints);
    OutlineOfOperation(op, confirmed, endpoints);
    EndsIff(script, calls, media);
    forall e | FailsWith(item, media, e) ensures Perform(script, calls, media).ended == Returned(Some(Lib(e))) {
      var uses := CallsToMedia(op, confirmed);
      var k: nat :| k < CallsInAll(op, confirmed) && k < |calls| && calls[k] == Some(e) && Clean(calls, k)
                    && (media || uses.None? || k < uses.value);
      FailsWithFirst(script, calls, media, k, e);
    }
  }

  /** Every answered request gets its final code, and the loop and the call go on accordingly. */
  lemma AnswerMeaning(item: Item, media: bool, endpoints: map<string, Endpoint>)
    requires !LacksMedia(item, media)
    ensures var a := Respond(item, media, endpoints);
            && a.messages != [] && IsFinalCode(item, media, endpoints, a.messages[|a.messages| - 1].code)
            && a.redirect == Target(item, media, endpoints)
            && (a.goesOn <==> GoesOnAfter(item, media, endpoints))
  {
    OneOfThree(item, media);
    EndedMeaning(item, media, endpoints);
  }

  /** A recording asked for before the call is answered gets no response at all and ends the loop. */
  lemma ListenWithoutMedia(item: Item, endpoints: map<string, Endpoint>)
    requires item.request.op.Listen? && item.request.op.durationSec <= 30 && Clean(item.env.calls, 2)
    ensures Respond(item, false, endpoints).messages == [] && !Respond(item, false, endpoints).goesOn
  {
    var calls := item.env.calls;
    CleanStep(calls, 1);
    CleanStep(Later(calls), 0);
    assert Done(item, false, endpoints) == Performed([], Panicked, false);
  }

  ghost predicate IsRedirectTarget(endpoints: map<string, Endpoint>, e: Endpoint) {
    exists name :: name in endpoints && endpoints[name] == e && e.matchType != Flow
  }

  /** A redirect leads to a configured endpoint that is not itself a flow. */
  lemma RedirectIsConfigured(item: Item, media: bool, endpoints: map<string, Endpoint>)
    ensures var redirect := Respond(item, media, endpoints).redirect;
            redirect.Some? ==> IsRedirectTarget(endpoints, redirect.value)
  {
    var op, confirmed := item.request.op, item.env.confirmed;
    EndsIff(ScriptOf(op, confirmed, endpoints), item.env.calls, media);
    OutlineOfOperation(op, confirmed, endpoints);
  }
}

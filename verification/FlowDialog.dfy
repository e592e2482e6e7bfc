/**
 The per-dialog loop of flow_rpc.go: a bounded queue filled by the websocket reader
 and a loop that answers each request it takes.
 */
module FlowDialog {
  import opened Config
  import opened FlowRequests
  import opened Text

  const QUEUE_CAPACITY := 10

  type Endpoints = map<string, Endpoint>

  /** How one request is answered, given whether there is media. */
  type Responder = (Item, bool) -> Handled

  /** The loop's variables: media, what went over the wire, the redirect, and whether it still runs. */
  datatype Loop = Loop(media: bool, wire: seq<Response>, next: Option<Endpoint>, running: bool)

  const STARTED := Loop(false, [], None, true)

  function Handle(h: Responder, l: Loop, item: Item): Loop {
    var a := h(item, l.media);
    Loop(a.media, l.wire + a.messages, if a.redirect.Some? then a.redirect else l.next, a.goesOn)
  }

  /** The loop over a series of requests, whether or not it should have stopped among them. */
  function LoopOver(h: Responder, items: seq<Item>): Loop {
    if items == [] then STARTED else Handle(h, LoopOver(h, items[..|items| - 1]), items[|items| - 1])
  }

  // ---- Whole runs: the reader, the queue and the loop ----

  /** `enqueued` and `handled` record what entered the queue and what left it. */
  datatype State = State(queue: seq<Item>, loop: Loop, enqueued: seq<Item>, handled: seq<Item>, contextEnded: bool)

  const INIT := State([], STARTED, [], [], false)

  datatype Act =
    | Enqueue(item: Item)  // the reader buffers a request; it waits while the channel is full
    | Take                 // the loop takes the next request and answers it
    | ContextDone          // waiting for a request ends with the dialog's context

  predicate Enabled(s: State, a: Act) {
    match a
    case Enqueue(_) => |s.queue| < QUEUE_CAPACITY
    case Take => s.loop.running && s.queue != []
    case ContextDone => s.loop.running
  }

  function Apply(h: Responder, s: State, a: Act): State
    requires Enabled(s, a)
  {
    match a
    case Enqueue(item) => s.(queue := s.queue + [item], enqueued := s.enqueued + [item])
    case Take =>
      var item := s.queue[0];
      s.(queue := s.queue[1..], loop := Handle(h, s.loop, item), handled := s.handled + [item])
    case ContextDone => s.(loop := s.loop.(running := false), contextEnded := true)
  }

  function Exec(h: Responder, acts: seq<Act>): Option<State> {
    if acts == [] then Some(INIT)
    else
      var before, a := Exec(h, acts[..|acts| - 1]), acts[|acts| - 1];
      if before.Some? && Enabled(before.value, a) then Some(Apply(h, before.value, a)) else None
  }

  /** No request before the last ended the loop. */
  ghost predicate Uninterrupted(h: Responder, items: seq<Item>) {
    forall i :: 0 <= i < |items| ==> LoopOver(h, items[..i]).running
  }

  ghost predicate Inv(h: Responder, s: State) {
    && s.enqueued == s.handled + s.queue
    && |s.queue| <= QUEUE_CAPACITY
    && s.loop == LoopOver(h, s.handled).(running := s.loop.running)
    && (s.loop.running <==> LoopOver(h, s.handled).running && !s.contextEnded)
    && Uninterrupted(h, s.handled)
  }

  lemma LoopOverSnoc(h: Responder, items: seq<Item>, item: Item)
    ensures LoopOver(h, items + [item]) == Handle(h, LoopOver(h, items), item)
    ensures Uninterrupted(h, items) && LoopOver(h, items).running ==>
              Uninterrupted(h, items + [item])
  {
    var all := items + [item];
    assert all[..|items|] == items;
    forall i | 0 <= i < |items| ensures all[..i] == items[..i] {
    }
  }

  lemma InvKept(h: Responder, s: State, a: Act)
    requires Inv(h, s) && Enabled(s, a)
    ensures Inv(h, Apply(h, s, a))
  {
    if a.Take? {
      LoopOverSnoc(h, s.handled, s.queue[0]);
      assert s.queue == [s.queue[0]] + s.queue[1..];
    }
  }

  lemma {:induction false} RunsKeepInv(h: Responder, acts: seq<Act>)
    ensures Exec(h, acts).Some? ==> Inv(h, Exec(h, acts).value)
  {
    if acts != [] {
      RunsKeepInv(h, acts[..|acts| - 1]);
      var before := Exec(h, acts[..|acts| - 1]);
      if before.Some? && Enabled(before.value, acts[|acts| - 1]) {
        InvKept(h, before.value, acts[|acts| - 1]);
      }
    }
  }

  // ---- Which requests find no media ----

  /** Some request among them answered the call. */
  ghost predicate CallAnswered(items: seq<Item>) { exists j :: 0 <= j < |items| && Answers(items[j]) }

  /** The i-th request gets to the media of a call that no request before it has answered. */
  ghost predicate Panics(items: seq<Item>, i: nat)
    requires i < |items|
  {
    LacksMedia(items[i], CallAnswered(items[..i]))
  }

  /** If a dialog is confirmed only once a request has answered it, no operation but listen can panic. */
  lemma OnlyListenPanics(items: seq<Item>, i: nat)
    requires i < |items| && (items[i].env.confirmed ==> CallAnswered(items[..i]))
    ensures Panics(items, i) <==>
              && items[i].request.op.Listen? && items[i].request.op.durationSec <= 30
              && !CallAnswered(items[..i]) && Clean(items[i].env.calls, 2)
  {
  }

  // ---- One answer per request, in order ----

  /** The wire carries one answer per request, in the order of the requests; a panic cuts an answer short. */
  ghost predicate AnswersInOrder(items: seq<Item>, wire: seq<Response>, blocks: seq<seq<Response>>) {
    && |blocks| == |items| && wire == Joined(blocks)
    && forall i :: 0 <= i < |items| ==> IsReply(items, i, blocks[i])
  }

  ghost predicate IsReply(items: seq<Item>, i: nat, block: seq<Response>)
    requires i < |items|
  {
    var id := items[i].request.id;
    if Panics(items, i) then IsProgressOn(id, block) else IsAnswerTo(id, block)
  }

  /** Media comes from answering the call, and every request is answered unless it gets to missing media. */
  ghost predicate Sound(h: Responder) {
    forall item: Item, media: bool ::
      && (h(item, media).media <==> media || Answers(item))
      && var id, messages := item.request.id, h(item, media).messages;
         if LacksMedia(item, media) then IsProgressOn(id, messages) else IsAnswerTo(id, messages)
  }

  lemma {:induction false} MediaIffAnswered(h: Responder, items: seq<Item>)
    requires Sound(h)
    ensures LoopOver(h, items).media <==> CallAnswered(items)
  {
    if items != [] {
      var n := |items| - 1;
      MediaIffAnswered(h, items[..n]);
      assert items == items[..n] + [items[n]];
    }
  }

  lemma {:induction false} LoopAnswersInOrder(h: Responder, items: seq<Item>)
    requires Sound(h)
    ensures exists blocks :: AnswersInOrder(items, LoopOver(h, items).wire, blocks)
  {
    if items == [] {
      assert AnswersInOrder(items, LoopOver(h, items).wire, []);
    } else {
      var n := |items| - 1;
      LoopAnswersInOrder(h, items[..n]);
      MediaIffAnswered(h, items[..n]);
      var before := LoopOver(h, items[..n]);
      var blocks :| AnswersInOrder(items[..n], before.wire, blocks);
      var last := h(items[n], before.media).messages;
      AnswersSnoc(items, before.wire, blocks, last);
      assert AnswersInOrder(items, LoopOver(h, items).wire, blocks + [last]);
    }
  }

  lemma AnswersSnoc(items: seq<Item>, wire: seq<Response>, blocks: seq<seq<Response>>, last: seq<Response>)
    requires items != [] && AnswersInOrder(items[..|items| - 1], wire, blocks) && IsReply(items, |items| - 1, last)
    ensures AnswersInOrder(items, wire + last, blocks + [last])
  {
    var n := |items| - 1;
    assert (blocks + [last])[..n] == blocks;
    forall i | 0 <= i < n ensures IsReply(items, i, blocks[i]) {
      assert items[..n][..i] == items[..i] && IsReply(items[..n], i, blocks[i]);
    }
  }

  // ---- The responder of the flow API ----

  function Flows(endpoints: Endpoints): Responder {
    (item: Item, media: bool) => Respond(item, media, endpoints)
  }

  lemma FlowsAreSound(endpoints: Endpoints)
    ensures Sound(Flows(endpoints))
  {
    var h := Flows(endpoints);
    forall item: Item, media: bool
      ensures h(item, media).media <==> media || Answers(item)
      ensures var id, messages := item.request.id, h(item, media).messages;
              if LacksMedia(item, media) then IsProgressOn(id, messages) else IsAnswerTo(id, messages)
    {
      MediaAfterIff(item, media, endpoints);
      AnsweredIff(item, media, endpoints);
      assert h(item, media) == Respond(item, media, endpoints);
    }
  }

  /** What one request does to the loop, by its operation and the outcomes of its calls. */
  ghost predicate IsTurn(endpoints: Endpoints, was: Loop, item: Item, l: Loop) {
    && l.wire != [] && l.wire[|l.wire| - 1].id == item.request.id
    && IsFinalCode(item, was.media, endpoints, l.wire[|l.wire| - 1].code)
    && (l.running <==> GoesOnAfter(item, was.media, endpoints))
    && l.next == var target := Target(item, was.media, endpoints); if target.Some? then target else was.next
  }

  lemma TurnMeaning(endpoints: Endpoints, was: Loop, item: Item)
    requires !LacksMedia(item, was.media)
    ensures IsTurn(endpoints, was, item, Handle(Flows(endpoints), was, item))
  {
    AnswerMeaning(item, was.media, endpoints);
    AnsweredIff(item, was.media, endpoints);
    var a := Flows(endpoints)(item, was.media);
    assert a == Respond(item, was.media, endpoints);
  }

  lemma LoopOverNext(h: Responder, items: seq<Item>, i: nat)
    requires i < |items|
    ensures LoopOver(h, items[..i + 1]) == Handle(h, LoopOver(h, items[..i]), items[i])
  {
    assert items[..i + 1][..i] == items[..i];
  }

  lemma PanicsAtItsTurnIff(endpoints: Endpoints, items: seq<Item>, i: nat)
    requires i < |items|
    ensures Panics(items, i) <==> LacksMedia(items[i], LoopOver(Flows(endpoints), items[..i]).media)
  {
    FlowsAreSound(endpoints);
    MediaIffAnswered(Flows(endpoints), items[..i]);
  }

  /** In a series of requests each gets the final code of its operation, or of the first call that failed it. */
  lemma EachRequestGetsItsCode(endpoints: Endpoints, items: seq<Item>, i: nat)
    requires i < |items| && !Panics(items, i)
    ensures IsTurn(endpoints, LoopOver(Flows(endpoints), items[..i]), items[i],
                   LoopOver(Flows(endpoints), items[..i + 1]))
  {
    PanicsAtItsTurnIff(endpoints, items, i);
    LoopOverNext(Flows(endpoints), items, i);
    TurnMeaning(endpoints, LoopOver(Flows(endpoints), items[..i]), items[i]);
  }

  lemma {:induction false} LoopRedirectsToConfigured(endpoints: Endpoints, items: seq<Item>)
    ensures var next := LoopOver(Flows(endpoints), items).next;
            next.Some? ==> IsRedirectTarget(endpoints, next.value)
  {
    if items != [] {
      var n := |items| - 1;
      LoopRedirectsToConfigured(endpoints, items[..n]);
      RedirectIsConfigured(items[n], LoopOver(Flows(endpoints), items[..n]).media, endpoints);
    }
  }

  /**
   In every run requests are taken in the order they were queued, never more than ten
   wait, each gets its provisional responses and, unless it panics, one final one in turn,
   and a redirect leads to a configured endpoint that is no flow.
   */
  lemma DialogAnswersInOrder(endpoints: Endpoints, acts: seq<Act>)
    requires Exec(Flows(endpoints), acts).Some?
    ensures var s := Exec(Flows(endpoints), acts).value;
            && s.enqueued == s.handled + s.queue && |s.queue| <= 10
            && (exists blocks :: AnswersInOrder(s.handled, s.loop.wire, blocks))
            && (s.loop.next.Some? ==> IsRedirectTarget(endpoints, s.loop.next.value))
  {
    var h := Flows(endpoints);
    RunsKeepInv(h, acts);
    FlowsAreSound(endpoints);
    LoopAnswersInOrder(h, Exec(h, acts).value.handled);
    LoopRedirectsToConfigured(endpoints, Exec(h, acts).value.handled);
  }

  /** The reader can always buffer a request, except when ten are waiting. */
  lemma ReaderWaitsIff(endpoints: Endpoints, acts: seq<Act>, item: Item)
    requires Exec(Flows(endpoints), acts).Some?
    ensures var s := Exec(Flows(endpoints), acts).value;
            !Enabled(s, Enqueue(item)) <==> |s.queue| == 10
  {
    RunsKeepInv(Flows(endpoints), acts);
  }

  /** The request ended in an exit, a library error (a cancellation or any other) or a panic. */
  ghost predicate EndsLoop(endpoints: Endpoints, handled: seq<Item>, i: nat)
    requires i < |handled|
  {
    var ended := Done(handled[i], CallAnswered(handled[..i]), endpoints).ended;
    ended.Panicked? || (ended.fault.Some? && !ended.fault.value.Reply?)
  }

  lemma GoesOnIff(endpoints: Endpoints, handled: seq<Item>, i: nat)
    requires i < |handled|
    ensures LoopOver(Flows(endpoints), handled[..i + 1]).running <==> !EndsLoop(endpoints, handled, i)
  {
    assert handled[..i + 1][..i] == handled[..i];
    FlowsAreSound(endpoints);
    MediaIffAnswered(Flows(endpoints), handled[..i]);
    var media := LoopOver(Flows(endpoints), handled[..i]).media;
    assert Flows(endpoints)(handled[i], media) == Respond(handled[i], media, endpoints);
  }

  /** In every run only the last request handled can have ended the loop, which stops for that or for the context. */
  lemma DialogStopsAtTheFirstEnd(endpoints: Endpoints, acts: seq<Act>)
    requires Exec(Flows(endpoints), acts).Some?
    ensures var s := Exec(Flows(endpoints), acts).value;
            && (forall i :: 0 <= i < |s.handled| - 1 ==> !EndsLoop(endpoints, s.handled, i))
            && (s.loop.running <==>
                  !s.contextEnded && (s.handled == [] || !EndsLoop(endpoints, s.handled, |s.handled| - 1)))
  {
    var h := Flows(endpoints);
    RunsKeepInv(h, acts);
    var s := Exec(h, acts).value;
    forall i | 0 <= i < |s.handled|
      ensures LoopOver(h, s.handled[..i + 1]).running <==> !EndsLoop(endpoints, s.handled, i)
    {
      GoesOnIff(endpoints, s.handled, i);
    }
    forall i | 0 <= i < |s.handled| - 1 ensures !EndsLoop(endpoints, s.handled, i) {
      assert LoopOver(h, s.handled[..i + 1]).running;
    }
    assert s.handled[..|s.handled|] == s.handled;
  }

  /** A waiting request is taken exactly as long as nothing has ended the loop. */
  lemma TakesNextIff(endpoints: Endpoints, acts: seq<Act>)
    requires Exec(Flows(endpoints), acts).Some?
    ensures var s := Exec(Flows(endpoints), acts).value;
            Enabled(s, Take) <==>
              && s.queue != [] && !s.contextEnded
              && (s.handled == [] || !EndsLoop(endpoints, s.handled, |s.handled| - 1))
  {
    DialogStopsAtTheFirstEnd(endpoints, acts);
  }
}

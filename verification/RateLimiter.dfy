/**
 The lock-free limiter of rate_limiter.go under any number of concurrent call
 handlers. Every atomic load, compare-and-swap, store and add is one action of a
 transition system; the code between two of them touches only the thread.
 */
module RateLimiter {
  import opened Numbers
  import opened Text

  /** Where a handler stands in `DialogRPSLimit`, `DialogActiveLimit` and its deferred release. */
  datatype Phase =
    | Start
    | Clocked(now: int)
    | Stale(now: int, last: int)
    | MustReset
    | MustCount
    | Passed
    | Admitted
    | Rejecting

  /** The shared counters, the live handlers, and four history counts that no step reads. */
  datatype State = State(
    max: int, rps: int, timestamp: int, rateCount: int, active: int, threads: map<nat, Phase>,
    passes: nat, epochPasses: nat, resets: nat, changes: nat)

  function Init(max: int, rps: int): State { State(max, rps, 0, 0, 0, map[], 0, 0, 0, 0) }

  datatype Act =
    | Spawn(t: nat)            // a handler begins
    | Clock(t: nat, now: int)  // reads the wall clock, or skips the check when RPS is 0
    | Load(t: nat)             // loads the timestamp and compares it
    | Cas(t: nat)              // compare-and-swap of the timestamp
    | Reset(t: nat)            // stores 0 in the counter
    | Count(t: nat)            // adds 1 to the counter and tests the result
    | Enter(t: nat)            // adds 1 to the active count and tests the result
    | Leave(t: nat)            // subtracts 1: the roll-back, or the deferred release

  predicate Enabled(s: State, a: Act) {
    match a
    case Spawn(t) => t !in s.threads
    case Clock(t, _) => t in s.threads && s.threads[t] == Start
    case Load(t) => t in s.threads && s.threads[t].Clocked?
    case Cas(t) => t in s.threads && s.threads[t].Stale?
    case Reset(t) => t in s.threads && s.threads[t] == MustReset
    case Count(t) => t in s.threads && s.threads[t] == MustCount
    case Enter(t) => t in s.threads && s.threads[t] == Passed
    case Leave(t) => t in s.threads && s.threads[t] in {Admitted, Rejecting}
  }

  function Apply(s: State, a: Act): State
    requires Enabled(s, a)
  {
    match a
    case Spawn(t) => s.(threads := s.threads[t := Start])
    case Clock(t, now) => s.(threads := s.threads[t := if s.rps == 0 then Passed else Clocked(now)])
    case Load(t) =>
      var now := s.threads[t].now;
      s.(threads := s.threads[t := if s.timestamp != now then Stale(now, s.timestamp) else MustCount])
    case Cas(t) =>
      if s.timestamp == s.threads[t].last then
        s.(timestamp := s.threads[t].now, changes := s.changes + 1, threads := s.threads[t := MustReset])
      else
        s.(threads := s.threads[t := MustCount])
    case Reset(t) => s.(rateCount := 0, epochPasses := 0, resets := s.resets + 1, threads := s.threads[t := MustCount])
    case Count(t) =>
      if s.rateCount + 1 <= s.rps then
        s.(rateCount := s.rateCount + 1, passes := s.passes + 1, epochPasses := s.epochPasses + 1,
           threads := s.threads[t := Passed])
      else
        s.(rateCount := s.rateCount + 1, threads := s.threads - {t})
    case Enter(t) =>
      if s.max == 0 then s.(threads := s.threads[t := Admitted])
      else
        s.(active := s.active + 1, threads := s.threads[t := if s.active + 1 < s.max then Admitted else Rejecting])
    case Leave(t) => s.(active := if s.max == 0 then s.active else s.active - 1, threads := s.threads - {t})
  }

  /** A run: None when some action is not enabled where it stands. */
  function Exec(s: State, acts: seq<Act>): Option<State> {
    if acts == [] then Some(s)
    else
      Then(Exec(s, acts[..|acts| - 1]), acts[|acts| - 1])
  }

  function Then(s: Option<State>, a: Act): Option<State> {
    if s.Some? && Enabled(s.value, a) then Some(Apply(s.value, a)) else None
  }

  function InPhase(threads: map<nat, Phase>, p: Phase): set<nat> {
    set t | t in threads && threads[t] == p
  }

  ghost predicate ActiveInv(s: State) {
    var admitted, rejecting := |InPhase(s.threads, Admitted)|, |InPhase(s.threads, Rejecting)|;
    && s.active == (if s.max == 0 then 0 else admitted + rejecting)
    && (s.max > 0 ==> admitted < s.max)
    && (s.max < 0 ==> admitted == 0)
    && (s.max == 0 ==> rejecting == 0)
  }

  ghost predicate RateInv(s: State) {
    && s.rateCount >= 0
    && s.changes == s.resets + |InPhase(s.threads, MustReset)|
    && (s.rps > 0 ==> s.epochPasses == if s.rateCount < s.rps then s.rateCount else s.rps)
    && (s.rps > 0 ==> s.passes <= s.rps * s.resets + s.epochPasses)
    && (s.rps <= 0 ==> s.passes == 0)
  }

  lemma CountAfterSet(threads: map<nat, Phase>, t: nat, to: Phase, p: Phase)
    ensures |InPhase(threads[t := to], p)|
         == |InPhase(threads, p)| - (if t in threads && threads[t] == p then 1 else 0) + (if to == p then 1 else 0)
  {
    var before, after := InPhase(threads, p), InPhase(threads[t := to], p);
    var others := before - {t};
    assert after == if to == p then others + {t} else others;
  }

  lemma CountAfterRemove(threads: map<nat, Phase>, t: nat, p: Phase)
    requires t in threads
    ensures |InPhase(threads - {t}, p)| == |InPhase(threads, p)| - (if threads[t] == p then 1 else 0)
  {
    assert InPhase(threads - {t}, p) == InPhase(threads, p) - {t};
  }

  lemma CountsAfter(s: State, a: Act, p: Phase)
    requires Enabled(s, a)
    ensures |InPhase(Apply(s, a).threads, p)|
         == |InPhase(s.threads, p)| - (if a.t in s.threads && s.threads[a.t] == p then 1 else 0)
            + (if a.t in Apply(s, a).threads && Apply(s, a).threads[a.t] == p then 1 else 0)
  {
    var threads := Apply(s, a).threads;
    if a.t in threads {
      CountAfterSet(s.threads, a.t, threads[a.t], p);
      assert threads == s.threads[a.t := threads[a.t]];
    } else {
      CountAfterRemove(s.threads, a.t, p);
      assert threads == s.threads - {a.t};
    }
  }

  lemma ActiveInvKept(s: State, a: Act)
    requires ActiveInv(s) && Enabled(s, a)
    ensures ActiveInv(Apply(s, a))
  {
    CountsAfter(s, a, Admitted);
    CountsAfter(s, a, Rejecting);
  }

  lemma RateInvKept(s: State, a: Act)
    requires RateInv(s) && Enabled(s, a)
    ensures RateInv(Apply(s, a))
  {
    CountsAfter(s, a, MustReset);
    if a.Reset? {
      assert s.rps * (s.resets + 1) == s.rps * s.resets + s.rps;
    }
  }

  lemma {:induction false} RunsKeepInvariants(max: int, rps: int, acts: seq<Act>)
    ensures var end := Exec(Init(max, rps), acts);
            end.Some? ==> ActiveInv(end.value) && RateInv(end.value) && end.value.max == max && end.value.rps == rps
  {
    if acts == [] {
      assert forall p :: InPhase(map[], p) == {};
    } else {
      RunsKeepInvariants(max, rps, acts[..|acts| - 1]);
      var before := Exec(Init(max, rps), acts[..|acts| - 1]);
      if before.Some? && Enabled(before.value, acts[|acts| - 1]) {
        ActiveInvKept(before.value, acts[|acts| - 1]);
        RateInvKept(before.value, acts[|acts| - 1]);
      }
    }
  }

  /**
   In every interleaving the active count is the admitted handlers plus those between
   increment and roll-back, fewer than `Max` are admitted, and it is zero when all have gone.
   */
  lemma ActiveLimitHolds(max: int, rps: int, acts: seq<Act>)
    requires max > 0 && Exec(Init(max, rps), acts).Some?
    ensures var s := Exec(Init(max, rps), acts).value;
            && s.active == |InPhase(s.threads, Admitted)| + |InPhase(s.threads, Rejecting)|
            && |InPhase(s.threads, Admitted)| < max
            && (s.threads == map[] ==> s.active == 0)
  {
    RunsKeepInvariants(max, rps, acts);
    assert forall p :: InPhase(map[], p) == {};
  }

  /** In every interleaving the admissions stay within RPS per counter reset, and resets within timestamp changes. */
  lemma RateLimitHolds(max: int, rps: int, acts: seq<Act>)
    requires rps > 0 && Exec(Init(max, rps), acts).Some?
    ensures var s := Exec(Init(max, rps), acts).value;
            s.passes <= rps * (1 + s.resets) && s.resets <= s.changes
  {
    RunsKeepInvariants(max, rps, acts);
    var s := Exec(Init(max, rps), acts).value;
    OnePerReset(rps, s.resets, s.epochPasses, s.passes);
  }

  lemma OnePerReset(rps: nat, resets: nat, epochPasses: nat, passes: nat)
    requires epochPasses <= rps && passes <= rps * resets + epochPasses
    ensures passes <= rps * (1 + resets)
  {
    assert rps * (1 + resets) == rps * resets + rps;
  }

  // ---- The exact number of passes ----

  /** How many handlers counted before the first reset, between resets, and since the last. */
  function Epochs(acts: seq<Act>): (r: seq<nat>)
    ensures r != []
  {
    if acts == [] then [0] else Tally(Epochs(acts[..|acts| - 1]), acts[|acts| - 1])
  }

  function Tally(e: seq<nat>, a: Act): (r: seq<nat>)
    requires e != []
    ensures r != []
  {
    var front, last := e[..|e| - 1], e[|e| - 1];
    match a
    case Reset(_) => e + [0]
    case Count(_) => front + [last + 1]
    case _ => e
  }

  /** The sum of the elements, each cut to `cap`. */
  function CappedSum(cap: nat, e: seq<nat>): nat {
    if e == [] then 0 else CappedSum(cap, e[..|e| - 1]) + Min(e[|e| - 1], cap)
  }

  lemma CappedSumSnoc(cap: nat, e: seq<nat>, x: nat)
    ensures CappedSum(cap, e + [x]) == CappedSum(cap, e) + Min(x, cap)
  {
    assert (e + [x])[..|e|] == e;
  }

  ghost predicate EpochInv(s: State, e: seq<nat>) {
    && s.rps > 0 && |e| == s.resets + 1 && s.rateCount == e[|e| - 1]
    && s.passes == CappedSum(s.rps, e)
  }

  lemma EpochInvKept(s: State, e: seq<nat>, a: Act)
    requires EpochInv(s, e) && Enabled(s, a)
    ensures EpochInv(Apply(s, a), Tally(e, a))
  {
    if a.Count? {
      CappedSumSnoc(s.rps, e[..|e| - 1], e[|e| - 1] + 1);
    } else if a.Reset? {
      CappedSumSnoc(s.rps, e, 0);
    }
  }

  /** In every interleaving each stretch between two resets passes the first RPS handlers that count in it. */
  lemma {:induction false} EachEpochPassesUpToRps(max: int, rps: int, acts: seq<Act>)
    requires rps > 0 && Exec(Init(max, rps), acts).Some?
    ensures EpochInv(Exec(Init(max, rps), acts).value, Epochs(acts))
  {
    if acts == [] {
      assert CappedSum(rps, [0]) == CappedSum(rps, []);
    } else {
      EachEpochPassesUpToRps(max, rps, acts[..|acts| - 1]);
      EpochInvKept(Exec(Init(max, rps), acts[..|acts| - 1]).value, Epochs(acts[..|acts| - 1]), acts[|acts| - 1]);
    }
  }

  // ---- One second ----

  ghost predicate ClocksRead(acts: seq<Act>, second: int) {
    forall i :: 0 <= i < |acts| && acts[i].Clock? ==> acts[i].now == second
  }

  /** While every clock reads one second the timestamp leaves its initial 0 at most once, and only from there. */
  ghost predicate OneSecondInv(s: State, second: int) {
    && s.timestamp in {0, second} && s.changes == (if s.timestamp == 0 then 0 else 1)
    && (forall t :: t in s.threads && s.threads[t].Clocked? ==> s.threads[t].now == second)
    && (forall t :: t in s.threads && s.threads[t].Stale? ==> s.threads[t] == Stale(second, 0) && second != 0)
  }

  lemma OneSecondInvKept(s: State, a: Act, second: int)
    requires OneSecondInv(s, second) && Enabled(s, a) && (a.Clock? ==> a.now == second)
    ensures OneSecondInv(Apply(s, a), second)
  {
  }

  lemma {:induction false} OneSecondChangesOnce(max: int, rps: int, acts: seq<Act>, second: int)
    requires ClocksRead(acts, second) && Exec(Init(max, rps), acts).Some?
    ensures OneSecondInv(Exec(Init(max, rps), acts).value, second)
  {
    if acts != [] {
      OneSecondChangesOnce(max, rps, acts[..|acts| - 1], second);
      OneSecondInvKept(Exec(Init(max, rps), acts[..|acts| - 1]).value, acts[|acts| - 1], second);
    }
  }

  /** The handlers that counted before the counter was reset, and those that counted since. */
  function CountedBefore(acts: seq<Act>): nat { if |Epochs(acts)| > 1 then Epochs(acts)[0] else 0 }

  function CountedSince(acts: seq<Act>): nat { Epochs(acts)[|Epochs(acts)| - 1] }

  /**
   Within one second there is at most one reset, and the limit is kept exactly when no
   handler counts before it, none after it, or no more than RPS altogether.
   */
  lemma OneSecondKeepsLimitIff(max: int, rps: int, acts: seq<Act>, second: int)
    requires rps > 0 && ClocksRead(acts, second) && Exec(Init(max, rps), acts).Some?
    ensures var s, before, since := Exec(Init(max, rps), acts).value, CountedBefore(acts), CountedSince(acts);
            && s.resets <= 1
            && s.passes == Min(before, rps) + Min(since, rps)
            && (s.passes <= rps <==> before == 0 || since == 0 || before + since <= rps)
  {
    RunsKeepInvariants(max, rps, acts);
    EachEpochPassesUpToRps(max, rps, acts);
    OneSecondChangesOnce(max, rps, acts, second);
    var e := Epochs(acts);
    assert e == if |e| > 1 then [CountedBefore(acts)] + [CountedSince(acts)] else [] + [CountedSince(acts)];
    CappedSumSnoc(rps, [], CountedBefore(acts));
    assert [] + [CountedBefore(acts)] == [CountedBefore(acts)];
    CappedSumSnoc(rps, e[..|e| - 1], CountedSince(acts));
  }

  // ---- Who is refused by the rate check, and who gets through it ----

  ghost predicate CountInv(s: State, rps: int, e: seq<nat>) {
    s.rps == rps && e != [] && s.rateCount == e[|e| - 1]
  }

  lemma CountInvKept(s: State, rps: int, e: seq<nat>, a: Act)
    requires CountInv(s, rps, e) && Enabled(s, a)
    ensures CountInv(Apply(s, a), rps, Tally(e, a))
  {
  }

  lemma {:induction false} CounterIsCountedSince(max: int, rps: int, acts: seq<Act>)
    requires Exec(Init(max, rps), acts).Some?
    ensures CountInv(Exec(Init(max, rps), acts).value, rps, Epochs(acts))
  {
    if acts != [] {
      var front := acts[..|acts| - 1];
      CounterIsCountedSince(max, rps, front);
      CountInvKept(Exec(Init(max, rps), front).value, rps, Epochs(front), acts[|acts| - 1]);
    }
  }

  /** Short of leaving, a handler is turned out only by counting when RPS others have counted since the last reset. */
  lemma TurnedOutIff(max: int, rps: int, acts: seq<Act>, a: Act)
    requires Exec(Init(max, rps), acts).Some? && Enabled(Exec(Init(max, rps), acts).value, a) && !a.Leave?
    ensures a.t !in Apply(Exec(Init(max, rps), acts).value, a).threads <==> a.Count? && CountedSince(acts) >= rps
  {
    CounterIsCountedSince(max, rps, acts);
  }

  /** The actions a handler in the check has before it, the count included. */
  function StepsToCount(p: Phase): nat {
    match p
    case Clocked(_) => 4
    case Stale(_, _) => 3
    case MustReset => 2
    case MustCount => 1
    case _ => 0
  }

  /** How often the handler has counted since it began. */
  function OwnCounts(acts: seq<Act>, t: nat): nat {
    if acts == [] then 0 else OwnCount(OwnCounts(acts[..|acts| - 1], t), acts[|acts| - 1], t)
  }

  function OwnCount(before: nat, a: Act, t: nat): nat {
    if a == Spawn(t) then 0 else if a == Count(t) then before + 1 else before
  }

  predicate IsThrough(p: Phase) { p in {Passed, Admitted, Rejecting} }

  ghost predicate OwnInv(s: State, t: nat, n: nat) {
    t in s.threads ==>
      && n == (if IsThrough(s.threads[t]) && s.rps != 0 then 1 else 0)
      && (StepsToCount(s.threads[t]) > 0 ==> s.rps != 0)
  }

  lemma OwnInvKept(s: State, a: Act, t: nat, n: nat)
    requires OwnInv(s, t, n) && Enabled(s, a)
    ensures OwnInv(Apply(s, a), t, OwnCount(n, a, t))
  {
  }

  /** Under a limit a handler is through the check exactly when it has counted, and it counts once. */
  lemma {:induction false} ThroughByCountingOnce(max: int, rps: int, acts: seq<Act>, t: nat)
    requires Exec(Init(max, rps), acts).Some?
    ensures OwnInv(Exec(Init(max, rps), acts).value, t, OwnCounts(acts, t))
  {
    if acts != [] {
      var front := acts[..|acts| - 1];
      ThroughByCountingOnce(max, rps, front, t);
      OwnInvKept(Exec(Init(max, rps), front).value, acts[|acts| - 1], t, OwnCounts(front, t));
    }
  }

  /** No handler is ever stuck: in every phase one action of its own is open. */
  lemma NeverStuck(s: State, t: nat)
    requires t in s.threads
    ensures exists a: Act :: a.t == t && Enabled(s, a)
  {
    match s.threads[t]
    case Start => assert Enabled(s, Clock(t, 0));
    case Clocked(_) => assert Enabled(s, Load(t));
    case Stale(_, _) => assert Enabled(s, Cas(t));
    case MustReset => assert Enabled(s, Reset(t));
    case MustCount => assert Enabled(s, Count(t));
    case Passed => assert Enabled(s, Enter(t));
    case _ => assert Enabled(s, Leave(t));
  }

  /** Nothing another handler does holds one up: each action of its own brings it closer to counting. */
  lemma CheckIsShort(s: State, a: Act, t: nat)
    requires Enabled(s, a) && t in s.threads && StepsToCount(s.threads[t]) > 0
    ensures a.t != t ==> t in Apply(s, a).threads && Apply(s, a).threads[t] == s.threads[t]
    ensures a.t == t && !a.Count? ==>
              t in Apply(s, a).threads && 0 < StepsToCount(Apply(s, a).threads[t]) < StepsToCount(s.threads[t])
  {
  }

  // ---- What does not hold ----

  lemma ExecSnoc(s: State, acts: seq<Act>, a: Act)
    ensures Exec(s, acts + [a]) == Then(Exec(s, acts), a)
  {
    assert (acts + [a])[..|acts|] == acts;
  }

  /** One more action of a run that starts in `s0` and reads every clock at `second`. */
  lemma Go(s0: State, acts: seq<Act>, s: State, a: Act, second: int) returns (acts': seq<Act>, s': State)
    requires Exec(s0, acts) == Some(s) && Enabled(s, a)
    requires ClocksRead(acts, second) && (a.Clock? ==> a.now == second)
    ensures s' == Apply(s, a) && Exec(s0, acts') == Some(s') && ClocksRead(acts', second)
  {
    acts', s' := acts + [a], Apply(s, a);
    ExecSnoc(s0, acts, a);
  }

  /** The bound per reset is attained within one second: two handlers pass with RPS 1 while every clock reads 5. */
  lemma OneSecondMayPassTwice()
    ensures exists acts :: ClocksRead(acts, 5) && Exec(Init(0, 1), acts).Some?
                           && Exec(Init(0, 1), acts).value.passes == 2 && Exec(Init(0, 1), acts).value.resets == 1
  {
    var s0 := Init(0, 1);
    var acts, s := [], s0;
    acts, s := Go(s0, acts, s, Spawn(0), 5);
    acts, s := Go(s0, acts, s, Clock(0, 5), 5);
    acts, s := Go(s0, acts, s, Load(0), 5);
    acts, s := Go(s0, acts, s, Cas(0), 5);
    acts, s := Go(s0, acts, s, Spawn(1), 5);
    acts, s := Go(s0, acts, s, Clock(1, 5), 5);
    acts, s := Go(s0, acts, s, Load(1), 5);
    acts, s := Go(s0, acts, s, Count(1), 5);
    acts, s := Go(s0, acts, s, Reset(0), 5);
    acts, s := Go(s0, acts, s, Count(0), 5);
  }

  /** A handler about to enter is turned away exactly when the count, roll-backs included, has reached Max - 1. */
  lemma RejectedIff(max: int, rps: int, acts: seq<Act>, t: nat)
    requires max > 0 && Exec(Init(max, rps), acts).Some? && Enabled(Exec(Init(max, rps), acts).value, Enter(t))
    ensures var s := Exec(Init(max, rps), acts).value;
            (Apply(s, Enter(t)).threads[t] == Rejecting
             <==> |InPhase(s.threads, Admitted)| + |InPhase(s.threads, Rejecting)| >= max - 1)
  {
    RunsKeepInvariants(max, rps, acts);
  }

  // ---- When a refusal means that the limit is reached ----

  /** Every handler turned away finds Max - 1 others admitted. */
  ghost predicate RefusesOnlyWhenFull(max: int, rps: int) {
    forall acts, t | Exec(Init(max, rps), acts).Some? && RefusedNext(Exec(Init(max, rps), acts).value, t) ::
      |InPhase(Exec(Init(max, rps), acts).value.threads, Admitted)| >= max - 1
  }

  ghost predicate RefusedNext(s: State, t: nat) {
    Enabled(s, Enter(t)) && Apply(s, Enter(t)).threads[t] == Rejecting
  }

  lemma Extend(s0: State, acts: seq<Act>, s: State, a: Act) returns (acts': seq<Act>, s': State)
    requires Exec(s0, acts) == Some(s) && Enabled(s, a)
    ensures s' == Apply(s, a) && Exec(s0, acts') == Some(s')
  {
    acts', s' := acts + [a], Apply(s, a);
    ExecSnoc(s0, acts, a);
  }

  /** A new handler whose clock shows a second not seen before passes the rate check. */
  lemma Arrive(s0: State, acts0: seq<Act>, s1: State, t: nat) returns (acts: seq<Act>, s: State)
    requires Exec(s0, acts0) == Some(s1) && t !in s1.threads && s1.rps >= 0
    ensures Exec(s0, acts) == Some(s) && s.threads == s1.threads[t := Passed]
    ensures s.active == s1.active && s.max == s1.max && s.rps == s1.rps
  {
    acts, s := Extend(s0, acts0, s1, Spawn(t));
    acts, s := Extend(s0, acts, s, Clock(t, s1.timestamp + 1));
    if s1.rps > 0 {
      acts, s := CheckFresh(s0, acts, s, t);
    }
  }

  lemma CheckFresh(s0: State, acts0: seq<Act>, s1: State, t: nat) returns (acts: seq<Act>, s: State)
    requires Exec(s0, acts0) == Some(s1) && s1.rps > 0
    requires t in s1.threads && s1.threads[t] == Clocked(s1.timestamp + 1)
    ensures Exec(s0, acts) == Some(s) && s.threads == s1.threads[t := Passed]
    ensures s.active == s1.active && s.max == s1.max && s.rps == s1.rps
  {
    acts, s := Extend(s0, acts0, s1, Load(t));
    acts, s := Extend(s0, acts, s, Cas(t));
    acts, s := Extend(s0, acts, s, Reset(t));
    acts, s := Extend(s0, acts, s, Count(t));
  }

  /** The first n handlers, admitted one after the other. */
  lemma {:induction false} Fill(max: int, rps: nat, n: nat) returns (acts: seq<Act>, s: State)
    requires n < max
    ensures Exec(Init(max, rps), acts) == Some(s) && s.active == n && s.max == max && s.rps == rps
    ensures (forall t :: t in s.threads ==> t < n && s.threads[t] == Admitted) && (n > 0 ==> 0 in s.threads)
  {
    if n == 0 {
      acts, s := [], Init(max, rps);
    } else {
      acts, s := Fill(max, rps, n - 1);
      acts, s := Arrive(Init(max, rps), acts, s, n - 1);
      acts, s := Extend(Init(max, rps), acts, s, Enter(n - 1));
    }
  }

  /** One handler too many is turned away and has yet to roll back, and another one waits to enter. */
  lemma Crowd(max: int, rps: nat) returns (acts: seq<Act>, s: State)
    requires max >= 2
    ensures Exec(Init(max, rps), acts) == Some(s) && s.active == max == s.max
    ensures {0, max - 1, max} <= s.threads.Keys
    ensures s.threads[0] == Admitted && s.threads[max - 1] == Rejecting && s.threads[max] == Passed
  {
    var s0 := Init(max, rps);
    acts, s := Fill(max, rps, max - 1);
    acts, s := Arrive(s0, acts, s, max - 1);
    acts, s := Extend(s0, acts, s, Enter(max - 1));
    acts, s := Arrive(s0, acts, s, max);
  }

  /** A run in which one is turned away although fewer than Max - 1 are admitted. */
  lemma RefusedBelowLimit(max: int, rps: nat) returns (acts: seq<Act>)
    requires max >= 2
    ensures Exec(Init(max, rps), acts).Some? && RefusedNext(Exec(Init(max, rps), acts).value, max)
    ensures |InPhase(Exec(Init(max, rps), acts).value.threads, Admitted)| < max - 1
  {
    var s: State;
    acts, s := Crowd(max, rps);
    acts, s := Extend(Init(max, rps), acts, s, Leave(0));
    RunsKeepInvariants(max, rps, acts);
    assert max - 1 in InPhase(s.threads, Rejecting);
  }

  lemma NobodyPasses(max: int, rps: int, acts: seq<Act>)
    requires rps < 0 && Exec(Init(max, rps), acts).Some?
    ensures forall t :: t in Exec(Init(max, rps), acts).value.threads ==>
              Exec(Init(max, rps), acts).value.threads[t] !in {Passed, Admitted, Rejecting}
  {
    if acts != [] {
      NobodyPasses(max, rps, acts[..|acts| - 1]);
      RunsKeepInvariants(max, rps, acts[..|acts| - 1]);
    }
  }

  /** With a positive limit, refusals mean a full house exactly when nobody may ever enter. */
  lemma RefusesOnlyWhenFullIff(max: int, rps: int)
    requires max > 0
    ensures RefusesOnlyWhenFull(max, rps) <==> max == 1 || rps < 0
  {
    if max > 1 && rps >= 0 {
      var acts := RefusedBelowLimit(max, rps);
      assert !RefusesOnlyWhenFull(max, rps);
    }
    if rps < 0 {
      forall acts, t | Exec(Init(max, rps), acts).Some? ensures !RefusedNext(Exec(Init(max, rps), acts).value, t) {
        NobodyPasses(max, rps, acts);
      }
    }
  }
}

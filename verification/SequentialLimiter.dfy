/** The limiter of rate_limiter.go as one caller at a time sees it, and its exact admission pattern. */
module SequentialLimiter {
  import opened Numbers
  import opened Text
  import RateLimiter

  /** The two rate fields. */
  datatype Window = Window(timestamp: int, count: int)

  const FRESH := Window(0, 0)

  function Call(rps: int, w: Window, now: int): Window {
    if rps == 0 then w else Window(now, (if w.timestamp != now then 0 else w.count) + 1)
  }

  predicate Allowed(rps: int, w: Window, now: int) { rps == 0 || Call(rps, w, now).count <= rps }

  function After(rps: int, w: Window, nows: seq<int>): Window {
    if nows == [] then w else Call(rps, After(rps, w, nows[..|nows| - 1]), nows[|nows| - 1])
  }

  /** The answer to the i-th of a series of calls made at the given seconds. */
  predicate AllowedAt(rps: int, w: Window, nows: seq<int>, i: nat)
    requires i < |nows|
  {
    Allowed(rps, After(rps, w, nows[..i]), nows[i])
  }

  /** How many calls in a row, up to and including the i-th, saw the second of the i-th. */
  function RunPosition(nows: seq<int>, i: nat): (r: nat)
    requires i < |nows|
    ensures r >= 1
  {
    if i == 0 || nows[i - 1] != nows[i] then 1 else RunPosition(nows, i - 1) + 1
  }

  lemma {:induction false} CountIsRunPosition(rps: int, nows: seq<int>, i: nat)
    requires rps != 0 && i < |nows|
    ensures After(rps, FRESH, nows[..i + 1]) == Window(nows[i], RunPosition(nows, i))
  {
    assert nows[..i + 1][..i] == nows[..i];
    if i > 0 {
      CountIsRunPosition(rps, nows, i - 1);
    }
  }

  /** In each maximal run of calls that see one second, exactly the first RPS are allowed. */
  lemma FirstOfEachRunAreAllowed(rps: int, nows: seq<int>, i: nat)
    requires rps != 0 && i < |nows|
    ensures AllowedAt(rps, FRESH, nows, i) <==> RunPosition(nows, i) <= rps
  {
    CountIsRunPosition(rps, nows, i);
    assert nows[..i + 1][..i] == nows[..i];
  }

  // ---- The calls of one second ----

  function CallsIn(nows: seq<int>, second: int): nat {
    if nows == [] then 0 else CallsIn(nows[..|nows| - 1], second) + if nows[|nows| - 1] == second then 1 else 0
  }

  ghost function AllowedIn(rps: int, nows: seq<int>, second: int): nat {
    if nows == [] then 0
    else
      var n := |nows| - 1;
      AllowedIn(rps, nows[..n], second)
      + if nows[n] == second && Allowed(rps, After(rps, FRESH, nows[..n]), second) then 1 else 0
  }

  lemma {:induction false} RunPositionOfPrefix(nows: seq<int>, n: nat, i: nat)
    requires i < n <= |nows|
    ensures RunPosition(nows[..n], i) == RunPosition(nows, i)
  {
    if i > 0 { RunPositionOfPrefix(nows, n, i - 1); }
  }

  ghost predicate IsEarly(rps: int, nows: seq<int>, second: int, i: int) {
    0 <= i < |nows| && nows[i] == second && RunPosition(nows, i) <= rps
  }

  /** The calls of that second that come early enough in their run. */
  ghost function EarlyCalls(rps: int, nows: seq<int>, second: int): set<int> {
    set i | 0 <= i < |nows| && IsEarly(rps, nows, second, i)
  }

  lemma EarlyCallsSnoc(rps: int, nows: seq<int>, second: int, n: nat)
    requires n == |nows| - 1
    ensures EarlyCalls(rps, nows, second)
         == EarlyCalls(rps, nows[..n], second) + if IsEarly(rps, nows, second, n) then {n} else {}
  {
    forall i | 0 <= i < n ensures IsEarly(rps, nows[..n], second, i) <==> IsEarly(rps, nows, second, i) {
      RunPositionOfPrefix(nows, n, i);
    }
  }

  /** For any clock at all, a second admits exactly its calls among the first RPS of their runs. */
  lemma {:induction false} SecondAdmitsEarlyCalls(rps: int, nows: seq<int>, second: int)
    requires rps != 0
    ensures AllowedIn(rps, nows, second) == |EarlyCalls(rps, nows, second)|
  {
    if nows != [] {
      var n := |nows| - 1;
      SecondAdmitsEarlyCalls(rps, nows[..n], second);
      FirstOfEachRunAreAllowed(rps, nows, n);
      EarlyCallsSnoc(rps, nows, second, n);
      assert n !in EarlyCalls(rps, nows[..n], second);
    }
  }

  /** Between two calls that see the second lies none that sees another. */
  ghost predicate InOneRun(nows: seq<int>, second: int) {
    forall i, j, k :: 0 <= i < j < k < |nows| && nows[i] == second && nows[k] == second ==> nows[j] == second
  }

  lemma {:induction false} CalledIff(nows: seq<int>, second: int)
    ensures CallsIn(nows, second) > 0 <==> second in nows
  {
    if nows != [] {
      CalledIff(nows[..|nows| - 1], second);
      assert nows == nows[..|nows| - 1] + [nows[|nows| - 1]];
    }
  }

  /** The last run holds all the calls of its second exactly when they form one run. */
  lemma {:induction false} LastRunIsAllIff(nows: seq<int>)
    requires nows != []
    ensures RunPosition(nows, |nows| - 1) <= CallsIn(nows, nows[|nows| - 1])
    ensures RunPosition(nows, |nows| - 1) == CallsIn(nows, nows[|nows| - 1]) <==> InOneRun(nows, nows[|nows| - 1])
  {
    var n := |nows| - 1;
    var front, second := nows[..n], nows[n];
    CalledIff(front, second);
    if n > 0 && nows[n - 1] == second {
      LastRunIsAllIff(front);
      RunPositionOfPrefix(nows, n, n - 1);
      SameRuns(nows, second);
    } else if second in front {
      var i :| 0 <= i < n && front[i] == second;
      assert !InOneRun(nows, second) by { assert nows[i] == second && nows[n - 1] != second && nows[n] == second; }
    } else {
      assert forall i :: 0 <= i < n ==> nows[i] == front[i] && front[i] in front;
    }
  }

  /** One more call in the second just seen, or in another, neither makes nor breaks a single run. */
  lemma SameRuns(nows: seq<int>, second: int)
    requires nows != [] && (nows[|nows| - 1] == second ==> |nows| > 1 && nows[|nows| - 2] == second)
    ensures InOneRun(nows, second) <==> InOneRun(nows[..|nows| - 1], second)
  {
    var n := |nows| - 1;
    var front := nows[..n];
    if InOneRun(front, second) {
      forall i, j, k | 0 <= i < j < k < |nows| && nows[i] == second && nows[k] == second ensures nows[j] == second {
        assert front[i] == second && front[j] == nows[j];
        if k == n && j < n - 1 {
          assert front[n - 1] == second;
        } else if k < n {
          assert front[k] == second;
        }
      }
    }
    if InOneRun(nows, second) {
      forall i, j, k | 0 <= i < j < k < n && front[i] == second && front[k] == second ensures front[j] == second {
        assert nows[i] == second && nows[k] == second;
      }
    }
  }

  /** A second admits all its calls up to RPS, and more than RPS exactly when its calls exceed RPS in several runs. */
  lemma {:induction false} AdmittedIn(rps: int, nows: seq<int>, second: int)
    requires rps > 0
    ensures var admitted, calls := AllowedIn(rps, nows, second), CallsIn(nows, second);
            && Min(calls, rps) <= admitted <= calls
            && (InOneRun(nows, second) ==> admitted == Min(calls, rps))
            && (!InOneRun(nows, second) && calls > rps ==> admitted > rps)
  {
    if nows != [] {
      var n := |nows| - 1;
      AdmittedIn(rps, nows[..n], second);
      if nows[n] == second {
        FirstOfEachRunAreAllowed(rps, nows, n);
        LastRunIsAllIff(nows);
      }
      if nows[n] != second || (n > 0 && nows[n - 1] == second) {
        SameRuns(nows, second);
      }
    }
  }

  /** A second stays within RPS exactly when it sees no more calls than that, or sees them in one run. */
  lemma SecondKeepsLimitIff(rps: int, nows: seq<int>, second: int)
    requires rps > 0
    ensures AllowedIn(rps, nows, second) <= rps <==> CallsIn(nows, second) <= rps || InOneRun(nows, second)
  {
    AdmittedIn(rps, nows, second);
  }

  ghost predicate NonDecreasing(nows: seq<int>) {
    forall i, j :: 0 <= i < j < |nows| ==> nows[i] <= nows[j]
  }

  /** With a clock that does not step back every second admits the smaller of RPS and its calls. */
  lemma EachSecondAdmitsUpToRps(rps: int, nows: seq<int>, second: int)
    requires rps > 0 && NonDecreasing(nows)
    ensures AllowedIn(rps, nows, second) == Min(CallsIn(nows, second), rps)
  {
    AdmittedIn(rps, nows, second);
  }

  /** A clock that steps back admits more than RPS in one second. */
  lemma SteppingBackAdmitsMore()
    ensures AllowedIn(1, [1, 2, 1], 1) == 2
  {
    assert [1, 2, 1][..2] == [1, 2] && [1, 2][..1] == [1] && [1][..0] == [];
    assert AllowedIn(1, [1], 1) == 1;
    assert AllowedIn(1, [1, 2], 1) == 1;
    assert After(1, FRESH, [1, 2]) == Window(2, 1);
  }

  // ---- An undisturbed pass through the atomic steps is one call ----

  type Step = RateLimiter.Act

  /** Handler `t` begins, and then only it acts, up to the end of the rate check; its clock reads `now`. */
  ghost predicate Solo(acts: seq<Step>, t: nat, now: int) {
    && acts != [] && acts[0] == RateLimiter.Spawn(t)
    && (forall i :: 0 < i < |acts| ==> acts[i].t == t && !acts[i].Spawn? && !acts[i].Enter?)
    && (forall i :: 0 < i < |acts| && acts[i].Clock? ==> acts[i].now == now)
  }

  function WindowOf(s: RateLimiter.State): Window { Window(s.timestamp, s.rateCount) }

  /** What the window has become when the handler, begun in state `s0`, stands where it stands. */
  ghost predicate SoloInv(s0: RateLimiter.State, s: RateLimiter.State, t: nat, now: int) {
    var w0, w := WindowOf(s0), WindowOf(s);
    && s.rps == s0.rps && s.threads - {t} == s0.threads
    && (t !in s.threads ==> w == Call(s.rps, w0, now) && !Allowed(s.rps, w0, now))
    && (t in s.threads ==>
          match s.threads[t]
          case Start => w == w0
          case Clocked(n) => s.rps != 0 && n == now && w == w0
          case Stale(n, last) => s.rps != 0 && n == now != last == w0.timestamp && w == w0
          case MustReset => s.rps != 0 && now != w0.timestamp && w == w0.(timestamp := now)
          case MustCount => s.rps != 0 && w.(count := w.count + 1) == Call(s.rps, w0, now)
          case Passed => w == Call(s.rps, w0, now) && Allowed(s.rps, w0, now)
          case _ => false)
  }

  lemma SoloInvKept(s0: RateLimiter.State, s: RateLimiter.State, t: nat, now: int, a: Step)
    requires t !in s0.threads && t in s.threads && SoloInv(s0, s, t, now) && RateLimiter.Enabled(s, a)
    requires a.t == t && !a.Enter? && (a.Clock? ==> a.now == now)
    ensures SoloInv(s0, RateLimiter.Apply(s, a), t, now)
  {
    assert RateLimiter.Apply(s, a).threads - {t} == s.threads - {t};
  }

  lemma {:induction false} SoloRunsKeepInv(s0: RateLimiter.State, acts: seq<Step>, t: nat, now: int)
    requires t !in s0.threads && Solo(acts, t, now) && RateLimiter.Exec(s0, acts).Some?
    ensures SoloInv(s0, RateLimiter.Exec(s0, acts).value, t, now)
  {
    var n := |acts| - 1;
    if n > 0 {
      SoloRunsKeepInv(s0, acts[..n], t, now);
      SoloInvKept(s0, RateLimiter.Exec(s0, acts[..n]).value, t, now, acts[n]);
    } else {
      assert acts[..0] == [] && s0.threads[t := RateLimiter.Start] - {t} == s0.threads;
    }
  }

  /** The handler has been refused, or stands behind the rate check. */
  predicate IsChecked(s: RateLimiter.State, t: nat) { t !in s.threads || s.threads[t] == RateLimiter.Passed }

  /** Every run of one handler's atomic steps that nobody disturbs has the effect and the answer of one call. */
  lemma SoloRunIsCall(s0: RateLimiter.State, acts: seq<Step>, t: nat, now: int)
    requires t !in s0.threads && Solo(acts, t, now) && RateLimiter.Exec(s0, acts).Some?
    requires IsChecked(RateLimiter.Exec(s0, acts).value, t)
    ensures var s := RateLimiter.Exec(s0, acts).value;
            && WindowOf(s) == Call(s0.rps, WindowOf(s0), now)
            && (t in s.threads <==> Allowed(s0.rps, WindowOf(s0), now))
            && s.threads - {t} == s0.threads
  {
    SoloRunsKeepInv(s0, acts, t, now);
  }

  lemma SoloGo(s0: RateLimiter.State, acts: seq<Step>, s: RateLimiter.State, a: Step, t: nat, now: int)
    returns (acts': seq<Step>, s': RateLimiter.State)
    requires RateLimiter.Exec(s0, acts) == Some(s) && RateLimiter.Enabled(s, a) && Solo(acts, t, now)
    requires a.t == t && !a.Spawn? && !a.Enter? && (a.Clock? ==> a.now == now)
    ensures s' == RateLimiter.Apply(s, a) && RateLimiter.Exec(s0, acts') == Some(s') && Solo(acts', t, now)
  {
    acts', s' := acts + [a], RateLimiter.Apply(s, a);
    RateLimiter.ExecSnoc(s0, acts, a);
  }

  /** There always is such a run. */
  lemma SoloRunCompletes(s0: RateLimiter.State, t: nat, now: int) returns (acts: seq<Step>)
    requires t !in s0.threads
    ensures Solo(acts, t, now) && RateLimiter.Exec(s0, acts).Some?
    ensures IsChecked(RateLimiter.Exec(s0, acts).value, t)
  {
    var s := RateLimiter.Apply(s0, RateLimiter.Spawn(t));
    acts := [RateLimiter.Spawn(t)];
    RateLimiter.ExecSnoc(s0, [], acts[0]);
    assert [] + [acts[0]] == acts;
    acts, s := SoloGo(s0, acts, s, RateLimiter.Clock(t, now), t, now);
    if s0.rps != 0 {
      acts, s := SoloGo(s0, acts, s, RateLimiter.Load(t), t, now);
      if s0.timestamp != now {
        acts, s := SoloGo(s0, acts, s, RateLimiter.Cas(t), t, now);
        acts, s := SoloGo(s0, acts, s, RateLimiter.Reset(t), t, now);
      }
      acts, s := SoloGo(s0, acts, s, RateLimiter.Count(t), t, now);
    }
  }

  // ---- The limiter object ----

  /** One turn of the retry loop: the second it reads, and whether the context ends the wait after a refusal. */
  datatype Attempt = Attempt(now: int, cancelled: bool)

  datatype BlockResult = Granted | Cancelled | StillBlocked

  function Seconds(attempts: seq<Attempt>): seq<int> {
    seq(|attempts|, i requires 0 <= i < |attempts| => attempts[i].now)
  }

  class RateLimiterAtomic {
    const max: int
    const rps: int
    var rate: Window
    var activeCount: int

    constructor (max: int, rps: int)
      ensures this.max == max && this.rps == rps && rate == FRESH && activeCount == 0
    {
      this.max, this.rps := max, rps;
      rate, activeCount := FRESH, 0;
    }

    method DialogActiveLimit() returns (ok: bool)
      modifies this`activeCount
      ensures ok <==> max == 0 || old(activeCount) + 1 < max
      ensures activeCount == old(activeCount) + if ok && max != 0 then 1 else 0
    {
      if max == 0 {
        return true;
      }
      activeCount := activeCount + 1;
      if activeCount < max {
        return true;
      }
      DialogActiveDec();
      return false;
    }

    method DialogActiveDec()
      modifies this`activeCount
      ensures activeCount == old(activeCount) - if max == 0 then 0 else 1
    {
      if max == 0 {
        return;
      }
      activeCount := activeCount - 1;
    }

    method DialogRPSLimit(now: int) returns (ok: bool)
      modifies this`rate
      ensures rate == Call(rps, old(rate), now)
      ensures ok <==> Allowed(rps, old(rate), now)
    {
      if rps == 0 {
        return true;
      }
      var lastSecond := rate.timestamp;
      if lastSecond != now {
        rate := rate.(timestamp := now);
        rate := rate.(count := 0);
      }
      rate := rate.(count := rate.count + 1);
      return rate.count <= rps;
    }

    /** Of the calls it makes, a granted wait uses one admission, the last; any other wait uses none. */
    method Block(attempts: seq<Attempt>) returns (r: BlockResult, tries: nat)
      modifies this`rate
      ensures tries <= |attempts| && rate == After(rps, old(rate), Seconds(attempts)[..tries])
      ensures r == Granted ==> tries > 0 && AllowedAt(rps, old(rate), Seconds(attempts), tries - 1)
      ensures forall i :: 0 <= i < tries && (r != Granted || i < tries - 1) ==>
                !AllowedAt(rps, old(rate), Seconds(attempts), i)
      ensures r == Cancelled ==> tries > 0 && attempts[tries - 1].cancelled
      ensures forall i :: 0 <= i < tries - 1 ==> !attempts[i].cancelled
      ensures r == StillBlocked ==> tries == |attempts|
    {
      ghost var nows := Seconds(attempts);
      tries := 0;
      while tries < |attempts|
        invariant tries <= |attempts| && rate == After(rps, old(rate), nows[..tries])
        invariant forall i :: 0 <= i < tries ==> !AllowedAt(rps, old(rate), nows, i)
        invariant forall i :: 0 <= i < tries ==> !attempts[i].cancelled
      {
        var i := tries;
        assert nows[..i + 1][..i] == nows[..i] && nows[i] == attempts[i].now;
        var ok := DialogRPSLimit(attempts[i].now);
        tries := tries + 1;
        if ok {
          return Granted, tries;
        }
        if attempts[i].cancelled {
          return Cancelled, tries;
        }
      }
      return StillBlocked, tries;
    }
  }
}

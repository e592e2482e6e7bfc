/** Fallback dialling of pbx.go: endpoints tried in order, and who closes the dialogs it creates. */
module Fallback {
  import opened Sorting
  import opened Text

  /** A failed INVITE: the response status if one came, and whether the deadline passed. */
  datatype InviteError = InviteError(status: Option<int>, deadline: bool)

  /** What happens at one configured endpoint. */
  datatype Attempt = NotConfigured | BadUri | NoDialog | Invited(error: Option<InviteError>)

  datatype FallbackConf = FallbackConf(codes: seq<int>, onTimeout: bool)

  datatype Outcome = Connected(dialog: nat) | Failed

  method IsInviteErrFallback(err: InviteError, conf: FallbackConf) returns (r: bool)
    ensures r <==>
              || (exists i :: 0 <= i < |conf.codes| && err.status == Some(conf.codes[i]))
              || (err.deadline && conf.onTimeout)
  {
    if err.status.Some? {
      for i := 0 to |conf.codes|
        invariant err.status.value !in conf.codes[..i]
      {
        if conf.codes[i] == err.status.value {
          return true;
        }
      }
      assert conf.codes[..|conf.codes|] == conf.codes;
    }
    return err.deadline && conf.onTimeout;
  }

  predicate Eligible(err: InviteError, conf: FallbackConf) {
    (err.status.Some? && err.status.value in conf.codes) || (err.deadline && conf.onTimeout)
  }

  predicate FallsThrough(a: Attempt, conf: FallbackConf) {
    a.Invited? && a.error.Some? && Eligible(a.error.value, conf)
  }

  /** The deferred closers run last to first; each closes its dialog only if the call still owns it. */
  method RunDeferred(defers: seq<nat>, owned: map<nat, bool>) returns (closed: seq<nat>)
    requires NoDuplicates(defers) && forall d :: d in defers ==> d in owned
    ensures NoDuplicates(closed)
    ensures forall d :: d in closed <==> d in defers && owned[d]
  {
    closed := [];
    var i := |defers|;
    while i > 0
      invariant 0 <= i <= |defers|
      invariant NoDuplicates(closed)
      invariant forall d :: d in closed <==> d in defers[i..] && owned[d]
    {
      i := i - 1;
      assert defers[i..] == [defers[i]] + defers[i + 1..];
      assert defers[i] !in defers[i + 1..];
      if owned[defers[i]] {
        closed := closed + [defers[i]];
      }
    }
    assert defers[0..] == defers;
  }

  /**
   Dialog d is the one created at the d-th endpoint; `created` and `closed` are in order
   of occurrence. A prefix of the endpoints is tried, all but the last failing with an
   eligible error; every dialog created is closed exactly once, except the one handed
   back, which is not closed.
   */
  method InviteFallback(attempts: seq<Attempt>, conf: FallbackConf)
    returns (r: Outcome, tried: nat, created: seq<nat>, closed: seq<nat>)
    ensures tried <= |attempts|
    ensures forall i :: 0 <= i < tried - 1 ==> FallsThrough(attempts[i], conf)
    ensures forall d :: d in created <==> 0 <= d < tried && attempts[d].Invited?
    ensures NoDuplicates(closed) && forall d :: d in closed <==> d in created && r != Connected(d)
    ensures r.Connected? ==> tried == r.dialog + 1 && attempts[r.dialog] == Invited(None)
    ensures r.Failed? ==>
              || (tried == |attempts| && forall i :: 0 <= i < tried ==> FallsThrough(attempts[i], conf))
              || (tried > 0 && !FallsThrough(attempts[tried - 1], conf) && attempts[tried - 1] != Invited(None))
  {
    var owned: map<nat, bool> := map[];
    created := [];
    tried := 0;
    while tried < |attempts|
      invariant tried <= |attempts|
      invariant forall i :: 0 <= i < tried ==> FallsThrough(attempts[i], conf)
      invariant |created| == tried && forall i :: 0 <= i < tried ==> created[i] == i
      invariant forall i :: 0 <= i < tried ==> i in owned && owned[i]
    {
      var d := tried;
      tried := tried + 1;
      assert forall k :: 0 <= k < d ==> created[k] in created && attempts[k].Invited?;
      if attempts[d].NotConfigured? || attempts[d].BadUri? || attempts[d].NoDialog? {
        closed := RunDeferred(created, owned);
        return Failed, tried, created, closed;
      }
      created := created + [d];
      owned := owned[d := true];
      if attempts[d].error.Some? {
        var again := IsInviteErrFallback(attempts[d].error.value, conf);
        if again {
          continue;
        }
        closed := RunDeferred(created, owned);
        return Failed, tried, created, closed;
      }
      owned := owned[d := false];
      closed := RunDeferred(created, owned);
      return Connected(d), tried, created, closed;
    }
    assert forall k :: 0 <= k < tried ==> created[k] in created && attempts[k].Invited?;
    closed := RunDeferred(created, owned);
    return Failed, tried, created, closed;
  }
}

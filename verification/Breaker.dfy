/** The per-shard circuit breaker (client/breaker.go), each method taken as one atomic step. */
module Breaker {
  import opened Types

  /** The four atomics. */
  datatype Fields = Fields(open: bool, consecutiveFailures: int64, openedAtNano: int64, trialInFlight: bool)

  const FRESH := Fields(false, 0, 0, false)

  /** What the documentation calls the breaker's state. */
  datatype State =
    | Closed(failures: int)
    | Open(since: int64)
    | HalfOpen(since: int64)

  function Abs(f: Fields): State {
    if !f.open then Closed(f.consecutiveFailures)
    else if f.trialInFlight then HalfOpen(f.openedAtNano)
    else Open(f.openedAtNano)
  }

  datatype Event =
    | Allow(now: int64)
    | Success
    | Failure(now: int64)

  /** The documented state machine, for a positive threshold. */
  function NextState(s: State, e: Event, threshold: int64, cooldown: int64): State {
    match e
    case Allow(now) => if s.Open? && now - s.since >= cooldown then HalfOpen(s.since) else s
    case Success => Closed(0)
    case Failure(now) =>
      if s.Closed? && s.failures + 1 < threshold then Closed(s.failures + 1) else Open(now)
  }

  /** Which calls it lets through. */
  predicate Grants(s: State, e: Event, cooldown: int64) {
    e.Allow? && (s.Closed? || (s.Open? && e.now - s.since >= cooldown))
  }

  /** What holds between any two atomic calls. */
  predicate Inv(f: Fields, threshold: int64) {
    && f.consecutiveFailures >= 0
    && (f.open <==> f.consecutiveFailures >= threshold)
    && (f.trialInFlight ==> f.open)
  }

  class CircuitBreaker {
    const failureThreshold: int64
    const openDuration: int64
    var open: bool
    var consecutiveFailures: int64
    var openedAtNano: int64
    var trialInFlight: bool

    constructor (failureThreshold: int64, openDuration: int64)
      ensures this.failureThreshold == failureThreshold && this.openDuration == openDuration
      ensures Snapshot() == FRESH
    {
      this.failureThreshold, this.openDuration := failureThreshold, openDuration;
      open, consecutiveFailures, openedAtNano, trialInFlight := false, 0, 0, false;
    }

    ghost function Snapshot(): Fields
      reads this
    {
      Fields(open, consecutiveFailures, openedAtNano, trialInFlight)
    }

    method Allow(now: int64) returns (ok: bool)
      modifies this`trialInFlight
      ensures failureThreshold <= 0 ==> ok && Snapshot() == old(Snapshot())
      ensures failureThreshold > 0 ==>
                (ok <==> !old(open) || (now - old(openedAtNano) >= openDuration && !old(trialInFlight)))
      ensures failureThreshold > 0 && Inv(old(Snapshot()), failureThreshold) ==>
                && Inv(Snapshot(), failureThreshold)
                && Abs(Snapshot()) == NextState(Abs(old(Snapshot())), Event.Allow(now), failureThreshold, openDuration)
                && (ok <==> Grants(Abs(old(Snapshot())), Event.Allow(now), openDuration))
    {
      if failureThreshold <= 0 || !open {
        return true;
      }
      if now - openedAtNano < openDuration {
        return false;
      }
      ok := !trialInFlight;
      trialInFlight := true;
    }

    method RecordSuccess()
      modifies this`open, this`consecutiveFailures, this`trialInFlight
      ensures !open && consecutiveFailures == 0
      ensures failureThreshold > 0 && Inv(old(Snapshot()), failureThreshold) ==>
                && Inv(Snapshot(), failureThreshold)
                && Abs(Snapshot()) == NextState(Abs(old(Snapshot())), Success, failureThreshold, openDuration)
    {
      consecutiveFailures := 0;
      if open {
        open := false;
        trialInFlight := false;
      }
    }

    /** The counter wraps only after 2^63 - 1 failures in a row. */
    method RecordFailure(now: int64)
      modifies this
      ensures failureThreshold <= 0 ==> Snapshot() == old(Snapshot())
      ensures && failureThreshold > 0 && Inv(old(Snapshot()), failureThreshold)
              && old(consecutiveFailures) < INT64_MAX ==>
                && Inv(Snapshot(), failureThreshold)
                && Abs(Snapshot()) == NextState(Abs(old(Snapshot())), Failure(now), failureThreshold, openDuration)
                && consecutiveFailures <= old(consecutiveFailures) + 1
    {
      if failureThreshold <= 0 {
        return;
      }
      if trialInFlight {
        openedAtNano := now;
        trialInFlight := false;
        return;
      }
      consecutiveFailures := Wrap64(consecutiveFailures + 1);
      if consecutiveFailures >= failureThreshold {
        openedAtNano := now;
        open := true;
      }
    }
  }

  // ---------------------------------------------------------------- runs

  function Run(s: State, es: seq<Event>, threshold: int64, cooldown: int64): State {
    if es == [] then s else NextState(Run(s, es[..|es| - 1], threshold, cooldown), es[|es| - 1], threshold, cooldown)
  }

  lemma {:induction false} RunOn(s: State, es: seq<Event>, more: seq<Event>, threshold: int64, cooldown: int64)
    ensures Run(s, es + more, threshold, cooldown) == Run(Run(s, es, threshold, cooldown), more, threshold, cooldown)
  {
    if more == [] {
      assert es + more == es;
    } else {
      RunOn(s, es, more[..|more| - 1], threshold, cooldown);
      assert (es + more)[..|es + more| - 1] == es + more[..|more| - 1];
    }
  }

  lemma RunOne(s: State, e: Event, threshold: int64, cooldown: int64)
    ensures Run(s, [e], threshold, cooldown) == NextState(s, e, threshold, cooldown)
  {
    assert [e][..0] == [];
  }

  predicate Granted(s: State, es: seq<Event>, i: nat, threshold: int64, cooldown: int64)
    requires i < |es|
  {
    Grants(Run(s, es[..i], threshold, cooldown), es[i], cooldown)
  }

  predicate Monotone(es: seq<Event>) {
    forall i, j :: 0 <= i < j < |es| && !es[i].Success? && !es[j].Success? ==> es[i].now <= es[j].now
  }

  lemma RunStep(s: State, es: seq<Event>, i: nat, threshold: int64, cooldown: int64)
    requires i < |es|
    ensures Run(s, es[..i + 1], threshold, cooldown)
            == NextState(Run(s, es[..i], threshold, cooldown), es[i], threshold, cooldown)
  {
    assert es[..i + 1][..i] == es[..i];
  }

  /** While no success is recorded after a failure that opened the breaker, it stays open
      and its cooldown starts no earlier than that failure. */
  lemma {:induction false} StaysOpen(s: State, es: seq<Event>, i: nat, j: nat, threshold: int64, cooldown: int64)
    requires i < j <= |es| && Monotone(es) && es[i].Failure?
    requires Run(s, es[..i + 1], threshold, cooldown).Open?
    requires forall k :: i < k < j ==> !es[k].Success?
    ensures var t := Run(s, es[..j], threshold, cooldown);
            !t.Closed? && es[i].now <= t.since
  {
    RunStep(s, es, j - 1, threshold, cooldown);
    if j > i + 1 {
      StaysOpen(s, es, i, j - 1, threshold, cooldown);
    }
  }

  /** No call is let through inside a cooldown: a grant that follows a failure which left the
      breaker open, with no success recorded between, comes at least the cooldown later. */
  lemma NoGrantDuringCooldown(s: State, es: seq<Event>, i: nat, j: nat, threshold: int64, cooldown: int64)
    requires i < j < |es| && Monotone(es) && es[i].Failure?
    requires Run(s, es[..i + 1], threshold, cooldown).Open?
    requires forall k :: i < k < j ==> !es[k].Success?
    requires Granted(s, es, j, threshold, cooldown)
    ensures es[j].now >= es[i].now + cooldown
  {
    StaysOpen(s, es, i, j, threshold, cooldown);
  }

  /** Once a trial is out, nothing is let through until some outcome is recorded: a trial
      that records none keeps the shard cut off. */
  lemma {:induction false} TrialBlocks(s: State, es: seq<Event>, i: nat, j: nat, threshold: int64, cooldown: int64)
    requires i <= j <= |es|
    requires Run(s, es[..i], threshold, cooldown).HalfOpen?
    requires forall k :: i <= k < j ==> es[k].Allow?
    ensures Run(s, es[..j], threshold, cooldown).HalfOpen?
    ensures forall k :: i <= k < j ==> !Granted(s, es, k, threshold, cooldown)
  {
    if i < j {
      TrialBlocks(s, es, i, j - 1, threshold, cooldown);
      RunStep(s, es, j - 1, threshold, cooldown);
    }
  }

  /** Between two grants of an open breaker some outcome was recorded: one trial at a time. */
  lemma OneTrialAtATime(s: State, es: seq<Event>, i: nat, j: nat, threshold: int64, cooldown: int64)
    requires i < j < |es|
    requires Granted(s, es, i, threshold, cooldown) && Granted(s, es, j, threshold, cooldown)
    requires !Run(s, es[..i], threshold, cooldown).Closed?
    ensures exists k :: i < k < j && !es[k].Allow?
  {
    RunStep(s, es, i, threshold, cooldown);
    if forall k :: i < k < j ==> es[k].Allow? {
      TrialBlocks(s, es, i + 1, j + 1, threshold, cooldown);
      assert false;
    }
  }

  lemma {:induction false} OpenUntilTried(s: State, es: seq<Event>, i: nat, j: nat, threshold: int64, cooldown: int64)
    requires i <= j <= |es|
    requires Run(s, es[..i], threshold, cooldown).Open?
    requires forall k :: i <= k < j ==> es[k].Allow? && !Granted(s, es, k, threshold, cooldown)
    ensures Run(s, es[..j], threshold, cooldown) == Run(s, es[..i], threshold, cooldown)
  {
    if i < j {
      OpenUntilTried(s, es, i, j - 1, threshold, cooldown);
      RunStep(s, es, j - 1, threshold, cooldown);
    }
  }

  /** Recovery: after the breaker opens, the first request past the cooldown is the trial; if
      the trial then records its outcome before anyone else records one, success closes the
      breaker and failure starts a fresh cooldown at that moment. */
  lemma TrialDecides(s: State, es: seq<Event>, i: nat, j: nat, k: nat, threshold: int64, cooldown: int64)
    requires i <= j < k < |es| && threshold > 0
    requires Run(s, es[..i], threshold, cooldown).Open?
    requires forall n :: i <= n < j ==> es[n].Allow? && !Granted(s, es, n, threshold, cooldown)
    requires es[j].Allow? && es[j].now >= Run(s, es[..i], threshold, cooldown).since + cooldown
    requires forall n :: j < n < k ==> es[n].Allow?
    requires !es[k].Allow?
    ensures Granted(s, es, j, threshold, cooldown)
    ensures forall n :: j < n < k ==> !Granted(s, es, n, threshold, cooldown)
    ensures Run(s, es[..k + 1], threshold, cooldown) == if es[k].Success? then Closed(0) else Open(es[k].now)
  {
    OpenUntilTried(s, es, i, j, threshold, cooldown);
    RunStep(s, es, j, threshold, cooldown);
    TrialBlocks(s, es, j + 1, k, threshold, cooldown);
    RunStep(s, es, k, threshold, cooldown);
  }

  /** Failures recorded since the last success. */
  function Failures(es: seq<Event>): nat {
    if es == [] then 0
    else
      match es[|es| - 1]
      case Success => 0
      case Failure(_) => Failures(es[..|es| - 1]) + 1
      case Allow(_) => Failures(es[..|es| - 1])
  }

  /** From a fresh breaker: it is closed exactly while fewer than threshold failures have
      been recorded since the last success, and then that is the count it keeps. */
  lemma {:induction false} ClosedBelowThreshold(es: seq<Event>, threshold: int64, cooldown: int64)
    requires threshold > 0
    ensures var s := Run(Closed(0), es, threshold, cooldown);
            && (s.Closed? <==> Failures(es) < threshold)
            && (s.Closed? ==> s.failures == Failures(es))
  {
    if es != [] {
      ClosedBelowThreshold(es[..|es| - 1], threshold, cooldown);
    }
  }

  /** Event i is the last outcome recorded, and it is a failure. */
  predicate LastOutcomeFailed(es: seq<Event>, i: nat) {
    i < |es| && es[i].Failure? && forall k :: i < k < |es| ==> es[k].Allow?
  }

  /** A call asked for after event i, at least a cooldown after its time. */
  predicate TriedSince(es: seq<Event>, i: nat, cooldown: int64)
    requires LastOutcomeFailed(es, i)
  {
    exists k :: i < k < |es| && es[k].Allow? && es[k].now - es[i].now >= cooldown
  }

  lemma TriedAppend(es: seq<Event>, e: Event, i: nat, cooldown: int64)
    requires LastOutcomeFailed(es, i) && e.Allow?
    ensures LastOutcomeFailed(es + [e], i)
    ensures TriedSince(es + [e], i, cooldown) <==> TriedSince(es, i, cooldown) || e.now - es[i].now >= cooldown
  {
    var all := es + [e];
    if TriedSince(es, i, cooldown) {
      var k :| i < k < |es| && es[k].Allow? && es[k].now - es[i].now >= cooldown;
      assert all[k] == es[k];
    }
    if e.now - es[i].now >= cooldown {
      assert all[|es|] == e;
    }
  }

  /** From a fresh breaker, once threshold failures have been recorded since the last success:
      its cooldown runs from the last of them, and it is half-open exactly if a call has been
      asked for since that cooldown was over. */
  lemma {:induction false} OpenSinceLastFailure(es: seq<Event>, i: nat, threshold: int64, cooldown: int64)
    requires threshold > 0 && Failures(es) >= threshold && LastOutcomeFailed(es, i)
    ensures Run(Closed(0), es, threshold, cooldown)
            == if TriedSince(es, i, cooldown) then HalfOpen(es[i].now) else Open(es[i].now)
    decreases |es|
  {
    var n := |es| - 1;
    var front := es[..n];
    if i < n {
      assert es == front + [es[n]];
      OpenSinceLastFailure(front, i, threshold, cooldown);
      TriedAppend(front, es[n], i, cooldown);
    } else {
      ClosedBelowThreshold(front, threshold, cooldown);
    }
  }

  lemma {:induction false} LastFailure(es: seq<Event>) returns (i: nat)
    requires Failures(es) > 0
    ensures LastOutcomeFailed(es, i)
  {
    var n := |es| - 1;
    i := n;
    if es[n].Allow? {
      i := LastFailure(es[..n]);
    }
  }

  /** Which calls a breaker lets through, told by what was recorded before: all of them while
      fewer than threshold failures have been recorded since the last success; from then on,
      the first to come a cooldown or more after the last failure, and no other. */
  lemma LetThroughExactly(es: seq<Event>, now: int64, threshold: int64, cooldown: int64)
    requires threshold > 0
    ensures Granted(Closed(0), es + [Event.Allow(now)], |es|, threshold, cooldown)
            <==> || Failures(es) < threshold
                 || exists i: nat ::
                      LastOutcomeFailed(es, i) && now - es[i].now >= cooldown && !TriedSince(es, i, cooldown)
  {
    assert (es + [Event.Allow(now)])[..|es|] == es;
    ClosedBelowThreshold(es, threshold, cooldown);
    if Failures(es) >= threshold {
      var i := LastFailure(es);
      OpenSinceLastFailure(es, i, threshold, cooldown);
      forall j: nat | LastOutcomeFailed(es, j)
        ensures j == i
      {
      }
    }
  }

  // ------------------------------------------- only calls let through record

  /** How a call that was let through ends. One that its own caller ends records nothing. */
  datatype Outcome = Succeeded | Failed(now: int64) | Unrecorded

  datatype Move = Call(now: int64) | End(outcome: Outcome)

  /** The breaker, and the number of calls it has let through that have not ended. */
  datatype Client = Client(breaker: State, inFlight: nat)

  const IDLE := Client(Closed(0), 0)

  predicate Possible(c: Client, m: Move) {
    m.End? ==> c.inFlight > 0
  }

  predicate LetThrough(c: Client, m: Move, cooldown: int64) {
    m.Call? && Grants(c.breaker, Event.Allow(m.now), cooldown)
  }

  function Do(c: Client, m: Move, threshold: int64, cooldown: int64): Client
    requires Possible(c, m)
  {
    match m
    case Call(now) =>
      Client(NextState(c.breaker, Event.Allow(now), threshold, cooldown),
             c.inFlight + if LetThrough(c, m, cooldown) then 1 else 0)
    case End(Succeeded) => Client(NextState(c.breaker, Success, threshold, cooldown), c.inFlight - 1)
    case End(Failed(now)) => Client(NextState(c.breaker, Failure(now), threshold, cooldown), c.inFlight - 1)
    case End(Unrecorded) => Client(c.breaker, c.inFlight - 1)
  }

  predicate CanDo(c: Client, ms: seq<Move>, threshold: int64, cooldown: int64)
    decreases |ms|
  {
    ms == [] || (Possible(c, ms[0]) && CanDo(Do(c, ms[0], threshold, cooldown), ms[1..], threshold, cooldown))
  }

  function DoAll(c: Client, ms: seq<Move>, threshold: int64, cooldown: int64): Client
    requires CanDo(c, ms, threshold, cooldown)
    decreases |ms|
  {
    if ms == [] then c else DoAll(Do(c, ms[0], threshold, cooldown), ms[1..], threshold, cooldown)
  }

  /** No call of the run is let through. */
  predicate AllRefused(c: Client, ms: seq<Move>, threshold: int64, cooldown: int64)
    requires CanDo(c, ms, threshold, cooldown)
    decreases |ms|
  {
    ms == []
    || (!LetThrough(c, ms[0], cooldown)
        && AllRefused(Do(c, ms[0], threshold, cooldown), ms[1..], threshold, cooldown))
  }

  lemma {:induction false} NobodyLeft(c: Client, ms: seq<Move>, threshold: int64, cooldown: int64)
    requires c.breaker.HalfOpen? && c.inFlight == 0 && CanDo(c, ms, threshold, cooldown)
    ensures AllRefused(c, ms, threshold, cooldown)
    decreases |ms|
  {
    if ms != [] {
      NobodyLeft(Do(c, ms[0], threshold, cooldown), ms[1..], threshold, cooldown);
    }
  }

  /** Any call still in flight may succeed, and then the next one is let through. */
  lemma LaterSuccess(c: Client, threshold: int64, cooldown: int64) returns (ms: seq<Move>)
    requires c.inFlight > 0
    ensures CanDo(c, ms, threshold, cooldown) && !AllRefused(c, ms, threshold, cooldown)
  {
    ms := [End(Succeeded), Call(0)];
    var d := Do(c, ms[0], threshold, cooldown);
    assert ms[1..] == [Call(0)] && LetThrough(d, Call(0), cooldown);
    assert CanDo(Do(d, Call(0), threshold, cooldown), [Call(0)][1..], threshold, cooldown);
  }

  /** While a trial is out, a breaker refuses every call for ever, whatever happens, exactly if
      no call it let through is still in flight. */
  lemma StuckForEver(c: Client, threshold: int64, cooldown: int64)
    requires c.breaker.HalfOpen?
    ensures (forall ms :: CanDo(c, ms, threshold, cooldown) ==> AllRefused(c, ms, threshold, cooldown))
            <==> c.inFlight == 0
  {
    if c.inFlight == 0 {
      forall ms | CanDo(c, ms, threshold, cooldown) {
        NobodyLeft(c, ms, threshold, cooldown);
      }
    } else {
      var ms := LaterSuccess(c, threshold, cooldown);
      assert !(CanDo(c, ms, threshold, cooldown) ==> AllRefused(c, ms, threshold, cooldown));
    }
  }

  lemma {:induction false} DoMore(c: Client, ms: seq<Move>, m: Move, threshold: int64, cooldown: int64)
    requires CanDo(c, ms, threshold, cooldown) && Possible(DoAll(c, ms, threshold, cooldown), m)
    ensures CanDo(c, ms + [m], threshold, cooldown)
    ensures DoAll(c, ms + [m], threshold, cooldown) == Do(DoAll(c, ms, threshold, cooldown), m, threshold, cooldown)
    decreases |ms|
  {
    if ms == [] {
      assert ms + [m] == [m];
    } else {
      assert (ms + [m])[1..] == ms[1..] + [m];
      DoMore(Do(c, ms[0], threshold, cooldown), ms[1..], m, threshold, cooldown);
    }
  }

  lemma {:induction false} FailedCalls(n: nat, threshold: int64, cooldown: int64) returns (ms: seq<Move>)
    requires n <= threshold && threshold > 0
    ensures CanDo(IDLE, ms, threshold, cooldown)
    ensures DoAll(IDLE, ms, threshold, cooldown) == Client(if n < threshold then Closed(n) else Open(0), 0)
  {
    ms := [];
    if n > 0 {
      ms := FailedCalls(n - 1, threshold, cooldown);
      DoMore(IDLE, ms, Call(0), threshold, cooldown);
      ms := ms + [Call(0)];
      DoMore(IDLE, ms, End(Failed(0)), threshold, cooldown);
      ms := ms + [End(Failed(0))];
    }
  }

  /** From a fresh breaker, with any settings, a run leads to a trial that records nothing with
      no other call in flight: the shard is cut off for good, however healthy it is. */
  lemma TrialCanBeLost(threshold: int64, cooldown: int64) returns (ms: seq<Move>)
    requires threshold > 0
    ensures CanDo(IDLE, ms, threshold, cooldown)
    ensures var c := DoAll(IDLE, ms, threshold, cooldown);
            && c.breaker.HalfOpen? && c.inFlight == 0
            && forall more :: CanDo(c, more, threshold, cooldown) ==> AllRefused(c, more, threshold, cooldown)
  {
    ms := FailedCalls(threshold, threshold, cooldown);
    var now: int64 := if cooldown > 0 then cooldown else 0;
    DoMore(IDLE, ms, Call(now), threshold, cooldown);
    ms := ms + [Call(now)];
    DoMore(IDLE, ms, End(Unrecorded), threshold, cooldown);
    ms := ms + [End(Unrecorded)];
    StuckForEver(DoAll(IDLE, ms, threshold, cooldown), threshold, cooldown);
  }
}

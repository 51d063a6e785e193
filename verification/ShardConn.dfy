/** One call on a shard's connection (client/conn.go, throttle): keys are checked first, the
    breaker decides whether the shard is asked at all, and what comes of asking is recorded. */
module ShardConn {
  import opened Types
  import opened Codec
  import opened Positions
  import opened Breaker

  /** How the exchange with the shard ends: results, an error the connection delivered, or an
      error of submitting or waiting, with the caller's own context over or not. */
  datatype Ending =
    | Delivered(results: seq<ResponseEntry>)
    | Aborted(error: Error)
    | GaveUp(error: Error, callerDone: bool)

  /** The caller ending its own call says nothing about the shard. */
  predicate ShardFault(e: Ending) {
    e.Aborted? || (e.GaveUp? && !e.callerDone)
  }

  function KeyOk(entries: seq<RequestEntry>): (ok: seq<bool>)
    ensures |ok| == |entries|
  {
    seq(|entries|, i requires 0 <= i < |entries| => ValidKey(entries[i].key))
  }

  /** The entries sent. */
  function ValidOnes(entries: seq<RequestEntry>): seq<RequestEntry> {
    if entries == [] then []
    else
      var e := entries[|entries| - 1];
      ValidOnes(entries[..|entries| - 1]) + if ValidKey(e.key) then [e] else []
  }

  /** Every entry with a bad key is refused, whatever becomes of the others. */
  predicate BadKeysRefused(results: seq<ResponseEntry>, entries: seq<RequestEntry>) {
    && |results| == |entries|
    && forall k :: 0 <= k < |entries| && !ValidKey(entries[k].key) ==>
         results[k] == ResponseEntry(entries[k].key, true, 0, 0, Some(InvalidKey))
  }

  /** Every entry with a good key gets the same refusal. */
  predicate OthersRefused(results: seq<ResponseEntry>, entries: seq<RequestEntry>, throttled: bool, err: Error) {
    && |results| == |entries|
    && forall k :: 0 <= k < |entries| && ValidKey(entries[k].key) ==>
         results[k] == ResponseEntry(entries[k].key, throttled, 0, 0, Some(err))
  }

  /** Every entry with a good key gets its own result. */
  predicate OthersAnswered(results: seq<ResponseEntry>, entries: seq<RequestEntry>, answers: seq<ResponseEntry>) {
    && |results| == |entries|
    && forall k :: 0 <= k < |entries| && ValidKey(entries[k].key) ==>
         Rank(KeyOk(entries), k) < |answers| && results[k] == answers[Rank(KeyOk(entries), k)]
  }

  /** Every entry with a good key has what the exchange's ending gives it. */
  predicate Settled(results: seq<ResponseEntry>, entries: seq<RequestEntry>, failOpen: bool, ending: Ending) {
    if ending.Delivered? then OthersAnswered(results, entries, ending.results)
    else OthersRefused(results, entries, !failOpen, ending.error)
  }

  // ------------------------------------------------------------ first pass

  ghost predicate Checked(entries: seq<RequestEntry>, n: nat, results: seq<ResponseEntry>,
                          validEntries: seq<RequestEntry>, validIdx: seq<nat>, errs: seq<Error>)
    requires n <= |entries|
  {
    && |results| == n && BadKeysRefused(results, entries[..n])
    && validEntries == ValidOnes(entries[..n]) && Indexed(KeyOk(entries[..n]), validIdx) && |validIdx| == |validEntries|
    && |errs| + |validIdx| == n && (forall e :: e in errs ==> e == InvalidKey)
  }

  method CheckKeys(entries: seq<RequestEntry>)
    returns (results: seq<ResponseEntry>, validEntries: seq<RequestEntry>, validIdx: seq<nat>, errs: seq<Error>)
    ensures Checked(entries, |entries|, results, validEntries, validIdx, errs)
  {
    results, validEntries, validIdx, errs := [], [], [], [];
    for i := 0 to |entries|
      invariant Checked(entries, i, results, validEntries, validIdx, errs)
    {
      results, validEntries, validIdx, errs := CheckNext(entries, i, results, validEntries, validIdx, errs);
    }
  }

  lemma EntriesStep(entries: seq<RequestEntry>, i: nat)
    requires i < |entries|
    ensures KeyOk(entries[..i + 1]) == KeyOk(entries[..i]) + [ValidKey(entries[i].key)]
    ensures ValidOnes(entries[..i + 1])
            == ValidOnes(entries[..i]) + if ValidKey(entries[i].key) then [entries[i]] else []
  {
    assert entries[..i + 1][..i] == entries[..i];
  }

  lemma BadKeysStep(entries: seq<RequestEntry>, i: nat, rs: seq<ResponseEntry>, r: ResponseEntry)
    requires i < |entries| && BadKeysRefused(rs, entries[..i])
    requires !ValidKey(entries[i].key) ==> r == ResponseEntry(entries[i].key, true, 0, 0, Some(InvalidKey))
    ensures BadKeysRefused(rs + [r], entries[..i + 1])
  {
    forall k | 0 <= k <= i && !ValidKey(entries[k].key)
      ensures (rs + [r])[k] == ResponseEntry(entries[k].key, true, 0, 0, Some(InvalidKey))
    {
      if k < i {
        assert entries[..i][k] == entries[k];
      }
    }
  }

  method CheckNext(entries: seq<RequestEntry>, i: nat, rs: seq<ResponseEntry>, valid: seq<RequestEntry>,
                   idx: seq<nat>, es: seq<Error>)
    returns (results: seq<ResponseEntry>, validEntries: seq<RequestEntry>, validIdx: seq<nat>, errs: seq<Error>)
    requires i < |entries| && Checked(entries, i, rs, valid, idx, es)
    ensures Checked(entries, i + 1, results, validEntries, validIdx, errs)
  {
    var e := entries[i];
    results, validEntries, validIdx, errs := rs, valid, idx, es;
    EntriesStep(entries, i);
    IndexedStep(KeyOk(entries[..i]), idx, ValidKey(e.key));
    BadKeysStep(entries, i, rs, if ValidKey(e.key) then ResponseEntry("", false, 0, 0, None)
                                else ResponseEntry(e.key, true, 0, 0, Some(InvalidKey)));
    if !ValidKey(e.key) {
      results, errs := results + [ResponseEntry(e.key, true, 0, 0, Some(InvalidKey))], errs + [InvalidKey];
    } else {
      results := results + [ResponseEntry("", false, 0, 0, None)];
      validEntries, validIdx := validEntries + [e], validIdx + [i];
    }
  }

  // --------------------------------------------------------------- the call

  class ShardConn {
    const breaker: CircuitBreaker

    constructor (breaker: CircuitBreaker)
      ensures this.breaker == breaker
    {
      this.breaker := breaker;
    }

    /** The breaker is in order, and n more failures do not wrap its counter. */
    ghost predicate Valid(n: int)
      reads breaker
    {
      breaker.failureThreshold > 0 ==>
        && Inv(breaker.Snapshot(), breaker.failureThreshold)
        && breaker.consecutiveFailures + n < INT64_MAX
    }

    ghost function BreakerState(): State
      reads breaker
    {
      Abs(breaker.Snapshot())
    }

    /** The breaker has gone through these events since it was in state s. */
    ghost predicate WentThrough(s: State, events: seq<Event>)
      reads breaker
    {
      breaker.failureThreshold > 0 ==>
        && Inv(breaker.Snapshot(), breaker.failureThreshold)
        && BreakerState() == Run(s, events, breaker.failureThreshold, breaker.openDuration)
    }

    /** Whether the breaker lets a call through. */
    ghost predicate LetsThrough(now: int64)
      reads breaker
    {
      breaker.failureThreshold <= 0 || Grants(BreakerState(), Event.Allow(now), breaker.openDuration)
    }

    /** The whole call: the shard is asked only about the entries with valid keys and only if
        the breaker lets the call through; on any failure their fate is the caller's choice of
        failing open or closed; and a call that its own caller ended records nothing. What
        other calls do to the breaker while this one is out is meanwhile. */
    method Throttle(entries: seq<RequestEntry>, failOpen: bool, now: int64, meanwhile: seq<Event>, later: int64,
                    ending: Ending)
      returns (results: seq<ResponseEntry>, errs: seq<Error>, sent: seq<RequestEntry>)
      requires Valid(|meanwhile|) && (ending.Delivered? ==> |ending.results| == |ValidOnes(entries)|)
      modifies breaker
      ensures |results| == |entries|
      ensures forall i :: 0 <= i < |entries| && !ValidKey(entries[i].key) ==>
                results[i] == ResponseEntry(entries[i].key, true, 0, 0, Some(InvalidKey))
      ensures ValidOnes(entries) == [] || !old(LetsThrough(now)) ==> sent == []
      ensures ValidOnes(entries) != [] && old(LetsThrough(now)) ==> sent == ValidOnes(entries)
      ensures ValidOnes(entries) != [] && !old(LetsThrough(now)) ==>
                forall i :: 0 <= i < |entries| && ValidKey(entries[i].key) ==>
                  results[i] == ResponseEntry(entries[i].key, !failOpen, 0, 0, Some(CircuitOpen))
      ensures ValidOnes(entries) != [] && old(LetsThrough(now)) ==>
                forall i :: 0 <= i < |entries| && ValidKey(entries[i].key) ==>
                  if ending.Delivered? then
                    Rank(KeyOk(entries), i) < |ending.results|
                    && results[i] == ending.results[Rank(KeyOk(entries), i)]
                  else results[i] == ResponseEntry(entries[i].key, !failOpen, 0, 0, Some(ending.error))
      ensures |errs| == |entries| - |ValidOnes(entries)|
                        + if ValidOnes(entries) == [] || (old(LetsThrough(now)) && ending.Delivered?) then 0 else 1
      ensures ValidOnes(entries) == [] ==> WentThrough(old(BreakerState()), [])
      ensures ValidOnes(entries) != [] && !old(LetsThrough(now)) ==>
                WentThrough(old(BreakerState()), [Event.Allow(now)])
      ensures ValidOnes(entries) != [] && old(LetsThrough(now)) ==>
                WentThrough(old(BreakerState()),
                            [Event.Allow(now)] + meanwhile
                            + if ending.Delivered? then [Success]
                              else if ending.GaveUp? && ending.callerDone then [] else [Failure(later)])
    {
      ghost var s, threshold, cooldown := BreakerState(), breaker.failureThreshold, breaker.openDuration;
      var validIdx: seq<nat>, granted: bool;
      results, sent, validIdx, errs, granted := Admit(entries, failOpen, now);
      if !granted {
        sent := [];
        return;
      }
      Others(meanwhile);
      RunOn(s, [Event.Allow(now)], meanwhile, threshold, cooldown);
      results, errs := Complete(entries, results, validIdx, errs, failOpen, later, ending);
      RunOn(s, [Event.Allow(now)] + meanwhile, Recorded(later, ending), threshold, cooldown);
    }

    /** Up to the exchange: bad keys are refused and left out, and the breaker is asked, if there
        is anything left to send. */
    method Admit(entries: seq<RequestEntry>, failOpen: bool, now: int64)
      returns (results: seq<ResponseEntry>, validEntries: seq<RequestEntry>, validIdx: seq<nat>, errs: seq<Error>,
               granted: bool)
      requires Valid(0)
      modifies breaker
      ensures BadKeysRefused(results, entries)
      ensures forall i :: 0 <= i < |entries| && !ValidKey(entries[i].key) ==>
                results[i] == ResponseEntry(entries[i].key, true, 0, 0, Some(InvalidKey))
      ensures validEntries == ValidOnes(entries) && Indexed(KeyOk(entries), validIdx) && |validIdx| == |validEntries|
      ensures granted <==> ValidOnes(entries) != [] && old(LetsThrough(now))
      ensures ValidOnes(entries) != [] && !granted ==> OthersRefused(results, entries, !failOpen, CircuitOpen)
      ensures ValidOnes(entries) != [] && !granted ==>
                forall i :: 0 <= i < |entries| && ValidKey(entries[i].key) ==>
                  results[i] == ResponseEntry(entries[i].key, !failOpen, 0, 0, Some(CircuitOpen))
      ensures |errs| == |entries| - |ValidOnes(entries)| + if ValidOnes(entries) != [] && !granted then 1 else 0
      ensures WentThrough(old(BreakerState()), if ValidOnes(entries) == [] then [] else [Event.Allow(now)])
      ensures breaker.consecutiveFailures == old(breaker.consecutiveFailures)
    {
      results, validEntries, validIdx, errs := CheckKeys(entries);
      assert entries[..|entries|] == entries;
      granted := false;
      if |validEntries| == 0 {
        return;
      }
      RunOne(BreakerState(), Event.Allow(now), breaker.failureThreshold, breaker.openDuration);
      granted := breaker.Allow(now);
      if !granted {
        results := RefuseValid(entries, results, validIdx, !failOpen, CircuitOpen);
        errs := errs + [CircuitOpen];
      }
    }

    /** From the end of the exchange: the breaker hears of it, and every entry sent gets its own
        answer or the one refusal. */
    method Complete(entries: seq<RequestEntry>, blank: seq<ResponseEntry>, validIdx: seq<nat>, before: seq<Error>,
                    failOpen: bool, later: int64, ending: Ending)
      returns (results: seq<ResponseEntry>, errs: seq<Error>)
      requires Valid(0) && BadKeysRefused(blank, entries) && Indexed(KeyOk(entries), validIdx)
      requires ending.Delivered? ==> |ending.results| == |validIdx|
      modifies breaker
      ensures BadKeysRefused(results, entries) && Settled(results, entries, failOpen, ending)
      ensures forall i :: 0 <= i < |entries| ==>
                if !ValidKey(entries[i].key) then
                  results[i] == ResponseEntry(entries[i].key, true, 0, 0, Some(InvalidKey))
                else if ending.Delivered? then
                  Rank(KeyOk(entries), i) < |ending.results|
                  && results[i] == ending.results[Rank(KeyOk(entries), i)]
                else results[i] == ResponseEntry(entries[i].key, !failOpen, 0, 0, Some(ending.error))
      ensures errs == if ending.Delivered? then before else before + [ending.error]
      ensures WentThrough(old(BreakerState()), Recorded(later, ending))
    {
      Record(later, ending);
      errs := before;
      if ending.Delivered? {
        results := Scatter(blank, ending.results, KeyOk(entries), validIdx);
      } else {
        results := RefuseValid(entries, blank, validIdx, !failOpen, ending.error);
        errs := errs + [ending.error];
      }
    }

    /** What other calls do to the breaker. */
    method Others(events: seq<Event>)
      requires Valid(|events|)
      modifies breaker
      ensures Valid(0) && WentThrough(old(BreakerState()), events)
    {
      for i := 0 to |events|
        invariant Valid(|events| - i) && WentThrough(old(BreakerState()), events[..i])
      {
        RunStep(old(BreakerState()), events, i, breaker.failureThreshold, breaker.openDuration);
        match events[i] {
          case Allow(now) => var granted := breaker.Allow(now);
          case Success => breaker.RecordSuccess();
          case Failure(now) => breaker.RecordFailure(now);
        }
      }
      assert events[..|events|] == events;
    }

    /** What the exchange says about the shard. */
    method Record(later: int64, ending: Ending)
      requires Valid(0)
      modifies breaker
      ensures WentThrough(old(BreakerState()), Recorded(later, ending))
    {
      RunOne(BreakerState(), Success, breaker.failureThreshold, breaker.openDuration);
      RunOne(BreakerState(), Failure(later), breaker.failureThreshold, breaker.openDuration);
      if !ending.Delivered? && ShardFault(ending) {
        breaker.RecordFailure(later);
      } else if ending.Delivered? {
        breaker.RecordSuccess();
      }
    }
  }

  /** What a call that was let through tells the breaker in the end. */
  function Recorded(later: int64, ending: Ending): seq<Event> {
    if ending.Delivered? then [Success] else if ShardFault(ending) then [Failure(later)] else []
  }

  /** All that happens to the breaker from a call's question to its record. */
  function Told(granted: bool, now: int64, meanwhile: seq<Event>, later: int64, ending: Ending): seq<Event> {
    if granted then [Event.Allow(now)] + meanwhile + Recorded(later, ending) else [Event.Allow(now)]
  }

  method RefuseValid(entries: seq<RequestEntry>, blank: seq<ResponseEntry>, validIdx: seq<nat>,
                     throttled: bool, err: Error)
    returns (results: seq<ResponseEntry>)
    requires Indexed(KeyOk(entries), validIdx) && BadKeysRefused(blank, entries)
    ensures BadKeysRefused(results, entries) && OthersRefused(results, entries, throttled, err)
  {
    var refusals := seq(|validIdx|, j requires 0 <= j < |validIdx| =>
      ResponseEntry(entries[validIdx[j]].key, throttled, 0, 0, Some(err)));
    results := Scatter(blank, refusals, KeyOk(entries), validIdx);
    forall k | 0 <= k < |entries| && ValidKey(entries[k].key)
      ensures results[k] == ResponseEntry(entries[k].key, throttled, 0, 0, Some(err))
    {
      OwnPosition(KeyOk(entries), validIdx, k);
    }
  }

  /** With only valid keys every answer is at its own place. */
  lemma AllValid(results: seq<ResponseEntry>, entries: seq<RequestEntry>, answers: seq<ResponseEntry>)
    requires ValidKeys(entries) && OthersAnswered(results, entries, answers) && |answers| == |entries|
    ensures results == answers
  {
    forall k | 0 <= k < |entries|
      ensures results[k] == answers[k]
    {
      AllOk(KeyOk(entries), k);
    }
  }
}

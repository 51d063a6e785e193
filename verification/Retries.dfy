/** What the reported waits are worth to a caller (types.go, ResponseEntry): a throttled call
    sent again on an unchanged store. */
module Retries {
  import opened Types
  import opened Gcra
  import opened Group
  import opened LeakyBucket

  /** No two Real entries share a key. */
  predicate OncePerKey(es: seq<RequestEntry>) {
    forall i, j :: 0 <= i < j < |es| && !es[i].peek && !es[j].peek ==> es[i].key != es[j].key
  }

  predicate SomeThrottled(reports: seq<ResponseEntry>, es: seq<RequestEntry>)
    requires |reports| == |es|
  {
    exists i :: 0 <= i < |es| && !es[i].peek && reports[i].throttled
  }

  /** An entry that reported r at now has room at a later instant: if it was throttled, it was
      given a wait, the wait is over and its rounded cost fits the rounded bucket; and its new
      timestamp is representable. */
  predicate ReadyBy(e: RequestEntry, r: ResponseEntry, now: int64, later: int64) {
    var l, cost := Normalized(e).limit, Normalized(e).cost;
    && Sane(l) && later + CostNs(l, cost) <= INT64_MAX
    && (r.throttled ==> r.retryAfter > 0 && now + r.retryAfter <= later && CostNs(l, cost) <= MaxDebt(l))
  }

  /** Every Real entry is. */
  predicate AllReady(es: seq<RequestEntry>, reports: seq<ResponseEntry>, now: int64, later: int64)
    requires |reports| == |es|
  {
    forall i :: 0 <= i < |es| && !es[i].peek ==> ReadyBy(es[i], reports[i], now, later)
  }

  /** One check, made again later on the same timestamp. */
  lemma CheckedAgain(e: RequestEntry, tat: int64, now: int64, later: int64)
    requires 0 <= now <= later
    ensures !Report(e, tat, later).throttled <==> ReadyBy(e, Report(e, tat, now), now, later)
  {
    var l, cost := Normalized(e).limit, Normalized(e).cost;
    CheckMeetsSpec(tat, now, l, cost);
    CheckMeetsSpec(tat, later, l, cost);
    if Run64(l, cost, tat, now).throttled {
      RetryAfterExact(l, cost, tat, now);
    }
  }

  /** With one Real entry per key, each is checked on the committed timestamp. */
  lemma ChecksCommitted(m: Tats, now: int64, es: seq<RequestEntry>, i: nat)
    requires OncePerKey(es) && i < |es| && !es[i].peek
    ensures Reports(m, now, es)[i] == Report(es[i], TatOf(m, es[i].key), now)
  {
    ReportsAt(m, now, es);
    WorkFrame(m, now, es[..i], es[i].key);
  }

  lemma CheckedOneByOne(m: Tats, now: int64, later: int64, es: seq<RequestEntry>)
    requires 0 <= now <= later && OncePerKey(es)
    ensures !SomeThrottled(Reports(m, later, es), es) <==> AllReady(es, Reports(m, now, es), now, later)
  {
    forall i | 0 <= i < |es| && !es[i].peek
      ensures !Reports(m, later, es)[i].throttled <==> ReadyBy(es[i], Reports(m, now, es)[i], now, later)
    {
      ChecksCommitted(m, now, es, i);
      ChecksCommitted(m, later, es, i);
      CheckedAgain(es[i], TatOf(m, es[i].key), now, later);
    }
  }

  /** A call that is throttled somewhere changes nothing. Sent again at a later instant, with
      one Real entry per key and no other call in between, it is admitted whole exactly if every
      Real entry is ready by then. */
  lemma RetriedCall(m: Tats, now: int64, later: int64, es: seq<RequestEntry>)
    requires 0 <= now <= later && OncePerKey(es)
    requires SomeThrottled(Reports(m, now, es), es)
    ensures Commit(m, now, es) == m
    ensures !SomeThrottled(Reports(Commit(m, now, es), later, es), es)
            <==> AllReady(es, Reports(m, now, es), now, later)
  {
    GroupIsOneByOne(m, now, es);
    CheckedOneByOne(m, now, later, es);
  }

  lemma LoneCall(m: Tats, t: int64, e: RequestEntry)
    requires !e.peek && t >= 0
    ensures Reports(m, t, [e])[0] == Report(e, TatOf(m, e.key), t)
    ensures Report(e, TatOf(m, e.key), t).throttled ==> Commit(m, t, [e]) == m
    ensures !Report(e, TatOf(m, e.key), t).throttled ==>
              && Sane(Normalized(e).limit)
              && TatOf(Commit(m, t, [e]), e.key)
                 == Max(TatOf(m, e.key), t) + CostNs(Normalized(e).limit, Normalized(e).cost)
  {
    SingleCall(m, t, e);
    AdvanceOnKey(m, t, e, e.key);
    CheckMeetsSpec(TatOf(m, e.key), t, Normalized(e).limit, Normalized(e).cost);
  }

  lemma WaitInFull(e: RequestEntry, tat: int64, now: int64)
    requires now >= 0 && Report(e, tat, now).retryAfter > 0
    ensures Sane(Normalized(e).limit) && Report(e, tat, now).throttled
    ensures Max(tat, now) + CostNs(Normalized(e).limit, Normalized(e).cost) <= INT64_MAX
    ensures CostNs(Normalized(e).limit, Normalized(e).cost) <= MaxDebt(Normalized(e).limit) ==>
              now + Report(e, tat, now).retryAfter <= tat
  {
    CheckMeetsSpec(tat, now, Normalized(e).limit, Normalized(e).cost);
  }

  lemma LoneRetryAt(m: Tats, now: int64, e: RequestEntry, later: int64)
    requires now >= 0 && !e.peek && Report(e, TatOf(m, e.key), now).retryAfter > 0
    requires CostNs(Normalized(e).limit, Normalized(e).cost) <= MaxDebt(Normalized(e).limit)
    requires later == now + Report(e, TatOf(m, e.key), now).retryAfter
    ensures later <= TatOf(m, e.key) && !Reports(m, later, [e])[0].throttled
    ensures TatOf(Commit(m, later, [e]), e.key)
            == TatOf(m, e.key) + CostNs(Normalized(e).limit, Normalized(e).cost)
  {
    WaitInFull(e, TatOf(m, e.key), now);
    LoneCall(m, later, e);
    CheckedAgain(e, TatOf(m, e.key), now, later);
  }

  lemma LoneTooEarly(m: Tats, now: int64, e: RequestEntry, t: int64)
    requires 0 <= now <= t < now + Report(e, TatOf(m, e.key), now).retryAfter && !e.peek
    ensures Reports(m, t, [e])[0].throttled && Commit(m, t, [e]) == m
  {
    WaitNotNegative(e, TatOf(m, e.key), now);
    LoneCall(m, t, e);
    CheckedAgain(e, TatOf(m, e.key), now, t);
  }

  /** A lone Real entry that is given a wait, and whose rounded cost fits the rounded bucket at
      all, commits when sent again at the reported instant, and at no instant before it. */
  lemma LoneRetry(m: Tats, now: int64, e: RequestEntry) returns (later: int64)
    requires now >= 0 && !e.peek && Reports(m, now, [e])[0].retryAfter > 0
    requires CostNs(Normalized(e).limit, Normalized(e).cost) <= MaxDebt(Normalized(e).limit)
    ensures later == now + Reports(m, now, [e])[0].retryAfter <= TatOf(m, e.key)
    ensures var again := Commit(m, now, [e]);
            && again == m && Reports(m, now, [e])[0].throttled
            && !Reports(again, later, [e])[0].throttled
            && TatOf(Commit(again, later, [e]), e.key)
               == TatOf(m, e.key) + CostNs(Normalized(e).limit, Normalized(e).cost)
            && forall t: int64 :: now <= t < later ==>
                 Reports(again, t, [e])[0].throttled && Commit(again, t, [e]) == m
  {
    LoneCall(m, now, e);
    WaitInFull(e, TatOf(m, e.key), now);
    later := now + Report(e, TatOf(m, e.key), now).retryAfter;
    LoneRetryAt(m, now, e, later);
    forall t: int64 | now <= t < later
      ensures Reports(m, t, [e])[0].throttled && Commit(m, t, [e]) == m
    {
      LoneTooEarly(m, now, e, t);
    }
  }

  /** The longest wait any Real entry of a call was given. */
  predicate LongestWait(reports: seq<ResponseEntry>, es: seq<RequestEntry>, wait: int)
    requires |reports| == |es|
  {
    && (exists i :: 0 <= i < |es| && !es[i].peek && reports[i].retryAfter == wait)
    && (forall i :: 0 <= i < |es| && !es[i].peek ==> reports[i].retryAfter <= wait)
  }

  /** Waiting as long as any entry was told to is enough for this one. */
  predicate CanWait(e: RequestEntry, r: ResponseEntry, later: int64) {
    var l, cost := Normalized(e).limit, Normalized(e).cost;
    && Sane(l) && later + CostNs(l, cost) <= INT64_MAX
    && (r.throttled ==> r.retryAfter > 0 && CostNs(l, cost) <= MaxDebt(l))
  }

  predicate AllCanWait(es: seq<RequestEntry>, reports: seq<ResponseEntry>, later: int64)
    requires |reports| == |es|
  {
    forall i :: 0 <= i < |es| && !es[i].peek ==> CanWait(es[i], reports[i], later)
  }

  /** The group is admitted at no instant before the longest wait is over, and then exactly if
      every throttled entry was given a wait at all, its rounded cost fits its rounded bucket,
      and the new timestamps are representable. */
  lemma GroupRetry(m: Tats, now: int64, es: seq<RequestEntry>, later: int64)
    requires now >= 0 && OncePerKey(es) && SomeThrottled(Reports(m, now, es), es)
    requires LongestWait(Reports(m, now, es), es, later - now)
    ensures later >= now && forall t: int64 :: now <= t < later ==> SomeThrottled(Reports(m, t, es), es)
    ensures !SomeThrottled(Reports(m, later, es), es) <==> AllCanWait(es, Reports(m, now, es), later)
  {
    var i :| 0 <= i < |es| && !es[i].peek && Reports(m, now, es)[i].retryAfter == later - now;
    ChecksCommitted(m, now, es, i);
    WaitNotNegative(es[i], TatOf(m, es[i].key), now);
    forall t: int64 | now <= t < later
      ensures SomeThrottled(Reports(m, t, es), es)
    {
      NotBeforeWait(m, now, t, es, i);
    }
    CheckedOneByOne(m, now, later, es);
    ReadyAfterLongest(Reports(m, now, es), now, es, later);
  }

  lemma NotBeforeWait(m: Tats, now: int64, t: int64, es: seq<RequestEntry>, i: nat)
    requires 0 <= now <= t && OncePerKey(es) && SomeThrottled(Reports(m, now, es), es)
    requires i < |es| && !es[i].peek && Reports(m, now, es)[i].throttled && t < now + Reports(m, now, es)[i].retryAfter
    ensures SomeThrottled(Reports(m, t, es), es)
  {
    CheckedOneByOne(m, now, t, es);
    assert !ReadyBy(es[i], Reports(m, now, es)[i], now, t);
  }

  lemma ReadyAfterLongest(reports: seq<ResponseEntry>, now: int64, es: seq<RequestEntry>, later: int64)
    requires |reports| == |es| && LongestWait(reports, es, later - now)
    ensures AllReady(es, reports, now, later) <==> AllCanWait(es, reports, later)
  {
    forall i | 0 <= i < |es| && !es[i].peek
      ensures ReadyBy(es[i], reports[i], now, later) <==> CanWait(es[i], reports[i], later)
    {
    }
  }

  lemma WaitNotNegative(e: RequestEntry, tat: int64, now: int64)
    requires now >= 0
    ensures Report(e, tat, now).retryAfter >= 0
    ensures Report(e, tat, now).retryAfter > 0 ==> Report(e, tat, now).throttled
  {
    CheckMeetsSpec(tat, now, Normalized(e).limit, Normalized(e).cost);
  }

  /** With two Real entries on one key there is no such promise: capacity 1, cost 1, one unit per
      10 ns. On an empty bucket the second is given a wait of 10, but as long as the first comes
      before it on the same call it is throttled whenever the call is sent. */
  lemma RepeatedKeyKeepsWaiting(e: RequestEntry, es: seq<RequestEntry>, m: Tats, now: int64)
    requires e.limit == Limit(1, Rate(1, 10)) && e.cost == 1 && !e.peek && es == [e, e]
    requires TatOf(m, e.key) == now == 0
    ensures Reports(m, now, es)[0] == ResponseEntry(e.key, false, 1, 0, None)
    ensures Reports(m, now, es)[1] == ResponseEntry(e.key, true, 0, 10, None)
    ensures forall n: Tats, later: int64 :: later >= 0 ==> SomeThrottled(Reports(n, later, es), es)
  {
    PairReports(m, now, e, es);
    FirstOfTwo(e, TatOf(m, e.key), now);
    SecondOfTwo(e, CheckEntry(e, TatOf(m, e.key), now).tat, now);
    forall n: Tats, later: int64 | later >= 0
      ensures SomeThrottled(Reports(n, later, es), es)
    {
      NeverBoth(n, later, e, es);
    }
  }

  lemma NeverBoth(m: Tats, now: int64, e: RequestEntry, es: seq<RequestEntry>)
    requires e.limit == Limit(1, Rate(1, 10)) && e.cost == 1 && !e.peek && now >= 0 && es == [e, e]
    ensures SomeThrottled(Reports(m, now, es), es)
  {
    PairReports(m, now, e, es);
    if !Report(e, TatOf(m, e.key), now).throttled {
      NoRoomForBoth(TatOf(m, e.key), now, e);
      assert !es[1].peek && Reports(m, now, es)[1].throttled;
    } else {
      assert !es[0].peek && Reports(m, now, es)[0].throttled;
    }
  }

  lemma FirstOfTwo(e: RequestEntry, tat: int64, now: int64)
    requires e.limit == Limit(1, Rate(1, 10)) && e.cost == 1 && tat == now == 0
    ensures CheckEntry(e, tat, now) == Verdict(false, 1, 0, 10)
  {
    VerdictInFull(e.limit, e.cost, tat, now, 10, 10, 0);
  }

  lemma SecondOfTwo(e: RequestEntry, tat: int64, now: int64)
    requires e.limit == Limit(1, Rate(1, 10)) && e.cost == 1 && tat == 10 && now == 0
    ensures CheckEntry(e, tat, now) == Verdict(true, 0, 10, 10)
  {
    VerdictInFull(e.limit, e.cost, tat, now, 10, 10, 1);
  }

  lemma OneInTen(e: RequestEntry)
    requires e.limit == Limit(1, Rate(1, 10))
    ensures Sane(e.limit) && MaxDebt(e.limit) == 10 && CostNs(e.limit, 1) == 10
  {
    RoundedAre(e.limit, 1, 10, 10);
  }

  lemma PairReports(m: Tats, now: int64, e: RequestEntry, es: seq<RequestEntry>)
    requires !e.peek && es == [e, e]
    ensures Reports(m, now, es)[0] == Report(e, TatOf(m, e.key), now)
    ensures Reports(m, now, es)[1] == Report(e, CheckEntry(e, TatOf(m, e.key), now).tat, now)
  {
    ReportsAt(m, now, es);
    assert es[..0] == [] && es[..1] == [e];
    assert [e][..0] == [];
    assert Work(m, now, [e]) == Advance(Work(m, now, [e][..0]), now, e);
    AdvanceOnKey(m, now, e, e.key);
  }

  lemma NoRoomForBoth(tat: int64, now: int64, e: RequestEntry)
    requires e.limit == Limit(1, Rate(1, 10)) && e.cost == 1 && now >= 0
    requires !Report(e, tat, now).throttled
    ensures Report(e, CheckEntry(e, tat, now).tat, now).throttled
  {
    OneInTen(e);
    CheckMeetsSpec(tat, now, e.limit, 1);
    CheckMeetsSpec(CheckEntry(e, tat, now).tat, now, e.limit, 1);
  }
}

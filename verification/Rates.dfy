/** The rate promised for a key, over whole runs of Throttle calls on the store: what its calls
    commit between any two of them stays within one burst plus what drains meanwhile. */
module Rates {
  import opened Types
  import opened Gcra
  import opened Group
  import opened Generations
  import B = LeakyBucket

  // ------------------------------------------------ the checks a run makes

  /** One call's checks on a key: its Real entries there, defaults filled in, all of them
      applied or none. */
  function KeyChecks(es: seq<RequestEntry>, now: int64, applied: bool): seq<B.Check> {
    if es == [] then []
    else
      var e := Normalized(es[|es| - 1]);
      KeyChecks(es[..|es| - 1], now, applied) + [B.Check(now, e.limit, e.cost, applied)]
  }

  /** The checks of one event. */
  function EventChecks(e: Event, applied: bool, key: string): seq<B.Check> {
    match e
    case Throttle(now, es) => KeyChecks(OnKey(es, key), now, applied)
    case Gc(_, _) => []
  }

  /** The checks on a key from event i to event j, given which calls commit. */
  function Checks(admits: seq<bool>, events: seq<Event>, i: nat, j: nat, key: string): seq<B.Check>
    requires i <= j <= |events| == |admits|
    decreases j - i
  {
    if i == j then []
    else EventChecks(events[i], admits[i], key) + Checks(admits, events, i + 1, j, key)
  }

  /** Which calls of a run commit on a store that never drops a key. */
  function FlatAdmits(events: seq<Event>): (r: seq<bool>)
    ensures |r| == |events|
  {
    seq(|events|, i requires 0 <= i < |events| =>
      events[i].Throttle? && AllAdmit(RunFlat(events[..i]), events[i].now, events[i].entries))
  }

  /** Which commit on the rotating store. */
  function StoreAdmits(stripe: string -> nat, events: seq<Event>): (r: seq<bool>)
    ensures |r| == |events|
  {
    seq(|events|, i requires 0 <= i < |events| =>
      events[i].Throttle? && AllAdmit(RunGens(stripe, events[..i]).View(), events[i].now, events[i].entries))
  }

  function Final(tat: int64, checks: seq<B.Check>): int64
    decreases |checks|
  {
    if checks == [] then tat else Final(B.Apply(tat, checks[0]), checks[1..])
  }

  lemma {:induction false} HistoryAppend(tat: int64, a: seq<B.Check>, b: seq<B.Check>)
    requires B.History(tat, a) && B.History(Final(tat, a), b)
    ensures B.History(tat, a + b) && Final(tat, a + b) == Final(Final(tat, a), b)
    decreases |a|
  {
    if a == [] {
      assert a + b == b;
    } else {
      HistoryAppend(B.Apply(tat, a[0]), a[1..], b);
      assert (a + b)[1..] == a[1..] + b;
    }
  }

  lemma {:induction false} UnappliedHistory(tat: int64, es: seq<RequestEntry>, now: int64)
    requires now >= 0
    ensures B.History(tat, KeyChecks(es, now, false)) && Final(tat, KeyChecks(es, now, false)) == tat
  {
    if es != [] {
      var front, e := es[..|es| - 1], Normalized(es[|es| - 1]);
      UnappliedHistory(tat, front, now);
      OneCheck(tat, B.Check(now, e.limit, e.cost, false));
      HistoryAppend(tat, KeyChecks(front, now, false), [B.Check(now, e.limit, e.cost, false)]);
    }
  }

  lemma OneCheck(tat: int64, c: B.Check)
    requires c.now >= 0 && (c.applied ==> !B.Run64(c.limit, c.cost, tat, c.now).throttled)
    ensures B.History(tat, [c]) && Final(tat, [c]) == B.Apply(tat, c)
  {
    assert [c][1..] == [];
  }

  /** The entries of a group that admits, each applied to what the one before it left. */
  lemma {:induction false} AppliedHistory(m: Tats, now: int64, es: seq<RequestEntry>, key: string)
    requires now >= 0 && AllAdmit(m, now, es)
    ensures B.History(TatOf(m, key), KeyChecks(OnKey(es, key), now, true))
    ensures Final(TatOf(m, key), KeyChecks(OnKey(es, key), now, true)) == TatOf(Work(m, now, es), key)
  {
    if es != [] {
      var front, e := es[..|es| - 1], es[|es| - 1];
      AdmitFront(m, now, es);
      AppliedHistory(m, now, front, key);
      AdvanceOnKey(Work(m, now, front), now, e, key);
      if e.peek || e.key != key {
        assert OnKey(es, key) == OnKey(front, key);
      } else {
        var c := B.Check(now, Normalized(e).limit, Normalized(e).cost, true);
        assert OnKey(es, key)[..|OnKey(es, key)| - 1] == OnKey(front, key);
        OneCheck(TatOf(Work(m, now, front), key), c);
        HistoryAppend(TatOf(m, key), KeyChecks(OnKey(front, key), now, true), [c]);
      }
    }
  }

  lemma CallHistory(m: Tats, now: int64, es: seq<RequestEntry>, key: string)
    requires now >= 0
    ensures var cs := KeyChecks(OnKey(es, key), now, AllAdmit(m, now, es));
            B.History(TatOf(m, key), cs) && Final(TatOf(m, key), cs) == TatOf(Commit(m, now, es), key)
  {
    if AllAdmit(m, now, es) {
      AppliedHistory(m, now, es, key);
    } else {
      UnappliedHistory(TatOf(m, key), OnKey(es, key), now);
    }
  }

  predicate SinceEpoch(events: seq<Event>) {
    forall i :: 0 <= i < |events| ==> 0 <= events[i].now
  }

  /** A stretch of checks between two timestamps. */
  ghost predicate Leads(tat: int64, checks: seq<B.Check>, end: int64) {
    B.History(tat, checks) && Final(tat, checks) == end
  }

  lemma LeadsOn(tat: int64, a: seq<B.Check>, mid: int64, b: seq<B.Check>, end: int64)
    requires Leads(tat, a, mid) && Leads(mid, b, end)
    ensures Leads(tat, a + b, end)
  {
    HistoryAppend(tat, a, b);
  }

  lemma EventLeads(events: seq<Event>, i: nat, key: string)
    requires SinceEpoch(events) && i < |events|
    ensures Leads(TatOf(RunFlat(events[..i]), key), EventChecks(events[i], FlatAdmits(events)[i], key),
                  TatOf(RunFlat(events[..i + 1]), key))
  {
    assert events[..i + 1][..i] == events[..i];
    if events[i].Throttle? {
      CallHistory(RunFlat(events[..i]), events[i].now, events[i].entries, key);
    }
  }

  /** The checks that any stretch of a run makes on a key form a history: they start from the
      key's timestamp there, each meets what the last one applied has left, and they end with
      the key's timestamp. */
  lemma {:induction false} RunIsHistory(events: seq<Event>, i: nat, j: nat, key: string)
    requires SinceEpoch(events) && i <= j <= |events|
    ensures Leads(TatOf(RunFlat(events[..i]), key), Checks(FlatAdmits(events), events, i, j, key),
                  TatOf(RunFlat(events[..j]), key))
    decreases j - i
  {
    if i < j {
      RunIsHistory(events, i + 1, j, key);
      EventLeads(events, i, key);
      LeadsOn(TatOf(RunFlat(events[..i]), key), EventChecks(events[i], FlatAdmits(events)[i], key),
              TatOf(RunFlat(events[..i + 1]), key), Checks(FlatAdmits(events), events, i + 1, j, key),
              TatOf(RunFlat(events[..j]), key));
    }
  }

  // ---------------------------------------------------- only what is applied

  function Commits(checks: seq<B.Check>): seq<B.Check> {
    if checks == [] then [] else (if checks[0].applied then [checks[0]] else []) + Commits(checks[1..])
  }

  lemma {:induction false} CommitsAreHistory(tat: int64, checks: seq<B.Check>)
    requires B.History(tat, checks)
    ensures B.History(tat, Commits(checks))
    ensures forall c :: c in Commits(checks) ==> c.applied && c in checks
    decreases |checks|
  {
    if checks != [] {
      CommitsAreHistory(B.Apply(tat, checks[0]), checks[1..]);
      if checks[0].applied {
        assert Commits(checks)[1..] == Commits(checks[1..]);
      } else {
        assert Commits(checks) == Commits(checks[1..]);
      }
    }
  }

  /** From the first commit to the last, the added debts sum to at most the last limit's burst
      window plus the time between. */
  ghost predicate WithinBurst(commits: seq<B.Check>) {
    commits != [] ==>
      var last := commits[|commits| - 1];
      Sane(last.limit) && B.TotalNs(commits) <= MaxDebt(last.limit) + last.now - commits[0].now
  }

  /** From the first commit to the last, the cost is at most the capacity plus what drains. */
  ghost predicate WithinRate(commits: seq<B.Check>, l: Limit) {
    commits != [] ==>
      B.TotalCost(commits) * l.rate.period
      <= l.capacity * l.rate.period + l.rate.units * (commits[|commits| - 1].now - commits[0].now)
  }

  lemma HistoryIsBounded(tat: int64, checks: seq<B.Check>)
    requires B.History(tat, checks)
    ensures WithinBurst(Commits(checks))
  {
    var cs := Commits(checks);
    CommitsAreHistory(tat, checks);
    if cs != [] {
      assert cs[0] in cs && cs[|cs| - 1] in cs;
      B.RateBound(tat, cs);
    }
  }

  lemma CommitsKeepRate(tat: int64, cs: seq<B.Check>, l: Limit)
    requires B.History(tat, cs) && Sane(l) && forall c :: c in cs ==> c.limit == l && c.applied
    ensures WithinRate(cs, l)
  {
    if cs != [] {
      assert cs[0] in cs && cs[|cs| - 1] in cs;
      B.RateBoundInUnits(tat, cs, l);
    }
  }

  lemma HistoryKeepsRate(tat: int64, checks: seq<B.Check>, l: Limit)
    requires B.History(tat, checks) && Sane(l) && forall c :: c in Commits(checks) ==> c.limit == l
    ensures WithinRate(Commits(checks), l)
  {
    CommitsAreHistory(tat, checks);
    CommitsKeepRate(tat, Commits(checks), l);
  }

  /** The rate bound over any stretch of a run of calls, on any key, with limits mixed and the
      clock free to go back. */
  lemma RunRateBound(events: seq<Event>, i: nat, j: nat, key: string)
    requires SinceEpoch(events) && i <= j <= |events|
    ensures WithinBurst(Commits(Checks(FlatAdmits(events), events, i, j, key)))
  {
    RunIsHistory(events, i, j, key);
    HistoryIsBounded(TatOf(RunFlat(events[..i]), key), Checks(FlatAdmits(events), events, i, j, key));
  }

  /** With one limit in those commits, the bound in cost units. */
  lemma RunRateBoundInUnits(events: seq<Event>, i: nat, j: nat, key: string, l: Limit)
    requires SinceEpoch(events) && i <= j <= |events| && Sane(l)
    requires forall c :: c in Commits(Checks(FlatAdmits(events), events, i, j, key)) ==> c.limit == l
    ensures WithinRate(Commits(Checks(FlatAdmits(events), events, i, j, key)), l)
  {
    RunIsHistory(events, i, j, key);
    HistoryKeepsRate(TatOf(RunFlat(events[..i]), key), Checks(FlatAdmits(events), events, i, j, key), l);
  }

  // ------------------------------------------------------ the rotating store

  /** The rotating store commits the calls that a store without rotation would. */
  lemma SameCommits(stripe: string -> nat, events: seq<Event>, gap: nat)
    requires Monotone(events) && Spaced(events, gap) && ShortBursts(events, gap)
    ensures StoreAdmits(stripe, events) == FlatAdmits(events)
  {
    forall i | 0 <= i < |events| && events[i].Throttle?
      ensures AllAdmit(RunGens(stripe, events[..i]).View(), events[i].now, events[i].entries)
          <==> AllAdmit(RunFlat(events[..i]), events[i].now, events[i].entries)
    {
      var e := events[i];
      GcIsInvisible(stripe, events, gap, i);
      ReportsAt(RunGens(stripe, events[..i]).View(), e.now, e.entries);
      ReportsAt(RunFlat(events[..i]), e.now, e.entries);
    }
  }

  /** What the limiter is for: on the rotating store, with rotations spaced by at least the
      longest burst window, the cost committed on a key from any call to any later one is at
      most the limit's capacity plus what drains in that time. */
  lemma CostWithinRate(stripe: string -> nat, events: seq<Event>, gap: nat, i: nat, j: nat, key: string, l: Limit)
    requires Monotone(events) && Spaced(events, gap) && ShortBursts(events, gap)
    requires i <= j <= |events| && Sane(l)
    requires forall c :: c in Commits(Checks(StoreAdmits(stripe, events), events, i, j, key)) ==> c.limit == l
    ensures WithinRate(Commits(Checks(StoreAdmits(stripe, events), events, i, j, key)), l)
  {
    SameCommits(stripe, events, gap);
    RunRateBoundInUnits(events, i, j, key, l);
  }
}

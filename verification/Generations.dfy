/** The two-generation store as values (server/store.go), and why dropping idle keys
    cannot be observed when rotations are further apart than the longest burst window. */
module Generations {
  import opened Types
  import opened Gcra
  import opened Group

  /** Every key's timestamp, split by generation. */
  datatype Gens = Gens(hot: Tats, cold: Tats) {
    function View(): Tats {
      cold + hot
    }
  }

  /** The keys a call names. */
  function Names(es: seq<RequestEntry>): set<string> {
    set e | e in es :: e.key
  }

  /** One stripe's rotation: its cold generation is dropped and its hot one turns cold. */
  function Rotate(g: Gens, stripe: string -> nat, i: nat): Gens {
    Gens(map k | k in g.hot && stripe(k) != i :: g.hot[k],
         map k | k in g.hot.Keys + g.cold.Keys && (if stripe(k) == i then k in g.hot else k in g.cold)
           :: if stripe(k) == i then g.hot[k] else g.cold[k])
  }

  /** A whole Throttle call: every key it names is hot afterwards, with a new bucket if it
      was not live, and the Real group has committed or not. */
  function Call(g: Gens, now: int64, es: seq<RequestEntry>): Gens {
    var after := Commit(g.View(), now, es);
    Gens(map k | k in g.hot.Keys + Names(es) :: TatOf(after, k), g.cold - Names(es))
  }

  // ---------------------------------------------------------------- runs

  datatype Event =
    | Throttle(now: int64, entries: seq<RequestEntry>)
    | Gc(now: int64, stripe: nat)

  /** The hot and cold generations after a run. */
  function RunGens(stripe: string -> nat, events: seq<Event>): Gens {
    if events == [] then Gens(map[], map[])
    else
      var g := RunGens(stripe, events[..|events| - 1]);
      match events[|events| - 1]
      case Throttle(now, es) => Call(g, now, es)
      case Gc(_, i) => Rotate(g, stripe, i)
  }

  /** The timestamps after the same run on a map that never drops a key. */
  function RunFlat(events: seq<Event>): Tats {
    if events == [] then map[]
    else
      var m := RunFlat(events[..|events| - 1]);
      match events[|events| - 1]
      case Throttle(now, es) => Commit(m, now, es)
      case Gc(_, _) => m
  }

  /** The clock starts after the epoch and never goes back. */
  predicate Monotone(events: seq<Event>) {
    && (forall i :: 0 <= i < |events| ==> 0 <= events[i].now)
    && (forall i, j :: 0 <= i < j < |events| ==> events[i].now <= events[j].now)
  }

  /** Two rotations of the same stripe are at least gap apart. */
  predicate Spaced(events: seq<Event>, gap: nat) {
    forall i, j :: 0 <= i < j < |events| && events[i].Gc? && events[j].Gc? && events[i].stripe == events[j].stripe
      ==> events[i].now + gap <= events[j].now
  }

  /** Every limit a committed call uses has a burst window of at most gap. */
  predicate ShortBursts(events: seq<Event>, gap: nat) {
    forall i :: 0 <= i < |events| && events[i].Throttle?
                && AllAdmit(RunFlat(events[..i]), events[i].now, events[i].entries)
                ==> BurstsWithin(events[i].entries, gap)
  }

  predicate BurstsWithin(es: seq<RequestEntry>, gap: nat) {
    forall e :: e in es && !e.peek && Sane(Normalized(e).limit) ==> MaxDebt(Normalized(e).limit) <= gap
  }

  /** How many times a key's stripe has rotated since the key was last named by a call. */
  function Age(stripe: string -> nat, events: seq<Event>, key: string): Option<nat> {
    if events == [] then None
    else
      var age := Age(stripe, events[..|events| - 1], key);
      match events[|events| - 1]
      case Throttle(_, es) => if exists i :: 0 <= i < |es| && es[i].key == key then Some(0) else age
      case Gc(_, i) => if stripe(key) == i && age.Some? then Some(age.value + 1) else age
  }

  /** A key is hot until its stripe's first rotation after its last use, cold until the
      second, and gone after that; it is never in both generations. */
  lemma {:induction false} LiveByAge(stripe: string -> nat, events: seq<Event>, key: string)
    ensures var g, age := RunGens(stripe, events), Age(stripe, events, key);
            && g.hot.Keys !! g.cold.Keys
            && (key in g.hot <==> age == Some(0))
            && (key in g.cold <==> age == Some(1))
  {
    if events != [] {
      var front, e := events[..|events| - 1], events[|events| - 1];
      LiveByAge(stripe, front, key);
    }
  }

  // ------------------------------------------------- indistinguishable timestamps

  /** At now the two stores cannot be told apart: timestamps differ only in the past. */
  ghost predicate Alike(m: Tats, n: Tats, now: int64) {
    forall k :: Max(TatOf(m, k), now) == Max(TatOf(n, k), now)
  }

  lemma SameVerdict(e: RequestEntry, s: int64, t: int64, now: int64)
    requires Max(s, now) == Max(t, now)
    ensures Report(e, s, now) == Report(e, t, now)
    ensures Max(CheckEntry(e, s, now).tat, now) == Max(CheckEntry(e, t, now).tat, now)
  {
  }

  lemma {:induction false} AlikeWork(m: Tats, n: Tats, now: int64, es: seq<RequestEntry>)
    requires Alike(m, n, now)
    ensures Alike(Work(m, now, es), Work(n, now, es), now)
  {
    if es != [] {
      var front, e := es[..|es| - 1], es[|es| - 1];
      AlikeWork(m, n, now, front);
      AlikeAdvance(Work(m, now, front), Work(n, now, front), now, e);
    }
  }

  lemma AlikeAdvance(m: Tats, n: Tats, now: int64, e: RequestEntry)
    requires Alike(m, n, now)
    ensures Alike(Advance(m, now, e), Advance(n, now, e), now)
  {
    SameVerdict(e, TatOf(m, e.key), TatOf(n, e.key), now);
    forall k
      ensures Max(TatOf(Advance(m, now, e), k), now) == Max(TatOf(Advance(n, now, e), k), now)
    {
      AdvanceOnKey(m, now, e, k);
      AdvanceOnKey(n, now, e, k);
    }
  }

  lemma AlikeCall(m: Tats, n: Tats, now: int64, es: seq<RequestEntry>)
    requires Alike(m, n, now)
    ensures Reports(m, now, es) == Reports(n, now, es)
    ensures AllAdmit(m, now, es) <==> AllAdmit(n, now, es)
    ensures Alike(Commit(m, now, es), Commit(n, now, es), now)
  {
    forall i | 0 <= i < |es|
      ensures ReportAt(m, now, es, i) == ReportAt(n, now, es, i)
    {
      AlikeWork(m, n, now, es[..i]);
      SameVerdict(es[i], TatOf(m, es[i].key), TatOf(n, es[i].key), now);
      SameVerdict(es[i], TatOf(Work(m, now, es[..i]), es[i].key), TatOf(Work(n, now, es[..i]), es[i].key), now);
    }
    AlikeWork(m, n, now, es);
    ReportsAt(m, now, es);
    ReportsAt(n, now, es);
  }

  // ------------------------------------------------------- the simulation

  /** The generations hold exactly what the call commits. */
  lemma CallView(g: Gens, now: int64, es: seq<RequestEntry>)
    requires g.hot.Keys !! g.cold.Keys
    ensures forall k :: TatOf(Call(g, now, es).View(), k) == TatOf(Commit(g.View(), now, es), k)
  {
    forall k
      ensures TatOf(Call(g, now, es).View(), k) == TatOf(Commit(g.View(), now, es), k)
    {
      if k !in g.hot.Keys + Names(es) {
        CommitFrame(g.View(), now, es, k);
      }
    }
  }

  /** An admitted check leaves its key's timestamp at most one burst window ahead. */
  lemma {:induction false} WorkAhead(m: Tats, now: int64, es: seq<RequestEntry>, gap: nat, key: string)
    requires now >= 0 && BurstsWithin(es, gap)
    ensures TatOf(Work(m, now, es), key) <= Max(TatOf(m, key), now + gap)
  {
    if es != [] {
      var front, e := es[..|es| - 1], es[|es| - 1];
      assert forall f :: f in front ==> f in es;
      assert e in es;
      WorkAhead(m, now, front, gap, key);
      AdmittedAhead(e, TatOf(Work(m, now, front), e.key), now);
    }
  }

  lemma AdmittedAhead(e: RequestEntry, tat: int64, now: int64)
    requires now >= 0
    ensures var v := CheckEntry(e, tat, now);
            !v.throttled ==> Sane(Normalized(e).limit) && v.tat <= now + MaxDebt(Normalized(e).limit)
  {
    CheckMeetsSpec(tat, now, Normalized(e).limit, Normalized(e).cost);
  }

  /** When stripe i last rotated. */
  function LastGc(events: seq<Event>, i: nat): Option<int64> {
    if events == [] then None
    else
      var e := events[|events| - 1];
      if e.Gc? && e.stripe == i then Some(e.now) else LastGc(events[..|events| - 1], i)
  }

  lemma {:induction false} LastGcIsPast(events: seq<Event>, i: nat)
    ensures var t := LastGc(events, i);
            t.Some? ==> exists j :: 0 <= j < |events| && events[j] == Gc(t.value, i)
  {
    if events != [] {
      var front, e := events[..|events| - 1], events[|events| - 1];
      LastGcIsPast(front, i);
      if e.Gc? && e.stripe == i {
        assert events[|events| - 1] == Gc(e.now, i);
      } else if LastGc(front, i).Some? {
        var j :| 0 <= j < |front| && front[j] == Gc(LastGc(front, i).value, i);
        assert events[j] == front[j];
      }
    }
  }

  /** Dropped keys are past their debt, and cold ones will be before they can be dropped. */
  ghost predicate Covered(g: Gens, flat: Tats, events: seq<Event>, stripe: string -> nat, gap: nat, now: int64) {
    && g.hot.Keys !! g.cold.Keys
    && Alike(g.View(), flat, now)
    && (forall k :: k in g.hot ==> TatOf(flat, k) <= now + gap)
    && (forall k :: k in g.cold ==>
          LastGc(events, stripe(k)).Some? && TatOf(flat, k) <= LastGc(events, stripe(k)).value + gap)
    && (forall k :: k !in g.hot && k !in g.cold ==> TatOf(flat, k) <= now)
  }

  lemma CoveredLater(g: Gens, flat: Tats, events: seq<Event>, stripe: string -> nat, gap: nat, now: int64, later: int64)
    requires Covered(g, flat, events, stripe, gap, now) && now <= later
    ensures Covered(g, flat, events, stripe, gap, later)
  {
  }

  lemma CoveredCall(g: Gens, flat: Tats, events: seq<Event>, stripe: string -> nat, gap: nat, e: Event)
    requires Covered(g, flat, events, stripe, gap, e.now) && e.Throttle? && e.now >= 0
    requires AllAdmit(flat, e.now, e.entries) ==> BurstsWithin(e.entries, gap)
    requires forall i :: LastGc(events, i).Some? ==> LastGc(events, i).value <= e.now
    requires forall i :: LastGc(events + [e], i) == LastGc(events, i)
    ensures Covered(Call(g, e.now, e.entries), Commit(flat, e.now, e.entries), events + [e], stripe, gap, e.now)
  {
    CallView(g, e.now, e.entries);
    AlikeCall(g.View(), flat, e.now, e.entries);
    var after := Commit(flat, e.now, e.entries);
    forall k
      ensures TatOf(after, k) <= Max(TatOf(flat, k), e.now + gap)
      ensures k !in Names(e.entries) ==> TatOf(after, k) == TatOf(flat, k)
    {
      if AllAdmit(flat, e.now, e.entries) {
        WorkAhead(flat, e.now, e.entries, gap, k);
      }
      if k !in Names(e.entries) {
        CommitFrame(flat, e.now, e.entries, k);
      }
    }
  }

  lemma CoveredGc(g: Gens, flat: Tats, events: seq<Event>, stripe: string -> nat, gap: nat, e: Event)
    requires Covered(g, flat, events, stripe, gap, e.now) && e.Gc? && e.now >= 0
    requires LastGc(events, e.stripe).Some? ==> LastGc(events, e.stripe).value + gap <= e.now
    requires forall i :: LastGc(events + [e], i) == if i == e.stripe then Some(e.now) else LastGc(events, i)
    ensures Covered(Rotate(g, stripe, e.stripe), flat, events + [e], stripe, gap, e.now)
  {
    var r := Rotate(g, stripe, e.stripe);
    forall k
      ensures Max(TatOf(r.View(), k), e.now) == Max(TatOf(flat, k), e.now)
    {
      if k in r.hot || k in r.cold {
        assert TatOf(r.View(), k) == TatOf(g.View(), k);
      } else {
        assert TatOf(flat, k) <= e.now;
      }
    }
  }

  lemma FrontOk(events: seq<Event>, gap: nat, n: nat)
    requires Monotone(events) && Spaced(events, gap) && ShortBursts(events, gap) && n <= |events|
    ensures Monotone(events[..n]) && Spaced(events[..n], gap) && ShortBursts(events[..n], gap)
  {
    assert forall i :: 0 <= i < n ==> events[..n][..i] == events[..i];
  }

  /** Rotations before the last event are over, those of its own stripe for at least gap. */
  lemma GcsBefore(events: seq<Event>, gap: nat, n: nat, i: nat)
    requires Monotone(events) && Spaced(events, gap) && n < |events| && LastGc(events[..n], i).Some?
    ensures LastGc(events[..n], i).value <= events[n].now
    ensures events[n].Gc? && events[n].stripe == i ==> LastGc(events[..n], i).value + gap <= events[n].now
  {
    LastGcIsPast(events[..n], i);
    var j :| 0 <= j < n && events[..n][j] == Gc(LastGc(events[..n], i).value, i);
    assert events[j] == events[..n][j];
  }

  /** One more event. */
  lemma CoveredNext(stripe: string -> nat, events: seq<Event>, gap: nat)
    requires Monotone(events) && Spaced(events, gap) && ShortBursts(events, gap) && events != []
    requires var front := events[..|events| - 1];
             Covered(RunGens(stripe, front), RunFlat(front), front, stripe, gap, events[|events| - 1].now)
    ensures Covered(RunGens(stripe, events), RunFlat(events), events, stripe, gap, events[|events| - 1].now)
  {
    var n := |events| - 1;
    var front, e := events[..n], events[n];
    assert events == front + [e];
    forall i | LastGc(front, i).Some? {
      GcsBefore(events, gap, n, i);
    }
    if e.Throttle? {
      CoveredCall(RunGens(stripe, front), RunFlat(front), front, stripe, gap, e);
    } else {
      CoveredGc(RunGens(stripe, front), RunFlat(front), front, stripe, gap, e);
    }
  }

  lemma {:induction false} StaysCovered(stripe: string -> nat, events: seq<Event>, gap: nat, now: int64)
    requires Monotone(events) && Spaced(events, gap) && ShortBursts(events, gap)
    requires now >= 0 && (events != [] ==> events[|events| - 1].now <= now)
    ensures Covered(RunGens(stripe, events), RunFlat(events), events, stripe, gap, now)
  {
    if events != [] {
      var n := |events| - 1;
      FrontOk(events, gap, n);
      StaysCovered(stripe, events[..n], gap, events[n].now);
      CoveredNext(stripe, events, gap);
      CoveredLater(RunGens(stripe, events), RunFlat(events), events, stripe, gap, events[n].now, now);
    }
  }

  /** Garbage collection is invisible: if one stripe's rotations are at least gap apart, no
      committed limit's burst window exceeds gap and the clock never goes back, then every
      call of every run reports what it would report on a store that never drops a key. */
  lemma GcIsInvisible(stripe: string -> nat, events: seq<Event>, gap: nat, i: nat)
    requires Monotone(events) && Spaced(events, gap) && ShortBursts(events, gap)
    requires i < |events| && events[i].Throttle?
    ensures var e := events[i];
            Reports(RunGens(stripe, events[..i]).View(), e.now, e.entries)
            == Reports(RunFlat(events[..i]), e.now, e.entries)
  {
    var front, e := events[..i], events[i];
    FrontOk(events, gap, i);
    StaysCovered(stripe, front, gap, e.now);
    AlikeCall(RunGens(stripe, front).View(), RunFlat(front), e.now, e.entries);
  }

  /** Two rotations of a key's stripe after its last use drop it. */
  lemma TwiceRotatedIsGone(stripe: string -> nat, events: seq<Event>, first: Event, second: Event, key: string)
    requires first.Gc? && second.Gc? && first.stripe == second.stripe == stripe(key)
    ensures key !in RunGens(stripe, events + [first, second]).View()
    ensures RunFlat(events + [first, second]) == RunFlat(events)
  {
    var all, one := events + [first, second], events + [first];
    assert all[..|all| - 1] == one && one[..|one| - 1] == events;
    LiveByAge(stripe, all, key);
  }

  /** A bucket that one unit fills for ten nanoseconds. */
  lemma SmallBucket(l: Limit, tat: int64, now: int64)
    requires l == Limit(1, Rate(1, 10)) && 0 <= tat <= 10 && 0 <= now <= 10
    ensures CostNs(l, 1) == 10
    ensures Admits(l, 1, tat, now) <==> tat <= now
  {
    UnitRate(Product(1, 10));
    assert Product(1, 10) == 10;
  }

  lemma SmallCheck(e: RequestEntry, tat: int64, now: int64)
    requires e.limit == Limit(1, Rate(1, 10)) && e.cost == 1 && 0 <= tat <= 10 && 0 <= now <= 10
    ensures CheckEntry(e, tat, now).throttled <==> tat > now
    ensures tat <= now ==> CheckEntry(e, tat, now).tat == now + 10
  {
    SmallBucket(e.limit, tat, now);
    CheckMeetsSpec(tat, now, e.limit, 1);
  }

  /** The spacing is needed: two rotations in quick succession forget a full bucket, and the
      request it should have turned away is admitted. */
  lemma CloseRotationsForget(stripe: string -> nat, key: string)
    ensures var e := RequestEntry(key, Limit(1, Rate(1, 10)), 1, false);
            var events := [Throttle(0, [e])] + [Gc(1, stripe(key)), Gc(2, stripe(key))];
            && !Reports(RunGens(stripe, events).View(), 3, [e])[0].throttled
            && Reports(RunFlat(events), 3, [e])[0].throttled
  {
    var e := RequestEntry(key, Limit(1, Rate(1, 10)), 1, false);
    var start := [Throttle(0, [e])];
    var events := start + [Gc(1, stripe(key)), Gc(2, stripe(key))];
    TwiceRotatedIsGone(stripe, start, Gc(1, stripe(key)), Gc(2, stripe(key)), key);
    assert start[..0] == [] && RunFlat(start) == Commit(map[], 0, [e]);
    SingleCall(map[], 0, e);
    SmallCheck(e, 0, 0);
    SmallCheck(e, 10, 3);
    SmallCheck(e, 0, 3);
    SingleCall(RunGens(stripe, events).View(), 3, e);
    SingleCall(RunFlat(events), 3, e);
  }
}

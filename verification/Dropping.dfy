/** Concurrent calls and dropped keys together (server/throttling.go:118-176,
    server/store.go:47-69): when every interleaving of calls and drops answers each call as a
    store would that never drops a key. The clock readings of concurrent calls need not follow
    the order in which the calls take effect. */
module Dropping {
  import opened Types
  import opened Gcra
  import opened Group
  import opened Serializability
  import G = Generations
  import L = Locking

  /** What happens to the timestamps: a call takes effect, or a key is dropped. */
  datatype Event = Ran(t: L.Tid, now: int64, es: seq<RequestEntry>) | Dropped(key: string)

  /** The timestamps with drops, and without. */
  function Kept(events: seq<Event>): Tats {
    if events == [] then map[] else KeptNext(Kept(events[..|events| - 1]), events[|events| - 1])
  }

  function KeptNext(m: Tats, e: Event): Tats {
    if e.Ran? then Commit(m, e.now, e.es) else m - {e.key}
  }

  function Flat(events: seq<Event>): Tats {
    if events == [] then map[]
    else
      var m, e := Flat(events[..|events| - 1]), events[|events| - 1];
      if e.Ran? then Commit(m, e.now, e.es) else m
  }

  predicate Names(e: Event, key: string) {
    e.Ran? && key in G.Names(e.es)
  }

  predicate SinceEpoch(events: seq<Event>) {
    forall i :: 0 <= i < |events| && events[i].Ran? ==> events[i].now >= 0
  }

  /** A call that names a key after it was dropped read its clock no earlier than the timestamp
      that was dropped. */
  ghost predicate Timely(events: seq<Event>) {
    forall i, j :: 0 <= i < j < |events| && events[i].Dropped? && Names(events[j], events[i].key) ==>
      TatOf(Kept(events[..i]), events[i].key) <= events[j].now
  }

  // ------------------------------------------------------------- one call

  /** Two stores that a call cannot tell apart on a key. */
  predicate AlikeOn(m: Tats, n: Tats, now: int64, key: string) {
    Max(TatOf(m, key), now) == Max(TatOf(n, key), now)
  }

  function Only(m: Tats, keys: set<string>): Tats {
    map k | k in keys :: TatOf(m, k)
  }

  /** A call cannot tell stores apart that are alike on the keys it names. */
  lemma SameCall(m: Tats, n: Tats, now: int64, es: seq<RequestEntry>)
    requires forall k :: k in G.Names(es) ==> AlikeOn(m, n, now, k)
    ensures Reports(m, now, es) == Reports(n, now, es)
    ensures AllAdmit(m, now, es) <==> AllAdmit(n, now, es)
  {
    var keys := G.Names(es);
    var p, q := Only(m, keys), Only(n, keys);
    LocalCall(m, p, now, es, keys);
    LocalCall(n, q, now, es, keys);
    assert G.Alike(p, q, now) by {
      forall k
        ensures Max(TatOf(p, k), now) == Max(TatOf(q, k), now)
      {
        assert k in keys ==> AlikeOn(m, n, now, k);
      }
    }
    G.AlikeCall(p, q, now, es);
  }

  lemma SameAdmission(e: RequestEntry, s: int64, t: int64, now: int64)
    requires now >= 0 && Max(s, now) == Max(t, now) && !CheckEntry(e, s, now).throttled
    ensures CheckEntry(e, s, now).tat == CheckEntry(e, t, now).tat
  {
    G.SameVerdict(e, s, t, now);
    var n := Normalized(e);
    CheckMeetsSpec(s, now, n.limit, n.cost);
    CheckMeetsSpec(t, now, n.limit, n.cost);
  }

  /** A group that commits leaves the same timestamp on a key in both stores, unless it leaves
      the key alone. */
  lemma {:induction false} SameOrUntouched(m: Tats, n: Tats, now: int64, es: seq<RequestEntry>, key: string)
    requires now >= 0 && AllAdmit(m, now, es) && AlikeOn(m, n, now, key)
    ensures var v, w := TatOf(Work(m, now, es), key), TatOf(Work(n, now, es), key);
            v == w || (v == TatOf(m, key) && w == TatOf(n, key))
  {
    if es != [] {
      var front, e := es[..|es| - 1], es[|es| - 1];
      AdmitFront(m, now, es);
      SameOrUntouched(m, n, now, front, key);
      AdvanceOnKey(Work(m, now, front), now, e, key);
      AdvanceOnKey(Work(n, now, front), now, e, key);
      if !e.peek && e.key == key {
        SameAdmission(e, TatOf(Work(m, now, front), key), TatOf(Work(n, now, front), key), now);
      }
    }
  }

  // ------------------------------------------------------------- whole runs

  /** No call still to come can tell the two stores apart. */
  ghost predicate Alike(events: seq<Event>, n: nat, m: Tats, flat: Tats) {
    forall j, k :: n <= j < |events| && Names(events[j], k) ==> AlikeOn(m, flat, events[j].now, k)
  }

  lemma RanAlike(events: seq<Event>, n: nat, m: Tats, flat: Tats)
    requires n < |events| && events[n].Ran? && events[n].now >= 0 && Alike(events, n, m, flat)
    ensures Alike(events, n + 1, Commit(m, events[n].now, events[n].es), Commit(flat, events[n].now, events[n].es))
  {
    var now, es := events[n].now, events[n].es;
    forall k | k in G.Names(es)
      ensures AlikeOn(m, flat, now, k)
    {
      assert Names(events[n], k);
    }
    SameCall(m, flat, now, es);
    forall j, k | n < j < |events| && Names(events[j], k)
      ensures AlikeOn(Commit(m, now, es), Commit(flat, now, es), events[j].now, k)
    {
      assert AlikeOn(m, flat, events[j].now, k);
      if k !in G.Names(es) {
        CommitFrame(m, now, es, k);
        CommitFrame(flat, now, es, k);
      } else if AllAdmit(m, now, es) {
        SameOrUntouched(m, flat, now, es, k);
      }
    }
  }

  lemma DroppedAlike(events: seq<Event>, n: nat, m: Tats, flat: Tats)
    requires n < |events| && events[n].Dropped? && Alike(events, n, m, flat) && SinceEpoch(events)
    requires forall j :: n < j < |events| && Names(events[j], events[n].key) ==>
               TatOf(m, events[n].key) <= events[j].now
    ensures Alike(events, n + 1, m - {events[n].key}, flat)
  {
    forall j, k | n < j < |events| && Names(events[j], k)
      ensures AlikeOn(m - {events[n].key}, flat, events[j].now, k)
    {
      assert AlikeOn(m, flat, events[j].now, k);
    }
  }

  lemma {:induction false} StaysAlike(events: seq<Event>, n: nat)
    requires SinceEpoch(events) && Timely(events) && n <= |events|
    ensures Alike(events, n, Kept(events[..n]), Flat(events[..n]))
  {
    if n > 0 {
      StaysAlike(events, n - 1);
      assert events[..n][..n - 1] == events[..n - 1];
      if events[n - 1].Ran? {
        RanAlike(events, n - 1, Kept(events[..n - 1]), Flat(events[..n - 1]));
      } else {
        DroppedAlike(events, n - 1, Kept(events[..n - 1]), Flat(events[..n - 1]));
      }
    }
  }

  /** Timely drops are invisible: every call gets the reports it would get on a store that
      never drops a key. */
  lemma DropsAreInvisible(events: seq<Event>, i: nat)
    requires SinceEpoch(events) && Timely(events) && i < |events| && events[i].Ran?
    ensures Reports(Kept(events[..i]), events[i].now, events[i].es)
            == Reports(Flat(events[..i]), events[i].now, events[i].es)
  {
    StaysAlike(events, i);
    forall k | k in G.Names(events[i].es)
      ensures AlikeOn(Kept(events[..i]), Flat(events[..i]), events[i].now, k)
    {
      assert Names(events[i], k);
    }
    SameCall(Kept(events[..i]), Flat(events[..i]), events[i].now, events[i].es);
  }

  // ------------------------------------------------- when drops are timely

  /** Two calls that name a key, with a drop of it in between, read their clocks at least gap
      apart. */
  predicate Spaced(events: seq<Event>, gap: nat) {
    forall h, i, j :: 0 <= h < i < j < |events| && events[i].Dropped? && Names(events[h], events[i].key)
                      && Names(events[j], events[i].key) ==>
      events[h].now + gap <= events[j].now
  }

  /** Every limit a committed call uses has a burst window of at most gap. */
  predicate ShortBursts(events: seq<Event>, gap: nat) {
    forall i :: 0 <= i < |events| && events[i].Ran? && AllAdmit(Kept(events[..i]), events[i].now, events[i].es) ==>
      G.BurstsWithin(events[i].es, gap)
  }

  /** A timestamp is at most one burst window ahead of some call that named its key. */
  lemma {:induction false} TatFromCall(events: seq<Event>, gap: nat, n: nat, key: string)
    requires SinceEpoch(events) && ShortBursts(events, gap) && n <= |events|
    ensures TatOf(Kept(events[..n]), key) <= 0
            || exists h :: 0 <= h < n && Names(events[h], key) && TatOf(Kept(events[..n]), key) <= events[h].now + gap
  {
    if n > 0 {
      var e, m := events[n - 1], Kept(events[..n - 1]);
      TatFromCall(events, gap, n - 1, key);
      assert events[..n][..n - 1] == events[..n - 1];
      if e.Ran? && key !in G.Names(e.es) {
        CommitFrame(m, e.now, e.es, key);
      } else if e.Ran? && AllAdmit(m, e.now, e.es) {
        G.WorkAhead(m, e.now, e.es, gap, key);
        assert Names(events[n - 1], key);
      }
    }
  }

  lemma SpacedIsTimely(events: seq<Event>, gap: nat)
    requires SinceEpoch(events) && ShortBursts(events, gap) && Spaced(events, gap)
    ensures Timely(events)
  {
    forall i, j | 0 <= i < j < |events| && events[i].Dropped? && Names(events[j], events[i].key)
      ensures TatOf(Kept(events[..i]), events[i].key) <= events[j].now
    {
      TatFromCall(events, gap, i, events[i].key);
    }
  }

  // ------------------------------------------------------ the concurrent machine

  /** The calls and drops of a run of atomic calls, in order. */
  function Events(acts: seq<AtomicAction>): seq<Event>
    requires AtomicRun(acts)
  {
    if acts == [] then []
    else Events(acts[..|acts| - 1]) + Effect(AtomicAfter(acts[..|acts| - 1]), acts[|acts| - 1])
  }

  function Effect(s: Atomic, a: AtomicAction): seq<Event>
    requires AtomicEnabled(s, a)
  {
    if a.Invoke? then []
    else if a.Execute? then [Ran(a.t, s.calls[a.t].now, s.calls[a.t].es)]
    else [Dropped(a.key)]
  }

  /** The call took effect as event i, and its answer is what it reported there. */
  ghost predicate AnsweredAt(events: seq<Event>, t: L.Tid, c: AtomicCall, i: nat) {
    && i < |events| && c.Answered? && events[i] == Ran(t, c.now, c.es)
    && c.result == Reports(Kept(events[..i]), c.now, c.es)
  }

  ghost predicate AllAnswered(events: seq<Event>, calls: map<L.Tid, AtomicCall>) {
    forall t :: t in calls && calls[t].Answered? ==> exists i: nat :: AnsweredAt(events, t, calls[t], i)
  }

  lemma StillAnswered(events: seq<Event>, e: Event, t: L.Tid, c: AtomicCall)
    requires exists i: nat :: AnsweredAt(events, t, c, i)
    ensures exists i: nat :: AnsweredAt(events + [e], t, c, i)
  {
    var i: nat :| AnsweredAt(events, t, c, i);
    assert (events + [e])[..i] == events[..i];
    assert AnsweredAt(events + [e], t, c, i);
  }

  lemma NewlyAnswered(events: seq<Event>, t: L.Tid, now: int64, es: seq<RequestEntry>)
    ensures AnsweredAt(events + [Ran(t, now, es)], t, Answered(now, es, Reports(Kept(events), now, es)), |events|)
  {
    assert (events + [Ran(t, now, es)])[..|events|] == events;
  }

  lemma ExecuteAnswers(events: seq<Event>, s: Atomic, t: L.Tid)
    requires AtomicEnabled(s, Execute(t)) && s.tats == Kept(events) && AllAnswered(events, s.calls)
    ensures AllAnswered(events + [Ran(t, s.calls[t].now, s.calls[t].es)], AtomicApply(s, Execute(t)).calls)
  {
    var c, after := s.calls[t], AtomicApply(s, Execute(t)).calls;
    forall u | u in after && after[u].Answered?
      ensures exists i: nat :: AnsweredAt(events + [Ran(t, c.now, c.es)], u, after[u], i)
    {
      if u == t {
        NewlyAnswered(events, t, c.now, c.es);
      } else {
        StillAnswered(events, Ran(t, c.now, c.es), u, after[u]);
      }
    }
  }

  lemma KeptAppend(events: seq<Event>, e: Event)
    ensures Kept(events + [e]) == KeptNext(Kept(events), e)
  {
    assert (events + [e])[..|events|] == events;
  }

  lemma InvokeAnswers(events: seq<Event>, s: Atomic, a: AtomicAction)
    requires AtomicEnabled(s, a) && a.Invoke? && AllAnswered(events, s.calls)
    ensures AllAnswered(events, AtomicApply(s, a).calls)
  {
    var after := AtomicApply(s, a).calls;
    forall u | u in after && after[u].Answered?
      ensures exists i: nat :: AnsweredAt(events, u, after[u], i)
    {
      assert u in s.calls && s.calls[u] == after[u];
    }
  }

  lemma ForgetAnswers(events: seq<Event>, calls: map<L.Tid, AtomicCall>, key: string)
    requires AllAnswered(events, calls)
    ensures AllAnswered(events + [Dropped(key)], calls)
  {
    forall t | t in calls && calls[t].Answered?
      ensures exists i: nat :: AnsweredAt(events + [Dropped(key)], t, calls[t], i)
    {
      StillAnswered(events, Dropped(key), t, calls[t]);
    }
  }

  lemma EffectTats(events: seq<Event>, s: Atomic, a: AtomicAction)
    requires AtomicEnabled(s, a) && s.tats == Kept(events)
    ensures AtomicApply(s, a).tats == Kept(events + Effect(s, a))
  {
    if a.Invoke? {
      assert events + Effect(s, a) == events;
    } else {
      KeptAppend(events, Effect(s, a)[0]);
    }
  }

  lemma EffectAnswers(events: seq<Event>, s: Atomic, a: AtomicAction)
    requires AtomicEnabled(s, a) && s.tats == Kept(events) && AllAnswered(events, s.calls)
    ensures AllAnswered(events + Effect(s, a), AtomicApply(s, a).calls)
  {
    if a.Invoke? {
      assert events + Effect(s, a) == events;
      InvokeAnswers(events, s, a);
    } else if a.Execute? {
      ExecuteAnswers(events, s, a.t);
    } else {
      ForgetAnswers(events, s.calls, a.key);
    }
  }

  lemma {:induction false} AnswersComeFromEvents(acts: seq<AtomicAction>)
    requires AtomicRun(acts)
    ensures AtomicAfter(acts).tats == Kept(Events(acts)) && AllAnswered(Events(acts), AtomicAfter(acts).calls)
  {
    if acts != [] {
      var front := acts[..|acts| - 1];
      AnswersComeFromEvents(front);
      EffectTats(Events(front), AtomicAfter(front), acts[|acts| - 1]);
      EffectAnswers(Events(front), AtomicAfter(front), acts[|acts| - 1]);
    }
  }

  /** What takes effect in a run of concurrent calls, in order: every call at its lock point. */
  ghost function Effects(run: seq<Action>): seq<Event>
    requires CleanRun(run)
  {
    RunRefines(run);
    Events(Linearized(run))
  }

  /** Every interleaving of concurrent calls and drops in which no drop hits a running call,
      and calls that name a key around a drop of it read their clocks at least the longest
      burst window apart, answers each call as atomic calls on a store that never drops a key
      would, in the order of their lock points. */
  lemma ConcurrentDropsAreInvisible(run: seq<Action>, gap: nat, t: L.Tid)
    requires CleanRun(run)
    requires SinceEpoch(Effects(run)) && ShortBursts(Effects(run), gap) && Spaced(Effects(run), gap)
    requires t in After(run).ctl.calls && After(run).ctl.calls[t].pc.Done?
    ensures t in After(run).locals
    ensures var l, events := After(run).locals[t], Effects(run);
            exists i :: 0 <= i < |events| && events[i] == Ran(t, l.now, l.es)
                        && l.result == Reports(Flat(events[..i]), l.now, l.es)
  {
    Serializable(run);
    AnswersComeFromEvents(Linearized(run));
    var events, c := Effects(run), AtomicAfter(Linearized(run)).calls[t];
    var i: nat :| AnsweredAt(events, t, c, i);
    SpacedIsTimely(events, gap);
    DropsAreInvisible(events, i);
  }
}

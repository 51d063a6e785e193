/** The in-memory throttler (server/throttling.go): one call over the shared store. */
module Throttling {
  import opened Types
  import opened Gcra
  import opened Group
  import opened KeyStore
  import opened Ordering
  import Generations

  /** One step of the evaluation loop, on the working copy of the group's own keys. */
  method EvaluateOne(e: RequestEntry, now: int64, workingTat: Tats, ghost work: Tats) returns (next: Tats, v: Verdict)
    requires !e.peek && e.key in workingTat
    requires forall k :: k in workingTat ==> workingTat[k] == TatOf(work, k)
    ensures forall k :: k in next <==> k in workingTat
    ensures forall k :: k in next ==>
              next[k] == if k == e.key then CheckEntry(e, TatOf(work, k), now).tat else workingTat[k]
    ensures v == CheckEntry(e, TatOf(work, e.key), now)
  {
    v := CheckEntry(e, workingTat[e.key], now);
    next := if v.throttled then workingTat else workingTat[e.key := v.tat];
  }

  /** What one more entry does to the working timestamps and the reports. */
  lemma WorkStep(pre: Tats, now: int64, es: seq<RequestEntry>, i: nat) returns (work: Tats, reports: seq<ResponseEntry>)
    requires i < |es|
    ensures work == Work(pre, now, es[..i + 1]) && reports == Reports(pre, now, es[..i + 1])
    ensures var e, before := es[i], Work(pre, now, es[..i]);
            && (forall k :: TatOf(work, k)
                            == if e.peek || k != e.key then TatOf(before, k)
                               else CheckEntry(e, TatOf(before, k), now).tat)
            && reports == Reports(pre, now, es[..i]) + [Report(e, TatOf(if e.peek then pre else before, e.key), now)]
  {
    work, reports := Work(pre, now, es[..i + 1]), Reports(pre, now, es[..i + 1]);
    assert es[..i + 1][..i] == es[..i];
    forall k {
      AdvanceOnKey(Work(pre, now, es[..i]), now, es[i], k);
    }
  }

  /** Every Real entry of a partly filled result awaits its verdict. */
  predicate Awaits(result: seq<ResponseEntry>, entries: seq<RequestEntry>) {
    && |result| == |entries|
    && (forall i :: 0 <= i < |entries| && !entries[i].peek ==>
          result[i].key == entries[i].key && result[i].err == None)
  }

  /** The result once the first n Real entries' slots hold their reports. */
  predicate Filled(result: seq<ResponseEntry>, blank: seq<ResponseEntry>, reports: seq<ResponseEntry>,
                   entries: seq<RequestEntry>, n: nat)
    requires |result| == |blank| == |entries| && n <= |reports|
  {
    forall i :: 0 <= i < |entries| ==> result[i] == if !entries[i].peek && i < n then reports[i] else blank[i]
  }

  lemma FilledStep(result: seq<ResponseEntry>, blank: seq<ResponseEntry>, reports: seq<ResponseEntry>,
                   entries: seq<RequestEntry>, i: nat)
    requires |result| == |blank| == |entries| && i < |entries| && |reports| == i + 1
    requires Filled(result, blank, reports[..i], entries, i)
    ensures Filled(if entries[i].peek then result else result[i := reports[i]], blank, reports, entries, i + 1)
  {
  }

  /** The evaluation loop's state after the first n entries. */
  ghost predicate EvaluatedUpTo(entries: seq<RequestEntry>, n: nat, now: int64, blank: seq<ResponseEntry>, pre: Tats,
                                result: seq<ResponseEntry>, workingTat: Tats, admitAll: bool)
    requires n <= |entries| == |blank|
  {
    var work, reports := Work(pre, now, entries[..n]), Reports(pre, now, entries[..n]);
    && (forall k :: k in workingTat ==> workingTat[k] == TatOf(work, k))
    && |result| == |entries| && Filled(result, blank, reports, entries, n)
    && (admitAll <==> forall j :: 0 <= j < n && !entries[j].peek ==> !reports[j].throttled)
  }

  /** Checking one entry: its report goes in its place, its timestamp on the working copy. */
  method EvaluateEntry(entries: seq<RequestEntry>, i: nat, now: int64, blank: seq<ResponseEntry>, ghost pre: Tats,
                       result: seq<ResponseEntry>, workingTat: Tats, admitAll: bool)
    returns (next: seq<ResponseEntry>, nextTat: Tats, nextAdmit: bool)
    requires Awaits(blank, entries) && i < |entries|
    requires EvaluatedUpTo(entries, i, now, blank, pre, result, workingTat, admitAll)
    requires !entries[i].peek ==> entries[i].key in workingTat
    ensures EvaluatedUpTo(entries, i + 1, now, blank, pre, next, nextTat, nextAdmit)
    ensures forall k :: k in nextTat <==> k in workingTat
  {
    var e := entries[i];
    next, nextTat, nextAdmit := result, workingTat, admitAll;
    ghost var before := Work(pre, now, entries[..i]);
    ghost var work, reports := WorkStep(pre, now, entries, i);
    if !e.peek {
      var v: Verdict;
      nextTat, v := EvaluateOne(e, now, workingTat, before);
      if v.throttled {
        nextAdmit := false;
      }
      next := result[i := result[i].(throttled := v.throttled, remaining := v.remaining, retryAfter := v.retryAfter)];
    }
    FilledStep(result, blank, reports, entries, i);
  }

  /** The evaluation loop: every Real entry is checked against the working copy, which
      starts from the committed timestamps of the keys involved. */
  method Evaluate(entries: seq<RequestEntry>, now: int64, seed: Tats, blank: seq<ResponseEntry>, ghost pre: Tats)
    returns (result: seq<ResponseEntry>, workingTat: Tats, admitAll: bool)
    requires Awaits(blank, entries)
    requires forall k :: k in seed ==> seed[k] == TatOf(pre, k)
    requires forall i :: 0 <= i < |entries| && !entries[i].peek ==> entries[i].key in seed
    ensures |result| == |entries| && Filled(result, blank, Reports(pre, now, entries), entries, |entries|)
    ensures admitAll <==> AllAdmit(pre, now, entries)
    ensures forall k :: k in workingTat <==> k in seed
    ensures forall k :: k in seed ==> workingTat[k] == TatOf(Work(pre, now, entries), k)
  {
    result, workingTat, admitAll := blank, seed, true;
    for i := 0 to |entries|
      invariant EvaluatedUpTo(entries, i, now, blank, pre, result, workingTat, admitAll)
      invariant forall k :: k in workingTat <==> k in seed
    {
      result, workingTat, admitAll := EvaluateEntry(entries, i, now, blank, pre, result, workingTat, admitAll);
    }
    assert entries[..|entries|] == entries;
    ReportsAt(pre, now, entries);
  }

  /** Locking every bucket of the group, in key order. No bucket is locked twice, since no
      two keys share one. */
  method LockAll(keys: seq<string>, buckets: map<string, BucketState>)
    requires Sorted(keys) && (forall k :: k in keys <==> k in buckets)
    requires OneOwner(buckets)
    requires forall k :: k in buckets ==> !buckets[k].locked
    modifies buckets.Values`locked
    ensures forall k :: k in buckets ==> buckets[k].locked
  {
    for j := 0 to |keys|
      invariant forall i :: 0 <= i < j ==> buckets[keys[i]].locked
      invariant forall i :: j <= i < |keys| ==> !buckets[keys[i]].locked
    {
      forall i | 0 <= i < |keys| && i != j
        ensures buckets[keys[i]] != buckets[keys[j]]
      {
        LessTotal(keys[i], keys[j]);
      }
      buckets[keys[j]].Lock();
    }
  }

  method UnlockAll(keys: seq<string>, buckets: map<string, BucketState>)
    requires Sorted(keys) && (forall k :: k in keys <==> k in buckets)
    requires OneOwner(buckets)
    requires forall k :: k in buckets ==> buckets[k].locked
    modifies buckets.Values`locked
    ensures forall k :: k in buckets ==> !buckets[k].locked
  {
    for j := 0 to |keys|
      invariant forall i :: 0 <= i < j ==> !buckets[keys[i]].locked
      invariant forall i :: j <= i < |keys| ==> buckets[keys[i]].locked
    {
      forall i | 0 <= i < |keys| && i != j
        ensures buckets[keys[i]] != buckets[keys[j]]
      {
        LessTotal(keys[i], keys[j]);
      }
      buckets[keys[j]].Unlock();
    }
  }

  /** The commit: every working timestamp is written to its bucket, in any order. */
  method WriteBack(workingTat: Tats, buckets: map<string, BucketState>)
    requires OneOwner(buckets) && forall k :: k in workingTat <==> k in buckets
    requires forall k :: k in buckets ==> buckets[k].locked
    modifies buckets.Values`tat
    ensures forall k :: k in buckets ==> buckets[k].tat == workingTat[k]
  {
    var rest := workingTat.Keys;
    while rest != {}
      invariant rest <= buckets.Keys
      invariant forall k :: k in buckets && k !in rest ==> buckets[k].tat == workingTat[k]
    {
      var k :| k in rest;
      buckets[k].tat := workingTat[k];
      rest := rest - {k};
    }
  }

  /** The transaction proper: lock every bucket in key order, check all entries against a
      working copy, write the copy back only if all admit, unlock. */
  method EvaluateLocked(entries: seq<RequestEntry>, now: int64, blank: seq<ResponseEntry>,
                        buckets: map<string, BucketState>, ghost m: Tats)
    returns (result: seq<ResponseEntry>)
    requires Awaits(blank, entries) && OneOwner(buckets)
    requires forall i :: 0 <= i < |entries| && !entries[i].peek ==> entries[i].key in buckets
    requires forall k :: k in buckets ==> buckets[k].tat == TatOf(m, k) && !buckets[k].locked
    modifies buckets.Values
    ensures |result| == |entries| && Filled(result, blank, Reports(m, now, entries), entries, |entries|)
    ensures forall k :: k in buckets ==> buckets[k].tat == TatOf(Commit(m, now, entries), k) && !buckets[k].locked
  {
    var keys := SortKeys(buckets.Keys);
    LockAll(keys, buckets);
    var seed := map k | k in buckets :: buckets[k].tat;
    var workingTat, admitAll;
    result, workingTat, admitAll := Evaluate(entries, now, seed, blank, m);
    if admitAll {
      WriteBack(workingTat, buckets);
    }
    UnlockAll(keys, buckets);
  }

  /** The keys of a call's Real entries. */
  function RealNames(es: seq<RequestEntry>): set<string> {
    set e | e in es && !e.peek :: e.key
  }

  lemma RealNamesStep(es: seq<RequestEntry>, i: nat)
    requires i < |es|
    ensures RealNames(es[..i + 1]) == RealNames(es[..i]) + if es[i].peek then {} else {es[i].key}
  {
    assert es[..i + 1] == es[..i] + [es[i]];
  }

  class InMemoryThrottler {
    const store: Store

    constructor (numStripes: int, hash: string -> nat)
      ensures Valid() && View() == Generations.Gens(map[], map[])
    {
      store := new Store(numStripes, hash);
    }

    /** Between calls no bucket is locked. */
    ghost predicate Valid()
      reads this, store, store.stripes, store.buckets
    {
      store.Valid() && forall b :: b in store.buckets ==> !b.locked
    }

    ghost function View(): Generations.Gens
      requires store.Valid()
      reads this, store, store.stripes, store.buckets
    {
      store.View()
    }

    /** The timestamps the store holds, key by key, are those of m. */
    ghost predicate Holds(m: Tats)
      reads this, store, store.buckets
    {
      forall k :: k in store.live ==> store.live[k] in store.buckets && store.live[k].tat == TatOf(m, k)
    }

    /** The store after looking up the given keys: they are live and hot, every bucket it had
        is kept, and the timestamps are those of m. */
    twostate predicate LookedUp(keys: set<string>, m: Tats)
      reads this, store, store.stripes, store.buckets
    {
      && Valid() && Holds(m)
      && (forall k :: k !in store.live ==> TatOf(m, k) == 0)
      && old(store.buckets) <= store.buckets && fresh(store.buckets - old(store.buckets))
      && (forall k :: k in store.hotKeys <==> k in old(store.hotKeys) || k in keys)
      && (forall k :: k in store.live <==> k in old(store.live) || k in keys)
    }

    /** One lookup. */
    method GetOrCreate(key: string, ghost m: Tats) returns (b: BucketState)
      requires Valid() && Holds(m) && forall k :: k !in store.live ==> TatOf(m, k) == 0
      modifies store, store.stripes
      ensures LookedUp({key}, m)
      ensures key in store.live && b == store.live[key]
      ensures forall k :: k in old(store.live) ==> store.live[k] == old(store.live)[k]
    {
      b := store.Lookup(key);
    }

    /** getOrCreate for every distinct key of the group. */
    method LookupAll(entries: seq<RequestEntry>, ghost m: Tats) returns (buckets: map<string, BucketState>)
      requires Valid() && Holds(m) && forall k :: k !in store.live ==> TatOf(m, k) == 0
      modifies store, store.stripes
      ensures LookedUp(buckets.Keys, m)
      ensures buckets.Keys == RealNames(entries)
      ensures forall k :: k in buckets ==> k in store.live && buckets[k] == store.live[k]
    {
      buckets := map[];
      for i := 0 to |entries|
        invariant LookedUp(buckets.Keys, m)
        invariant buckets.Keys == RealNames(entries[..i])
        invariant forall k :: k in buckets ==> k in store.live && buckets[k] == store.live[k]
      {
        var e := entries[i];
        RealNamesStep(entries, i);
        if !e.peek && e.key !in buckets {
          var b := GetOrCreate(e.key, m);
          buckets := buckets[e.key := b];
        }
      }
      assert entries[..|entries|] == entries;
    }

    /** The transaction on buckets found in the store: nothing else of the store changes. */
    method EvaluateFound(entries: seq<RequestEntry>, now: int64, blank: seq<ResponseEntry>,
                         buckets: map<string, BucketState>, ghost m: Tats)
      returns (result: seq<ResponseEntry>)
      requires Valid() && Holds(m) && forall k :: k !in store.live ==> TatOf(m, k) == 0
      requires Awaits(blank, entries)
      requires forall i :: 0 <= i < |entries| && !entries[i].peek ==> entries[i].key in buckets
      requires forall k :: k in buckets ==> k in store.live && buckets[k] == store.live[k]
      modifies buckets.Values
      ensures |result| == |entries| && Filled(result, blank, Reports(m, now, entries), entries, |entries|)
      ensures Valid() && Holds(Commit(m, now, entries))
      ensures forall k :: k !in store.live ==> TatOf(Commit(m, now, entries), k) == 0
    {
      result := EvaluateLocked(entries, now, blank, buckets, m);
      forall k | k !in buckets
        ensures TatOf(Commit(m, now, entries), k) == TatOf(m, k)
      {
        CommitFrame(m, now, entries, k);
      }
    }

    /** The Real entries of a call as one transaction. */
    method EvaluateRealGroup(entries: seq<RequestEntry>, now: int64, blank: seq<ResponseEntry>, ghost m: Tats)
      returns (result: seq<ResponseEntry>)
      requires Valid() && Holds(m) && forall k :: k !in store.live ==> TatOf(m, k) == 0
      requires Awaits(blank, entries)
      modifies store, store.stripes, store.buckets
      ensures |result| == |entries| && Filled(result, blank, Reports(m, now, entries), entries, |entries|)
      ensures LookedUp(RealNames(entries), Commit(m, now, entries))
    {
      var buckets := LookupAll(entries, m);
      result := EvaluateFound(entries, now, blank, buckets, m);
    }

    /** One peek: look the key up, check it under its lock, release it. */
    method CheckPeek(e: RequestEntry, now: int64, ghost m: Tats) returns (r: ResponseEntry)
      requires Valid() && Holds(m) && forall k :: k !in store.live ==> TatOf(m, k) == 0
      modifies store, store.stripes, store.buckets`locked
      ensures LookedUp({e.key}, m)
      ensures r == Report(e, TatOf(m, e.key), now)
      ensures now >= 0 ==>
                var l := Limit(e.limit.capacity,
                               Rate(if e.limit.rate.units > 0 then e.limit.rate.units else 1, e.limit.rate.period));
                var cost, tat := if e.cost > 0 then e.cost else 1, TatOf(m, e.key);
                r == ResponseEntry(e.key, !Admits(l, cost, tat, now), Remaining(l, cost, tat, now),
                                   RetryAfter(l, cost, tat, now), None)
    {
      if now >= 0 {
        FieldsOfReport(e, TatOf(m, e.key), now);
      }
      var b := GetOrCreate(e.key, m);
      b.Lock();
      var v := CheckEntry(e, b.tat, now);
      b.Unlock();
      r := ResponseEntry(e.key, v.throttled, v.remaining, v.retryAfter, None);
    }

    /** The first pass: every peek is checked on its own; Real entries only get their key. */
    method CheckPeeks(entries: seq<RequestEntry>, now: int64, ghost m: Tats) returns (blank: seq<ResponseEntry>)
      requires Valid() && Holds(m) && forall k :: k !in store.live ==> TatOf(m, k) == 0
      modifies store, store.stripes, store.buckets`locked
      ensures LookedUp(PeekNames(entries), m)
      ensures FirstPasses(entries, |entries|, now, m, blank)
    {
      blank := [];
      ghost var names: set<string> := {};
      for i := 0 to |entries|
        invariant LookedUp(names, m) && names == PeekNames(entries[..i])
        invariant FirstPasses(entries, i, now, m, blank)
      {
        var e := entries[i];
        PeekNamesStep(entries, i);
        var r := ResponseEntry(e.key, false, 0, 0, None);
        if e.peek {
          r := CheckPeek(e, now, m);
          names := names + {e.key};
        }
        FirstPassesStep(entries, i, now, m, blank, r);
        blank := blank + [r];
      }
      assert entries[..|entries|] == entries;
    }

    lemma ViewHolds()
      requires Valid()
      ensures Holds(View().View())
      ensures forall k :: k !in store.live ==> TatOf(View().View(), k) == 0
      ensures View().hot.Keys == store.hotKeys && View().cold.Keys == store.live.Keys - store.hotKeys
    {
    }

    /** What the store shows once a call's keys are hot and its commit is in place. */
    lemma ViewIsCall(g: Generations.Gens, now: int64, es: seq<RequestEntry>)
      requires Valid() && Holds(Commit(g.View(), now, es))
      requires g.hot.Keys !! g.cold.Keys
      requires forall k :: k in store.hotKeys <==> k in g.hot || k in Generations.Names(es)
      requires forall k :: k in store.live <==> k in g.hot || k in g.cold || k in Generations.Names(es)
      ensures View() == Generations.Call(g, now, es)
    {
      var after, c := Commit(g.View(), now, es), Generations.Call(g, now, es);
      assert View().hot == c.hot;
      forall k | k in g.cold && k !in Generations.Names(es)
        ensures TatOf(after, k) == g.cold[k]
      {
        CommitFrame(g.View(), now, es, k);
      }
      assert View().cold == c.cold;
    }

    /** One stripe's rotation, as a change of what the store shows. */
    method RotateStripe(i: nat)
      requires Valid() && i < |store.stripes|
      modifies store, store.stripes
      ensures Valid() && store.buckets == old(store.buckets)
      ensures View() == Generations.Rotate(old(View()), store.index, i)
    {
      ghost var g := View();
      store.RotateStripe(i);
      ViewIsRotate(g, i);
    }

    /** What the store shows once a stripe's hot keys are cold and its cold ones dropped. */
    lemma ViewIsRotate(g: Generations.Gens, i: nat)
      requires Valid() && Holds(g.View()) && g.hot.Keys !! g.cold.Keys
      requires forall k :: k in store.hotKeys <==> k in g.hot && store.index(k) != i
      requires forall k :: k in store.live <==> k in g.hot || (k in g.cold && store.index(k) != i)
      ensures View() == Generations.Rotate(g, store.index, i)
    {
      var v, r := View(), Generations.Rotate(g, store.index, i);
      ViewHolds();
      assert forall k :: k in v.hot <==> k in r.hot;
      assert forall k :: k in v.cold <==> k in r.cold;
      assert v.hot == r.hot;
      assert v.cold == r.cold;
    }

    /** One tick of the garbage collector: every stripe rotates, one after the other. What was
        hot is cold, what was cold is gone, and nothing is hot. */
    method GcTick()
      requires Valid()
      modifies store, store.stripes
      ensures Valid() && store.buckets == old(store.buckets)
      ensures View().hot == map[] && View().cold == old(View()).hot
    {
      ghost var g := View();
      for i := 0 to |store.stripes|
        invariant Valid() && store.buckets == old(store.buckets)
        invariant Ticked(g, View(), i)
      {
        ghost var before := View();
        RotateStripe(i);
        TickedNext(g, before, i);
      }
      assert forall k :: store.index(k) < |store.stripes|;
      assert View().hot == map[];
      assert View().cold == g.hot;
    }

    /** The first n stripes have rotated, the others have not. */
    ghost predicate Ticked(g: Generations.Gens, v: Generations.Gens, n: nat) {
      && (forall k :: k in v.hot <==> k in g.hot && store.index(k) >= n)
      && (forall k :: k in v.cold <==> if store.index(k) < n then k in g.hot else k in g.cold)
      && (forall k :: k in v.hot ==> v.hot[k] == g.hot[k])
      && (forall k :: k in v.cold ==> v.cold[k] == if store.index(k) < n then g.hot[k] else g.cold[k])
    }

    lemma TickedNext(g: Generations.Gens, v: Generations.Gens, n: nat)
      requires Ticked(g, v, n)
      ensures Ticked(g, Generations.Rotate(v, store.index, n), n + 1)
    {
    }

    /** One Throttle call. Nothing is evaluated once the caller's context is done; otherwise
        each peek is checked on its own and the Real entries as one transaction, and what is
        reported and what the store then holds are exactly what Reports and Call say. */
    method Throttle(done: bool, now: int64, entries: seq<RequestEntry>)
      returns (result: seq<ResponseEntry>, err: Option<Error>)
      requires Valid()
      modifies store, store.stripes, store.buckets
      ensures Valid() && fresh(store.buckets - old(store.buckets))
      ensures done ==> err == Some(ContextDone) && View() == old(View()) && |result| == |entries|
      ensures done ==> forall i :: 0 <= i < |entries| ==>
                result[i] == ResponseEntry(entries[i].key, true, 0, 0, Some(ContextDone))
      ensures !done ==> err == None && View() == Generations.Call(old(View()), now, entries)
      ensures !done ==> result == Reports(old(View()).View(), now, entries)
      ensures !done ==> var hot := View().hot; forall i :: 0 <= i < |entries| ==> entries[i].key in hot
      ensures !done && now >= 0 ==>
                var m := old(View()).View();
                forall i :: 0 <= i < |entries| ==>
                  var e := entries[i];
                  var l := Limit(e.limit.capacity,
                                 Rate(if e.limit.rate.units > 0 then e.limit.rate.units else 1, e.limit.rate.period));
                  var cost := if e.cost > 0 then e.cost else 1;
                  var tat := TatOf(if e.peek then m else Work(m, now, entries[..i]), e.key);
                  result[i] == ResponseEntry(e.key, !Admits(l, cost, tat, now), Remaining(l, cost, tat, now),
                                             RetryAfter(l, cost, tat, now), None)
    {
      if done {
        result := Refused(entries);
        err := Some(ContextDone);
        return;
      }
      ghost var m := View().View();
      err := None;
      result := Evaluated(now, entries);
      AllInFull(m, now, entries);
    }

    method Evaluated(now: int64, entries: seq<RequestEntry>) returns (result: seq<ResponseEntry>)
      requires Valid()
      modifies store, store.stripes, store.buckets
      ensures Valid() && fresh(store.buckets - old(store.buckets))
      ensures View() == Generations.Call(old(View()), now, entries)
      ensures result == Reports(old(View()).View(), now, entries)
    {
      ghost var g := View();
      ViewHolds();
      result := BothPasses(entries, now, g.View());
      ViewIsCall(g, now, entries);
    }

    /** The peeks, then the Real group. */
    method BothPasses(entries: seq<RequestEntry>, now: int64, ghost m: Tats) returns (result: seq<ResponseEntry>)
      requires Valid() && Holds(m) && forall k :: k !in store.live ==> TatOf(m, k) == 0
      modifies store, store.stripes, store.buckets
      ensures LookedUp(Generations.Names(entries), Commit(m, now, entries))
      ensures result == Reports(m, now, entries)
    {
      var blank := CheckPeeks(entries, now, m);
      result := EvaluateRealGroup(entries, now, blank, m);
      FilledIsReports(result, blank, m, now, entries);
      PeeksAndReals(entries);
    }
  }

  lemma AllInFull(m: Tats, now: int64, es: seq<RequestEntry>)
    ensures now >= 0 ==>
              forall i :: 0 <= i < |es| ==>
                var e := es[i];
                var l := Limit(e.limit.capacity,
                               Rate(if e.limit.rate.units > 0 then e.limit.rate.units else 1, e.limit.rate.period));
                var cost := if e.cost > 0 then e.cost else 1;
                var tat := TatOf(if e.peek then m else Work(m, now, es[..i]), e.key);
                Reports(m, now, es)[i]
                == ResponseEntry(e.key, !Admits(l, cost, tat, now), Remaining(l, cost, tat, now),
                                 RetryAfter(l, cost, tat, now), None)
  {
    if now >= 0 {
      forall i | 0 <= i < |es| {
        ReportsInFull(m, now, es, i);
      }
    }
  }

  lemma FilledIsReports(result: seq<ResponseEntry>, blank: seq<ResponseEntry>,
                        m: Tats, now: int64, es: seq<RequestEntry>)
    requires |result| == |blank| == |es| && Filled(result, blank, Reports(m, now, es), es, |es|)
    requires FirstPasses(es, |es|, now, m, blank)
    ensures result == Reports(m, now, es)
  {
    ReportsAt(m, now, es);
  }

  lemma PeeksAndReals(es: seq<RequestEntry>)
    ensures forall k :: k in Generations.Names(es) <==> k in PeekNames(es) || k in RealNames(es)
  {
  }

  /** An entry's slot after the first pass. */
  function FirstPass(e: RequestEntry, now: int64, m: Tats): ResponseEntry {
    if e.peek then Report(e, TatOf(m, e.key), now) else ResponseEntry(e.key, false, 0, 0, None)
  }

  ghost predicate FirstPasses(es: seq<RequestEntry>, n: nat, now: int64, m: Tats, blank: seq<ResponseEntry>)
    requires n <= |es|
  {
    |blank| == n && forall i :: 0 <= i < n ==> blank[i] == FirstPass(es[i], now, m)
  }

  lemma FirstPassesStep(es: seq<RequestEntry>, n: nat, now: int64, m: Tats, blank: seq<ResponseEntry>, r: ResponseEntry)
    requires n < |es| && FirstPasses(es, n, now, m, blank)
    requires r == if es[n].peek then Report(es[n], TatOf(m, es[n].key), now)
                  else ResponseEntry(es[n].key, false, 0, 0, None)
    ensures FirstPasses(es, n + 1, now, m, blank + [r])
  {
  }

  function PeekNames(es: seq<RequestEntry>): set<string> {
    set e | e in es && e.peek :: e.key
  }

  lemma PeekNamesStep(es: seq<RequestEntry>, i: nat)
    requires i < |es|
    ensures PeekNames(es[..i + 1]) == PeekNames(es[..i]) + if es[i].peek then {es[i].key} else {}
  {
    assert es[..i + 1] == es[..i] + [es[i]];
  }

  /** What every entry of a call reports when its context is already done. */
  function Refused(es: seq<RequestEntry>): (r: seq<ResponseEntry>)
    ensures |r| == |es|
  {
    seq(|es|, i requires 0 <= i < |es| => ResponseEntry(es[i].key, true, 0, 0, Some(ContextDone)))
  }
}

/** What one Throttle call means (server/throttling.go): every Real entry is checked
    against a working copy of the timestamps, and the copy is kept only if all admit. */
module Group {
  import opened Types
  import opened Gcra

  /** The timestamps of a store; a key it does not hold has an empty bucket. */
  type Tats = map<string, int64>

  function TatOf(m: Tats, key: string): int64 {
    if key in m then m[key] else 0
  }

  function CheckEntry(e: RequestEntry, tat: int64, now: int64): Verdict {
    GcraCheck(tat, now, e.limit.capacity, EffectiveUnits(e.limit.rate.units), e.limit.rate.period,
              EffectiveCost(e.cost))
  }

  function Report(e: RequestEntry, tat: int64, now: int64): ResponseEntry {
    var v := CheckEntry(e, tat, now);
    ResponseEntry(e.key, v.throttled, v.remaining, v.retryAfter, None)
  }

  /** The working timestamps after one more entry: peeks and throttled entries leave no trace. */
  function Advance(work: Tats, now: int64, e: RequestEntry): Tats {
    var v := CheckEntry(e, TatOf(work, e.key), now);
    if e.peek || v.throttled then work else work[e.key := v.tat]
  }

  /** The working timestamps once all of es have been checked in order. */
  function Work(pre: Tats, now: int64, es: seq<RequestEntry>): Tats {
    if es == [] then pre else Advance(Work(pre, now, es[..|es| - 1]), now, es[|es| - 1])
  }

  /** What entry i reports: a peek looks at the committed timestamps, a Real entry at the
      working ones left by the Real entries before it. */
  function ReportAt(pre: Tats, now: int64, es: seq<RequestEntry>, i: nat): ResponseEntry
    requires i < |es|
  {
    Report(es[i], TatOf(if es[i].peek then pre else Work(pre, now, es[..i]), es[i].key), now)
  }

  function Reports(pre: Tats, now: int64, es: seq<RequestEntry>): (r: seq<ResponseEntry>)
    ensures |r| == |es|
  {
    if es == [] then []
    else
      var front, e := es[..|es| - 1], es[|es| - 1];
      Reports(pre, now, front)
      + [Report(e, TatOf(if e.peek then pre else Work(pre, now, front), e.key), now)]
  }

  lemma FrontReport(pre: Tats, now: int64, es: seq<RequestEntry>, i: nat)
    requires i < |es| - 1
    ensures ReportAt(pre, now, es[..|es| - 1], i) == ReportAt(pre, now, es, i)
  {
    assert es[..|es| - 1][..i] == es[..i];
  }

  lemma {:induction false} ReportsAt(pre: Tats, now: int64, es: seq<RequestEntry>)
    ensures forall i :: 0 <= i < |es| ==> Reports(pre, now, es)[i] == ReportAt(pre, now, es, i)
  {
    if es != [] {
      var front := es[..|es| - 1];
      ReportsAt(pre, now, front);
      forall i | 0 <= i < |es|
        ensures Reports(pre, now, es)[i] == ReportAt(pre, now, es, i)
      {
        if i < |front| {
          assert Reports(pre, now, es)[i] == Reports(pre, now, front)[i] == ReportAt(pre, now, front, i);
          FrontReport(pre, now, es, i);
        }
      }
    }
  }

  /** What an entry reports, field by field. Its cost and the units of its rate count as 1
      unless they are positive; a peek is checked against the committed timestamp of its key, a
      Real entry against the working one. */
  lemma ReportsInFull(pre: Tats, now: int64, es: seq<RequestEntry>, i: nat)
    requires now >= 0 && i < |es|
    ensures var e := es[i];
            var l := Limit(e.limit.capacity,
                           Rate(if e.limit.rate.units > 0 then e.limit.rate.units else 1, e.limit.rate.period));
            var cost := if e.cost > 0 then e.cost else 1;
            var tat := TatOf(if e.peek then pre else Work(pre, now, es[..i]), e.key);
            var r := Reports(pre, now, es)[i];
            && r.key == e.key && r.err == None
            && r.throttled == !Admits(l, cost, tat, now)
            && r.remaining == Remaining(l, cost, tat, now)
            && r.retryAfter == RetryAfter(l, cost, tat, now)
  {
    ReportsAt(pre, now, es);
    FieldsOfReport(es[i], TatOf(if es[i].peek then pre else Work(pre, now, es[..i]), es[i].key), now);
  }

  lemma FieldsOfReport(e: RequestEntry, tat: int64, now: int64)
    requires now >= 0
    ensures var l := Limit(e.limit.capacity,
                           Rate(if e.limit.rate.units > 0 then e.limit.rate.units else 1, e.limit.rate.period));
            var cost := if e.cost > 0 then e.cost else 1;
            Report(e, tat, now)
            == ResponseEntry(e.key, !Admits(l, cost, tat, now), Remaining(l, cost, tat, now),
                             RetryAfter(l, cost, tat, now), None)
  {
    CheckMeetsSpec(tat, now, Normalized(e).limit, Normalized(e).cost);
  }

  /** The working timestamps, entry by entry: a Real entry that has room for its cost moves its
      own key's by that cost, from now on if the bucket was empty; nothing else moves. */
  lemma WorkInFull(pre: Tats, now: int64, es: seq<RequestEntry>, i: nat, key: string)
    requires now >= 0 && i < |es|
    ensures var e, before := es[i], TatOf(Work(pre, now, es[..i]), key);
            var l := Limit(e.limit.capacity,
                           Rate(if e.limit.rate.units > 0 then e.limit.rate.units else 1, e.limit.rate.period));
            var cost := if e.cost > 0 then e.cost else 1;
            TatOf(Work(pre, now, es[..i + 1]), key)
            == if !e.peek && e.key == key && Admits(l, cost, before, now)
               then (if before > now then before else now) + CostNs(l, cost) else before
    ensures Work(pre, now, es[..0]) == pre
  {
    assert es[..i + 1][..i] == es[..i];
    AdvanceOnKey(Work(pre, now, es[..i]), now, es[i], key);
    CheckMeetsSpec(TatOf(Work(pre, now, es[..i]), key), now, Normalized(es[i]).limit, Normalized(es[i]).cost);
  }

  predicate AllAdmit(pre: Tats, now: int64, es: seq<RequestEntry>) {
    forall i :: 0 <= i < |es| && !es[i].peek ==> !ReportAt(pre, now, es, i).throttled
  }

  /** The committed timestamps after the call: all or none. */
  function Commit(pre: Tats, now: int64, es: seq<RequestEntry>): Tats {
    if AllAdmit(pre, now, es) then Work(pre, now, es) else pre
  }

  /** A group that admits does so entry by entry. */
  lemma AdmitFront(m: Tats, now: int64, es: seq<RequestEntry>)
    requires es != [] && AllAdmit(m, now, es)
    ensures AllAdmit(m, now, es[..|es| - 1])
    ensures var e := es[|es| - 1];
            !e.peek ==> !CheckEntry(e, TatOf(Work(m, now, es[..|es| - 1]), e.key), now).throttled
  {
    var n := |es| - 1;
    forall i | 0 <= i < n && !es[..n][i].peek
      ensures !ReportAt(m, now, es[..n], i).throttled
    {
      assert es[..n][..i] == es[..i] && !ReportAt(m, now, es, i).throttled;
    }
    assert !es[n].peek ==> !ReportAt(m, now, es, n).throttled;
  }

  /** A call changes only the timestamps of its Real entries' keys. */
  lemma {:induction false} WorkFrame(pre: Tats, now: int64, es: seq<RequestEntry>, key: string)
    requires forall e :: e in es && !e.peek ==> e.key != key
    ensures TatOf(Work(pre, now, es), key) == TatOf(pre, key)
  {
    if es != [] {
      var front := es[..|es| - 1];
      assert es[|es| - 1] in es;
      WorkFrame(pre, now, front, key);
    }
  }

  lemma CommitFrame(pre: Tats, now: int64, es: seq<RequestEntry>, key: string)
    requires forall e :: e in es && !e.peek ==> e.key != key
    ensures TatOf(Commit(pre, now, es), key) == TatOf(pre, key)
  {
    WorkFrame(pre, now, es, key);
  }

  // ------------------------------------------- a group is a run of single calls

  /** The same entries sent one call at a time, all at the same instant. */
  function OneByOne(pre: Tats, now: int64, es: seq<RequestEntry>): Tats {
    if es == [] then pre else Commit(OneByOne(pre, now, es[..|es| - 1]), now, [es[|es| - 1]])
  }

  lemma {:induction false} WorkIsOneByOne(pre: Tats, now: int64, es: seq<RequestEntry>)
    ensures Work(pre, now, es) == OneByOne(pre, now, es)
  {
    if es != [] {
      var front, e := es[..|es| - 1], es[|es| - 1];
      WorkIsOneByOne(pre, now, front);
      SingleCall(Work(pre, now, front), now, e);
    }
  }

  lemma SingleCall(pre: Tats, now: int64, e: RequestEntry)
    ensures Commit(pre, now, [e]) == Advance(pre, now, e)
    ensures Reports(pre, now, [e])[0] == Report(e, TatOf(pre, e.key), now)
  {
    assert [e][..0] == [];
    ReportsAt(pre, now, [e]);
    assert ReportAt(pre, now, [e], 0) == Report(e, TatOf(pre, e.key), now);
    assert Work(pre, now, [e]) == Advance(Work(pre, now, [e][..0]), now, e);
  }

  /** A Real entry reports what it would report as a call of its own after the entries
      before it, and the call leaves what those calls would leave if none was throttled,
      else nothing. */
  lemma GroupIsOneByOne(pre: Tats, now: int64, es: seq<RequestEntry>)
    ensures forall i :: 0 <= i < |es| && !es[i].peek ==>
              Reports(pre, now, es)[i] == Reports(OneByOne(pre, now, es[..i]), now, [es[i]])[0]
    ensures Commit(pre, now, es) ==
            if (exists i :: 0 <= i < |es| && !es[i].peek && Reports(pre, now, es)[i].throttled)
            then pre else OneByOne(pre, now, es)
  {
    ReportsAt(pre, now, es);
    forall i | 0 <= i < |es| && !es[i].peek
      ensures Reports(pre, now, es)[i] == Reports(OneByOne(pre, now, es[..i]), now, [es[i]])[0]
    {
      WorkIsOneByOne(pre, now, es[..i]);
      SingleCall(Work(pre, now, es[..i]), now, es[i]);
    }
    WorkIsOneByOne(pre, now, es);
  }

  // ------------------------------------------------ only per-key order matters

  /** The Real entries on one key, in order. */
  function OnKey(es: seq<RequestEntry>, key: string): seq<RequestEntry> {
    if es == [] then []
    else OnKey(es[..|es| - 1], key)
         + (var e := es[|es| - 1]; if e.peek || e.key != key then [] else [e])
  }

  /** One key's timestamp carried through its own entries. */
  function Chain(tat: int64, now: int64, es: seq<RequestEntry>): int64 {
    if es == [] then tat
    else CheckEntry(es[|es| - 1], Chain(tat, now, es[..|es| - 1]), now).tat
  }

  lemma AdvanceOnKey(work: Tats, now: int64, e: RequestEntry, key: string)
    ensures TatOf(Advance(work, now, e), key)
            == if e.peek || e.key != key then TatOf(work, key) else CheckEntry(e, TatOf(work, key), now).tat
  {
  }

  lemma {:induction false} WorkOnKey(pre: Tats, now: int64, es: seq<RequestEntry>, key: string)
    ensures TatOf(Work(pre, now, es), key) == Chain(TatOf(pre, key), now, OnKey(es, key))
  {
    if es != [] {
      var front, e := es[..|es| - 1], es[|es| - 1];
      WorkOnKey(pre, now, front, key);
      AdvanceOnKey(Work(pre, now, front), now, e, key);
      if e.peek || e.key != key {
        assert OnKey(es, key) == OnKey(front, key);
      } else {
        assert OnKey(es, key) == OnKey(front, key) + [e];
        assert OnKey(es, key)[..|OnKey(es, key)| - 1] == OnKey(front, key);
      }
    }
  }

  lemma {:induction false} OnKeyPrefix(es: seq<RequestEntry>, key: string, i: nat)
    requires i <= |es|
    ensures OnKey(es[..i], key) <= OnKey(es, key)
    ensures i < |es| && !es[i].peek && es[i].key == key ==>
              |OnKey(es[..i], key)| < |OnKey(es, key)| && OnKey(es, key)[|OnKey(es[..i], key)|] == es[i]
  {
    if i < |es| {
      var front := es[..|es| - 1];
      assert front[..i] == es[..i];
      OnKeyPrefix(front, key, i);
    } else {
      assert es[..i] == es;
    }
  }

  /** The entry that comes r-th among the Real entries on a key. */
  lemma {:induction false} FindOnKey(es: seq<RequestEntry>, key: string, r: nat) returns (i: nat)
    requires r < |OnKey(es, key)|
    ensures i < |es| && !es[i].peek && es[i].key == key && |OnKey(es[..i], key)| == r
  {
    var front := es[..|es| - 1];
    if r < |OnKey(front, key)| {
      i := FindOnKey(front, key, r);
      assert front[..i] == es[..i];
    } else {
      i := |es| - 1;
    }
  }

  /** Two Real entries that come equally far down on the same key report alike. */
  lemma SameRankSameReport(pre: Tats, now: int64, es: seq<RequestEntry>, fs: seq<RequestEntry>, i: nat, j: nat)
    requires i < |es| && j < |fs| && !es[i].peek && !fs[j].peek && es[i].key == fs[j].key
    requires OnKey(es, es[i].key) == OnKey(fs, es[i].key)
    requires |OnKey(es[..i], es[i].key)| == |OnKey(fs[..j], es[i].key)|
    ensures es[i] == fs[j] && ReportAt(pre, now, es, i) == ReportAt(pre, now, fs, j)
  {
    var key := es[i].key;
    OnKeyPrefix(es, key, i);
    OnKeyPrefix(fs, key, j);
    assert OnKey(es[..i], key) == OnKey(fs[..j], key);
    WorkOnKey(pre, now, es[..i], key);
    WorkOnKey(pre, now, fs[..j], key);
  }

  lemma AdmitsInAnyOrder(pre: Tats, now: int64, es: seq<RequestEntry>, fs: seq<RequestEntry>)
    requires forall key :: OnKey(es, key) == OnKey(fs, key)
    requires AllAdmit(pre, now, es)
    ensures AllAdmit(pre, now, fs)
  {
    forall j | 0 <= j < |fs| && !fs[j].peek
      ensures !ReportAt(pre, now, fs, j).throttled
    {
      var key := fs[j].key;
      OnKeyPrefix(fs, key, j);
      var i := FindOnKey(es, key, |OnKey(fs[..j], key)|);
      SameRankSameReport(pre, now, es, fs, i, j);
    }
  }

  /** Reordering a call without reordering the Real entries of any one key changes no
      report (entries correspond by key and rank, or are the same peek) and no timestamp. */
  lemma OrderAcrossKeysIsIrrelevant(pre: Tats, now: int64, es: seq<RequestEntry>, fs: seq<RequestEntry>)
    requires forall key :: OnKey(es, key) == OnKey(fs, key)
    ensures AllAdmit(pre, now, es) <==> AllAdmit(pre, now, fs)
    ensures forall key :: TatOf(Commit(pre, now, es), key) == TatOf(Commit(pre, now, fs), key)
    ensures forall i, j :: && 0 <= i < |es| && 0 <= j < |fs| && !es[i].peek && !fs[j].peek
                           && es[i].key == fs[j].key
                           && |OnKey(es[..i], es[i].key)| == |OnKey(fs[..j], es[i].key)|
                           ==> es[i] == fs[j] && Reports(pre, now, es)[i] == Reports(pre, now, fs)[j]
    ensures forall i, j :: 0 <= i < |es| && 0 <= j < |fs| && es[i].peek && es[i] == fs[j] ==>
              Reports(pre, now, es)[i] == Reports(pre, now, fs)[j]
  {
    ReportsAt(pre, now, es);
    ReportsAt(pre, now, fs);
    if AllAdmit(pre, now, es) {
      AdmitsInAnyOrder(pre, now, es, fs);
    } else if AllAdmit(pre, now, fs) {
      AdmitsInAnyOrder(pre, now, fs, es);
    }
    forall key
      ensures TatOf(Work(pre, now, es), key) == TatOf(Work(pre, now, fs), key)
    {
      WorkOnKey(pre, now, es, key);
      WorkOnKey(pre, now, fs, key);
    }
    forall i, j | && 0 <= i < |es| && 0 <= j < |fs| && !es[i].peek && !fs[j].peek
                  && es[i].key == fs[j].key
                  && |OnKey(es[..i], es[i].key)| == |OnKey(fs[..j], es[i].key)|
      ensures es[i] == fs[j] && ReportAt(pre, now, es, i) == ReportAt(pre, now, fs, j)
    {
      SameRankSameReport(pre, now, es, fs, i, j);
    }
  }

  // ------------------------------------------------ only the named keys matter

  ghost predicate AgreeOn(m: Tats, n: Tats, keys: set<string>) {
    forall k :: k in keys ==> TatOf(m, k) == TatOf(n, k)
  }

  lemma {:induction false} LocalWork(m: Tats, n: Tats, now: int64, es: seq<RequestEntry>, keys: set<string>)
    requires AgreeOn(m, n, keys) && forall e :: e in es ==> e.key in keys
    ensures AgreeOn(Work(m, now, es), Work(n, now, es), keys)
    ensures Reports(m, now, es) == Reports(n, now, es)
  {
    if es != [] {
      var front, e := es[..|es| - 1], es[|es| - 1];
      assert e in es;
      LocalWork(m, n, now, front, keys);
      forall k | k in keys
        ensures TatOf(Work(m, now, es), k) == TatOf(Work(n, now, es), k)
      {
        AdvanceOnKey(Work(m, now, front), now, e, k);
        AdvanceOnKey(Work(n, now, front), now, e, k);
      }
    }
  }

  /** What a call reports and commits depends only on the timestamps of the keys it names. */
  lemma LocalCall(m: Tats, n: Tats, now: int64, es: seq<RequestEntry>, keys: set<string>)
    requires AgreeOn(m, n, keys) && forall e :: e in es ==> e.key in keys
    ensures Reports(m, now, es) == Reports(n, now, es)
    ensures AllAdmit(m, now, es) <==> AllAdmit(n, now, es)
    ensures AgreeOn(Commit(m, now, es), Commit(n, now, es), keys)
  {
    LocalWork(m, n, now, es, keys);
    ReportsAt(m, now, es);
    ReportsAt(n, now, es);
  }
}

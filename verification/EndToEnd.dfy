/** A client's whole call on a shard (client/conn.go, throttle over exchange): its own checks,
    the breaker, the wire and the server, against the same call on an embedded throttler, for
    every batch of entries. */
module EndToEnd {
  import opened Types
  import opened Gcra
  import opened Group
  import opened Codec
  import opened Lines
  import opened Positions
  import opened TextServer
  import opened Wire
  import opened ShardConn
  import Breaker
  import Generations

  // ----------------------------------------------------- what the caller gets

  /** The results of a call, let through or not, given what the network came back with. */
  function ClientAnswer(es: seq<RequestEntry>, granted: bool, failOpen: bool, net: Option<seq<ResponseEntry>>)
    : (r: seq<ResponseEntry>)
    ensures |r| == |es|
  {
    seq(|es|, i requires 0 <= i < |es| =>
      if !ValidKey(es[i].key) then ResponseEntry(es[i].key, true, 0, 0, Some(InvalidKey))
      else if !granted then ResponseEntry(es[i].key, !failOpen, 0, 0, Some(CircuitOpen))
      else if net.None? || Rank(KeyOk(es), i) >= |net.value| then
        ResponseEntry(es[i].key, !failOpen, 0, 0, Some(BadResponse))
      else net.value[Rank(KeyOk(es), i)])
  }

  lemma {:induction false} AllKeysValid(es: seq<RequestEntry>)
    requires ValidKeys(es)
    ensures ValidOnes(es) == es
  {
    if es != [] {
      AllKeysValid(es[..|es| - 1]);
    }
  }

  lemma EveryAnswerInPlace(es: seq<RequestEntry>, failOpen: bool, answers: seq<ResponseEntry>)
    requires ValidKeys(es) && |answers| == |es|
    ensures ClientAnswer(es, true, failOpen, Some(answers)) == answers
  {
    forall i | 0 <= i < |es| {
      AllOk(KeyOk(es), i);
    }
  }

  /** A refusal is no report. */
  lemma RefusedSomewhere(m: Tats, now: int64, es: seq<RequestEntry>, r: seq<ResponseEntry>, i: nat)
    requires i < |es| == |r| && r[i].err.Some?
    ensures r != Reports(m, now, es)
  {
    ReportsGenuine(m, now, es);
  }

  /** The client's call returns what an embedded call reports exactly if it has no entries, or
      the breaker lets it through, its keys are valid, it names no negative capacity and no
      negative period, and its line is within the server's bound. */
  lemma ClientIsEmbedded(m: Tats, now: int64, es: seq<RequestEntry>, granted: bool, failOpen: bool, maxLineSize: int)
    ensures ClientAnswer(es, granted, failOpen, NetworkResult(m, now, ValidOnes(es), maxLineSize))
            == Reports(m, now, es)
            <==> es == [] || (granted && ValidKeys(es) && AllCarried(es) && Fits(es, maxLineSize))
  {
    var net := NetworkResult(m, now, ValidOnes(es), maxLineSize);
    var r := ClientAnswer(es, granted, failOpen, net);
    if !ValidKeys(es) {
      var i :| 0 <= i < |es| && !ValidKey(es[i].key);
      RefusedSomewhere(m, now, es, r, i);
    } else if es != [] {
      AllKeysValid(es);
      if !granted || net.None? {
        RefusedSomewhere(m, now, es, r, 0);
      } else {
        OutcomeLength(es, Reports(m, now, Sent(es)));
        EveryAnswerInPlace(es, failOpen, net.value);
        NetworkIsEmbedded(m, now, es, maxLineSize);
      }
    }
  }

  // --------------------------------------------------- each answer, field by field

  lemma {:induction false} ValidPrefix(es: seq<RequestEntry>, i: nat)
    requires i < |es| && ValidKey(es[i].key)
    ensures var k := |ValidOnes(es[..i])|;
            k < |ValidOnes(es)| && ValidOnes(es)[k] == es[i] && ValidOnes(es)[..k] == ValidOnes(es[..i])
  {
    var n := |es| - 1;
    if i < n {
      ValidPrefix(es[..n], i);
      assert es[..n][..i] == es[..i];
    }
  }

  lemma {:induction false} ValidRank(es: seq<RequestEntry>, i: nat)
    requires i <= |es|
    ensures Rank(KeyOk(es), i) == |ValidOnes(es[..i])|
  {
    if i > 0 {
      ValidRank(es, i - 1);
      assert es[..i][..i - 1] == es[..i - 1];
    }
  }

  lemma {:induction false} SentPrefix(es: seq<RequestEntry>, i: nat)
    requires i < |es| && Carried(es[i])
    ensures var k := |Sent(es[..i])|;
            k < |Sent(es)| && Sent(es)[k] == Normalized(es[i]) && Sent(es)[..k] == Sent(es[..i])
  {
    var n := |es| - 1;
    if i < n {
      SentPrefix(es[..n], i);
      assert es[..n][..i] == es[..i];
    }
  }

  lemma {:induction false} OutcomeAt(es: seq<RequestEntry>, reports: seq<ResponseEntry>, i: nat)
    requires |reports| == |Sent(es)| && i < |es|
    ensures |Outcome(es, reports)| == |es|
    ensures if Carried(es[i]) then |Sent(es[..i])| < |reports| && Outcome(es, reports)[i] == reports[|Sent(es[..i])|]
            else Outcome(es, reports)[i] == ResponseEntry(es[i].key, true, 0, 0, Some(EntryRejected))
  {
    var n := |es| - 1;
    OutcomeLength(es, reports);
    if i < n {
      OutcomeAt(es[..n], reports[..|Sent(es[..n])|], i);
      assert es[..n][..i] == es[..i];
    }
  }

  /** A served entry is answered with its own report. */
  lemma ServedReport(m: Tats, now: int64, es: seq<RequestEntry>, failOpen: bool, maxLineSize: int, i: nat)
    requires i < |es| && ValidKey(es[i].key) && Carried(es[i]) && Fits(ValidOnes(es), maxLineSize)
    ensures var sent, k := Sent(ValidOnes(es)), |Sent(ValidOnes(es[..i]))|;
            && k < |sent| && sent[k] == Normalized(es[i]) && sent[..k] == Sent(ValidOnes(es[..i]))
            && ClientAnswer(es, true, failOpen, NetworkResult(m, now, ValidOnes(es), maxLineSize))[i]
               == Reports(m, now, sent)[k]
  {
    var valid, j := ValidOnes(es), |ValidOnes(es[..i])|;
    ValidPrefix(es, i);
    ValidRank(es, i);
    SentPrefix(valid, j);
    OutcomeAt(valid, Reports(m, now, Sent(valid)), j);
  }

  /** Such an entry is checked against the committed timestamp of its key or, if it is Real, the
      one that the entries served before it leave; its cost and its units count as 1 unless they
      are positive. */
  lemma AnswerInFull(m: Tats, now: int64, es: seq<RequestEntry>, failOpen: bool, maxLineSize: int, i: nat)
    requires now >= 0 && i < |es| && ValidKey(es[i].key) && Fits(ValidOnes(es), maxLineSize)
    requires es[i].limit.capacity >= 0 && es[i].limit.rate.period >= 0
    ensures var e := es[i];
            var l := Limit(e.limit.capacity,
                           Rate(if e.limit.rate.units > 0 then e.limit.rate.units else 1, e.limit.rate.period));
            var cost := if e.cost > 0 then e.cost else 1;
            var tat := TatOf(if e.peek then m else Work(m, now, Sent(ValidOnes(es[..i]))), e.key);
            ClientAnswer(es, true, failOpen, NetworkResult(m, now, ValidOnes(es), maxLineSize))[i]
            == ResponseEntry(e.key, !Admits(l, cost, tat, now), Remaining(l, cost, tat, now),
                             RetryAfter(l, cost, tat, now), None)
  {
    ServedReport(m, now, es, failOpen, maxLineSize, i);
    ReportsInFull(m, now, Sent(ValidOnes(es)), |Sent(ValidOnes(es[..i]))|);
  }

  /** Any other is refused. One with a bad key is throttled, whatever becomes of the others. If
      the breaker refuses the call, or its line is over the server's bound, the caller's policy
      decides. One with a negative capacity or period is rejected by the server, as throttled. */
  lemma RefusalInFull(m: Tats, now: int64, es: seq<RequestEntry>, asks: bool, failOpen: bool, maxLineSize: int,
                      i: nat)
    requires i < |es|
    ensures var e := es[i];
            var net := NetworkResult(m, now, ValidOnes(es), maxLineSize);
            var r := ClientAnswer(es, ValidOnes(es) != [] && asks, failOpen, net)[i];
            if !ValidKey(e.key) then r == ResponseEntry(e.key, true, 0, 0, Some(InvalidKey))
            else if !asks then r == ResponseEntry(e.key, !failOpen, 0, 0, Some(CircuitOpen))
            else if |Utf8(Request(ValidOnes(es)) + "\n")| > maxLineSize then
              r == ResponseEntry(e.key, !failOpen, 0, 0, Some(BadResponse))
            else if e.limit.capacity < 0 || e.limit.rate.period < 0 then
              r == ResponseEntry(e.key, true, 0, 0, Some(EntryRejected))
            else r.key == e.key && r.err == None
  {
    var valid := ValidOnes(es);
    Utf8Append(Request(valid), "\n");
    AsciiSize("\n");
    if ValidKey(es[i].key) {
      ValidOnesHas(es, i);
    }
    if ValidKey(es[i].key) && asks && Fits(valid, maxLineSize) {
      if Carried(es[i]) {
        ServedReport(m, now, es, failOpen, maxLineSize, i);
        ReportsGenuine(m, now, Sent(valid));
      } else {
        ValidPrefix(es, i);
        ValidRank(es, i);
        OutcomeAt(valid, Reports(m, now, Sent(valid)), |ValidOnes(es[..i])|);
      }
    }
  }

  // -------------------------------------------------------- what the store keeps

  function ClientServed(g: Generations.Gens, now: int64, es: seq<RequestEntry>, granted: bool, maxLineSize: int)
    : Generations.Gens
  {
    if granted then NetworkServed(g, now, ValidOnes(es), maxLineSize) else g
  }

  /** Every Real entry reaches the server's throttler if the line does. */
  predicate RealsSent(es: seq<RequestEntry>) {
    forall i :: 0 <= i < |es| && !es[i].peek ==> ValidKey(es[i].key) && Carried(es[i])
  }

  lemma SentAppend(es: seq<RequestEntry>, e: RequestEntry)
    ensures Sent(es + [e]) == Sent(es) + if Carried(e) then [Normalized(e)] else []
  {
    assert (es + [e])[..|es|] == es;
  }

  lemma NextSent(es: seq<RequestEntry>)
    requires es != []
    ensures var front, e := es[..|es| - 1], es[|es| - 1];
            Sent(ValidOnes(es))
            == if ValidKey(e.key) && Carried(e) then Sent(ValidOnes(front)) + [Normalized(e)]
               else Sent(ValidOnes(front))
  {
    var front, e := es[..|es| - 1], es[|es| - 1];
    SentAppend(ValidOnes(front), e);
    assert ValidOnes(es) == if ValidKey(e.key) then ValidOnes(front) + [e] else ValidOnes(front);
  }

  /** Then the entries sent differ from the call in peeks only. */
  lemma {:induction false} SentOnKey(es: seq<RequestEntry>, key: string)
    requires RealsSent(es)
    ensures OnKey(Sent(ValidOnes(es)), key) == OnKey(NormalizedAll(es), key)
  {
    if es != [] {
      var front, e := es[..|es| - 1], es[|es| - 1];
      SentOnKey(front, key);
      OnKeyAppend(NormalizedAll(front), Normalized(e), key);
      NextSent(es);
      if ValidKey(e.key) && Carried(e) {
        OnKeyAppend(Sent(ValidOnes(front)), Normalized(e), key);
      }
    }
  }

  lemma AllRealsAgree(m: Tats, now: int64, es: seq<RequestEntry>)
    requires RealsSent(es)
    ensures SameTats(Commit(m, now, es), Commit(m, now, Sent(ValidOnes(es))))
  {
    forall key
      ensures OnKey(Sent(ValidOnes(es)), key) == OnKey(NormalizedAll(es), key)
    {
      SentOnKey(es, key);
    }
    OrderAcrossKeysIsIrrelevant(m, now, Sent(ValidOnes(es)), NormalizedAll(es));
    NormalizedCommit(m, now, es);
  }

  lemma {:induction false} SentKeysValid(es: seq<RequestEntry>)
    ensures forall e :: e in Sent(ValidOnes(es)) ==> ValidKey(e.key)
  {
    if es != [] {
      var front, e := es[..|es| - 1], es[|es| - 1];
      SentKeysValid(front);
      NextSent(es);
    }
  }

  /** A group that commits although a Real entry of it is not sent has a bad key, and moves the
      timestamp of that key, which no request can. */
  lemma BadKeyMoves(m: Tats, now: int64, es: seq<RequestEntry>)
    requires now >= 0 && !RealsSent(es) && AllAdmit(m, now, es)
    ensures !SameTats(Commit(m, now, es), Commit(m, now, Sent(ValidOnes(es))))
  {
    var i :| 0 <= i < |es| && !es[i].peek && !(ValidKey(es[i].key) && Carried(es[i]));
    if !RealsCarried(es) {
      NegativeLimitBlocks(m, now, es);
    }
    var key := es[i].key;
    OnKeyPrefix(es, key, i);
    WorkMoves(m, now, es, key);
    SentKeysValid(es);
    CommitFrame(m, now, Sent(ValidOnes(es)), key);
  }

  /** The client's call leaves the timestamps that the embedded call would leave exactly if, with
      its line served, every Real entry is sent, or the embedded call changes nothing and
      neither do the entries sent; and with its line not served, if the embedded call changes
      nothing. */
  lemma ClientStoresAsEmbedded(g: Generations.Gens, now: int64, es: seq<RequestEntry>, granted: bool, maxLineSize: int)
    requires now >= 0 && g.hot.Keys !! g.cold.Keys
    ensures var m, sent := g.View(), Sent(ValidOnes(es));
            SameTats(Commit(m, now, es), ClientServed(g, now, es, granted, maxLineSize).View())
            <==> if granted && Fits(ValidOnes(es), maxLineSize) then
                   RealsSent(es) || (!AllAdmit(m, now, es) && (!AllAdmit(m, now, sent) || !HasReal(sent)))
                 else !AllAdmit(m, now, es) || !HasReal(es)
  {
    var m, sent := g.View(), Sent(ValidOnes(es));
    ServedTats(g, now, sent);
    CommitsNothing(m, now, es);
    CommitsNothing(m, now, sent);
    if RealsSent(es) {
      AllRealsAgree(m, now, es);
    } else if AllAdmit(m, now, es) {
      BadKeyMoves(m, now, es);
    }
  }

  // ----------------------------------------------------------------- the call

  /** How the exchange ends, told by what the network came back with. */
  function EndingOf(net: Option<seq<ResponseEntry>>): Ending {
    if net.Some? then Delivered(net.value) else Aborted(BadResponse)
  }

  lemma {:induction false} ValidOnesAreValid(es: seq<RequestEntry>)
    ensures ValidKeys(ValidOnes(es))
  {
    if es != [] {
      ValidOnesAreValid(es[..|es| - 1]);
    }
  }

  lemma NetworkLength(m: Tats, now: int64, es: seq<RequestEntry>, maxLineSize: int)
    ensures var net := NetworkResult(m, now, es, maxLineSize); net.Some? ==> |net.value| == |es|
  {
    OutcomeLength(es, Reports(m, now, Sent(es)));
  }

  /** What the checks, the breaker and the exchange make of the results is the answer. */
  lemma IsAnswer(results: seq<ResponseEntry>, es: seq<RequestEntry>, granted: bool, failOpen: bool,
                 net: Option<seq<ResponseEntry>>)
    requires BadKeysRefused(results, es)
    requires !granted ==> ValidOnes(es) == [] || OthersRefused(results, es, !failOpen, CircuitOpen)
    requires granted ==> Settled(results, es, failOpen, EndingOf(net))
    ensures results == ClientAnswer(es, granted, failOpen, net)
  {
    forall i | 0 <= i < |es|
      ensures results[i] == ClientAnswer(es, granted, failOpen, net)[i]
    {
      if ValidKey(es[i].key) && !granted {
        ValidOnesHas(es, i);
      }
    }
  }

  lemma {:induction false} ValidOnesHas(es: seq<RequestEntry>, i: nat)
    requires i < |es| && ValidKey(es[i].key)
    ensures ValidOnes(es) != []
  {
    if i < |es| - 1 {
      ValidOnesHas(es[..|es| - 1], i);
    }
  }

  /** One call of the client, from its checks to its results, on a connection that carries it
      and with no other call on the breaker meanwhile. */
  method ClientCall(conn: ShardConn, server: TextServer, entries: seq<RequestEntry>, failOpen: bool,
                    cut: seq<byte> -> seq<Fragment>, asked: int64, now: int64, later: int64, uptime: int64)
    returns (results: seq<ResponseEntry>, errs: seq<Error>)
    requires conn.Valid(0) && server.throttler.Valid()
    requires var line := Utf8(Request(ValidOnes(entries)) + "\n"); Cuts(cut(line), line)
    modifies conn.breaker, server.throttler.store, server.throttler.store.stripes, server.throttler.store.buckets
    ensures server.throttler.Valid()
    ensures var granted := ValidOnes(entries) != [] && old(conn.LetsThrough(asked));
            var net := NetworkResult(old(server.throttler.View()).View(), now, ValidOnes(entries), server.maxLineSize);
            && results == ClientAnswer(entries, granted, failOpen, net)
            && server.throttler.View()
               == ClientServed(old(server.throttler.View()), now, entries, granted, server.maxLineSize)
            && conn.WentThrough(old(conn.BreakerState()),
                                if ValidOnes(entries) == [] then [] else Told(granted, asked, [], later, EndingOf(net)))
    ensures |results| == |entries|
    ensures forall i :: 0 <= i < |entries| ==>
              var e := entries[i];
              if !ValidKey(e.key) then results[i] == ResponseEntry(e.key, true, 0, 0, Some(InvalidKey))
              else if !old(conn.LetsThrough(asked)) then
                results[i] == ResponseEntry(e.key, !failOpen, 0, 0, Some(CircuitOpen))
              else if |Utf8(Request(ValidOnes(entries)) + "\n")| > server.maxLineSize then
                results[i] == ResponseEntry(e.key, !failOpen, 0, 0, Some(BadResponse))
              else if e.limit.capacity < 0 || e.limit.rate.period < 0 then
                results[i] == ResponseEntry(e.key, true, 0, 0, Some(EntryRejected))
              else results[i].key == e.key && results[i].err == None
  {
    ghost var m, asks := server.throttler.View().View(), conn.LetsThrough(asked);
    results, errs := Call(conn, server, entries, failOpen, cut, asked, now, later, uptime);
    AllRefusalsInFull(results, m, now, entries, asks, failOpen, server.maxLineSize);
  }

  lemma AllRefusalsInFull(results: seq<ResponseEntry>, m: Tats, now: int64, es: seq<RequestEntry>, asks: bool,
                          failOpen: bool, maxLineSize: int)
    requires results == ClientAnswer(es, ValidOnes(es) != [] && asks, failOpen,
                                     NetworkResult(m, now, ValidOnes(es), maxLineSize))
    ensures forall i :: 0 <= i < |es| ==>
              var e := es[i];
              if !ValidKey(e.key) then results[i] == ResponseEntry(e.key, true, 0, 0, Some(InvalidKey))
              else if !asks then results[i] == ResponseEntry(e.key, !failOpen, 0, 0, Some(CircuitOpen))
              else if |Utf8(Request(ValidOnes(es)) + "\n")| > maxLineSize then
                results[i] == ResponseEntry(e.key, !failOpen, 0, 0, Some(BadResponse))
              else if e.limit.capacity < 0 || e.limit.rate.period < 0 then
                results[i] == ResponseEntry(e.key, true, 0, 0, Some(EntryRejected))
              else results[i].key == e.key && results[i].err == None
  {
    forall i | 0 <= i < |es| {
      RefusalInFull(m, now, es, asks, failOpen, maxLineSize, i);
    }
  }

  /** The checks, the exchange and the record, one after the other. */
  method Call(conn: ShardConn, server: TextServer, entries: seq<RequestEntry>, failOpen: bool,
              cut: seq<byte> -> seq<Fragment>, asked: int64, now: int64, later: int64, uptime: int64)
    returns (results: seq<ResponseEntry>, errs: seq<Error>)
    requires conn.Valid(0) && server.throttler.Valid()
    requires var line := Utf8(Request(ValidOnes(entries)) + "\n"); Cuts(cut(line), line)
    modifies conn.breaker, server.throttler.store, server.throttler.store.stripes, server.throttler.store.buckets
    ensures server.throttler.Valid()
    ensures var granted := ValidOnes(entries) != [] && old(conn.LetsThrough(asked));
            var net := NetworkResult(old(server.throttler.View()).View(), now, ValidOnes(entries), server.maxLineSize);
            && results == ClientAnswer(entries, granted, failOpen, net)
            && server.throttler.View()
               == ClientServed(old(server.throttler.View()), now, entries, granted, server.maxLineSize)
            && conn.WentThrough(old(conn.BreakerState()),
                                if ValidOnes(entries) == [] then [] else Told(granted, asked, [], later, EndingOf(net)))
  {
    ghost var s := conn.BreakerState();
    ghost var net := NetworkResult(server.throttler.View().View(), now, ValidOnes(entries), server.maxLineSize);
    var validEntries: seq<RequestEntry>, validIdx: seq<nat>, granted: bool;
    results, validEntries, validIdx, errs, granted := conn.Admit(entries, failOpen, asked);
    if !granted {
      IsAnswer(results, entries, granted, failOpen, net);
      return;
    }
    results, errs := Exchange(conn, server, entries, results, validEntries, validIdx, errs, failOpen, cut,
                              now, later, uptime);
    IsAnswer(results, entries, granted, failOpen, net);
    Breaker.RunOn(s, [Breaker.Event.Allow(asked)], Recorded(later, EndingOf(net)),
                  conn.breaker.failureThreshold, conn.breaker.openDuration);
    assert [Breaker.Event.Allow(asked)] + [] == [Breaker.Event.Allow(asked)];
  }

  /** The exchange of a call that was let through, and what comes of it. */
  method Exchange(conn: ShardConn, server: TextServer, entries: seq<RequestEntry>, blank: seq<ResponseEntry>,
                  validEntries: seq<RequestEntry>, validIdx: seq<nat>, before: seq<Error>, failOpen: bool,
                  cut: seq<byte> -> seq<Fragment>, now: int64, later: int64, uptime: int64)
    returns (results: seq<ResponseEntry>, errs: seq<Error>)
    requires conn.Valid(0) && server.throttler.Valid()
    requires BadKeysRefused(blank, entries) && validEntries == ValidOnes(entries)
    requires Indexed(KeyOk(entries), validIdx) && |validIdx| == |validEntries|
    requires var line := Utf8(Request(validEntries) + "\n"); Cuts(cut(line), line)
    modifies conn.breaker, server.throttler.store, server.throttler.store.stripes, server.throttler.store.buckets
    ensures server.throttler.Valid()
    ensures var net := NetworkResult(old(server.throttler.View()).View(), now, validEntries, server.maxLineSize);
            && BadKeysRefused(results, entries) && Settled(results, entries, failOpen, EndingOf(net))
            && conn.WentThrough(old(conn.BreakerState()), Recorded(later, EndingOf(net)))
    ensures server.throttler.View()
            == NetworkServed(old(server.throttler.View()), now, validEntries, server.maxLineSize)
  {
    ValidOnesAreValid(entries);
    NetworkLength(server.throttler.View().View(), now, validEntries, server.maxLineSize);
    var net := NetworkCall(server, validEntries, cut, now, uptime);
    results, errs := conn.Complete(entries, blank, validIdx, before, failOpen, later, EndingOf(net));
  }
}

/** A call over the network against the same call on an embedded throttler: printer, server and
    parser put together (client/conn.go, server/textserver.go, server/throttling.go). */
module Wire {
  import opened Types
  import opened Gcra
  import opened Group
  import opened Text
  import opened Codec
  import opened TextServer
  import opened Lines
  import Generations

  predicate AllCarried(es: seq<RequestEntry>) {
    forall i :: 0 <= i < |es| ==> Carried(es[i])
  }

  // ------------------------------------------------------- defaults on both sides

  /** Filling in the defaults beforehand changes no check. */
  lemma NormalizedCheck(e: RequestEntry, tat: int64, now: int64)
    ensures CheckEntry(Normalized(e), tat, now) == CheckEntry(e, tat, now)
    ensures Report(Normalized(e), tat, now) == Report(e, tat, now)
  {
  }

  function NormalizedAll(es: seq<RequestEntry>): (r: seq<RequestEntry>)
    ensures |r| == |es|
  {
    if es == [] then [] else NormalizedAll(es[..|es| - 1]) + [Normalized(es[|es| - 1])]
  }

  lemma {:induction false} NormalizedWork(m: Tats, now: int64, es: seq<RequestEntry>)
    ensures Work(m, now, NormalizedAll(es)) == Work(m, now, es)
    ensures Reports(m, now, NormalizedAll(es)) == Reports(m, now, es)
  {
    if es != [] {
      var front, e := es[..|es| - 1], es[|es| - 1];
      NormalizedWork(m, now, front);
      NormalizedCheck(e, TatOf(Work(m, now, front), e.key), now);
      NormalizedCheck(e, TatOf(m, e.key), now);
      assert NormalizedAll(es)[..|es| - 1] == NormalizedAll(front);
    }
  }

  lemma {:induction false} NormalizedAt(es: seq<RequestEntry>)
    ensures forall i :: 0 <= i < |es| ==> NormalizedAll(es)[i] == Normalized(es[i])
  {
    if es != [] {
      NormalizedAt(es[..|es| - 1]);
    }
  }

  predicate NoneThrottled(reports: seq<ResponseEntry>, es: seq<RequestEntry>)
    requires |reports| == |es|
  {
    forall i :: 0 <= i < |es| && !es[i].peek ==> !reports[i].throttled
  }

  lemma AdmitByReports(m: Tats, now: int64, es: seq<RequestEntry>)
    ensures AllAdmit(m, now, es) <==> NoneThrottled(Reports(m, now, es), es)
  {
    ReportsAt(m, now, es);
  }

  lemma SamePeeks(reports: seq<ResponseEntry>, es: seq<RequestEntry>)
    requires |reports| == |es|
    ensures NoneThrottled(reports, NormalizedAll(es)) <==> NoneThrottled(reports, es)
  {
    NormalizedAt(es);
    var ns := NormalizedAll(es);
    assert forall i :: 0 <= i < |es| ==> ns[i].peek == es[i].peek;
  }

  lemma NormalizedAdmit(m: Tats, now: int64, es: seq<RequestEntry>)
    ensures AllAdmit(m, now, NormalizedAll(es)) <==> AllAdmit(m, now, es)
  {
    NormalizedWork(m, now, es);
    AdmitByReports(m, now, es);
    AdmitByReports(m, now, NormalizedAll(es));
    SamePeeks(Reports(m, now, es), es);
  }

  lemma NormalizedCommit(m: Tats, now: int64, es: seq<RequestEntry>)
    ensures Commit(m, now, NormalizedAll(es)) == Commit(m, now, es)
  {
    NormalizedAdmit(m, now, es);
    NormalizedWork(m, now, es);
  }

  lemma NormalizedCall(g: Generations.Gens, now: int64, es: seq<RequestEntry>)
    ensures Generations.Call(g, now, NormalizedAll(es)) == Generations.Call(g, now, es)
  {
    NormalizedCommit(g.View(), now, es);
    NormalizedNames(es);
  }

  lemma NormalizedNames(es: seq<RequestEntry>)
    ensures Generations.Names(NormalizedAll(es)) == Generations.Names(es)
  {
    NormalizedAt(es);
    var ns := NormalizedAll(es);
    forall k | k in Generations.Names(es)
      ensures k in Generations.Names(ns)
    {
      var i :| 0 <= i < |es| && es[i].key == k;
      assert ns[i] in ns && ns[i].key == k;
    }
  }

  // --------------------------------------------------------- what is sent

  lemma {:induction false} AllSent(es: seq<RequestEntry>)
    requires AllCarried(es)
    ensures Sent(es) == NormalizedAll(es)
  {
    if es != [] {
      AllSent(es[..|es| - 1]);
    }
  }

  lemma {:induction false} AllAnswered(es: seq<RequestEntry>, reports: seq<ResponseEntry>)
    requires AllCarried(es) && |reports| == |Sent(es)|
    ensures Outcome(es, reports) == reports
  {
    AllSent(es);
    if es != [] {
      var n := |es| - 1;
      AllSent(es[..n]);
      AllAnswered(es[..n], reports[..n]);
      Halves(reports, n);
    }
  }

  lemma {:induction false} RejectedAt(es: seq<RequestEntry>, reports: seq<ResponseEntry>, i: nat)
    requires |reports| == |Sent(es)| && i < |es| && !Carried(es[i])
    ensures |Outcome(es, reports)| == |es|
    ensures Outcome(es, reports)[i] == ResponseEntry(es[i].key, true, 0, 0, Some(EntryRejected))
  {
    var n := |es| - 1;
    OutcomeLength(es, reports);
    if i < n {
      RejectedAt(es[..n], reports[..|Sent(es[..n])|], i);
    }
  }

  lemma {:induction false} OutcomeLength(es: seq<RequestEntry>, reports: seq<ResponseEntry>)
    requires |reports| == |Sent(es)|
    ensures |Outcome(es, reports)| == |es|
  {
    if es != [] {
      OutcomeLength(es[..|es| - 1], reports[..|Sent(es[..|es| - 1])|]);
    }
  }

  lemma ReportsGenuine(m: Tats, now: int64, es: seq<RequestEntry>)
    ensures Genuine(Reports(m, now, es), es)
  {
    ReportsAt(m, now, es);
  }

  /** The request line, newline included, is within the server's bound. */
  predicate Fits(es: seq<RequestEntry>, maxLineSize: int) {
    |Utf8(Request(es))| + 1 <= maxLineSize
  }

  /** What a network call comes back with: no results at all if its line is too long. */
  function NetworkResult(m: Tats, now: int64, es: seq<RequestEntry>, maxLineSize: int): Option<seq<ResponseEntry>> {
    if Fits(es, maxLineSize) then Some(Outcome(es, Reports(m, now, Sent(es)))) else None
  }

  lemma OutcomeIsEmbedded(m: Tats, now: int64, es: seq<RequestEntry>)
    ensures Outcome(es, Reports(m, now, Sent(es))) == Reports(m, now, es) <==> AllCarried(es)
  {
    if AllCarried(es) {
      AllSent(es);
      NormalizedWork(m, now, es);
      AllAnswered(es, Reports(m, now, Sent(es)));
    } else {
      var i :| 0 <= i < |es| && !Carried(es[i]);
      RejectedAt(es, Reports(m, now, Sent(es)), i);
      ReportsGenuine(m, now, es);
    }
  }

  /** A network call returns what an embedded call reports exactly if its line is within the
      server's bound and it names no negative capacity and no negative period. */
  lemma NetworkIsEmbedded(m: Tats, now: int64, es: seq<RequestEntry>, maxLineSize: int)
    requires ValidKeys(es)
    ensures NetworkResult(m, now, es, maxLineSize) == Some(Reports(m, now, es))
            <==> AllCarried(es) && Fits(es, maxLineSize)
  {
    OutcomeIsEmbedded(m, now, es);
  }

  /** The bound matters: one entry whose key takes the whole line. */
  lemma LongKeyDoesNotFit(e: RequestEntry, maxLineSize: int)
    requires |Utf8(e.key)| >= maxLineSize
    ensures !Fits([e], maxLineSize)
  {
    assert [] + [e] == [e];
    RequestAppend([], e);
    Utf8Append(Request([]), " " + EncodeEntry(e));
    Utf8Append(" ", EncodeEntry(e));
    KeyWithinEntry(e);
  }

  lemma KeyWithinEntry(e: RequestEntry)
    ensures |Utf8(EncodeEntry(e))| >= |Utf8(e.key)|
  {
    var parts := EntryParts(e);
    PrefixSize(parts, |parts|);
    assert parts[..|parts|] == parts;
  }

  lemma {:induction false} PrefixSize(parts: seq<string>, n: nat)
    requires 0 < n <= |parts|
    ensures |Utf8(Joined(parts[..n]))| >= |Utf8(parts[0])|
  {
    if n > 1 {
      PrefixSize(parts, n - 1);
      PieceSize(parts[..n - 1], parts[n - 1]);
      assert parts[..n - 1] + [parts[n - 1]] == parts[..n];
    }
  }

  // ------------------------------------------------- what the store keeps

  predicate HasReal(es: seq<RequestEntry>) {
    exists i :: 0 <= i < |es| && !es[i].peek
  }

  predicate RealsCarried(es: seq<RequestEntry>) {
    forall i :: 0 <= i < |es| && !es[i].peek ==> Carried(es[i])
  }

  /** The embedded call and the network call leave the same timestamps. */
  ghost predicate SameTats(m: Tats, n: Tats) {
    forall k :: TatOf(m, k) == TatOf(n, k)
  }

  /** A throttled entry with a negative capacity or period keeps its group from committing. */
  lemma NegativeLimitBlocks(m: Tats, now: int64, es: seq<RequestEntry>)
    requires now >= 0 && !RealsCarried(es)
    ensures !AllAdmit(m, now, es) && Commit(m, now, es) == m
  {
    var i :| 0 <= i < |es| && !es[i].peek && !Carried(es[i]);
    NormalizedCheck(es[i], TatOf(Work(m, now, es[..i]), es[i].key), now);
    var e := Normalized(es[i]);
    CheckMeetsSpec(TatOf(Work(m, now, es[..i]), e.key), now, e.limit, e.cost);
    assert ReportAt(m, now, es, i).throttled;
  }

  /** If every Real entry is carried, the entries sent differ from the call in peeks only. */
  lemma {:induction false} SameOnKey(es: seq<RequestEntry>, key: string)
    requires RealsCarried(es)
    ensures OnKey(Sent(es), key) == OnKey(NormalizedAll(es), key)
  {
    if es != [] {
      var front, e := es[..|es| - 1], es[|es| - 1];
      SameOnKey(front, key);
      OnKeyAppend(Sent(front), Normalized(e), key);
      OnKeyAppend(NormalizedAll(front), Normalized(e), key);
      if !Carried(e) {
        assert Sent(es) == Sent(front);
      }
    }
  }

  lemma OnKeyAppend(es: seq<RequestEntry>, e: RequestEntry, key: string)
    ensures OnKey(es + [e], key) == OnKey(es, key) + if e.peek || e.key != key then [] else [e]
  {
    assert (es + [e])[..|es|] == es;
  }

  lemma CarriedGroupsAgree(m: Tats, now: int64, es: seq<RequestEntry>)
    requires RealsCarried(es)
    ensures SameTats(Commit(m, now, es), Commit(m, now, Sent(es)))
  {
    forall key
      ensures OnKey(Sent(es), key) == OnKey(NormalizedAll(es), key)
    {
      SameOnKey(es, key);
    }
    OrderAcrossKeysIsIrrelevant(m, now, Sent(es), NormalizedAll(es));
    NormalizedCommit(m, now, es);
  }

  /** An admitted check moves the timestamp: it costs at least one nanosecond. */
  lemma AdmissionMoves(e: RequestEntry, tat: int64, now: int64)
    requires now >= 0 && !CheckEntry(e, tat, now).throttled
    ensures CheckEntry(e, tat, now).tat > tat
  {
    var l, cost := Normalized(e).limit, Normalized(e).cost;
    CheckMeetsSpec(tat, now, l, cost);
    MulMono(1, cost, l.rate.period);
    assert CostNs(l, cost) > 0;
  }

  /** A group that commits moves the timestamp of every key it names in a Real entry. */
  lemma {:induction false} WorkMoves(m: Tats, now: int64, es: seq<RequestEntry>, key: string)
    requires now >= 0 && AllAdmit(m, now, es)
    ensures TatOf(Work(m, now, es), key) >= TatOf(m, key)
    ensures OnKey(es, key) != [] ==> TatOf(Work(m, now, es), key) > TatOf(m, key)
  {
    if es != [] {
      var n := |es| - 1;
      var front, e := es[..n], es[n];
      AdmitFront(m, now, es);
      WorkMoves(m, now, front, key);
      AdvanceOnKey(Work(m, now, front), now, e, key);
      if !e.peek {
        AdmissionMoves(e, TatOf(Work(m, now, front), e.key), now);
      }
    }
  }

  lemma CommittedGroupMoves(m: Tats, now: int64, es: seq<RequestEntry>)
    requires now >= 0 && AllAdmit(m, now, es) && HasReal(es)
    ensures !SameTats(m, Commit(m, now, es))
  {
    var i :| 0 <= i < |es| && !es[i].peek;
    OnKeyPrefix(es, es[i].key, i);
    WorkMoves(m, now, es, es[i].key);
  }

  lemma {:induction false} OnlyPeeksCommitNothing(m: Tats, now: int64, es: seq<RequestEntry>)
    requires !HasReal(es)
    ensures Work(m, now, es) == m
  {
    if es != [] {
      var n := |es| - 1;
      assert es[n].peek;
      forall i | 0 <= i < n
        ensures es[..n][i].peek
      {
        assert es[i].peek;
      }
      OnlyPeeksCommitNothing(m, now, es[..n]);
    }
  }

  /** The group sent leaves the same timestamps as the whole group exactly if every Real entry
      is carried, or the carried ones change nothing by themselves: one of them is throttled,
      or none of them is Real. */
  lemma SentStoresAsAll(m: Tats, now: int64, es: seq<RequestEntry>)
    requires now >= 0
    ensures SameTats(Commit(m, now, es), Commit(m, now, Sent(es)))
            <==> RealsCarried(es) || !AllAdmit(m, now, Sent(es)) || !HasReal(Sent(es))
  {
    if RealsCarried(es) {
      CarriedGroupsAgree(m, now, es);
    } else {
      NegativeLimitBlocks(m, now, es);
      if AllAdmit(m, now, Sent(es)) {
        if HasReal(Sent(es)) {
          CommittedGroupMoves(m, now, Sent(es));
        } else {
          OnlyPeeksCommitNothing(m, now, Sent(es));
        }
      }
    }
  }

  /** A call leaves the timestamps as they are exactly if an entry is throttled or none is Real. */
  lemma CommitsNothing(m: Tats, now: int64, es: seq<RequestEntry>)
    requires now >= 0
    ensures SameTats(Commit(m, now, es), m) <==> !AllAdmit(m, now, es) || !HasReal(es)
  {
    if AllAdmit(m, now, es) {
      if HasReal(es) {
        CommittedGroupMoves(m, now, es);
      } else {
        OnlyPeeksCommitNothing(m, now, es);
      }
    }
  }

  /** What the server does with a call: nothing at all if its line is too long. */
  function NetworkServed(g: Generations.Gens, now: int64, es: seq<RequestEntry>, maxLineSize: int): Generations.Gens {
    if Fits(es, maxLineSize) then Served(g, now, Sent(es)) else g
  }

  /** The timestamps a served line leaves are those its parsed entries commit. */
  lemma ServedTats(g: Generations.Gens, now: int64, es: seq<RequestEntry>)
    requires g.hot.Keys !! g.cold.Keys
    ensures SameTats(Served(g, now, es).View(), Commit(g.View(), now, es))
  {
    Generations.CallView(g, now, es);
  }

  /** The network call leaves the timestamps that the embedded call would leave exactly if,
      with its line within the server's bound, every Real entry is carried or the carried ones
      change nothing by themselves; with its line too long, if the embedded call changes
      nothing. */
  lemma NetworkStoresAsEmbedded(g: Generations.Gens, now: int64, es: seq<RequestEntry>, maxLineSize: int)
    requires now >= 0 && g.hot.Keys !! g.cold.Keys && ValidKeys(es)
    ensures SameTats(Commit(g.View(), now, es), NetworkServed(g, now, es, maxLineSize).View())
            <==> if Fits(es, maxLineSize) then
                   RealsCarried(es) || !AllAdmit(g.View(), now, Sent(es)) || !HasReal(Sent(es))
                 else !AllAdmit(g.View(), now, es) || !HasReal(es)
  {
    ServedTats(g, now, Sent(es));
    SentStoresAsAll(g.View(), now, es);
    CommitsNothing(g.View(), now, es);
  }

  /** For example one Real entry with room for it in its empty bucket, whose key takes the whole
      line: embedded it is committed, over the network it is not even read. */
  lemma LongKeyIsNotStored(e: RequestEntry, maxLineSize: int)
    requires ValidKey(e.key) && |Utf8(e.key)| >= maxLineSize
    requires e.limit == Limit(1, Rate(1, 10)) && e.cost == 1 && !e.peek
    ensures ValidKeys([e]) && RealsCarried([e])
    ensures var empty := Generations.Gens(map[], map[]);
            !SameTats(Commit(empty.View(), 0, [e]), NetworkServed(empty, 0, [e], maxLineSize).View())
  {
    var es := [e];
    LongKeyDoesNotFit(e, maxLineSize);
    FillsBucket(e);
    OneEntry(e);
    NotServedDiffers(0, es, maxLineSize, e.key);
  }

  lemma OneEntry(e: RequestEntry)
    requires ValidKey(e.key) && Carried(e)
    ensures ValidKeys([e]) && RealsCarried([e])
  {
  }

  lemma NotServedDiffers(now: int64, es: seq<RequestEntry>, maxLineSize: int, key: string)
    requires !Fits(es, maxLineSize) && TatOf(Commit(map[], now, es), key) != 0
    ensures var empty := Generations.Gens(map[], map[]);
            !SameTats(Commit(empty.View(), now, es), NetworkServed(empty, now, es, maxLineSize).View())
  {
    var none: Tats := map[];
    assert none + none == none;
    assert TatOf(none, key) == 0;
  }

  lemma FillsBucket(e: RequestEntry)
    requires e.limit == Limit(1, Rate(1, 10)) && e.cost == 1 && !e.peek
    ensures TatOf(Commit(map[], 0, [e]), e.key) == 10
  {
    SingleCall(map[], 0, e);
    AdvanceOnKey(map[], 0, e, e.key);
    Generations.SmallCheck(e, 0, 0);
  }

  // ------------------------------------------------------------- a whole call

  /** However the line is cut into fragments, they make up the line. */
  predicate Cuts(frags: seq<Fragment>, line: seq<byte>) {
    Fragments(frags) && Content(frags) == line
  }

  /** What the client makes of the bytes that come back. */
  function Heard(stream: seq<byte>, es: seq<RequestEntry>): Option<seq<ResponseEntry>> {
    var line := FirstLine(stream);
    if line.None? then None else Decoded(Decode(line.value), es)
  }

  /** One call through all its stages: printed, sent as bytes, read within the bound whatever
      the fragments, served, and the bytes that come back read up to a newline and parsed. */
  method NetworkCall(server: TextServer, entries: seq<RequestEntry>, cut: seq<byte> -> seq<Fragment>,
                     now: int64, uptime: int64)
    returns (results: Option<seq<ResponseEntry>>)
    requires server.throttler.Valid() && ValidKeys(entries)
    requires Cuts(cut(Utf8(Request(entries) + "\n")), Utf8(Request(entries) + "\n"))
    modifies server.throttler.store, server.throttler.store.stripes, server.throttler.store.buckets
    ensures server.throttler.Valid()
    ensures results == NetworkResult(old(server.throttler.View()).View(), now, entries, server.maxLineSize)
    ensures server.throttler.View() == NetworkServed(old(server.throttler.View()), now, entries, server.maxLineSize)
  {
    var request := EncodeThrottle(entries);
    results := Answer(server, cut(Utf8(request)), entries, now, uptime);
  }

  /** From the bytes of the request line to the parsed response. */
  method Answer(server: TextServer, frags: seq<Fragment>, entries: seq<RequestEntry>, now: int64, uptime: int64)
    returns (results: Option<seq<ResponseEntry>>)
    requires server.throttler.Valid() && ValidKeys(entries) && Cuts(frags, Utf8(Request(entries) + "\n"))
    modifies server.throttler.store, server.throttler.store.stripes, server.throttler.store.buckets
    ensures server.throttler.Valid()
    ensures results == NetworkResult(old(server.throttler.View()).View(), now, entries, server.maxLineSize)
    ensures server.throttler.View() == NetworkServed(old(server.throttler.View()), now, entries, server.maxLineSize)
  {
    ghost var g := server.throttler.View();
    RequestIsServed(entries, server.maxLineSize);
    ReplyIsHeard(g, now, entries, server.maxLineSize);
    var reply, closeConn := server.HandleLine(frags, now, uptime);
    results := Hear(Utf8(reply), entries);
  }

  /** What the server writes back. */
  function ReplyTo(g: Generations.Gens, now: int64, es: seq<RequestEntry>, maxLineSize: int): string
    requires |Parsed(EncodeAll(es))| == |Sent(es)|
  {
    if Fits(es, maxLineSize) then Response(Answers(EncodeAll(es), Reports(g.View(), now, Sent(es)))) + "\n"
    else TOO_LONG
  }

  lemma ReplyIsHeard(g: Generations.Gens, now: int64, es: seq<RequestEntry>, maxLineSize: int)
    requires ValidKeys(es)
    ensures |Parsed(EncodeAll(es))| == |Sent(es)|
    ensures Heard(Utf8(ReplyTo(g, now, es, maxLineSize)), es) == NetworkResult(g.View(), now, es, maxLineSize)
  {
    ParsedIsSent(es);
    ReportsGenuine(g.View(), now, Sent(es));
    AnswerIsHeard(es, Reports(g.View(), now, Sent(es)));
    TooLongIsHeard(es);
  }

  method Hear(stream: seq<byte>, entries: seq<RequestEntry>) returns (results: Option<seq<ResponseEntry>>)
    ensures results == Heard(stream, entries)
  {
    var line := FirstLine(stream);
    if line.None? {
      return None;
    }
    results := DecodeResult(Decode(line.value), entries);
  }

  lemma AnswerIsHeard(es: seq<RequestEntry>, reports: seq<ResponseEntry>)
    requires ValidKeys(es) && Genuine(reports, Sent(es))
    ensures |reports| == |Parsed(EncodeAll(es))|
    ensures Heard(Utf8(Response(Answers(EncodeAll(es), reports)) + "\n"), es) == Some(Outcome(es, reports))
  {
    EncodedAreWords(es);
    ParsedIsSent(es);
    ResponseRoundTrip(es, reports);
    ResponseIsOneLine(EncodeAll(es), reports);
    WholeReply(Response(Answers(EncodeAll(es), reports)), es);
  }

  lemma WholeReply(s: string, es: seq<RequestEntry>)
    requires '\n' !in s
    ensures Heard(Utf8(s + "\n"), es) == Decoded(s + "\n", es)
  {
    ReplyIsRead(s, []);
    assert Utf8(s + "\n") + [] == Utf8(s + "\n");
  }

  lemma TooLongIsHeard(es: seq<RequestEntry>)
    ensures Heard(Utf8(TOO_LONG), es).None?
  {
    WholeReply("ERROR" + " line too long", es);
    TooLongIsNoResponse(es);
  }

  /** What the server reads of a request line, and what it makes of it. */
  lemma RequestIsServed(es: seq<RequestEntry>, maxLineSize: int)
    requires ValidKeys(es)
    ensures LineOf(Utf8(Request(es) + "\n"), maxLineSize)
            == if Fits(es, maxLineSize) then Line(Utf8(Request(es))) else TooLong
    ensures Decode(Utf8(Request(es))) == Request(es) && !Blank(Request(es))
    ensures SplitCommand(Request(es)) == ("THROTTLE", Spaced(EncodeAll(es)))
    ensures Fields(Spaced(EncodeAll(es))) == EncodeAll(es) && Parsed(EncodeAll(es)) == Sent(es)
  {
    RequestIsOneLine(es, maxLineSize);
    DecodeOfUtf8(Request(es));
    RequestRoundTrip(es);
    assert Request(es)[0] == 'T';
  }

  /** The server's error line is no result. */
  lemma TooLongIsNoResponse(es: seq<RequestEntry>)
    ensures Decoded(TOO_LONG, es).None?
  {
    Regroup("ERROR", " line too long", "\n");
    ErrorIsNoResult(" line too long" + "\n", es);
  }

  lemma ErrorIsNoResult(rest: string, es: seq<RequestEntry>)
    requires rest != "" && IsSpace(rest[0])
    ensures Decoded("ERROR" + rest, es).None?
  {
    TrimKeepsFields("ERROR" + rest);
    WordFirst("ERROR", rest);
  }

  /** With valid keys, no negative capacity or period and a line within the server's bound, a
      network call returns what the embedded call would return and leaves the store as the
      embedded call would. */
  method TransparentCall(server: TextServer, entries: seq<RequestEntry>, cut: seq<byte> -> seq<Fragment>,
                         now: int64, uptime: int64)
    returns (results: Option<seq<ResponseEntry>>)
    requires server.throttler.Valid() && ValidKeys(entries) && AllCarried(entries)
    requires Fits(entries, server.maxLineSize)
    requires Cuts(cut(Utf8(Request(entries) + "\n")), Utf8(Request(entries) + "\n"))
    modifies server.throttler.store, server.throttler.store.stripes, server.throttler.store.buckets
    ensures server.throttler.Valid()
    ensures results == Some(Reports(old(server.throttler.View()).View(), now, entries))
    ensures server.throttler.View() == Generations.Call(old(server.throttler.View()), now, entries)
  {
    NetworkIsEmbedded(server.throttler.View().View(), now, entries, server.maxLineSize);
    NormalizedCall(server.throttler.View(), now, entries);
    AllSent(entries);
    EmptyCall(server.throttler.View(), now);
    results := NetworkCall(server, entries, cut, now, uptime);
  }

  lemma EmptyCall(g: Generations.Gens, now: int64)
    ensures Generations.Call(g, now, []) == g
  {
    assert Generations.Call(g, now, []).hot == g.hot;
    assert Generations.Call(g, now, []).cold == g.cold;
  }

  // --------------------------------------------------------- torn lines

  /** A line that starts with what a failed write left of request a and ends with request b. */
  function TornLine(a: seq<RequestEntry>, n: nat, b: seq<RequestEntry>): string
    requires n <= |Request(a)|
  {
    Request(a)[..n] + Request(b)
  }

  /** Such a line is no THROTTLE line, or asks for more than b does. */
  lemma TornLineAsksForMore(a: seq<RequestEntry>, n: nat, b: seq<RequestEntry>)
    requires 0 < n <= |Request(a)| && ValidKeys(b)
    ensures var (cmd, rest) := SplitCommand(TornLine(a, n, b));
            if n <= 8 then |cmd| > 8 else cmd == "THROTTLE" && |Fields(rest)| > |b|
  {
    var tail := Spaced(EncodeAll(b));
    if n <= 8 {
      assert Request(a)[..n] == "THROTTLE"[..n];
      TornCommand("THROTTLE"[..n], tail);
    } else {
      var u := Spaced(EncodeAll(a))[..n - 8];
      assert Request(a)[..n] == "THROTTLE" + u;
      assert IsSpace(u[0]);
      Regroup("THROTTLE", u, Request(b));
      ThrottleFirst(u + Request(b));
      EncodedAreWords(b);
      FieldsOfSpaced(EncodeAll(b));
      FieldsOfSuffix(u, "THROTTLE", tail);
    }
  }

  lemma TornCommand(w: string, tail: string)
    requires IsWord(w) && (tail == "" || IsSpace(tail[0]))
    ensures |SplitCommand(w + ("THROTTLE" + tail)).0| > 8
  {
    Regroup(w, "THROTTLE", tail);
    CommandFirst(w + "THROTTLE", tail);
  }

  /** Whatever the server replies to a torn line, the call that wrote its last part gets no
      results out of it. */
  lemma TornLineNeverDecodes(a: seq<RequestEntry>, n: nat, b: seq<RequestEntry>, now: int64, uptime: int64, keys: nat,
                             g: Generations.Gens, after: Generations.Gens, reply: string, closeConn: bool)
    requires 0 < n <= |Request(a)| && ValidKeys(b)
    requires IsReply(TornLine(a, n, b), now, uptime, keys, g, after, reply, closeConn)
    ensures Decoded(reply, b).None?
  {
    var (cmd, rest) := SplitCommand(TornLine(a, n, b));
    TornLineAsksForMore(a, n, b);
    NotBlank(Request(a)[..n], b);
    if n <= 8 {
      UnknownIsNoResult(cmd, rest, uptime, keys, b);
    } else {
      var reports := Reports(g.View(), now, Parsed(Fields(rest)));
      ReportsGenuine(g.View(), now, Parsed(Fields(rest)));
      MoreAnswersNeverDecode(Fields(rest), reports, b);
    }
  }

  lemma UnknownIsNoResult(cmd: string, rest: string, uptime: int64, keys: nat, es: seq<RequestEntry>)
    requires |cmd| > 8
    ensures Decoded(Terminated(Control(cmd, rest, uptime, keys)), es).None?
  {
    assert Control(cmd, rest, uptime, keys) == "ERROR unknown command";
    assert "ERROR unknown command" + "\n" == "ERROR" + " unknown command\n";
    ErrorIsNoResult(" unknown command\n", es);
  }

  lemma MoreAnswersNeverDecode(tokens: seq<string>, reports: seq<ResponseEntry>, es: seq<RequestEntry>)
    requires AllWords(tokens) && Genuine(reports, Parsed(tokens)) && |tokens| > |es|
    ensures Decoded(Response(Answers(tokens, reports)) + "\n", es).None?
  {
    AnswersAreWords(tokens, reports);
    AnswersPlaced(tokens, reports);
    ResponseFields(Answers(tokens, reports));
  }

  lemma NotBlank(u: string, es: seq<RequestEntry>)
    ensures !Blank(u + Request(es))
  {
    assert (u + Request(es))[|u|] == 'T';
  }
}

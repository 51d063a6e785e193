/** The two ends of DHP/1: the client's printer and result parser (client/conn.go), the
    server's entry parser and result printer (server/textserver.go). */
module Codec {
  import opened Types
  import opened Text

  // ------------------------------------------------------------- client side

  /** internal/dhp1 and validateKey: no key may hold a delimiter. */
  predicate IsKeyDelimiter(c: char) {
    IsSpace(c) || c == '|'
  }

  predicate ValidKey(key: string) {
    key != "" && forall i :: 0 <= i < |key| ==> !IsKeyDelimiter(key[i])
  }

  function Mode(peek: bool): string {
    if peek then "P" else "R"
  }

  /** An entry as the client prints it, with both defaults filled in. */
  function EncodeEntry(e: RequestEntry): string {
    Joined(EntryParts(e))
  }

  function EntryParts(e: RequestEntry): seq<string> {
    [e.key, FormatInt(e.limit.capacity), FormatInt(EffectiveUnits(e.limit.rate.units)),
     FormatInt(e.limit.rate.period), FormatInt(EffectiveCost(e.cost)), Mode(e.peek)]
  }

  function EncodeAll(es: seq<RequestEntry>): seq<string> {
    seq(|es|, i requires 0 <= i < |es| => EncodeEntry(es[i]))
  }

  /** The whole request line. */
  function Request(es: seq<RequestEntry>): string {
    "THROTTLE" + Spaced(EncodeAll(es))
  }

  lemma BarJoined(parts: seq<string>, p: string)
    requires parts != []
    ensures Joined(parts + [p]) == Joined(parts) + "|" + p
  {
    JoinedAppend(parts, p);
    Regroup(Joined(parts), "|", p);
  }

  lemma FourJoined(a: string, b: string, c: string, d: string)
    ensures Joined([a, b, c, d]) == a + "|" + b + "|" + c + "|" + d
  {
    BarJoined([a], b);
    assert [a] + [b] == [a, b];
    BarJoined([a, b], c);
    assert [a, b] + [c] == [a, b, c];
    BarJoined([a, b, c], d);
    assert [a, b, c] + [d] == [a, b, c, d];
  }

  /** An entry, as the client writes it: key|capacity|units|period_ns|cost|mode, an R for a Real
      entry and a P for a peek, and 1 for units and a cost that are not positive. */
  lemma EntryIsPrinted(e: RequestEntry)
    ensures EncodeEntry(e)
            == e.key + "|" + FormatInt(e.limit.capacity)
               + "|" + FormatInt(if e.limit.rate.units > 0 then e.limit.rate.units else 1)
               + "|" + FormatInt(e.limit.rate.period)
               + "|" + FormatInt(if e.cost > 0 then e.cost else 1)
               + "|" + (if e.peek then "P" else "R")
  {
    var parts := EntryParts(e);
    FourJoined(parts[0], parts[1], parts[2], parts[3]);
    assert parts[..4] == [parts[0], parts[1], parts[2], parts[3]];
    BarJoined(parts[..4], parts[4]);
    assert parts[..4] + [parts[4]] == parts[..5];
    BarJoined(parts[..5], parts[5]);
    assert parts[..5] + [parts[5]] == parts;
  }

  lemma AllPrinted(es: seq<RequestEntry>)
    ensures EncodeAll(es)
            == seq(|es|, i requires 0 <= i < |es| => var e := es[i];
                 e.key + "|" + FormatInt(e.limit.capacity)
                 + "|" + FormatInt(if e.limit.rate.units > 0 then e.limit.rate.units else 1)
                 + "|" + FormatInt(e.limit.rate.period)
                 + "|" + FormatInt(if e.cost > 0 then e.cost else 1)
                 + "|" + (if e.peek then "P" else "R"))
  {
    forall i | 0 <= i < |es| {
      EntryIsPrinted(es[i]);
    }
  }

  method EncodeThrottle(entries: seq<RequestEntry>) returns (b: string)
    ensures b == Request(entries) + "\n"
    ensures b == "THROTTLE"
                 + Spaced(seq(|entries|, i requires 0 <= i < |entries| => var e := entries[i];
                            e.key + "|" + FormatInt(e.limit.capacity)
                            + "|" + FormatInt(if e.limit.rate.units > 0 then e.limit.rate.units else 1)
                            + "|" + FormatInt(e.limit.rate.period)
                            + "|" + FormatInt(if e.cost > 0 then e.cost else 1)
                            + "|" + (if e.peek then "P" else "R")))
                 + "\n"
  {
    AllPrinted(entries);
    if |entries| == 0 {
      return "THROTTLE\n";
    }
    b := "THROTTLE";
    ghost var words, body := [], "";
    for i := 0 to |entries|
      invariant |words| == i && forall j :: 0 <= j < i ==> words[j] == EncodeEntry(entries[j])
      invariant body == Spaced(words) && b == "THROTTLE" + body
    {
      var piece := WriteEntry(entries[i]);
      Regroup("THROTTLE", body, " " + piece);
      SpacedAppend(words, piece);
      b := b + (" " + piece);
      words, body := words + [piece], body + (" " + piece);
    }
    assert words == EncodeAll(entries);
    b := b + "\n";
  }

  /** The pieces of one entry, in the order they are written. */
  method WriteEntry(e: RequestEntry) returns (b: string)
    ensures b == EncodeEntry(e)
  {
    ghost var parts := [e.key];
    b := e.key;
    parts, b := Piece(parts, b, FormatInt(e.limit.capacity));
    parts, b := Piece(parts, b, FormatInt(EffectiveUnits(e.limit.rate.units)));
    parts, b := Piece(parts, b, FormatInt(e.limit.rate.period));
    parts, b := Piece(parts, b, FormatInt(EffectiveCost(e.cost)));
    parts, b := Piece(parts, b, Mode(e.peek));
    assert parts == EntryParts(e);
  }

  method Piece(ghost parts: seq<string>, b: string, p: string) returns (ghost more: seq<string>, next: string)
    requires parts != [] && b == Joined(parts)
    ensures more == parts + [p] && next == Joined(parts + [p])
  {
    more, next := parts + [p], b + ("|" + p);
    JoinedAppend(parts, p);
  }

  // ------------------------------------------------------------- server side

  /** The first word of a line, and all that follows it. */
  function SplitCommand(line: string): (string, string) {
    if line == "" then ("", "")
    else if IsSpace(line[0]) then SplitCommand(line[1..])
    else (line[..WordLength(line)], line[WordLength(line)..])
  }

  function ParseEntry(tok: string): Option<RequestEntry> {
    var parts := Split(tok);
    if |parts| != 6 || parts[0] == "" then None
    else
      var capacity, units, period, cost :=
        ParseInt(parts[1]), ParseInt(parts[2]), ParseInt(parts[3]), ParseInt(parts[4]);
      if || capacity.None? || units.None? || period.None? || cost.None?
         || capacity.value < 0 || units.value < 0 || period.value < 0 || cost.value < 0 then None
      else if parts[5] != Mode(false) && parts[5] != Mode(true) then None
      else Some(RequestEntry(parts[0], Limit(capacity.value, Rate(units.value, period.value)), cost.value,
                             parts[5] == Mode(true)))
  }

  function FormatResult(r: ResponseEntry): string {
    if r.err.Some? then "ERR"
    else Joined([r.key, if r.throttled then "1" else "0", FormatInt(r.remaining), FormatInt(r.retryAfter)])
  }

  // ------------------------------------------------------ entries round trip

  /** What the protocol can carry: a negative capacity or period is refused by the server. */
  predicate Carried(e: RequestEntry) {
    e.limit.capacity >= 0 && e.limit.rate.period >= 0
  }

  lemma EncodedIsWord(e: RequestEntry)
    requires ValidKey(e.key)
    ensures IsWord(EncodeEntry(e))
  {
    IntIsPart(e.limit.capacity);
    IntIsPart(EffectiveUnits(e.limit.rate.units));
    IntIsPart(e.limit.rate.period);
    IntIsPart(EffectiveCost(e.cost));
    assert forall p :: p in EntryParts(e) ==> NoSpace(p);
    JoinedIsWord(EntryParts(e));
  }

  /** The server reads an entry the client printed as the same entry with its defaults
      filled in, exactly if the protocol can carry it. */
  lemma EntryRoundTrip(e: RequestEntry)
    requires ValidKey(e.key)
    ensures ParseEntry(EncodeEntry(e)) == if Carried(e) then Some(Normalized(e)) else None
  {
    var c, u, p, k := e.limit.capacity, EffectiveUnits(e.limit.rate.units), e.limit.rate.period, EffectiveCost(e.cost);
    var parts := EntryParts(e);
    IntIsPart(c);
    IntIsPart(u);
    IntIsPart(p);
    IntIsPart(k);
    SplitOfJoined(parts);
    IntRoundTrip(c);
    IntRoundTrip(u);
    IntRoundTrip(p);
    IntRoundTrip(k);
  }

  /** Whatever word the server accepts as an entry has a key the client would accept, and
      nothing negative; printed and parsed again it is the same entry with its defaults. */
  lemma AcceptedIsGenuine(tok: string)
    requires IsWord(tok) && ParseEntry(tok).Some?
    ensures var e := ParseEntry(tok).value;
            && ValidKey(e.key) && Carried(e) && e.limit.rate.units >= 0 && e.cost >= 0
            && ParseEntry(EncodeEntry(e)) == Some(Normalized(e))
  {
    PartsOfSplit(tok, 0);
    EntryRoundTrip(ParseEntry(tok).value);
  }

  // ------------------------------------------------------ results round trip

  /** What the client makes of one token of a response, for the entry at its position. */
  function DecodeToken(tok: string, e: RequestEntry): Option<ResponseEntry> {
    if tok == "ERR" then Some(ResponseEntry(e.key, true, 0, 0, Some(EntryRejected)))
    else
      var fields := Split(tok);
      if |fields| != 4 || fields[0] != e.key then None
      else
        var remaining, retryAfter := ParseInt(fields[2]), ParseInt(fields[3]);
        if remaining.None? || retryAfter.None? || remaining.value < 0 then None
        else Some(ResponseEntry(e.key, fields[1] == "1", remaining.value, retryAfter.value, None))
  }

  /** None as soon as one token is malformed. */
  function DecodeAll(tokens: seq<string>, es: seq<RequestEntry>): Option<seq<ResponseEntry>>
    requires |tokens| == |es|
  {
    if es == [] then Some([])
    else
      var last := |es| - 1;
      var front, r := DecodeAll(tokens[..last], es[..last]), DecodeToken(tokens[last], es[last]);
      if front.None? || r.None? then None else Some(front.value + [r.value])
  }

  function Decoded(line: string, es: seq<RequestEntry>): Option<seq<ResponseEntry>> {
    var tokens := Fields(TrimRight(line));
    if tokens == [] || tokens[0] != "RESULT" || |tokens| - 1 != |es| then None
    else DecodeAll(tokens[1..], es)
  }

  method DecodeResult(line: string, entries: seq<RequestEntry>) returns (r: Option<seq<ResponseEntry>>)
    ensures r == Decoded(line, entries)
  {
    var tokens := Fields(TrimRight(line));
    if |tokens| == 0 || tokens[0] != "RESULT" {
      return None;
    }
    var resultTokens := tokens[1..];
    if |resultTokens| != |entries| {
      return None;
    }
    var results := [];
    for i := 0 to |entries|
      invariant DecodeAll(resultTokens[..i], entries[..i]) == Some(results)
    {
      assert resultTokens[..i + 1][..i] == resultTokens[..i] && entries[..i + 1][..i] == entries[..i];
      var one := DecodeToken(resultTokens[i], entries[i]);
      if one.None? {
        DecodePrefix(resultTokens, entries, i + 1);
        return None;
      }
      results := results + [one.value];
    }
    assert resultTokens[..|entries|] == resultTokens && entries[..|entries|] == entries;
    return Some(results);
  }

  lemma {:induction false} DecodePrefix(tokens: seq<string>, es: seq<RequestEntry>, n: nat)
    requires |tokens| == |es| && n <= |es|
    ensures DecodeAll(tokens[..n], es[..n]).None? ==> DecodeAll(tokens, es).None?
  {
    var last := |es| - 1;
    if n > last {
      assert tokens[..n] == tokens && es[..n] == es;
    } else {
      assert tokens[..last][..n] == tokens[..n] && es[..last][..n] == es[..n];
      DecodePrefix(tokens[..last], es[..last], n);
    }
  }

  /** A line that decodes at all has one result for each entry, under that entry's key. */
  lemma {:induction false} DecodedMatches(tokens: seq<string>, es: seq<RequestEntry>)
    requires |tokens| == |es|
    ensures DecodeAll(tokens, es).Some? <==> forall i :: 0 <= i < |es| ==> DecodeToken(tokens[i], es[i]).Some?
    ensures DecodeAll(tokens, es).Some? ==>
              && |DecodeAll(tokens, es).value| == |es|
              && forall i :: 0 <= i < |es| ==>
                   DecodeToken(tokens[i], es[i]) == Some(DecodeAll(tokens, es).value[i])
                   && DecodeAll(tokens, es).value[i].key == es[i].key && DecodeAll(tokens, es).value[i].remaining >= 0
  {
    if es != [] {
      DecodedMatches(tokens[..|es| - 1], es[..|es| - 1]);
    }
  }

  lemma FormatParts(r: ResponseEntry)
    requires ValidKey(r.key) && r.err.None?
    ensures Split(FormatResult(r))
            == [r.key, if r.throttled then "1" else "0", FormatInt(r.remaining), FormatInt(r.retryAfter)]
    ensures IsWord(FormatResult(r)) && FormatResult(r) != "ERR"
  {
    IntIsPart(r.remaining);
    IntIsPart(r.retryAfter);
    var parts := [r.key, if r.throttled then "1" else "0", FormatInt(r.remaining), FormatInt(r.retryAfter)];
    SplitOfJoined(parts);
    JoinedIsWord(parts);
    SplitPart("ERR");
  }

  lemma ReportRoundTrip(r: ResponseEntry, e: RequestEntry)
    requires ValidKey(r.key) && r.key == e.key && r.remaining >= 0 && r.err.None?
    ensures DecodeToken(FormatResult(r), e) == Some(r)
  {
    FormatParts(r);
    var parts := Split(FormatResult(r));
    assert |parts| == 4 && parts[0] == r.key && parts[1] == if r.throttled then "1" else "0";
    IntRoundTrip(r.remaining);
    assert ParseInt(parts[2]) == Some(r.remaining);
    IntRoundTrip(r.retryAfter);
    assert ParseInt(parts[3]) == Some(r.retryAfter);
  }

  /** The client reads back what the server prints: a report as it is, an error as the bare
      fact that the entry was rejected. */
  lemma ResultRoundTrip(r: ResponseEntry, e: RequestEntry)
    requires ValidKey(r.key) && r.key == e.key && r.remaining >= 0
    ensures DecodeToken(FormatResult(r), e)
            == Some(if r.err.None? then r else ResponseEntry(e.key, true, 0, 0, Some(EntryRejected)))
    ensures IsWord(FormatResult(r))
  {
    if r.err.None? {
      FormatParts(r);
      ReportRoundTrip(r, e);
    }
  }

  // ------------------------------------------------------------- whole lines

  /** The entries of a request line that parse. */
  function Parsed(tokens: seq<string>): seq<RequestEntry> {
    if tokens == [] then []
    else
      var e := ParseEntry(tokens[|tokens| - 1]);
      Parsed(tokens[..|tokens| - 1]) + if e.Some? then [e.value] else []
  }

  /** One result per token: the report of a parsed entry, ERR for the others. */
  function Answers(tokens: seq<string>, reports: seq<ResponseEntry>): seq<string>
    requires |reports| == |Parsed(tokens)|
  {
    if tokens == [] then []
    else
      var front, e := tokens[..|tokens| - 1], ParseEntry(tokens[|tokens| - 1]);
      Answers(front, reports[..|Parsed(front)|]) + [if e.Some? then FormatResult(reports[|reports| - 1]) else "ERR"]
  }

  function Response(results: seq<string>): string {
    "RESULT" + Spaced(results)
  }

  /** The entries that reach the server's throttler, defaults filled in. */
  function Sent(es: seq<RequestEntry>): seq<RequestEntry> {
    if es == [] then []
    else
      var e := es[|es| - 1];
      Sent(es[..|es| - 1]) + if Carried(e) then [Normalized(e)] else []
  }

  /** What the caller gets: those entries' reports, in place, and a rejection for the rest. */
  function Outcome(es: seq<RequestEntry>, reports: seq<ResponseEntry>): seq<ResponseEntry>
    requires |reports| == |Sent(es)|
  {
    if es == [] then []
    else
      var front, e := es[..|es| - 1], es[|es| - 1];
      Outcome(front, reports[..|Sent(front)|])
      + [if Carried(e) then reports[|reports| - 1] else ResponseEntry(e.key, true, 0, 0, Some(EntryRejected))]
  }

  predicate ValidKeys(es: seq<RequestEntry>) {
    forall i :: 0 <= i < |es| ==> ValidKey(es[i].key)
  }

  lemma {:induction false} ParsedIsSent(es: seq<RequestEntry>)
    requires ValidKeys(es)
    ensures Parsed(EncodeAll(es)) == Sent(es)
  {
    if es != [] {
      var front, e := es[..|es| - 1], es[|es| - 1];
      ParsedIsSent(front);
      EntryRoundTrip(e);
      assert EncodeAll(es)[..|es| - 1] == EncodeAll(front);
    }
  }

  lemma EncodedAreWords(es: seq<RequestEntry>)
    requires ValidKeys(es)
    ensures AllWords(EncodeAll(es))
  {
    forall w | w in EncodeAll(es)
      ensures IsWord(w)
    {
      var i :| 0 <= i < |es| && EncodeAll(es)[i] == w;
      EncodedIsWord(es[i]);
    }
  }

  /** Reports as the throttler gives them: no error, under the entry's key. */
  predicate Genuine(reports: seq<ResponseEntry>, es: seq<RequestEntry>) {
    && |reports| == |es|
    && forall j :: 0 <= j < |es| ==> reports[j].key == es[j].key && reports[j].err.None? && reports[j].remaining >= 0
  }

  lemma Halves<T>(s: seq<T>, n: nat)
    requires n <= |s|
    ensures s[..n] + s[n..] == s
    ensures n + 1 == |s| ==> s[n..] == [s[n]]
  {
  }

  lemma EncodeAppend(es: seq<RequestEntry>, e: RequestEntry)
    ensures EncodeAll(es + [e]) == EncodeAll(es) + [EncodeEntry(e)]
  {
  }

  predicate AllWords(words: seq<string>) {
    forall w :: w in words ==> IsWord(w)
  }

  lemma AllWordsAppend(words: seq<string>, w: string)
    requires AllWords(words) && IsWord(w)
    ensures AllWords(words + [w])
  {
  }

  lemma AnswersAppend(tokens: seq<string>, tok: string, reports: seq<ResponseEntry>, more: seq<ResponseEntry>)
    requires |reports| == |Parsed(tokens)| && |more| == if ParseEntry(tok).Some? then 1 else 0
    ensures |reports + more| == |Parsed(tokens + [tok])|
    ensures Answers(tokens + [tok], reports + more)
            == Answers(tokens, reports) + [if more == [] then "ERR" else FormatResult(more[0])]
  {
    assert (tokens + [tok])[..|tokens|] == tokens;
    assert (reports + more)[..|reports|] == reports;
  }

  lemma DecodeAppend(tokens: seq<string>, tok: string, es: seq<RequestEntry>, e: RequestEntry)
    requires |tokens| == |es|
    requires DecodeAll(tokens, es).Some? && DecodeToken(tok, e).Some?
    ensures DecodeAll(tokens + [tok], es + [e]) == Some(DecodeAll(tokens, es).value + [DecodeToken(tok, e).value])
  {
    assert (tokens + [tok])[..|tokens|] == tokens && (es + [e])[..|es|] == es;
  }

  lemma OutcomeAppend(es: seq<RequestEntry>, e: RequestEntry, before: seq<ResponseEntry>, more: seq<ResponseEntry>)
    requires |before| == |Sent(es)| && |more| == if Carried(e) then 1 else 0
    ensures |before + more| == |Sent(es + [e])|
    ensures Outcome(es + [e], before + more)
            == Outcome(es, before)
               + [if Carried(e) then more[0] else ResponseEntry(e.key, true, 0, 0, Some(EntryRejected))]
  {
    assert (es + [e])[..|es|] == es && (before + more)[..|before|] == before;
  }

  /** One more result on the line. */
  lemma AnswerOne(answers: seq<string>, es: seq<RequestEntry>, e: RequestEntry, more: seq<ResponseEntry>)
    returns (tok: string)
    requires |answers| == |es| && DecodeAll(answers, es).Some?
    requires ValidKey(e.key) && Genuine(more, if Carried(e) then [Normalized(e)] else [])
    ensures tok == (if more == [] then "ERR" else FormatResult(more[0])) && IsWord(tok)
    ensures DecodeAll(answers + [tok], es + [e])
            == Some(DecodeAll(answers, es).value
                    + [if Carried(e) then more[0] else ResponseEntry(e.key, true, 0, 0, Some(EntryRejected))])
  {
    tok := if more == [] then "ERR" else FormatResult(more[0]);
    if Carried(e) {
      ResultRoundTrip(more[0], e);
    }
    DecodeAppend(answers, tok, es, e);
  }

  /** The server's results for these entries decode to what their caller should get. */
  ghost predicate Answered(es: seq<RequestEntry>, reports: seq<ResponseEntry>) {
    && |reports| == |Parsed(EncodeAll(es))| == |Sent(es)|
    && |Answers(EncodeAll(es), reports)| == |es| && AllWords(Answers(EncodeAll(es), reports))
    && DecodeAll(Answers(EncodeAll(es), reports), es) == Some(Outcome(es, reports))
  }

  lemma AnsweredAppend(es: seq<RequestEntry>, e: RequestEntry, before: seq<ResponseEntry>, more: seq<ResponseEntry>)
    requires Answered(es, before) && ValidKey(e.key) && Genuine(more, if Carried(e) then [Normalized(e)] else [])
    ensures Answered(es + [e], before + more)
  {
    var answers := Answers(EncodeAll(es), before);
    EntryRoundTrip(e);
    EncodeAppend(es, e);
    AnswersAppend(EncodeAll(es), EncodeEntry(e), before, more);
    var tok := AnswerOne(answers, es, e, more);
    AllWordsAppend(answers, tok);
    OutcomeAppend(es, e, before, more);
  }

  lemma {:induction false} AnswersDecode(es: seq<RequestEntry>, reports: seq<ResponseEntry>)
    requires ValidKeys(es) && Genuine(reports, Sent(es))
    ensures Answered(es, reports)
  {
    if es != [] {
      var n := |es| - 1;
      AnswersDecode(es[..n], reports[..|Sent(es[..n])|]);
      AnsweredAppend(es[..n], es[n], reports[..|Sent(es[..n])|], reports[|Sent(es[..n])|..]);
      Halves(reports, |Sent(es[..n])|);
      Halves(es, n);
    }
  }

  /** Whatever words a request line has, each is answered by a word. */
  lemma {:induction false} AnswersAreWords(tokens: seq<string>, reports: seq<ResponseEntry>)
    requires AllWords(tokens) && Genuine(reports, Parsed(tokens))
    ensures AllWords(Answers(tokens, reports))
  {
    if tokens != [] {
      var n := |tokens| - 1;
      var front, m := tokens[..n], |Parsed(tokens[..n])|;
      Halves(tokens, n);
      Halves(reports, m);
      AnswersAreWords(front, reports[..m]);
      NextIsWord(front, tokens[n], reports[..m], reports[m..]);
    }
  }

  lemma NextIsWord(tokens: seq<string>, tok: string, reports: seq<ResponseEntry>, more: seq<ResponseEntry>)
    requires |reports| == |Parsed(tokens)| && AllWords(Answers(tokens, reports)) && IsWord(tok)
    requires Genuine(more, if ParseEntry(tok).Some? then [ParseEntry(tok).value] else [])
    ensures |reports + more| == |Parsed(tokens + [tok])| && AllWords(Answers(tokens + [tok], reports + more))
  {
    AnswersAppend(tokens, tok, reports, more);
    AnswerIsWord(tok, more);
    AllWordsAppend(Answers(tokens, reports), if more == [] then "ERR" else FormatResult(more[0]));
  }

  lemma AnswerIsWord(tok: string, more: seq<ResponseEntry>)
    requires IsWord(tok) && Genuine(more, if ParseEntry(tok).Some? then [ParseEntry(tok).value] else [])
    ensures IsWord(if more == [] then "ERR" else FormatResult(more[0]))
  {
    if ParseEntry(tok).Some? {
      AcceptedIsGenuine(tok);
      FormatParts(more[0]);
    }
  }

  lemma CommandFirst(w: string, rest: string)
    requires IsWord(w) && (rest == "" || IsSpace(rest[0]))
    ensures SplitCommand(w + rest) == (w, rest)
  {
    WordLengthOf(w, rest);
    assert (w + rest)[..|w|] == w && (w + rest)[|w|..] == rest;
  }

  /** The command is the line's first word, and the rest holds all the others. */
  lemma {:induction false} CommandIsFirstField(line: string)
    ensures var (cmd, rest) := SplitCommand(line);
            Fields(line) == if cmd == "" then [] else [cmd] + Fields(rest)
  {
    if line != "" && IsSpace(line[0]) {
      CommandIsFirstField(line[1..]);
    }
  }

  /** The client's request line, taken apart by the server. */
  lemma RequestRoundTrip(es: seq<RequestEntry>)
    requires ValidKeys(es)
    ensures SplitCommand(Request(es)) == ("THROTTLE", Spaced(EncodeAll(es)))
    ensures Fields(Spaced(EncodeAll(es))) == EncodeAll(es) && Parsed(EncodeAll(es)) == Sent(es)
  {
    ParsedIsSent(es);
    EncodedAreWords(es);
    FieldsOfSpaced(EncodeAll(es));
    ThrottleFirst(Spaced(EncodeAll(es)));
  }

  lemma ThrottleFirst(rest: string)
    requires rest == "" || IsSpace(rest[0])
    ensures SplitCommand("THROTTLE" + rest) == ("THROTTLE", rest)
  {
    CommandFirst("THROTTLE", rest);
  }

  /** The server's response line, taken apart by the client: the reports of the entries the
      protocol could carry, and a rejection for each of the others. */
  lemma ResponseRoundTrip(es: seq<RequestEntry>, reports: seq<ResponseEntry>)
    requires ValidKeys(es) && Genuine(reports, Sent(es))
    ensures |reports| == |Parsed(EncodeAll(es))|
    ensures Decoded(Response(Answers(EncodeAll(es), reports)) + "\n", es) == Some(Outcome(es, reports))
  {
    AnswersDecode(es, reports);
    ResponseFields(Answers(EncodeAll(es), reports));
  }

  lemma ResponseFields(results: seq<string>)
    requires AllWords(results)
    ensures Fields(TrimRight(Response(results) + "\n")) == ["RESULT"] + results
  {
    TrimKeepsFields(Response(results) + "\n");
    TrailingSpace(Response(results), '\n');
    WordFirst("RESULT", Spaced(results));
    FieldsOfSpaced(results);
  }
}

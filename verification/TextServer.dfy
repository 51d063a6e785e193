/** The server side of a connection (server/textserver.go): one line in, one line out. */
module TextServer {
  import opened Types
  import opened Text
  import opened Codec
  import opened Group
  import opened Positions
  import opened Lines
  import Generations
  import Throttling

  /** Token i's result. */
  function ResultAt(ok: seq<bool>, reports: seq<ResponseEntry>, i: nat): string
    requires i < |ok|
  {
    if ok[i] && Rank(ok, i) < |reports| then FormatResult(reports[Rank(ok, i)]) else "ERR"
  }

  /** Every report goes to the position its entry came from, ERR to the others. */
  method FillResults(responses: seq<ResponseEntry>, entryOk: seq<bool>, entryIdx: seq<nat>)
    returns (results: seq<string>)
    requires Indexed(entryOk, entryIdx) && |responses| == |entryIdx|
    ensures Placed(results, entryOk, responses)
  {
    results := PlaceReports(responses, entryOk, entryIdx);
    for i := 0 to |entryOk|
      invariant |results| == |entryOk|
      invariant forall k :: 0 <= k < |entryOk| && (k < i || entryOk[k]) ==>
                  results[k] == ResultAt(entryOk, responses, k)
    {
      if !entryOk[i] {
        results := results[i := "ERR"];
      }
    }
  }

  method PlaceReports(responses: seq<ResponseEntry>, entryOk: seq<bool>, entryIdx: seq<nat>)
    returns (results: seq<string>)
    requires Indexed(entryOk, entryIdx) && |responses| == |entryIdx|
    ensures |results| == |entryOk|
    ensures forall k :: 0 <= k < |entryOk| && entryOk[k] ==> results[k] == ResultAt(entryOk, responses, k)
  {
    results := seq(|entryOk|, _ => "");
    for j := 0 to |responses|
      invariant |results| == |entryOk|
      invariant forall k :: 0 <= k < j ==> results[entryIdx[k]] == FormatResult(responses[k])
    {
      results := results[entryIdx[j] := FormatResult(responses[j])];
    }
    forall k | 0 <= k < |entryOk| && entryOk[k]
      ensures results[k] == ResultAt(entryOk, responses, k)
    {
      OwnPosition(entryOk, entryIdx, k);
    }
  }

  // ----------------------------------------------------------------- parsing

  function Oks(tokens: seq<string>): (ok: seq<bool>)
    ensures |ok| == |tokens|
  {
    if tokens == [] then [] else Oks(tokens[..|tokens| - 1]) + [ParseEntry(tokens[|tokens| - 1]).Some?]
  }

  lemma ParsedStep(tokens: seq<string>, i: nat, e: Option<RequestEntry>)
    requires i < |tokens| && e == ParseEntry(tokens[i])
    ensures Parsed(tokens[..i + 1]) == Parsed(tokens[..i]) + if e.Some? then [e.value] else []
    ensures Oks(tokens[..i + 1]) == Oks(tokens[..i]) + [e.Some?]
  {
    assert tokens[..i + 1][..i] == tokens[..i];
  }

  /** The parsing loop's state after the first n tokens. */
  ghost predicate ParsedUpTo(tokens: seq<string>, n: nat, entries: seq<RequestEntry>, ok: seq<bool>, idx: seq<nat>)
    requires n <= |tokens|
  {
    entries == Parsed(tokens[..n]) && ok == Oks(tokens[..n]) && Indexed(ok, idx) && |idx| == |entries|
  }

  method ParseNext(tokens: seq<string>, n: nat, entries: seq<RequestEntry>, entryOk: seq<bool>, entryIdx: seq<nat>)
    returns (more: seq<RequestEntry>, moreOk: seq<bool>, moreIdx: seq<nat>)
    requires n < |tokens| && ParsedUpTo(tokens, n, entries, entryOk, entryIdx)
    ensures ParsedUpTo(tokens, n + 1, more, moreOk, moreIdx)
  {
    var e := ParseEntry(tokens[n]);
    ParsedStep(tokens, n, e);
    IndexedStep(entryOk, entryIdx, e.Some?);
    more, moreOk, moreIdx := entries, entryOk + [e.Some?], entryIdx;
    if e.Some? {
      more, moreIdx := entries + [e.value], entryIdx + [n];
    }
  }

  method ParseTokens(tokens: seq<string>) returns (entries: seq<RequestEntry>, entryOk: seq<bool>, entryIdx: seq<nat>)
    ensures entries == Parsed(tokens) && ParsedUpTo(tokens, |tokens|, entries, entryOk, entryIdx)
  {
    entries, entryOk, entryIdx := [], [], [];
    for i := 0 to |tokens|
      invariant ParsedUpTo(tokens, i, entries, entryOk, entryIdx)
    {
      entries, entryOk, entryIdx := ParseNext(tokens, i, entries, entryOk, entryIdx);
    }
    assert tokens[..|tokens|] == tokens;
  }

  predicate Placed(results: seq<string>, ok: seq<bool>, reports: seq<ResponseEntry>) {
    && |results| == |ok| && Rank(ok, |ok|) == |reports|
    && forall i :: 0 <= i < |ok| ==> results[i] == ResultAt(ok, reports, i)
  }

  lemma PlacedAppend(results: seq<string>, ok: seq<bool>, reports: seq<ResponseEntry>, more: seq<ResponseEntry>)
    requires Placed(results, ok, reports) && |more| <= 1
    ensures Placed(results + [if more == [] then "ERR" else FormatResult(more[0])], ok + [more != []], reports + more)
  {
    var b, n := more != [], |ok|;
    var next := results + [if more == [] then "ERR" else FormatResult(more[0])];
    LastResult(ok, reports, more);
    forall i | 0 <= i <= n
      ensures next[i] == ResultAt(ok + [b], reports + more, i)
    {
      if i < n {
        ResultKept(ok, reports, more, i);
      }
    }
  }

  lemma LastResult(ok: seq<bool>, reports: seq<ResponseEntry>, more: seq<ResponseEntry>)
    requires Rank(ok, |ok|) == |reports| && |more| <= 1
    ensures Rank(ok + [more != []], |ok| + 1) == |reports + more|
    ensures ResultAt(ok + [more != []], reports + more, |ok|) == if more == [] then "ERR" else FormatResult(more[0])
  {
    RankAppend(ok, more != [], |ok|);
    assert more != [] ==> (reports + more)[|reports|] == more[0];
  }

  lemma ResultKept(ok: seq<bool>, reports: seq<ResponseEntry>, more: seq<ResponseEntry>, i: nat)
    requires i < |ok| && Rank(ok, |ok|) == |reports|
    ensures ResultAt(ok + [more != []], reports + more, i) == ResultAt(ok, reports, i)
  {
    RankAppend(ok, more != [], i);
    RankGrows(ok, i, |ok|);
    assert ok[i] ==> (reports + more)[Rank(ok, i)] == reports[Rank(ok, i)];
  }

  /** Placing every report at its own position is answering the tokens one after the other. */
  lemma {:induction false} AnswersPlaced(tokens: seq<string>, reports: seq<ResponseEntry>)
    requires |reports| == |Parsed(tokens)|
    ensures Placed(Answers(tokens, reports), Oks(tokens), reports)
  {
    if tokens != [] {
      var n := |tokens| - 1;
      var m := |Parsed(tokens[..n])|;
      AnswersPlaced(tokens[..n], reports[..m]);
      AnswersAppend(tokens[..n], tokens[n], reports[..m], reports[m..]);
      PlacedAppend(Answers(tokens[..n], reports[..m]), Oks(tokens[..n]), reports[..m], reports[m..]);
      Halves(tokens, n);
      Halves(reports, m);
    }
  }

  // ------------------------------------------------------------------- lines

  function SpaceJoin(words: seq<string>): string
    requires words != []
  {
    if |words| == 1 then words[0] else words[0] + (" " + SpaceJoin(words[1..]))
  }

  lemma {:induction false} SpaceJoined(words: seq<string>)
    requires words != []
    ensures " " + SpaceJoin(words) == Spaced(words)
  {
    if |words| > 1 {
      SpaceJoined(words[1..]);
    }
  }

  method FormatResponse(ghost tokens: seq<string>, responses: seq<ResponseEntry>,
                        entryOk: seq<bool>, entryIdx: seq<nat>)
    returns (line: string)
    requires entryOk == Oks(tokens) && Indexed(entryOk, entryIdx) && |responses| == |entryIdx| == |Parsed(tokens)|
    ensures line == Response(Answers(tokens, responses))
  {
    var results := FillResults(responses, entryOk, entryIdx);
    AnswersPlaced(tokens, responses);
    assert results == Answers(tokens, responses);
    if |results| == 0 {
      return "RESULT";
    }
    line := "RESULT " + SpaceJoin(results);
    SpaceJoined(results);
    Regroup("RESULT", " ", SpaceJoin(results));
  }

  /** What the server shows of its store once it has run a line's parsed entries as one call. */
  function Served(g: Generations.Gens, now: int64, es: seq<RequestEntry>): Generations.Gens {
    if es == [] then g else Generations.Call(g, now, es)
  }

  const DEFAULT_MAX_LINE_SIZE := 64 * 1024

  const TOO_LONG := "ERROR" + " line too long" + "\n"

  lemma TooLongText()
    ensures TOO_LONG == "ERROR line too long\n"
  {
  }

  predicate Blank(line: string) {
    forall i :: 0 <= i < |line| ==> IsSpace(line[i])
  }

  class TextServer {
    const throttler: Throttling.InMemoryThrottler
    const maxLineSize: int

    constructor (throttler: Throttling.InMemoryThrottler, maxLineSize: int)
      ensures this.throttler == throttler && this.maxLineSize > 0
      ensures this.maxLineSize == if maxLineSize <= 0 then 65536 else maxLineSize
    {
      this.throttler := throttler;
      this.maxLineSize := if maxLineSize <= 0 then DEFAULT_MAX_LINE_SIZE else maxLineSize;
    }

    /** One THROTTLE line: its parsed entries are one call on the throttler, and every token
        is answered in its place. */
    method HandleThrottle(rest: string, now: int64) returns (response: string)
      requires throttler.Valid()
      modifies throttler.store, throttler.store.stripes, throttler.store.buckets
      ensures throttler.Valid() && fresh(throttler.store.buckets - old(throttler.store.buckets))
      ensures throttler.View() == Served(old(throttler.View()), now, Parsed(Fields(rest)))
      ensures response
              == Response(Answers(Fields(rest), Reports(old(throttler.View()).View(), now, Parsed(Fields(rest)))))
    {
      var tokens := Fields(rest);
      var entries, entryOk, entryIdx := ParseTokens(tokens);
      response := Answer(tokens, entries, entryOk, entryIdx, now);
    }

    method Answer(ghost tokens: seq<string>, entries: seq<RequestEntry>, entryOk: seq<bool>,
                  entryIdx: seq<nat>, now: int64)
      returns (response: string)
      requires throttler.Valid() && ParsedUpTo(tokens, |tokens|, entries, entryOk, entryIdx)
      modifies throttler.store, throttler.store.stripes, throttler.store.buckets
      ensures throttler.Valid() && fresh(throttler.store.buckets - old(throttler.store.buckets))
      ensures throttler.View() == Served(old(throttler.View()), now, entries)
      ensures response == Response(Answers(tokens, Reports(old(throttler.View()).View(), now, Parsed(tokens))))
    {
      assert tokens[..|tokens|] == tokens;
      var responses := Serve(entries, now);
      response := FormatResponse(tokens, responses, entryOk, entryIdx);
    }

    /** The throttler is called only if anything parsed. */
    method Serve(entries: seq<RequestEntry>, now: int64) returns (responses: seq<ResponseEntry>)
      requires throttler.Valid()
      modifies throttler.store, throttler.store.stripes, throttler.store.buckets
      ensures throttler.Valid() && fresh(throttler.store.buckets - old(throttler.store.buckets))
      ensures throttler.View() == Served(old(throttler.View()), now, entries)
      ensures responses == Reports(old(throttler.View()).View(), now, entries)
    {
      responses := [];
      if |entries| > 0 {
        var err: Option<Error>;
        responses, err := throttler.Throttle(false, now, entries);
      }
    }

    /** One line of any kind. Only THROTTLE touches the store. */
    method Dispatch(line: string, now: int64, uptime: int64) returns (response: string, closeConn: bool)
      requires throttler.Valid()
      modifies throttler.store, throttler.store.stripes, throttler.store.buckets
      ensures throttler.Valid() && fresh(throttler.store.buckets - old(throttler.store.buckets))
      ensures var (cmd, rest) := SplitCommand(line);
              if cmd == "THROTTLE" then
                && !closeConn
                && throttler.View() == Served(old(throttler.View()), now, Parsed(Fields(rest)))
                && response
                   == Response(Answers(Fields(rest), Reports(old(throttler.View()).View(), now, Parsed(Fields(rest)))))
              else
                && throttler.View() == old(throttler.View())
                && (closeConn <==> cmd == "QUIT")
                && response == Control(cmd, rest, uptime, old(|throttler.store.live|))
      ensures var (cmd, rest) := SplitCommand(line);
              && (cmd == "PING" ==> response == "PONG")
              && (cmd == "STATS" ==>
                    response == "STATS " + FormatInt(uptime) + " " + Digits(old(|throttler.store.live|)))
              && (cmd == "QUIT" ==> response == "" && closeConn)
              && (cmd == "HELLO" ==>
                    response == if Fields(rest) == [] then "ERROR missing version"
                                else if Fields(rest)[0] == "1" then "OK 1" else "ERROR unsupported version")
              && (cmd !in ["THROTTLE", "PING", "STATS", "QUIT", "HELLO"] ==> response == "ERROR unknown command")
    {
      var (cmd, rest) := SplitCommand(line);
      closeConn := false;
      if cmd == "HELLO" {
        response := Hello(Fields(rest));
      } else if cmd == "THROTTLE" {
        response := HandleThrottle(rest, now);
      } else if cmd == "PING" {
        response := "PONG";
      } else if cmd == "STATS" {
        var keys := throttler.store.KeyCountEstimate();
        response := "STATS " + FormatInt(uptime) + " " + Digits(keys);
      } else if cmd == "QUIT" {
        response, closeConn := "", true;
      } else {
        response := "ERROR unknown command";
      }
    }

    /** One turn of a connection: what it reads, what it writes back, and whether it ends. A
        line over the bound is answered with an error, ends the connection and never reaches
        the throttler. */
    method HandleLine(frags: seq<Fragment>, now: int64, uptime: int64) returns (reply: string, closeConn: bool)
      requires throttler.Valid() && Fragments(frags)
      modifies throttler.store, throttler.store.stripes, throttler.store.buckets
      ensures throttler.Valid() && fresh(throttler.store.buckets - old(throttler.store.buckets))
      ensures LineOf(Content(frags), maxLineSize).TooLong? ==> reply == TOO_LONG && closeConn
      ensures LineOf(Content(frags), maxLineSize).Failed? ==> reply == "" && closeConn
      ensures match LineOf(Content(frags), maxLineSize)
              case Line(bytes) =>
                IsReply(Decode(bytes), now, uptime, old(|throttler.store.live|), old(throttler.View()),
                        throttler.View(), reply, closeConn)
              case _ => throttler.View() == old(throttler.View())
    {
      var read, used := ReadLine(frags, maxLineSize);
      if read.TooLong? {
        return TOO_LONG, true;
      }
      if read.Failed? {
        return "", true;
      }
      var line := Decode(read.bytes);
      if Blank(line) {
        return "", false;
      }
      var response: string;
      response, closeConn := Dispatch(line, now, uptime);
      reply := Terminated(response);
    }
  }

  /** A line is blank exactly if it has no word. */
  lemma {:induction false} BlankHasNoWord(line: string)
    ensures Blank(line) <==> Fields(line) == []
  {
    if line != "" && IsSpace(line[0]) {
      BlankHasNoWord(line[1..]);
      assert line == [line[0]] + line[1..];
    }
  }

  /** How a line within the bound is served: a THROTTLE line is one call, nothing else
      changes the store, and a blank line is passed over. */
  ghost predicate IsReply(line: string, now: int64, uptime: int64, keys: nat, g: Generations.Gens,
                          after: Generations.Gens, reply: string, closeConn: bool)
  {
    var (cmd, rest) := SplitCommand(line);
    if Blank(line) then after == g && reply == "" && !closeConn
    else if cmd == "THROTTLE" then
      && !closeConn
      && after == Served(g, now, Parsed(Fields(rest)))
      && reply == Response(Answers(Fields(rest), Reports(g.View(), now, Parsed(Fields(rest))))) + "\n"
    else
      && after == g
      && (closeConn <==> cmd == "QUIT")
      && reply == Terminated(Control(cmd, rest, uptime, keys))
  }

  lemma ControlInFull(cmd: string, rest: string, uptime: int64, keys: nat)
    ensures var reply, args := Terminated(Control(cmd, rest, uptime, keys)), Fields(rest);
            && (cmd == "PING" ==> reply == "PONG\n")
            && (cmd == "STATS" ==> reply == "STATS " + FormatInt(uptime) + " " + Digits(keys) + "\n")
            && (cmd == "QUIT" ==> reply == "")
            && (cmd == "HELLO" ==>
                  reply == if args == [] then "ERROR missing version\n"
                           else if args[0] == "1" then "OK 1\n" else "ERROR unsupported version\n")
            && (cmd !in ["PING", "STATS", "QUIT", "HELLO"] ==> reply == "ERROR unknown command\n")
  {
  }

  /** What is written back to a line, command by command, newline included. */
  lemma RepliesInFull(line: string, now: int64, uptime: int64, keys: nat, g: Generations.Gens,
                      after: Generations.Gens, reply: string, closeConn: bool)
    requires IsReply(line, now, uptime, keys, g, after, reply, closeConn)
    ensures Fields(line) == [] ==> reply == "" && !closeConn && after == g
    ensures Fields(line) != [] ==>
              var cmd, args := Fields(line)[0], Fields(line)[1..];
              && (closeConn <==> cmd == "QUIT") && (cmd != "THROTTLE" ==> after == g)
              && (cmd == "THROTTLE" ==> after == Served(g, now, Parsed(args)))
              && (cmd == "PING" ==> reply == "PONG\n")
              && (cmd == "STATS" ==> reply == "STATS " + FormatInt(uptime) + " " + Digits(keys) + "\n")
              && (cmd == "QUIT" ==> reply == "")
              && (cmd == "HELLO" ==>
                    reply == if args == [] then "ERROR missing version\n"
                             else if args[0] == "1" then "OK 1\n" else "ERROR unsupported version\n")
              && (cmd !in ["THROTTLE", "PING", "STATS", "QUIT", "HELLO"] ==> reply == "ERROR unknown command\n")
  {
    BlankHasNoWord(line);
    CommandIsFirstField(line);
    ControlInFull(SplitCommand(line).0, SplitCommand(line).1, uptime, keys);
  }

  function Terminated(response: string): string {
    if response != "" then response + "\n" else ""
  }

  /** The answers to the other commands. */
  function Control(cmd: string, rest: string, uptime: int64, keys: nat): string {
    match cmd
    case "HELLO" => Hello(Fields(rest))
    case "PING" => "PONG"
    case "STATS" => "STATS " + FormatInt(uptime) + " " + Digits(keys)
    case "QUIT" => ""
    case _ => "ERROR unknown command"
  }

  function Hello(fields: seq<string>): string {
    if fields == [] then "ERROR missing version"
    else if fields[0] != "1" then "ERROR unsupported version"
    else "OK 1"
  }
}

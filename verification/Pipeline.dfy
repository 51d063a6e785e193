/** One connection generation of the pipelining client (client/conn.go): the semaphore
    and pending queue, submitters, the reader, and aborts, as interleaved steps. */
module Pipeline {
  import opened Types
  import opened Positions

  const MAX_IN_FLIGHT: nat := 256

  type Cid = nat

  datatype Agent = Reader | Caller(c: Cid)

  /** Where a submitter or the reader stands. `drain` tells a drained call from one that
      the reader took to answer. */
  datatype Pc =
    | Held                                   // has a token, has not taken mu yet
    | Stale                                  // the generation was replaced: the token goes back
    | Writing                                // enqueued, holds mu, request not on the wire
    | Written                                // request on the wire, still holds mu
    | Waiting                                // submitted, waits for its result
    | Left                                   // gave its token back
    | Reading                                // the reader, waiting for a response line
    | GotLine                                // has read a line, has not dequeued yet
    | Releasing(call: Cid, drain: bool)      // has dequeued, token not released
    | Delivering(call: Cid, drain: bool)     // about to send the result
    | Clearing                               // in abort, before it takes mu
    | Closing                                // has cleared the connection, not closed it
    | Draining                               // about to look at the queue
    | Drained                                // abort has returned

  /** What a call's one-slot channel received: the decoded line k, or the abort's error. */
  datatype Answer = Line(k: nat, ok: bool) | Aborted

  /** The fields from enqueued on are history: calls in order of enqueueing and dequeueing,
      requests completely on the wire, response lines sent and read, the number of calls
      dequeued before the first drain step, and of requests written before the first failed
      write; for each call enqueued whether its request was written, and whether a failed write
      left part of it on the wire, once that is settled; for each call dequeued whether the
      reader took it; and what is on the wire: of each line the calls that wrote some of it, and
      of the unfinished last line those that wrote part of their requests there. */
  datatype State = State(
    free: nat, queue: seq<Cid>, mu: Option<Agent>, current: bool, open: bool, pcs: map<Agent, Pc>,
    results: map<Cid, Answer>,
    enqueued: seq<Cid>, taken: seq<Cid>, sent: seq<Cid>, answered: nat, read: nat,
    drained: bool, inOrder: nat, failed: bool, clean: nat, wrote: seq<bool>, byReader: seq<bool>,
    torn: seq<bool>, lines: seq<seq<Cid>>, part: seq<Cid>)

  const FRESH := State(MAX_IN_FLIGHT, [], None, true, true, map[Reader := Reading], map[],
                       [], [], [], 0, 0, false, 0, false, 0, [], [], [], [], [])

  datatype Action =
    | Acquire(c: Cid)                        // <-gen.sem
    | Check(c: Cid)                          // mu.Lock, c.conn != conn, gen.pending <- call
    | Send(c: Cid)                           // the request's last byte reaches the wire
    | Return(c: Cid)                         // conn.Write returns nil, mu.Unlock
    | WriteFails(c: Cid, part: bool)         // conn.Write returns an error, part sent or not, mu.Unlock
    | Respond                                // the server sends its next response line
    | ReadLine
    | ReadFails
    | Take                                   // the reader's <-gen.pending or its default case
    | Release(a: Agent)
    | Deliver(a: Agent, ok: bool)
    | Clear(a: Agent)
    | CloseSocket(a: Agent)
    | DrainTake(a: Agent)                    // a drain's <-gen.pending or its default case
    | Retire                                 // close() clears the connection
    | CloseRetired                           // close() closes the socket it has cleared

  predicate At(s: State, a: Agent, pc: Pc) {
    a in s.pcs && s.pcs[a] == pc
  }

  predicate Enabled(s: State, a: Action) {
    match a
    case Acquire(c) => Caller(c) !in s.pcs && s.free > 0
    case Check(c) => At(s, Caller(c), Held) && s.mu.None?
    case Send(c) => At(s, Caller(c), Writing)
    case Return(c) => At(s, Caller(c), Written)
    case WriteFails(c, _) => At(s, Caller(c), Writing)
    case Respond => s.answered < |s.sent|
    case ReadLine => At(s, Reader, Reading) && s.read < s.answered
    case ReadFails => At(s, Reader, Reading)
    case Take => At(s, Reader, GotLine)
    case Release(g) => g in s.pcs && (s.pcs[g].Stale? || s.pcs[g].Releasing?)
    case Deliver(g, _) => g in s.pcs && s.pcs[g].Delivering?
    case Clear(g) => At(s, g, Clearing) && s.mu.None?
    case CloseSocket(g) => At(s, g, Closing)
    case DrainTake(g) => At(s, g, Draining)
    case Retire => s.mu.None?
    case CloseRetired => !s.current
  }

  /** The agent that takes the step. */
  function Mover(a: Action): Option<Agent> {
    match a
    case Acquire(c) => Some(Caller(c))
    case Check(c) => Some(Caller(c))
    case Send(c) => Some(Caller(c))
    case Return(c) => Some(Caller(c))
    case WriteFails(c, _) => Some(Caller(c))
    case Respond => None
    case ReadLine => Some(Reader)
    case ReadFails => Some(Reader)
    case Take => Some(Reader)
    case Release(g) => Some(g)
    case Deliver(g, _) => Some(g)
    case Clear(g) => Some(g)
    case CloseSocket(g) => Some(g)
    case DrainTake(g) => Some(g)
    case Retire => None
    case CloseRetired => None
  }

  /** Where that agent goes. */
  function NextPc(s: State, a: Action): Pc
    requires Enabled(s, a) && Mover(a).Some?
  {
    match a
    case Acquire(_) => Held
    case Check(_) => if s.current then Writing else Stale
    case Send(_) => Written
    case Return(_) => Waiting
    case WriteFails(_, _) => Clearing
    case ReadLine => GotLine
    case ReadFails => Clearing
    case Take => if s.queue == [] then Clearing else Releasing(s.queue[0], false)
    case Release(g) => if s.pcs[g].Stale? then Left else Delivering(s.pcs[g].call, s.pcs[g].drain)
    case Deliver(g, ok) => if s.pcs[g].drain then Draining else if ok then Reading else Clearing
    case Clear(_) => Closing
    case CloseSocket(_) => Draining
    case DrainTake(_) => if s.queue == [] then Drained else Releasing(s.queue[0], true)
  }

  /** Whether the step enqueues its call, and whether it takes the oldest pending one. */
  predicate Enqueues(s: State, a: Action) {
    a.Check? && s.current
  }

  predicate Dequeues(s: State, a: Action) {
    (a.Take? || a.DrainTake?) && s.queue != []
  }

  /** A drain delivers its error, the reader its last line. */
  function Result(s: State, a: Action): Answer
    requires Enabled(s, a) && a.Deliver?
  {
    if s.pcs[a.a].drain then Aborted else Line(if s.read > 0 then s.read - 1 else 0, a.ok)
  }

  /** What a step does, field by field. */
  function Apply(s: State, a: Action): State
    requires Enabled(s, a)
  {
    State(
      free := if a.Acquire? then s.free - 1 else if a.Release? then s.free + 1 else s.free,
      queue := if Enqueues(s, a) then s.queue + [a.c] else if Dequeues(s, a) then s.queue[1..] else s.queue,
      mu := if Enqueues(s, a) then Some(Caller(a.c)) else if a.Return? || a.WriteFails? then None else s.mu,
      current := s.current && !a.Clear? && !a.Retire?,
      open := s.open && !a.CloseSocket? && !a.CloseRetired?,
      pcs := if Mover(a).Some? then s.pcs[Mover(a).value := NextPc(s, a)] else s.pcs,
      results := if a.Deliver? then s.results[s.pcs[a.a].call := Result(s, a)] else s.results,
      enqueued := if Enqueues(s, a) then s.enqueued + [a.c] else s.enqueued,
      taken := if Dequeues(s, a) then s.taken + [s.queue[0]] else s.taken,
      sent := if a.Send? then s.sent + [a.c] else s.sent,
      answered := if a.Respond? then s.answered + 1 else s.answered,
      read := if a.ReadLine? then s.read + 1 else s.read,
      drained := s.drained || (a.DrainTake? && Dequeues(s, a)),
      inOrder := if a.Take? && Dequeues(s, a) && !s.drained then s.inOrder + 1 else s.inOrder,
      failed := s.failed || a.WriteFails?,
      clean := if a.Send? && !s.failed then s.clean + 1 else s.clean,
      wrote := if a.Send? || a.WriteFails? then s.wrote + [a.Send?] else s.wrote,
      byReader := if Dequeues(s, a) then s.byReader + [a.Take?] else s.byReader,
      torn := if a.Send? || a.WriteFails? then s.torn + [a.WriteFails? && a.part] else s.torn,
      lines := if a.Send? then s.lines + [s.part + [a.c]] else s.lines,
      part := if a.Send? then [] else if a.WriteFails? && a.part then s.part + [a.c] else s.part)
  }

  // ------------------------------------------------------------------ tokens

  predicate HasToken(pc: Pc) {
    pc.Held? || pc.Stale? || pc.Releasing?
  }

  /** The agents that hold a token, for themselves or for a call they have dequeued. */
  function Holders(s: State): set<Agent> {
    set a | a in s.pcs && HasToken(s.pcs[a])
  }

  /** Every token is free, held, or stands for a queued call. */
  predicate Conserved(s: State) {
    s.free + |Holders(s)| + |s.queue| == MAX_IN_FLIGHT
  }

  function Weight(s: State, g: Agent): nat {
    if g in s.pcs && HasToken(s.pcs[g]) then 1 else 0
  }

  /** A step moves one agent. */
  lemma OthersStay(s: State, a: Action, h: Agent)
    requires Enabled(s, a) && Mover(a) != Some(h)
    ensures h in Apply(s, a).pcs <==> h in s.pcs
    ensures h in s.pcs ==> Apply(s, a).pcs[h] == s.pcs[h]
  {
  }

  lemma StepHolders(s: State, a: Action)
    requires Enabled(s, a)
    ensures Mover(a).None? ==> |Holders(Apply(s, a))| == |Holders(s)|
    ensures Mover(a).Some? ==>
              |Holders(Apply(s, a))| + Weight(s, Mover(a).value) == |Holders(s)| + Weight(Apply(s, a), Mover(a).value)
  {
    var s' := Apply(s, a);
    forall h | Mover(a) != Some(h)
      ensures h in Holders(s') <==> h in Holders(s)
    {
      OthersStay(s, a, h);
    }
    if Mover(a).None? {
      assert Holders(s') == Holders(s);
    } else {
      MovedOne(s, s', Mover(a).value);
    }
  }

  lemma MovedOne(s: State, s': State, g: Agent)
    requires forall h :: h != g ==> (h in Holders(s') <==> h in Holders(s))
    ensures |Holders(s')| + Weight(s, g) == |Holders(s)| + Weight(s', g)
  {
    assert Holders(s') - {g} == Holders(s) - {g};
    WithoutOne(s, g);
    WithoutOne(s', g);
  }

  lemma WithoutOne(s: State, g: Agent)
    ensures |Holders(s)| == |Holders(s) - {g}| + Weight(s, g)
  {
    assert g in Holders(s) <==> Weight(s, g) == 1;
    if g in Holders(s) {
      assert Holders(s) == (Holders(s) - {g}) + {g};
    } else {
      assert Holders(s) == Holders(s) - {g};
    }
  }

  /** No step makes or loses a token. */
  lemma StepConserves(s: State, a: Action)
    requires Conserved(s) && Enabled(s, a)
    ensures Conserved(Apply(s, a))
  {
    StepHolders(s, a);
    var s' := Apply(s, a);
    assert s'.free + |s'.queue| + (if Mover(a).Some? then Weight(s', Mover(a).value) else 0)
           == s.free + |s.queue| + (if Mover(a).Some? then Weight(s, Mover(a).value) else 0);
  }

  // --------------------------------------------------------- the mu section

  predicate CallersOnly(pc: Pc) {
    pc.Held? || pc.Stale? || pc.Writing? || pc.Written? || pc.Waiting? || pc.Left?
  }

  predicate InAbort(pc: Pc) {
    pc.Closing? || pc.Draining? || pc.Drained? || (pc.Releasing? && pc.drain) || (pc.Delivering? && pc.drain)
  }

  /** A writer holds mu; an abort that has cleared the connection finds it cleared for good;
      a finished drain leaves an empty queue; only the reader takes calls to answer them. */
  ghost predicate AgentOk(s: State, a: Agent)
    requires a in s.pcs
  {
    var pc := s.pcs[a];
    && (pc.Writing? || pc.Written? ==> s.mu == Some(a))
    && (InAbort(pc) ==> !s.current)
    && (pc.Drained? ==> s.queue == [])
    && (a == Reader ==> !CallersOnly(pc))
    && (a != Reader ==> !pc.Reading? && !pc.GotLine? && (pc.Releasing? || pc.Delivering? ==> pc.drain))
  }

  ghost predicate Sections(s: State) {
    && Reader in s.pcs && (forall a :: a in s.pcs ==> AgentOk(s, a))
    && (s.mu.Some? ==> s.current && s.mu.value in s.pcs && (s.pcs[s.mu.value].Writing? || s.pcs[s.mu.value].Written?))
    && (s.drained || !s.open ==> !s.current)
  }

  lemma OthersSection(s: State, a: Action, b: Agent)
    requires Sections(s) && Enabled(s, a) && b in s.pcs && Mover(a) != Some(b)
    ensures b in Apply(s, a).pcs && AgentOk(Apply(s, a), b)
  {
    assert AgentOk(s, b);
    if Mover(a).Some? && Mover(a).value in s.pcs {
      assert AgentOk(s, Mover(a).value);
    }
  }

  lemma SubmitterSection(s: State, a: Action)
    requires Sections(s) && Enabled(s, a) && (a.Acquire? || a.Check? || a.Send? || a.Return? || a.WriteFails?)
    ensures Caller(a.c) in Apply(s, a).pcs && AgentOk(Apply(s, a), Caller(a.c))
  {
    if !a.Acquire? {
      assert AgentOk(s, Caller(a.c));
    }
  }

  lemma ReaderSection(s: State, a: Action)
    requires Sections(s) && Enabled(s, a) && (a.ReadLine? || a.ReadFails? || a.Take?)
    ensures Reader in Apply(s, a).pcs && AgentOk(Apply(s, a), Reader)
  {
    assert AgentOk(s, Reader);
  }

  lemma AbortSection(s: State, a: Action)
    requires Sections(s) && Enabled(s, a)
    requires a.Release? || a.Deliver? || a.Clear? || a.CloseSocket? || a.DrainTake?
    ensures a.a in Apply(s, a).pcs && AgentOk(Apply(s, a), a.a)
  {
    assert AgentOk(s, a.a);
  }

  lemma OwnSection(s: State, a: Action)
    requires Sections(s) && Enabled(s, a) && Mover(a).Some?
    ensures Mover(a).value in Apply(s, a).pcs && AgentOk(Apply(s, a), Mover(a).value)
  {
    if a.Acquire? || a.Check? || a.Send? || a.Return? || a.WriteFails? {
      SubmitterSection(s, a);
    } else if a.ReadLine? || a.ReadFails? || a.Take? {
      ReaderSection(s, a);
    } else {
      AbortSection(s, a);
    }
  }

  lemma MuSection(s: State, a: Action)
    requires Sections(s) && Enabled(s, a)
    ensures var s' := Apply(s, a);
            && (s'.mu.Some? ==> s'.current && s'.mu.value in s'.pcs
                                && (s'.pcs[s'.mu.value].Writing? || s'.pcs[s'.mu.value].Written?))
            && (s'.drained || !s'.open ==> !s'.current)
  {
    if Mover(a).Some? && Mover(a).value in s.pcs {
      assert AgentOk(s, Mover(a).value);
    }
  }

  lemma StepSections(s: State, a: Action)
    requires Sections(s) && Enabled(s, a)
    ensures Sections(Apply(s, a))
  {
    MuSection(s, a);
    if Mover(a).Some? {
      OwnSection(s, a);
    }
    forall b | b in s.pcs && Mover(a) != Some(b) {
      OthersSection(s, a, b);
    }
  }

  // ------------------------------------------------------------ who gets what

  predicate Distinct(cs: seq<Cid>) {
    forall i, j :: 0 <= i < j < |cs| ==> cs[i] != cs[j]
  }

  predicate InHand(s: State, a: Agent, c: Cid) {
    a in s.pcs && (s.pcs[a].Releasing? || s.pcs[a].Delivering?) && s.pcs[a].call == c
  }

  /** A call is enqueued once, after it took its token. */
  ghost predicate Queued(s: State) {
    && s.enqueued == s.taken + s.queue && Distinct(s.enqueued)
    && (forall c :: c in s.enqueued ==>
          Caller(c) in s.pcs && !s.pcs[Caller(c)].Held? && !s.pcs[Caller(c)].Stale? && !s.pcs[Caller(c)].Left?)
  }

  /** A dequeued call is in the hands of one agent, or has its result, never both. */
  ghost predicate Delivered(s: State) {
    && (forall c :: c in s.results ==> c in s.taken)
    && (forall c :: c in s.taken && c !in s.results ==> exists a :: InHand(s, a, c))
    && (forall a, c :: InHand(s, a, c) ==> c in s.taken && c !in s.results)
    && (forall a, b, c :: InHand(s, a, c) && InHand(s, b, c) ==> a == b)
  }

  lemma CheckQueued(s: State, c: Cid)
    requires Queued(s) && Enabled(s, Check(c)) && s.current
    ensures Queued(Apply(s, Check(c)))
  {
    assert c !in s.enqueued;
  }

  lemma DequeueQueued(s: State, a: Action)
    requires Queued(s) && Enabled(s, a) && (a.Take? || a.DrainTake?) && s.queue != []
    ensures Queued(Apply(s, a))
  {
    var s' := Apply(s, a);
    assert s.queue == [s.queue[0]] + s.queue[1..];
    assert s'.taken + s'.queue == s.enqueued;
  }

  lemma StepQueued(s: State, a: Action)
    requires Queued(s) && Enabled(s, a)
    ensures Queued(Apply(s, a))
  {
    if a.Check? && s.current {
      CheckQueued(s, a.c);
    } else if (a.Take? || a.DrainTake?) && s.queue != [] {
      DequeueQueued(s, a);
    } else {
      assert Apply(s, a).enqueued == s.enqueued;
    }
  }

  /** Dequeuing puts the oldest queued call in one agent's hands. */
  lemma DequeueDelivered(s: State, a: Action)
    requires Queued(s) && Delivered(s) && Enabled(s, a) && (a.Take? || a.DrainTake?) && s.queue != []
    ensures Delivered(Apply(s, a))
  {
    var s', g, head := Apply(s, a), Mover(a).value, s.queue[0];
    assert s.enqueued[|s.taken|] == head && forall i :: 0 <= i < |s.taken| ==> s.taken[i] == s.enqueued[i];
    assert InHand(s', g, head);
    assert forall b, c :: InHand(s', b, c) <==> InHand(s, b, c) || (b == g && c == head);
  }

  lemma DeliverDelivered(s: State, a: Action)
    requires Delivered(s) && Enabled(s, a) && a.Deliver?
    ensures Delivered(Apply(s, a))
  {
    var s', call := Apply(s, a), s.pcs[a.a].call;
    assert InHand(s, a.a, call);
    assert forall b, c :: InHand(s', b, c) <==> InHand(s, b, c) && b != a.a;
  }

  lemma HandsStay(s: State, a: Action, b: Agent, c: Cid)
    requires Enabled(s, a) && !Dequeues(s, a) && !a.Deliver?
    ensures InHand(Apply(s, a), b, c) <==> InHand(s, b, c)
  {
  }

  lemma OtherDelivered(s: State, a: Action)
    requires Delivered(s) && Enabled(s, a) && !Dequeues(s, a) && !a.Deliver?
    ensures Delivered(Apply(s, a))
  {
    forall b, c {
      HandsStay(s, a, b, c);
    }
    assert Apply(s, a).taken == s.taken && Apply(s, a).results == s.results;
  }

  lemma StepDelivered(s: State, a: Action)
    requires Queued(s) && Delivered(s) && Enabled(s, a)
    ensures Delivered(Apply(s, a))
  {
    if (a.Take? || a.DrainTake?) && s.queue != [] {
      DequeueDelivered(s, a);
    } else if a.Deliver? {
      DeliverDelivered(s, a);
    } else {
      OtherDelivered(s, a);
    }
  }

  // ------------------------------------------------------- lines and requests

  predicate Unsent(s: State) {
    s.mu.Some? && s.mu.value in s.pcs && s.pcs[s.mu.value].Writing?
  }

  /** Every response read answers a request sent before it, and every request sent was
      enqueued before that. */
  ghost predicate Counted(s: State) {
    && s.read <= s.answered <= |s.sent|
    && |s.sent| + (if Unsent(s) then 1 else 0) <= |s.enqueued|
    && s.clean <= |s.sent|
    && (!s.failed ==> s.clean == |s.sent| && |s.sent| + (if Unsent(s) then 1 else 0) == |s.enqueued|)
    && (s.failed ==> |s.sent| + (if Unsent(s) then 1 else 0) < |s.enqueued|)
    && (forall k :: 0 <= k < |s.sent| ==> (s.sent[k] == s.enqueued[k] <==> k < s.clean))
    && (Unsent(s) ==> s.enqueued != [] && Caller(s.enqueued[|s.enqueued| - 1]) == s.mu.value)
  }

  lemma SendCounted(s: State, c: Cid)
    requires Sections(s) && Queued(s) && Counted(s) && Enabled(s, Send(c))
    ensures Counted(Apply(s, Send(c)))
  {
    assert AgentOk(s, Caller(c));
    LastIsUnsent(s, c);
    SentCounted(s, Apply(s, Send(c)), c);
  }

  lemma SentCounted(s: State, s': State, c: Cid)
    requires Counted(s) && Unsent(s) && !Unsent(s')
    requires |s.sent| < |s.enqueued| && (s.enqueued[|s.sent|] == c <==> !s.failed)
    requires s'.sent == s.sent + [c] && s'.clean == if s.failed then s.clean else s.clean + 1
    requires s'.enqueued == s.enqueued && s'.failed == s.failed && s'.read == s.read && s'.answered == s.answered
    ensures Counted(s')
  {
  }

  /** The request being written is the next one, and in its own place unless a write failed. */
  lemma LastIsUnsent(s: State, c: Cid)
    requires Queued(s) && Counted(s) && s.mu == Some(Caller(c)) && At(s, Caller(c), Writing)
    ensures Unsent(s) && |s.sent| < |s.enqueued|
    ensures s.enqueued[|s.sent|] == c <==> !s.failed
  {
  }

  lemma CheckCounted(s: State, c: Cid)
    requires Sections(s) && Counted(s) && Enabled(s, Check(c))
    ensures Counted(Apply(s, Check(c)))
  {
  }

  lemma MuCounted(s: State, a: Action)
    requires Sections(s) && Counted(s) && Enabled(s, a) && (a.Return? || a.WriteFails?)
    ensures Counted(Apply(s, a))
  {
    assert AgentOk(s, Caller(a.c));
  }

  /** No other step comes near mu or the requests. */
  lemma RequestsStay(s: State, a: Action)
    requires Enabled(s, a) && !a.Send? && !a.Check? && !a.Return? && !a.WriteFails?
    ensures Apply(s, a).mu == s.mu && Apply(s, a).sent == s.sent && Apply(s, a).enqueued == s.enqueued
    ensures Apply(s, a).failed == s.failed && Apply(s, a).clean == s.clean
  {
  }

  lemma WriterStays(s: State, a: Action, g: Agent)
    requires Enabled(s, a) && !a.Send? && !a.Check? && !a.Return? && !a.WriteFails? && g in s.pcs
    ensures g in Apply(s, a).pcs && (Apply(s, a).pcs[g].Writing? <==> s.pcs[g].Writing?)
  {
  }

  lemma LinesCount(s: State, a: Action)
    requires Enabled(s, a)
    ensures Apply(s, a).read == s.read + (if a.ReadLine? then 1 else 0)
    ensures Apply(s, a).answered == s.answered + (if a.Respond? then 1 else 0)
  {
  }

  lemma OtherCounted(s: State, a: Action)
    requires Sections(s) && Counted(s) && Enabled(s, a) && !a.Send? && !a.Check? && !a.Return? && !a.WriteFails?
    ensures Counted(Apply(s, a))
  {
    RequestsStay(s, a);
    LinesCount(s, a);
    var s' := Apply(s, a);
    assert s'.mu == s.mu && s'.sent == s.sent && s'.enqueued == s.enqueued;
    assert s'.failed == s.failed && s'.clean == s.clean;
    if s.mu.Some? {
      WriterStays(s, a, s.mu.value);
    }
    SameCounted(s, s');
  }

  lemma SameCounted(s: State, s': State)
    requires Counted(s) && Unsent(s') == Unsent(s) && s'.read <= s'.answered <= |s.sent|
    requires s'.mu == s.mu && s'.sent == s.sent && s'.enqueued == s.enqueued
    requires s'.failed == s.failed && s'.clean == s.clean
    ensures Counted(s')
  {
  }

  lemma StepCounted(s: State, a: Action)
    requires Sections(s) && Queued(s) && Counted(s) && Enabled(s, a)
    ensures Counted(Apply(s, a))
  {
    if a.Send? {
      SendCounted(s, a.c);
    } else if a.Check? {
      CheckCounted(s, a.c);
    } else if a.Return? || a.WriteFails? {
      MuCounted(s, a);
    } else {
      OtherCounted(s, a);
    }
  }

  /** The line the reader holds, or is answering with, has not been matched yet. */
  predicate LineInHand(s: State) {
    Reader in s.pcs && (s.pcs[Reader].GotLine?
                        || ((s.pcs[Reader].Releasing? || s.pcs[Reader].Delivering?) && !s.pcs[Reader].drain))
  }

  /** Line k meets the k-th enqueued call, as long as no drain has taken a call before. */
  ghost predicate Matched(s: State) {
    && s.inOrder <= |s.taken| <= |s.enqueued|
    && (!s.drained ==> s.inOrder == |s.taken| && s.read == s.inOrder + (if At(s, Reader, GotLine) then 1 else 0))
    && (s.drained ==> s.inOrder + (if At(s, Reader, GotLine) then 1 else 0) <= s.read)
    && (LineInHand(s) ==> s.read > 0)
    && (LineInHand(s) && !s.pcs[Reader].GotLine? && s.read <= s.inOrder ==>
          s.pcs[Reader].call == s.enqueued[s.read - 1])
    && (forall c :: c in s.results && s.results[c].Line? ==>
          && s.results[c].k < s.read - (if LineInHand(s) then 1 else 0)
          && (s.results[c].k < s.inOrder ==> s.enqueued[s.results[c].k] == c))
  }

  /** Until a drain step, a reader with a line in hand finds a call in the queue. */
  lemma NothingPendingUnreachable(s: State)
    requires Queued(s) && Counted(s) && Matched(s) && !s.drained && At(s, Reader, GotLine)
    ensures s.queue != [] && s.queue[0] == s.enqueued[s.read - 1]
  {
    assert |s.enqueued| == |s.taken| + |s.queue|;
  }

  lemma TakeMatched(s: State)
    requires Sections(s) && Queued(s) && Counted(s) && Matched(s) && Enabled(s, Take)
    ensures Matched(Apply(s, Take))
  {
    if !s.drained {
      NothingPendingUnreachable(s);
    } else {
      assert Apply(s, Take).results == s.results && Apply(s, Take).enqueued == s.enqueued;
    }
  }

  lemma DrainTakeMatched(s: State, g: Agent)
    requires Sections(s) && Queued(s) && Matched(s) && Enabled(s, DrainTake(g)) && s.queue != []
    ensures Matched(Apply(s, DrainTake(g)))
  {
    var s' := Apply(s, DrainTake(g));
    assert |s.enqueued| == |s.taken| + |s.queue|;
    assert s'.enqueued == s.enqueued && s'.results == s.results && s'.read == s.read && s'.inOrder == s.inOrder;
    assert LineInHand(s') == LineInHand(s) && s'.drained;
  }

  lemma ReadLineMatched(s: State)
    requires Matched(s) && Enabled(s, ReadLine)
    ensures Matched(Apply(s, ReadLine))
  {
  }

  lemma DeliverMatched(s: State, g: Agent, ok: bool)
    requires Sections(s) && Matched(s) && Enabled(s, Deliver(g, ok))
    ensures Matched(Apply(s, Deliver(g, ok)))
  {
    assert AgentOk(s, g);
  }

  lemma CheckMatched(s: State, c: Cid)
    requires Sections(s) && Matched(s) && Enabled(s, Check(c))
    ensures Matched(Apply(s, Check(c)))
  {
  }

  /** No other step matches lines with calls. */
  predicate Unmatching(s: State, a: Action) {
    !a.Take? && !a.ReadLine? && !a.Deliver? && !a.Check? && (a.DrainTake? ==> s.queue == [])
  }

  lemma MatchesStay(s: State, a: Action)
    requires Enabled(s, a) && Unmatching(s, a)
    ensures Apply(s, a).results == s.results && Apply(s, a).enqueued == s.enqueued && Apply(s, a).taken == s.taken
    ensures Apply(s, a).read == s.read && Apply(s, a).drained == s.drained && Apply(s, a).inOrder == s.inOrder
  {
  }

  lemma LineStays(s: State, a: Action)
    requires Sections(s) && Enabled(s, a) && Unmatching(s, a)
    ensures Reader in Apply(s, a).pcs
    ensures At(Apply(s, a), Reader, GotLine) ==> At(s, Reader, GotLine)
    ensures LineInHand(Apply(s, a)) ==> LineInHand(s)
    ensures LineInHand(s) ==> LineInHand(Apply(s, a)) && (At(s, Reader, GotLine) ==> At(Apply(s, a), Reader, GotLine))
                              && (!s.pcs[Reader].GotLine? ==> Apply(s, a).pcs[Reader].call == s.pcs[Reader].call)
  {
    assert AgentOk(s, Reader);
  }

  lemma OtherMatched(s: State, a: Action)
    requires Sections(s) && Matched(s) && Enabled(s, a) && Unmatching(s, a)
    ensures Matched(Apply(s, a))
  {
    MatchesStay(s, a);
    LineStays(s, a);
    SameMatched(s, Apply(s, a));
  }

  lemma SameMatched(s: State, s': State)
    requires Matched(s) && Reader in s'.pcs && Reader in s.pcs
    requires s'.results == s.results && s'.enqueued == s.enqueued && s'.taken == s.taken
    requires s'.read == s.read && s'.drained == s.drained && s'.inOrder == s.inOrder
    requires At(s', Reader, GotLine) == At(s, Reader, GotLine) && LineInHand(s') == LineInHand(s)
    requires LineInHand(s) && !s.pcs[Reader].GotLine? ==> s'.pcs[Reader].call == s.pcs[Reader].call
    ensures Matched(s')
  {
  }

  lemma StepMatched(s: State, a: Action)
    requires Sections(s) && Queued(s) && Counted(s) && Matched(s) && Enabled(s, a)
    ensures Matched(Apply(s, a))
  {
    if a.Take? {
      TakeMatched(s);
    } else if a.DrainTake? && s.queue != [] {
      DrainTakeMatched(s, a.a);
    } else if a.ReadLine? {
      ReadLineMatched(s);
    } else if a.Deliver? {
      DeliverMatched(s, a.a, a.ok);
    } else if a.Check? {
      CheckMatched(s, a.c);
    } else {
      OtherMatched(s, a);
    }
  }

  // ------------------------------------------------------- whose line is it

  /** The reader may still read lines. */
  predicate StillReading(s: State) {
    Reader in s.pcs && (s.pcs[Reader].Reading? || LineInHand(s))
  }

  /** The requests on the wire are those of the calls written, in order. */
  ghost predicate Settled(s: State) {
    && |s.wrote| + (if Unsent(s) then 1 else 0) == |s.enqueued|
    && s.sent == Chosen(s.wrote, s.enqueued)
  }

  /** No call settled since the last one written before place t left part of its request. */
  predicate Intact(wrote: seq<bool>, torn: seq<bool>, t: nat)
    requires t <= |wrote| == |torn|
  {
    t == 0 || wrote[t - 1] || (!torn[t - 1] && Intact(wrote, torn, t - 1))
  }

  lemma {:induction false} IntactAppend(wrote: seq<bool>, torn: seq<bool>, w: bool, x: bool, t: nat)
    requires t <= |wrote| == |torn|
    ensures Intact(wrote + [w], torn + [x], t) == Intact(wrote, torn, t)
  {
    if t > 0 {
      IntactAppend(wrote, torn, w, x, t - 1);
    }
  }

  /** Line k on the wire ends with the k-th request written, and holds nothing else exactly if
      no failed write left a part before it. */
  ghost predicate LineOk(s: State, k: nat)
    requires |s.torn| == |s.wrote|
  {
    && k < |s.lines| && k < |s.sent| && k < |Places(s.wrote)| && Places(s.wrote)[k] < |s.wrote|
    && s.lines[k] != [] && s.lines[k][|s.lines[k]| - 1] == s.sent[k]
    && (|s.lines[k]| == 1 <==> Intact(s.wrote, s.torn, Places(s.wrote)[k]))
  }

  ghost predicate Lined(s: State) {
    && |s.torn| == |s.wrote| && |s.lines| == |s.sent| == |Places(s.wrote)|
    && (s.part == [] <==> Intact(s.wrote, s.torn, |s.wrote|))
    && (forall k :: 0 <= k < |s.sent| ==> LineOk(s, k))
  }

  lemma OldLine(s: State, s': State, w: bool, x: bool, k: nat)
    requires Lined(s) && k < |s.sent|
    requires s'.wrote == s.wrote + [w] && s'.torn == s.torn + [x] && s.lines <= s'.lines && s.sent <= s'.sent
    ensures |s'.torn| == |s'.wrote| && LineOk(s', k)
  {
    assert LineOk(s, k);
    PlacesAppend(s.wrote, w);
    IntactAppend(s.wrote, s.torn, w, x, Places(s.wrote)[k]);
  }

  lemma SendLined(s: State, c: Cid)
    requires Lined(s) && Enabled(s, Send(c))
    ensures Lined(Apply(s, Send(c)))
  {
    var s', n := Apply(s, Send(c)), |s.sent|;
    PlacesAppend(s.wrote, true);
    IntactAppend(s.wrote, s.torn, true, false, |s.wrote|);
    forall k | 0 <= k <= n
      ensures LineOk(s', k)
    {
      if k < n {
        OldLine(s, s', true, false, k);
      }
    }
  }

  lemma FailLined(s: State, c: Cid, part: bool)
    requires Lined(s) && Enabled(s, WriteFails(c, part))
    ensures Lined(Apply(s, WriteFails(c, part)))
  {
    var s' := Apply(s, WriteFails(c, part));
    PlacesAppend(s.wrote, false);
    IntactAppend(s.wrote, s.torn, false, part, |s.wrote|);
    forall k | 0 <= k < |s.sent|
      ensures LineOk(s', k)
    {
      OldLine(s, s', false, part, k);
    }
  }

  lemma SameLined(s: State, s': State)
    requires Lined(s) && s'.wrote == s.wrote && s'.torn == s.torn && s'.lines == s.lines && s'.part == s.part
    requires s'.sent == s.sent
    ensures Lined(s')
  {
    forall k | 0 <= k < |s.sent|
      ensures LineOk(s', k)
    {
      assert LineOk(s, k);
    }
  }

  lemma StepLined(s: State, a: Action)
    requires Lined(s) && Enabled(s, a)
    ensures Lined(Apply(s, a))
  {
    if a.Send? {
      SendLined(s, a.c);
    } else if a.WriteFails? {
      FailLined(s, a.c, a.part);
    } else {
      SameLined(s, Apply(s, a));
    }
  }

  /** Line k goes to the k-th call the reader takes. */
  ghost predicate TookLine(s: State, k: int, c: Cid)
    requires |s.byReader| == |s.taken|
  {
    0 <= k < |Chosen(s.byReader, s.taken)| && Chosen(s.byReader, s.taken)[k] == c
  }

  ghost predicate Taken(s: State) {
    && |s.byReader| == |s.taken|
    && (s.drained ==> s.inOrder < |s.byReader| && !s.byReader[s.inOrder])
    && (StillReading(s) ==> |Chosen(s.byReader, s.taken)| == s.read - (if At(s, Reader, GotLine) then 1 else 0))
    && (LineInHand(s) && !s.pcs[Reader].GotLine? ==> TookLine(s, s.read - 1, s.pcs[Reader].call))
    && (forall c :: c in s.results && s.results[c].Line? ==> TookLine(s, s.results[c].k, c))
  }

  lemma SettleSettled(s: State, a: Action)
    requires Sections(s) && Counted(s) && Settled(s) && Enabled(s, a) && (a.Send? || a.WriteFails?)
    ensures Settled(Apply(s, a))
  {
    assert AgentOk(s, Caller(a.c));
    SettledNext(s, Apply(s, a), a.c, a.Send?);
  }

  lemma SettledNext(s: State, s': State, c: Cid, ok: bool)
    requires Settled(s) && Unsent(s) && !Unsent(s') && s.enqueued != [] && s.enqueued[|s.enqueued| - 1] == c
    requires s'.enqueued == s.enqueued && s'.wrote == s.wrote + [ok]
    requires s'.sent == if ok then s.sent + [c] else s.sent
    ensures Settled(s')
  {
    ChosenAppend(s.wrote, ok, s.enqueued);
  }

  lemma CheckSettled(s: State, c: Cid)
    requires Sections(s) && Settled(s) && Enabled(s, Check(c))
    ensures Settled(Apply(s, Check(c)))
  {
    ChosenLonger(s.wrote, s.enqueued, [c]);
  }

  lemma OtherSettled(s: State, a: Action)
    requires Sections(s) && Settled(s) && Enabled(s, a) && !a.Send? && !a.Check? && !a.WriteFails?
    ensures Settled(Apply(s, a))
  {
    if a.Return? {
      assert AgentOk(s, Caller(a.c));
    } else if s.mu.Some? {
      WriterStays(s, a, s.mu.value);
    }
  }

  lemma StepSettled(s: State, a: Action)
    requires Sections(s) && Counted(s) && Settled(s) && Enabled(s, a)
    ensures Settled(Apply(s, a))
  {
    if a.Send? || a.WriteFails? {
      SettleSettled(s, a);
    } else if a.Check? {
      CheckSettled(s, a.c);
    } else {
      OtherSettled(s, a);
    }
  }

  /** Dequeuing adds to the calls taken, and to those the reader takes if it is the reader. */
  lemma Choice(s: State, a: Action)
    requires |s.byReader| == |s.taken| && Enabled(s, a) && Dequeues(s, a)
    ensures |Apply(s, a).byReader| == |Apply(s, a).taken|
    ensures Chosen(Apply(s, a).byReader, Apply(s, a).taken)
            == Chosen(s.byReader, s.taken) + if a.Take? then [s.queue[0]] else []
  {
    ChosenAppend(s.byReader, a.Take?, s.taken + [s.queue[0]]);
    ChosenLonger(s.byReader, s.taken, [s.queue[0]]);
  }

  lemma TakeTaken(s: State)
    requires Sections(s) && Taken(s) && Enabled(s, Take) && s.queue != []
    ensures Taken(Apply(s, Take))
  {
    Choice(s, Take);
  }

  /** A drain that takes a call leaves the reader's choice, and stops the reader if it is the
      reader's own. */
  lemma DrainTakeTaken(s: State, g: Agent)
    requires Sections(s) && Matched(s) && Taken(s) && Enabled(s, DrainTake(g)) && s.queue != []
    ensures Taken(Apply(s, DrainTake(g)))
  {
    Choice(s, DrainTake(g));
    DrainKeepsReading(s, g);
    SameChoice(s, Apply(s, DrainTake(g)));
  }

  lemma DrainKeepsReading(s: State, g: Agent)
    requires Sections(s) && Enabled(s, DrainTake(g)) && s.queue != []
    ensures StillReading(Apply(s, DrainTake(g))) ==>
              StillReading(s) && Apply(s, DrainTake(g)).pcs[Reader] == s.pcs[Reader]
    ensures LineInHand(Apply(s, DrainTake(g))) ==> StillReading(Apply(s, DrainTake(g)))
  {
    if g != Reader {
      OthersStay(s, DrainTake(g), Reader);
    }
  }

  lemma SameChoice(s: State, s': State)
    requires Taken(s) && |s'.byReader| == |s'.taken| && Chosen(s'.byReader, s'.taken) == Chosen(s.byReader, s.taken)
    requires s'.inOrder < |s'.byReader| && !s'.byReader[s'.inOrder]
    requires s'.results == s.results && s'.read == s.read
    requires StillReading(s') ==> StillReading(s) && s'.pcs[Reader] == s.pcs[Reader]
    ensures Taken(s')
  {
  }

  lemma DeliverTaken(s: State, g: Agent, ok: bool)
    requires Sections(s) && Taken(s) && Enabled(s, Deliver(g, ok))
    ensures Taken(Apply(s, Deliver(g, ok)))
  {
    assert AgentOk(s, g);
  }

  lemma ReaderTaken(s: State, a: Action)
    requires Sections(s) && Taken(s) && Enabled(s, a) && (a.ReadLine? || (a.Take? && s.queue == []))
    ensures Taken(Apply(s, a))
  {
  }

  lemma ReadingStays(s: State, a: Action)
    requires Sections(s) && Enabled(s, a) && Unmatching(s, a)
    ensures Apply(s, a).byReader == s.byReader
    ensures StillReading(Apply(s, a)) ==> StillReading(s)
  {
    assert AgentOk(s, Reader);
  }

  lemma OtherTaken(s: State, a: Action)
    requires Sections(s) && Taken(s) && Enabled(s, a) && Unmatching(s, a)
    ensures Taken(Apply(s, a))
  {
    MatchesStay(s, a);
    LineStays(s, a);
    ReadingStays(s, a);
    SameTaken(s, Apply(s, a));
  }

  lemma CheckTaken(s: State, c: Cid)
    requires Sections(s) && Taken(s) && Enabled(s, Check(c))
    ensures Taken(Apply(s, Check(c)))
  {
    OthersStay(s, Check(c), Reader);
    SameTaken(s, Apply(s, Check(c)));
  }

  lemma SameTaken(s: State, s': State)
    requires Taken(s) && s'.byReader == s.byReader && s'.taken == s.taken && s'.results == s.results
    requires s'.read == s.read && s'.drained == s.drained && s'.inOrder == s.inOrder
    requires StillReading(s') ==> StillReading(s)
    requires At(s', Reader, GotLine) == At(s, Reader, GotLine) && LineInHand(s') == LineInHand(s)
    requires LineInHand(s) && !s.pcs[Reader].GotLine? ==> s'.pcs[Reader].call == s.pcs[Reader].call
    ensures Taken(s')
  {
  }

  lemma StepTaken(s: State, a: Action)
    requires Sections(s) && Matched(s) && Taken(s) && Enabled(s, a)
    ensures Taken(Apply(s, a))
  {
    if a.Take? && s.queue != [] {
      TakeTaken(s);
    } else if a.DrainTake? && s.queue != [] {
      DrainTakeTaken(s, a.a);
    } else if a.Deliver? {
      DeliverTaken(s, a.a, a.ok);
    } else if a.Take? || a.ReadLine? {
      ReaderTaken(s, a);
    } else if a.Check? {
      CheckTaken(s, a.c);
    } else {
      OtherTaken(s, a);
    }
  }

  // ------------------------------------------------------------------ whole runs

  ghost predicate Inv(s: State) {
    Conserved(s) && Sections(s) && Queued(s) && Delivered(s) && Counted(s) && Matched(s)
  }

  lemma InvStep(s: State, a: Action)
    requires Inv(s) && Enabled(s, a)
    ensures Inv(Apply(s, a))
  {
    StepConserves(s, a);
    StepSections(s, a);
    StepQueued(s, a);
    StepDelivered(s, a);
    StepCounted(s, a);
    StepMatched(s, a);
  }

  lemma InvFresh()
    ensures Inv(FRESH)
  {
    assert Holders(FRESH) == {};
  }

  predicate IsRun(s: State, run: seq<Action>)
    decreases |run|
  {
    run == [] || (Enabled(s, run[0]) && IsRun(Apply(s, run[0]), run[1..]))
  }

  function After(s: State, run: seq<Action>): State
    requires IsRun(s, run)
    decreases |run|
  {
    if run == [] then s else After(Apply(s, run[0]), run[1..])
  }

  lemma {:induction false} InvRun(s: State, run: seq<Action>)
    requires Inv(s) && IsRun(s, run)
    ensures Inv(After(s, run))
    decreases |run|
  {
    if run != [] {
      InvStep(s, run[0]);
      InvRun(Apply(s, run[0]), run[1..]);
    }
  }

  /** No token is ever lost, and none of the three channel sends can block: a released
      token finds room in the semaphore, a call whose submitter holds a token finds room in
      the queue, and a result finds its call's one slot empty. */
  lemma NothingBlocks(run: seq<Action>)
    requires IsRun(FRESH, run)
    ensures var s := After(FRESH, run);
            && s.free + |Holders(s)| + |s.queue| == 256
            && (forall a :: a in s.pcs && HasToken(s.pcs[a]) ==> s.free < 256 && |s.queue| < 256)
            && (forall a :: a in s.pcs && s.pcs[a].Delivering? ==> s.pcs[a].call !in s.results)
  {
    InvFresh();
    InvRun(FRESH, run);
    var s := After(FRESH, run);
    forall a | a in s.pcs && HasToken(s.pcs[a])
      ensures |Holders(s)| > 0
    {
      WithoutOne(s, a);
    }
    assert forall a :: a in s.pcs && s.pcs[a].Delivering? ==> InHand(s, a, s.pcs[a].call);
  }

  /** Responses are matched in order: line k goes to the k-th enqueued call if it is taken
      before the first drain step, and until then the reader never finds the queue empty. */
  lemma FifoUntilDrain(run: seq<Action>)
    requires IsRun(FRESH, run)
    ensures var s := After(FRESH, run);
            && (forall c :: c in s.results && s.results[c].Line? && s.results[c].k < s.inOrder ==>
                  s.inOrder <= |s.enqueued| && s.enqueued[s.results[c].k] == c)
            && (!s.drained ==> s.inOrder == |s.taken| && (At(s, Reader, GotLine) ==> s.queue != []))
            && (!s.drained ==> forall c :: c in s.results && s.results[c].Line? ==> s.results[c].k < s.inOrder)
  {
    InvFresh();
    InvRun(FRESH, run);
    if !After(FRESH, run).drained && At(After(FRESH, run), Reader, GotLine) {
      NothingPendingUnreachable(After(FRESH, run));
    }
  }

  lemma {:induction false} LastStep(s: State, run: seq<Action>)
    requires IsRun(s, run) && run != []
    ensures var n := |run| - 1;
            && IsRun(s, run[..n]) && Enabled(After(s, run[..n]), run[n])
            && After(s, run) == Apply(After(s, run[..n]), run[n])
    decreases |run|
  {
    var n := |run| - 1;
    if n > 0 {
      LastStep(Apply(s, run[0]), run[1..]);
      assert run[1..][..n - 1] == run[..n][1..];
    }
  }

  lemma {:induction false} Traced(run: seq<Action>)
    requires IsRun(FRESH, run)
    ensures Settled(After(FRESH, run)) && Taken(After(FRESH, run)) && Lined(After(FRESH, run))
  {
    if run != [] {
      var n := |run| - 1;
      LastStep(FRESH, run);
      Traced(run[..n]);
      InvFresh();
      InvRun(FRESH, run[..n]);
      StepSettled(After(FRESH, run[..n]), run[n]);
      StepTaken(After(FRESH, run[..n]), run[n]);
      StepLined(After(FRESH, run[..n]), run[n]);
    }
  }

  // --------------------------------------------------- lines that do not decode

  /** The reader is taking the connection down. */
  predicate GivenUp(pc: Pc) {
    pc.Clearing? || InAbort(pc)
  }

  /** A result that did not decode came from the last line read, and the reader has given up;
      whoever drains has closed the socket. */
  ghost predicate BadLast(s: State) {
    && Reader in s.pcs
    && (forall c :: c in s.results && s.results[c].Line? && !s.results[c].ok ==>
          s.results[c].k + 1 == s.read && GivenUp(s.pcs[Reader]))
    && (forall a :: a in s.pcs && InAbort(s.pcs[a]) && !s.pcs[a].Closing? ==> !s.open)
  }

  lemma DeliverBad(s: State, g: Agent, ok: bool)
    requires Sections(s) && Matched(s) && BadLast(s) && Enabled(s, Deliver(g, ok))
    ensures BadLast(Apply(s, Deliver(g, ok)))
  {
    assert AgentOk(s, g);
    assert AgentOk(s, Reader);
  }

  lemma GivenUpForGood(s: State, a: Action)
    requires Sections(s) && BadLast(s) && Enabled(s, a) && !a.Deliver?
    ensures Reader in Apply(s, a).pcs && Apply(s, a).results == s.results
    ensures GivenUp(s.pcs[Reader]) ==> GivenUp(Apply(s, a).pcs[Reader]) && Apply(s, a).read == s.read
  {
    assert AgentOk(s, Reader);
  }

  lemma SocketClosed(s: State, a: Action, h: Agent)
    requires Sections(s) && BadLast(s) && Enabled(s, a)
    requires h in Apply(s, a).pcs && InAbort(Apply(s, a).pcs[h]) && !Apply(s, a).pcs[h].Closing?
    ensures !Apply(s, a).open
  {
    if Mover(a) != Some(h) {
      OthersStay(s, a, h);
    } else if h in s.pcs {
      assert AgentOk(s, h);
    }
  }

  lemma StepBad(s: State, a: Action)
    requires Sections(s) && Matched(s) && BadLast(s) && Enabled(s, a)
    ensures BadLast(Apply(s, a))
  {
    if a.Deliver? {
      DeliverBad(s, a.a, a.ok);
    } else {
      GivenUpForGood(s, a);
      forall h | h in Apply(s, a).pcs && InAbort(Apply(s, a).pcs[h]) && !Apply(s, a).pcs[h].Closing?
        ensures !Apply(s, a).open
      {
        SocketClosed(s, a, h);
      }
    }
  }

  lemma {:induction false} BadLastOnRuns(s: State, run: seq<Action>)
    requires Inv(s) && BadLast(s) && IsRun(s, run)
    ensures BadLast(After(s, run))
    decreases |run|
  {
    if run != [] {
      StepBad(s, run[0]);
      InvStep(s, run[0]);
      BadLastOnRuns(Apply(s, run[0]), run[1..]);
    }
  }

  /** A response that does not decode ends the connection: it was the last line the reader ever
      read; the reader takes the connection down; and once it is done, the connection is no longer
      current, its socket is closed, and no call waits on it. */
  lemma BadLineEndsConnection(run: seq<Action>, c: Cid)
    requires IsRun(FRESH, run)
    requires var s := After(FRESH, run); c in s.results && s.results[c].Line? && !s.results[c].ok
    ensures var s := After(FRESH, run);
            && s.results[c].k + 1 == s.read && !At(s, Reader, Reading) && !At(s, Reader, GotLine)
            && (At(s, Reader, Clearing) || !s.current)
            && (At(s, Reader, Drained) ==> !s.open && s.queue == [])
  {
    InvFresh();
    InvRun(FRESH, run);
    BadLastOnRuns(FRESH, run);
    assert AgentOk(After(FRESH, run), Reader);
  }

  lemma ReaderKeepsOn(s: State, a: Action)
    requires Inv(s) && Enabled(s, a) && !Apply(s, a).drained && !GivenUp(s.pcs[Reader])
    requires a != ReadFails && a != Deliver(Reader, false)
    ensures Reader in Apply(s, a).pcs && !GivenUp(Apply(s, a).pcs[Reader])
  {
    assert AgentOk(s, Reader);
    if a.Take? {
      NothingPendingUnreachable(s);
    }
  }

  /** Nothing else makes the reader give up: as long as every read succeeds, every line decodes
      and nobody drains the queue, it goes on reading and answering. */
  lemma {:induction false} GoodLinesKeepConnection(run: seq<Action>)
    requires IsRun(FRESH, run) && ReadFails !in run && Deliver(Reader, false) !in run
    ensures var s := After(FRESH, run); !s.drained ==> Reader in s.pcs && !GivenUp(s.pcs[Reader])
  {
    if run != [] {
      var n := |run| - 1;
      LastStep(FRESH, run);
      InvFresh();
      InvRun(FRESH, run[..n]);
      GoodLinesKeepConnection(run[..n]);
      if !After(FRESH, run).drained {
        ReaderKeepsOn(After(FRESH, run[..n]), run[n]);
      }
    }
  }

  // ------------------------------------------------------------- whose answer

  /** The reader took line k's call as its k-th. */
  lemma LineTaken(s: State, c: Cid, t: nat)
    requires Queued(s) && Taken(s) && c in s.results && s.results[c].Line? && t < |s.enqueued| && s.enqueued[t] == c
    ensures s.results[c].k < |Places(s.byReader)| && Places(s.byReader)[s.results[c].k] == t < |s.byReader|
  {
    var k := s.results[c].k;
    assert TookLine(s, k, c);
    ChosenAt(s.byReader, s.taken, k);
    var p := Places(s.byReader)[k];
    assert s.enqueued[p] == s.taken[p];
  }

  lemma WhoseLine(s: State, c: Cid, t: nat)
    requires Queued(s) && Taken(s) && Settled(s) && t < |s.enqueued| && s.enqueued[t] == c
    requires c in s.results && s.results[c].Line? && s.results[c].k < |s.sent|
    ensures t < |s.byReader|
    ensures s.sent[s.results[c].k] == c <==>
              t < |s.wrote| && s.wrote[t] && Rank(s.wrote, t) == Rank(s.byReader, t)
    ensures s.sent[s.results[c].k] == c ==>
              s.results[c].k < |Places(s.wrote)| && Places(s.wrote)[s.results[c].k] == t
  {
    var k := s.results[c].k;
    LineTaken(s, c, t);
    ChosenAt(s.wrote, s.enqueued, k);
    SamePlace(s.wrote, s.byReader, k, t);
    assert s.sent[k] == s.enqueued[Places(s.wrote)[k]];
  }

  lemma WholeLine(s: State, k: nat, c: Cid)
    requires Lined(s) && k < |s.sent|
    ensures k < |s.lines| && k < |Places(s.wrote)| && Places(s.wrote)[k] < |s.wrote|
    ensures s.lines[k] == [c] <==> s.sent[k] == c && Intact(s.wrote, s.torn, Places(s.wrote)[k])
  {
    assert LineOk(s, k);
    assert s.lines[k] == [c] ==> |s.lines[k]| == 1;
    assert |s.lines[k]| == 1 ==> s.lines[k] == [s.lines[k][0]];
  }

  /** A response answers a line that is its call's own request and nothing else exactly if that
      request was written, no failed write left a part before it, and of the calls enqueued
      before it as many were written as were taken by the reader. */
  lemma OwnAnswer(run: seq<Action>, c: Cid, t: nat)
    requires IsRun(FRESH, run)
    requires var s := After(FRESH, run); c in s.results && s.results[c].Line? && t < |s.enqueued| && s.enqueued[t] == c
    ensures var s := After(FRESH, run);
            && s.results[c].k < |s.lines| && t < |s.byReader| && |s.torn| == |s.wrote|
            && (s.lines[s.results[c].k] == [c] <==>
                && t < |s.wrote| && s.wrote[t] && Intact(s.wrote, s.torn, t)
                && Rank(s.wrote, t) == Rank(s.byReader, t))
  {
    InvFresh();
    InvRun(FRESH, run);
    Traced(run);
    WhoseLine(After(FRESH, run), c, t);
    WholeLine(After(FRESH, run), After(FRESH, run).results[c].k, c);
  }

  /** So a response matched before any drain step answers its call's own request exactly if that
      was written before any failed write, and one to a request written before any failed write
      exactly if it was matched before any drain step. */
  lemma OwnAnswerUntilFailure(run: seq<Action>, c: Cid)
    requires IsRun(FRESH, run)
    requires var s := After(FRESH, run); c in s.results && s.results[c].Line?
    ensures var s := After(FRESH, run); var k := s.results[c].k;
            && k < |s.lines|
            && (k < s.inOrder ==> (s.lines[k] == [c] <==> k < s.clean))
            && (k < s.clean ==> (s.lines[k] == [c] <==> k < s.inOrder))
  {
    InvFresh();
    InvRun(FRESH, run);
    Traced(run);
    var s := After(FRESH, run);
    var k := s.results[c].k;
    WholeLine(s, k, c);
    if k < s.clean {
      CleanLine(s, k);
      if s.inOrder <= k {
        LateLine(s, c);
      }
    }
  }

  /** Nothing is left over before the first failed write. */
  lemma CleanLine(s: State, k: nat)
    requires Queued(s) && Counted(s) && Settled(s) && Lined(s) && k < s.clean
    ensures k < |Places(s.wrote)| && Places(s.wrote)[k] < |s.wrote| && Intact(s.wrote, s.torn, Places(s.wrote)[k])
  {
    assert LineOk(s, k);
    ChosenAt(s.wrote, s.enqueued, k);
    PlacesIndexed(s.wrote);
    var t := Places(s.wrote)[k];
    assert s.sent[k] == s.enqueued[k] == s.enqueued[t];
    if k > 0 {
      if !s.wrote[k - 1] {
        RankBelow(s.wrote, k - 1, k);
      }
    }
  }

  lemma LateLine(s: State, c: Cid)
    requires Queued(s) && Counted(s) && Matched(s) && Taken(s) && c in s.results && s.results[c].Line?
    requires s.inOrder <= s.results[c].k < s.clean
    ensures s.sent[s.results[c].k] != c
  {
    var k := s.results[c].k;
    assert TookLine(s, k, c);
    ChosenAt(s.byReader, s.taken, k);
    var t := Places(s.byReader)[k];
    assert s.drained && s.enqueued[t] == s.taken[t] == c;
    PlacedLate(s.byReader, s.inOrder, k);
    assert s.sent[k] == s.enqueued[k];
  }

  /** Once no agent has a call in hand and the queue is empty, every enqueued call has its
      result. */
  lemma NoCallLost(run: seq<Action>)
    requires IsRun(FRESH, run)
    requires var s := After(FRESH, run); s.queue == [] && forall a, c :: !InHand(s, a, c)
    ensures var s := After(FRESH, run); forall c :: c in s.enqueued <==> c in s.results
  {
    InvFresh();
    InvRun(FRESH, run);
  }

  /** While an enqueued call has no result, the reader, an abort or the writer holding mu can
      take a step: no call waits on a deadlock. */
  lemma SomeoneCanAct(run: seq<Action>, c: Cid) returns (a: Action)
    requires IsRun(FRESH, run)
    requires var s := After(FRESH, run); c in s.enqueued && c !in s.results
    ensures Enabled(After(FRESH, run), a) && !a.Acquire? && !a.Check? && !a.Respond? && !a.Retire? && !a.CloseRetired?
  {
    InvFresh();
    InvRun(FRESH, run);
    var s := After(FRESH, run);
    assert AgentOk(s, Reader);
    if s.pcs[Reader].Drained? {
      assert c in s.taken;
      var g :| InHand(s, g, c);
      a := if s.pcs[g].Releasing? then Release(g) else Deliver(g, true);
    } else {
      a := ReaderMoves(s);
    }
  }

  lemma ReaderMoves(s: State) returns (a: Action)
    requires Sections(s) && !s.pcs[Reader].Drained?
    ensures Enabled(s, a) && !a.Acquire? && !a.Check? && !a.Respond? && !a.Retire? && !a.CloseRetired?
  {
    assert AgentOk(s, Reader);
    match s.pcs[Reader]
    case Reading => a := ReadFails;
    case GotLine => a := Take;
    case Releasing(_, _) => a := Release(Reader);
    case Delivering(_, _) => a := Deliver(Reader, true);
    case Closing => a := CloseSocket(Reader);
    case Draining => a := DrainTake(Reader);
    case Clearing => a := if s.mu.None? then Clear(Reader) else WriterMoves(s);
  }

  function WriterMoves(s: State): (a: Action)
    requires Sections(s) && s.mu.Some?
    ensures Enabled(s, a) && (a.Send? || a.Return?)
  {
    assert AgentOk(s, s.mu.value);
    if s.pcs[s.mu.value].Writing? then Send(s.mu.value.c) else Return(s.mu.value.c)
  }

  lemma StaysRetired(s: State, a: Action)
    requires Enabled(s, a) && !s.current
    ensures !Apply(s, a).current && Apply(s, a).enqueued == s.enqueued
    ensures s.queue == [] ==> Apply(s, a).queue == []
  {
  }

  /** Nothing is enqueued on a generation that is no longer current. */
  lemma {:induction false} RetiredForGood(s: State, run: seq<Action>)
    requires IsRun(s, run) && !s.current
    ensures !After(s, run).current && After(s, run).enqueued == s.enqueued
    ensures s.queue == [] ==> After(s, run).queue == []
    decreases |run|
  {
    if run != [] {
      StaysRetired(s, run[0]);
      RetiredForGood(Apply(s, run[0]), run[1..]);
    }
  }

  /** Once one abort has drained, the queue is empty and stays so whatever happens. */
  lemma DrainedForGood(run: seq<Action>, a: Agent, more: seq<Action>)
    requires IsRun(FRESH, run) && At(After(FRESH, run), a, Drained) && IsRun(After(FRESH, run), more)
    ensures After(After(FRESH, run), more).queue == []
    ensures After(After(FRESH, run), more).enqueued == After(FRESH, run).enqueued
  {
    InvFresh();
    InvRun(FRESH, run);
    assert AgentOk(After(FRESH, run), a);
    RetiredForGood(After(FRESH, run), more);
  }

  // ------------------------------------------------------- after a failed write

  lemma {:induction false} Extend(s: State, run: seq<Action>, a: Action)
    requires IsRun(s, run) && Enabled(After(s, run), a)
    ensures IsRun(s, run + [a]) && After(s, run + [a]) == Apply(After(s, run), a)
    decreases |run|
  {
    if run == [] {
      assert run + [a] == [a];
    } else {
      assert (run + [a])[1..] == run[1..] + [a];
      Extend(Apply(s, run[0]), run[1..], a);
    }
  }

  /** The run leads to that state. */
  predicate Leads(run: seq<Action>, s: State) {
    IsRun(FRESH, run) && After(FRESH, run) == s
  }

  /** The steps of a call that goes well, one by one. */
  lemma Acquires(run: seq<Action>, s: State, c: Cid)
    requires Leads(run, s) && Caller(c) !in s.pcs && s.free > 0
    ensures Leads(run + [Acquire(c)], s.(free := s.free - 1, pcs := s.pcs[Caller(c) := Held]))
  {
    Extend(FRESH, run, Acquire(c));
  }

  lemma Checks(run: seq<Action>, s: State, c: Cid)
    requires Leads(run, s) && At(s, Caller(c), Held) && s.mu.None? && s.current
    ensures Leads(run + [Check(c)], s.(queue := s.queue + [c], enqueued := s.enqueued + [c], mu := Some(Caller(c)),
                                       pcs := s.pcs[Caller(c) := Writing]))
  {
    Extend(FRESH, run, Check(c));
  }

  /** The call's request has reached the wire. */
  function OnWire(s: State, c: Cid): State {
    s.(sent := s.sent + [c], clean := if s.failed then s.clean else s.clean + 1, wrote := s.wrote + [true],
       torn := s.torn + [false], lines := s.lines + [s.part + [c]], part := [])
  }

  lemma Sends(run: seq<Action>, s: State, c: Cid)
    requires Leads(run, s) && At(s, Caller(c), Writing)
    ensures Leads(run + [Send(c)], OnWire(s, c).(pcs := s.pcs[Caller(c) := Written]))
  {
    Extend(FRESH, run, Send(c));
  }

  lemma Returns(run: seq<Action>, s: State, c: Cid)
    requires Leads(run, s) && At(s, Caller(c), Written)
    ensures Leads(run + [Return(c)], s.(mu := None, pcs := s.pcs[Caller(c) := Waiting]))
  {
    Extend(FRESH, run, Return(c));
  }

  lemma Fails(run: seq<Action>, s: State, c: Cid)
    requires Leads(run, s) && At(s, Caller(c), Writing)
    ensures Leads(run + [WriteFails(c, false)],
                  s.(mu := None, failed := true, wrote := s.wrote + [false], torn := s.torn + [false],
                     pcs := s.pcs[Caller(c) := Clearing]))
  {
    Extend(FRESH, run, WriteFails(c, false));
  }

  lemma RespondsIn(s: State)
    requires s.answered < |s.sent|
    ensures Enabled(s, Respond) && Apply(s, Respond) == s.(answered := s.answered + 1)
  {
  }

  lemma Responds(run: seq<Action>, s: State)
    requires Leads(run, s) && s.answered < |s.sent|
    ensures Leads(run + [Respond], s.(answered := s.answered + 1))
  {
    RespondsIn(s);
    Extend(FRESH, run, Respond);
  }

  lemma ReadsIn(s: State)
    requires At(s, Reader, Reading) && s.read < s.answered
    ensures Enabled(s, ReadLine) && Apply(s, ReadLine) == s.(read := s.read + 1, pcs := s.pcs[Reader := GotLine])
  {
  }

  lemma Reads(run: seq<Action>, s: State)
    requires Leads(run, s) && At(s, Reader, Reading) && s.read < s.answered
    ensures Leads(run + [ReadLine], s.(read := s.read + 1, pcs := s.pcs[Reader := GotLine]))
  {
    ReadsIn(s);
    Extend(FRESH, run, ReadLine);
  }

  lemma Takes(run: seq<Action>, s: State)
    requires Leads(run, s) && At(s, Reader, GotLine) && s.queue != []
    ensures Leads(run + [Take], Matching(s).(pcs := s.pcs[Reader := Releasing(s.queue[0], false)]))
  {
    Extend(FRESH, run, Take);
  }

  lemma Releases(run: seq<Action>, s: State, c: Cid)
    requires Leads(run, s) && At(s, Reader, Releasing(c, false))
    ensures Leads(run + [Release(Reader)], s.(free := s.free + 1, pcs := s.pcs[Reader := Delivering(c, false)]))
  {
    Extend(FRESH, run, Release(Reader));
  }

  lemma Delivers(run: seq<Action>, s: State, c: Cid)
    requires Leads(run, s) && At(s, Reader, Delivering(c, false)) && s.read > 0
    ensures Leads(run + [Deliver(Reader, true)],
                  s.(results := s.results[c := Line(s.read - 1, true)], pcs := s.pcs[Reader := Reading]))
  {
    Extend(FRESH, run, Deliver(Reader, true));
  }

  function Twice(pcs: map<Agent, Pc>, a: Agent, p: Pc, q: Pc): (r: map<Agent, Pc>)
    ensures r == pcs[a := q]
  {
    pcs[a := p][a := q]
  }

  /** A whole submit, and the same up to the write. */
  lemma Enqueue(run: seq<Action>, s: State, c: Cid) returns (r: seq<Action>)
    requires Leads(run, s) && Caller(c) !in s.pcs && s.free > 0 && s.mu.None? && s.current
    ensures Leads(r, s.(free := s.free - 1, queue := s.queue + [c], enqueued := s.enqueued + [c], mu := Some(Caller(c)),
                        pcs := s.pcs[Caller(c) := Writing]))
  {
    Acquires(run, s, c);
    Checks(run + [Acquire(c)], s.(free := s.free - 1, pcs := s.pcs[Caller(c) := Held]), c);
    r := run + [Acquire(c)] + [Check(c)];
    assert Twice(s.pcs, Caller(c), Held, Writing) == s.pcs[Caller(c) := Writing];
  }

  lemma Writes(run: seq<Action>, s: State, c: Cid) returns (r: seq<Action>)
    requires Leads(run, s) && At(s, Caller(c), Writing)
    ensures Leads(r, OnWire(s, c).(mu := None, pcs := s.pcs[Caller(c) := Waiting]))
  {
    Sends(run, s, c);
    Returns(run + [Send(c)], OnWire(s, c).(pcs := s.pcs[Caller(c) := Written]), c);
    r := run + [Send(c)] + [Return(c)];
    assert Twice(s.pcs, Caller(c), Written, Waiting) == s.pcs[Caller(c) := Waiting];
  }

  lemma Submit(run: seq<Action>, s: State, c: Cid) returns (r: seq<Action>)
    requires Leads(run, s) && Caller(c) !in s.pcs && s.free > 0 && s.mu.None? && s.current && s.part == []
    ensures Leads(r, OnWire(s, c).(free := s.free - 1, queue := s.queue + [c], enqueued := s.enqueued + [c],
                                   lines := s.lines + [[c]], pcs := s.pcs[Caller(c) := Waiting]))
  {
    r := Enqueue(run, s, c);
    r := Writes(r, s.(free := s.free - 1, queue := s.queue + [c], enqueued := s.enqueued + [c], mu := Some(Caller(c)),
                      pcs := s.pcs[Caller(c) := Writing]), c);
    assert s.part + [c] == [c];
    assert Twice(s.pcs, Caller(c), Writing, Waiting) == s.pcs[Caller(c) := Waiting];
  }

  /** A response line reaches the reader. */
  lemma Arrives(run: seq<Action>, s: State) returns (r: seq<Action>)
    requires Leads(run, s) && At(s, Reader, Reading) && s.read == s.answered < |s.sent|
    ensures Leads(r, s.(answered := s.answered + 1, read := s.read + 1, pcs := s.pcs[Reader := GotLine]))
  {
    Responds(run, s);
    Reads(run + [Respond], s.(answered := s.answered + 1));
    r := run + [Respond] + [ReadLine];
  }

  /** The oldest pending call leaves the queue for the reader. */
  function Matching(s: State): State
    requires s.queue != []
  {
    s.(queue := s.queue[1..], taken := s.taken + [s.queue[0]],
       inOrder := if s.drained then s.inOrder else s.inOrder + 1, byReader := s.byReader + [true])
  }

  lemma TakesReleases(run: seq<Action>, s: State) returns (r: seq<Action>)
    requires Leads(run, s) && At(s, Reader, GotLine) && s.queue != []
    ensures Leads(r, Matching(s).(free := s.free + 1, pcs := s.pcs[Reader := Delivering(s.queue[0], false)]))
  {
    var c := s.queue[0];
    Takes(run, s);
    Releases(run + [Take], Matching(s).(pcs := s.pcs[Reader := Releasing(c, false)]), c);
    r := run + [Take] + [Release(Reader)];
    assert Twice(s.pcs, Reader, Releasing(c, false), Delivering(c, false)) == s.pcs[Reader := Delivering(c, false)];
  }

  /** It gets the line. */
  lemma Settles(run: seq<Action>, s: State) returns (r: seq<Action>)
    requires Leads(run, s) && At(s, Reader, GotLine) && s.queue != [] && s.read > 0
    ensures Leads(r, Matching(s).(free := s.free + 1, results := s.results[s.queue[0] := Line(s.read - 1, true)],
                                  pcs := s.pcs[Reader := Reading]))
  {
    var c := s.queue[0];
    r := TakesReleases(run, s);
    Delivers(r, Matching(s).(free := s.free + 1, pcs := s.pcs[Reader := Delivering(c, false)]), c);
    r := r + [Deliver(Reader, true)];
    assert Twice(s.pcs, Reader, Delivering(c, false), Reading) == s.pcs[Reader := Reading];
  }

  lemma Answered(run: seq<Action>, s: State) returns (r: seq<Action>)
    requires Leads(run, s) && At(s, Reader, Reading) && s.queue != [] && s.read == s.answered < |s.sent| && !s.drained
    ensures Leads(r, s.(free := s.free + 1, queue := s.queue[1..], taken := s.taken + [s.queue[0]],
                        inOrder := s.inOrder + 1, byReader := s.byReader + [true], answered := s.answered + 1,
                        read := s.read + 1, results := s.results[s.queue[0] := Line(s.read, true)]))
  {
    r := Arrives(run, s);
    r := Settles(r, s.(answered := s.answered + 1, read := s.read + 1, pcs := s.pcs[Reader := GotLine]));
    assert Twice(s.pcs, Reader, GotLine, Reading) == s.pcs;
  }

  /** A failed write gives mu back before its abort clears the connection. Calls submitted in
      between are matched one line off: the failed call takes the response to call 1, and call
      1 the response to call 2, which decodes if the two name the same keys. */
  lemma AnswerOfAnother() returns (run: seq<Action>)
    ensures IsRun(FRESH, run)
    ensures var s := After(FRESH, run);
            && s.enqueued == [0, 1, 2] && s.lines == [[1], [2]] && s.current && !s.drained
            && 1 in s.results && s.results[1] == Line(1, true)
  {
    run := TwoAfterFailure();
    run := Answered(run, After(FRESH, run));
    run := Answered(run, After(FRESH, run));
  }

  /** Nothing has been answered yet, and no call been drained. */
  predicate Unanswered(s: State) {
    && s.current && s.mu.None? && s.part == [] && s.read == s.answered == 0 && !s.drained
    && At(s, Reader, Reading) && s.free > 1
  }

  lemma TwoAfterFailure() returns (run: seq<Action>)
    ensures IsRun(FRESH, run) && Unanswered(After(FRESH, run))
    ensures var s := After(FRESH, run);
            s.enqueued == s.queue == [0, 1, 2] && s.sent == [1, 2] && s.lines == [[1], [2]]
  {
    run := OneAfterFailure();
    run := Submit(run, After(FRESH, run), 2);
  }

  lemma OneAfterFailure() returns (run: seq<Action>)
    ensures IsRun(FRESH, run) && Unanswered(After(FRESH, run))
    ensures var s := After(FRESH, run);
            && s.enqueued == s.queue == [0, 1] && s.sent == [1] && s.lines == [[1]] && s.free > 2
            && Caller(2) !in s.pcs
  {
    run := FirstFails();
    run := Submit(run, After(FRESH, run), 1);
  }

  lemma FirstFails() returns (run: seq<Action>)
    ensures IsRun(FRESH, run) && Unanswered(After(FRESH, run))
    ensures var s := After(FRESH, run);
            && s.enqueued == s.queue == [0] && s.sent == [] && s.lines == [] && s.free > 3
            && Caller(1) !in s.pcs && Caller(2) !in s.pcs
  {
    run := Enqueue([], FRESH, 0);
    Fails(run, After(FRESH, run), 0);
    run := run + [WriteFails(0, false)];
  }

  /** The writer whose write failed clears the connection, closes it, and drains one call. */
  lemma Drains(run: seq<Action>, s: State, c: Cid) returns (r: seq<Action>)
    requires Leads(run, s) && At(s, Caller(c), Clearing) && s.mu.None? && s.queue != []
    ensures Leads(r, s.(current := false, open := false, queue := s.queue[1..], taken := s.taken + [s.queue[0]],
                        byReader := s.byReader + [false], drained := true,
                        pcs := s.pcs[Caller(c) := Releasing(s.queue[0], true)]))
  {
    r := Closes(run, s, c);
    var t := s.(current := false, open := false, pcs := s.pcs[Caller(c) := Draining]);
    DrainsOne(r, t, c);
    r := r + [DrainTake(Caller(c))];
    assert Twice(s.pcs, Caller(c), Draining, Releasing(s.queue[0], true))
        == s.pcs[Caller(c) := Releasing(s.queue[0], true)];
  }

  lemma Closes(run: seq<Action>, s: State, c: Cid) returns (r: seq<Action>)
    requires Leads(run, s) && At(s, Caller(c), Clearing) && s.mu.None?
    ensures Leads(r, s.(current := false, open := false, pcs := s.pcs[Caller(c) := Draining]))
  {
    Clears(run, s, c);
    ClosesSocket(run + [Clear(Caller(c))], s.(current := false, pcs := s.pcs[Caller(c) := Closing]), c);
    r := run + [Clear(Caller(c))] + [CloseSocket(Caller(c))];
    assert Twice(s.pcs, Caller(c), Closing, Draining) == s.pcs[Caller(c) := Draining];
  }

  lemma Clears(run: seq<Action>, s: State, c: Cid)
    requires Leads(run, s) && At(s, Caller(c), Clearing) && s.mu.None?
    ensures Leads(run + [Clear(Caller(c))], s.(current := false, pcs := s.pcs[Caller(c) := Closing]))
  {
    Extend(FRESH, run, Clear(Caller(c)));
  }

  lemma ClosesSocket(run: seq<Action>, s: State, c: Cid)
    requires Leads(run, s) && At(s, Caller(c), Closing)
    ensures Leads(run + [CloseSocket(Caller(c))], s.(open := false, pcs := s.pcs[Caller(c) := Draining]))
  {
    Extend(FRESH, run, CloseSocket(Caller(c)));
  }

  lemma DrainsOne(run: seq<Action>, s: State, c: Cid)
    requires Leads(run, s) && At(s, Caller(c), Draining) && s.queue != []
    ensures Leads(run + [DrainTake(Caller(c))],
                  s.(queue := s.queue[1..], taken := s.taken + [s.queue[0]], byReader := s.byReader + [false],
                     drained := true, pcs := s.pcs[Caller(c) := Releasing(s.queue[0], true)]))
  {
    Extend(FRESH, run, DrainTake(Caller(c)));
  }

  /** The drain of a failed write can race the reader. Here the reader holds the response to
      call 0 while the drain takes that call, so call 1, written well before the failure, gets
      the response to call 0. */
  lemma DrainRacesReader() returns (run: seq<Action>)
    ensures IsRun(FRESH, run)
    ensures var s := After(FRESH, run);
            && s.enqueued == [0, 1, 2] && s.lines == [[0], [1]] && s.clean == 2
            && 1 in s.results && s.results[1] == Line(0, true)
  {
    run := LineBeforeFailure();
    run := Drains(run, After(FRESH, run), 2);
    run := Settles(run, After(FRESH, run));
  }

  /** Up to the failure: two calls written, the response to the first read, the third's write
      failing. */
  lemma LineBeforeFailure() returns (run: seq<Action>)
    ensures IsRun(FRESH, run)
    ensures var s := After(FRESH, run);
            && s.enqueued == s.queue == [0, 1, 2] && s.lines == [[0], [1]] && s.clean == 2 && s.read == 1 && s.mu.None?
            && At(s, Reader, GotLine) && At(s, Caller(2), Clearing)
  {
    run := ThirdWriting();
    run := Arrives(run, After(FRESH, run));
    Fails(run, After(FRESH, run), 2);
    run := run + [WriteFails(2, false)];
  }

  lemma ThirdWriting() returns (run: seq<Action>)
    ensures IsRun(FRESH, run)
    ensures var s := After(FRESH, run);
            && s.enqueued == s.queue == [0, 1, 2] && s.sent == [0, 1] && s.lines == [[0], [1]] && s.clean == 2
            && s.read == s.answered == 0
            && At(s, Reader, Reading) && At(s, Caller(2), Writing)
  {
    run := TwoSubmitted();
    run := Enqueue(run, After(FRESH, run), 2);
  }

  lemma TwoSubmitted() returns (run: seq<Action>)
    ensures IsRun(FRESH, run) && Unanswered(After(FRESH, run))
    ensures var s := After(FRESH, run);
            && s.enqueued == s.queue == s.sent == [0, 1] && s.lines == [[0], [1]] && s.clean == 2 && Caller(2) !in s.pcs
  {
    run := OneSubmitted();
    run := Submit(run, After(FRESH, run), 1);
  }

  lemma OneSubmitted() returns (run: seq<Action>)
    ensures IsRun(FRESH, run) && Unanswered(After(FRESH, run))
    ensures var s := After(FRESH, run);
            && s.enqueued == s.queue == s.sent == [0] && s.lines == [[0]] && s.clean == 1 && !s.failed && s.free > 2
            && Caller(1) !in s.pcs && Caller(2) !in s.pcs
  {
    run := Submit([], FRESH, 0);
  }
}

/** A shard's connection over its whole life (client/conn.go): dials, close, and every
    generation's pipeline, all interleaved under the one mutex. */
module Connection {
  import opened Types
  import P = Pipeline

  type Tid = nat

  /** A goroutine between the two halves of ensureConn's dial. */
  datatype DialPc = Dialing | Dialed | Failed

  /** gens holds every generation ever installed, oldest first; conn is the current one.
      toClose counts connections whose dialer found the client closed, owed the generations
      whose socket close() has still to close. dialedOk and discarded are history. */
  datatype State = State(
    conn: Option<nat>, closed: bool, dialing: bool, dialers: map<Tid, DialPc>, gens: seq<P.State>,
    toClose: nat, owed: set<nat>, dialedOk: nat, discarded: nat)

  const INIT := State(None, false, false, map[], [], 0, {}, 0, 0)

  datatype Action =
    | StartDial(w: Tid)                // finds no connection and no dial in progress
    | DialReturns(w: Tid, ok: bool)    // DialContext returns, mu not yet taken
    | FinishDial(w: Tid)               // takes mu and installs the connection, or not
    | Discard                          // closes a connection dialed too late
    | Close                            // close(), under mu
    | CloseOwed(i: nat)                // close(), after it
    | InGen(i: nat, a: P.Action)

  predicate MuFree(s: State) {
    forall i :: 0 <= i < |s.gens| ==> s.gens[i].mu.None?
  }

  /** A submitter comes to a generation with no token of another one: it has none, or gave it
      back. */
  predicate Free(s: State, c: P.Cid) {
    forall i :: 0 <= i < |s.gens| && P.Caller(c) in s.gens[i].pcs ==> s.gens[i].pcs[P.Caller(c)].Left?
  }

  predicate Enabled(s: State, a: Action) {
    match a
    case StartDial(w) => MuFree(s) && !s.closed && s.conn.None? && !s.dialing && w !in s.dialers
    case DialReturns(w, _) => w in s.dialers && s.dialers[w].Dialing?
    case FinishDial(w) => MuFree(s) && w in s.dialers && !s.dialers[w].Dialing?
    case Discard => s.toClose > 0
    case Close => MuFree(s)
    case CloseOwed(i) => i in s.owed && i < |s.gens| && !s.gens[i].current
    case InGen(i, b) =>
      && i < |s.gens| && P.Enabled(s.gens[i], b) && !b.Retire? && !b.CloseRetired?
      && (b.Check? || b.Clear? ==> MuFree(s))
      && (b.Acquire? ==> Free(s, b.c))
  }

  function Apply(s: State, a: Action): State
    requires Enabled(s, a)
  {
    match a
    case StartDial(w) => s.(dialing := true, dialers := s.dialers[w := Dialing])
    case DialReturns(w, ok) =>
      s.(dialers := s.dialers[w := if ok then Dialed else Failed], dialedOk := s.dialedOk + if ok then 1 else 0)
    case FinishDial(w) =>
      var t := s.(dialing := false, dialers := s.dialers - {w});
      if s.dialers[w].Failed? then t
      else if s.closed then t.(toClose := s.toClose + 1)
      else t.(conn := Some(|s.gens|), gens := s.gens + [P.FRESH])
    case Discard => s.(toClose := s.toClose - 1, discarded := s.discarded + 1)
    case Close =>
      if s.conn.Some? && s.conn.value < |s.gens| then
        var i := s.conn.value;
        s.(closed := true, conn := None, gens := s.gens[i := P.Apply(s.gens[i], P.Retire)], owed := s.owed + {i})
      else s.(closed := true, conn := None)
    case CloseOwed(i) => s.(gens := s.gens[i := P.Apply(s.gens[i], P.CloseRetired)], owed := s.owed - {i})
    case InGen(i, b) =>
      s.(gens := s.gens[i := P.Apply(s.gens[i], b)], conn := if b.Clear? && s.conn == Some(i) then None else s.conn)
  }

  // -------------------------------------------------------------- one step

  /** At most one dial is in flight, and only while there is no connection; once closed there
      is none for good; conn is the one generation that is current. */
  ghost predicate Dials(s: State) {
    && (forall v, w :: v in s.dialers && w in s.dialers ==> v == w)
    && (forall w :: w in s.dialers ==> s.dialing)
    && (s.dialing ==> s.conn.None? && exists w :: w in s.dialers)
    && (s.closed ==> s.conn.None?)
    && (s.conn.Some? ==> s.conn.value < |s.gens|)
    && (forall i :: 0 <= i < |s.gens| ==> (s.gens[i].current <==> s.conn == Some(i)))
  }

  /** Every connection dialed is installed, waits to be discarded, or was, or is still in its
      dialer's hands. */
  predicate Accounted(s: State) {
    s.dialedOk == |s.gens| + s.toClose + s.discarded
                  + if exists w :: w in s.dialers && s.dialers[w].Dialed? then 1 else 0
  }

  /** An open socket is the current connection's, or somebody is about to close it. */
  ghost predicate Sockets(s: State) {
    forall i :: 0 <= i < |s.gens| ==> SocketOk(s, i)
  }

  /** A call is enqueued on one generation only. */
  ghost predicate OneGeneration(s: State) {
    && (forall i :: 0 <= i < |s.gens| ==> P.Queued(s.gens[i]))
    && (forall i, j, c :: 0 <= i < j < |s.gens| ==> Apart(s.gens[i], s.gens[j], P.Caller(c)))
  }

  predicate Apart(s: P.State, t: P.State, g: P.Agent) {
    g in s.pcs && g in t.pcs ==> s.pcs[g].Left? || t.pcs[g].Left?
  }

  lemma CurrentAfter(s: P.State, a: P.Action)
    requires P.Enabled(s, a)
    ensures P.Apply(s, a).current == (s.current && !a.Clear? && !a.Retire?)
    ensures P.Apply(s, a).open == (s.open && !a.CloseSocket? && !a.CloseRetired?)
  {
  }

  lemma GenDials(s: State, i: nat, b: P.Action)
    requires Dials(s) && Enabled(s, InGen(i, b))
    ensures Dials(Apply(s, InGen(i, b)))
  {
    CurrentAfter(s.gens[i], b);
  }

  lemma StepDials(s: State, a: Action)
    requires Dials(s) && Enabled(s, a)
    ensures Dials(Apply(s, a))
  {
    if a.InGen? {
      GenDials(s, a.i, a.a);
    } else if a.StartDial? || a.DialReturns? {
      assert a.w in Apply(s, a).dialers;
    }
  }

  lemma StepAccounted(s: State, a: Action)
    requires Dials(s) && Accounted(s) && Enabled(s, a)
    ensures Accounted(Apply(s, a))
  {
    var s' := Apply(s, a);
    if a.DialReturns? {
      assert forall v :: v in s.dialers ==> v == a.w;
      assert a.w in s'.dialers && s'.dialers[a.w].Dialed? == a.ok;
    } else if a.FinishDial? {
      assert forall v :: v in s.dialers ==> v == a.w;
      assert a.w in s.dialers;
    } else if a.StartDial? {
      assert forall v :: v !in s.dialers;
      assert s'.dialers == map[a.w := Dialing];
    }
  }

  /** The generation a step concerns, and what happens there. */
  predicate Within(s: State, a: Action, i: nat, b: P.Action)
    requires Enabled(s, a)
  {
    i < |s.gens| && match a
                    case InGen(j, d) => j == i && d == b
                    case CloseOwed(j) => j == i && b == P.CloseRetired
                    case Close => s.conn == Some(i) && b == P.Retire
                    case _ => false
  }

  lemma InGeneration(s: State, a: Action, i: nat) returns (b: Option<P.Action>)
    requires Enabled(s, a) && i < |s.gens|
    ensures i < |Apply(s, a).gens|
    ensures b.Some? ==>
              && Within(s, a, i, b.value) && P.Enabled(s.gens[i], b.value)
              && Apply(s, a).gens[i] == P.Apply(s.gens[i], b.value)
    ensures b.None? ==> Apply(s, a).gens[i] == s.gens[i] && forall d :: !Within(s, a, i, d)
  {
    match a
    case InGen(j, d) => b := if i == j then Some(d) else None;
    case CloseOwed(j) => b := if i == j then Some(P.CloseRetired) else None;
    case Close => b := if s.conn == Some(i) then Some(P.Retire) else None;
    case _ => b := None;
  }

  lemma ClosingStays(s: P.State, b: P.Action, x: P.Agent)
    requires P.Enabled(s, b) && P.At(s, x, P.Closing) && b != P.CloseSocket(x)
    ensures P.At(P.Apply(s, b), x, P.Closing)
  {
    if P.Mover(b) != Some(x) {
      P.OthersStay(s, b, x);
    }
  }

  ghost predicate SocketOk(s: State, i: nat)
    requires i < |s.gens|
  {
    s.gens[i].open ==> s.conn == Some(i) || i in s.owed || exists x :: P.At(s.gens[i], x, P.Closing)
  }

  lemma StepSocket(s: State, a: Action, i: nat)
    requires Dials(s) && Enabled(s, a) && i < |s.gens| && SocketOk(s, i)
    ensures i < |Apply(s, a).gens| && SocketOk(Apply(s, a), i)
  {
    var b := InGeneration(s, a, i);
    if b.Some? {
      CurrentAfter(s.gens[i], b.value);
      if b.value.Clear? {
        assert P.At(Apply(s, a).gens[i], b.value.a, P.Closing);
      } else if x :| P.At(s.gens[i], x, P.Closing) && !b.value.CloseSocket? {
        ClosingStays(s.gens[i], b.value, x);
      }
    }
  }

  lemma StepSockets(s: State, a: Action)
    requires Dials(s) && Sockets(s) && Enabled(s, a)
    ensures Sockets(Apply(s, a))
  {
    forall i | 0 <= i < |Apply(s, a).gens|
      ensures SocketOk(Apply(s, a), i)
    {
      if i < |s.gens| {
        StepSocket(s, a, i);
      }
    }
  }

  /** A caller appears in a generation by taking a token there, and once it has left it stays
      away. */
  lemma CallersStay(s: P.State, b: P.Action, g: P.Agent)
    requires P.Enabled(s, b)
    ensures g in P.Apply(s, b).pcs ==> g in s.pcs || (b.Acquire? && g == P.Caller(b.c))
    ensures g in s.pcs && s.pcs[g].Left? ==> P.At(P.Apply(s, b), g, P.Left)
  {
  }

  /** Inside an old generation, the step is one of that generation's own. */
  lemma StepApart(s: State, a: Action, i: nat, j: nat, c: P.Cid)
    requires Enabled(s, a) && i < j < |s.gens| && Apart(s.gens[i], s.gens[j], P.Caller(c))
    ensures |Apply(s, a).gens| >= |s.gens| && Apart(Apply(s, a).gens[i], Apply(s, a).gens[j], P.Caller(c))
  {
    var g := P.Caller(c);
    var b := InGeneration(s, a, i);
    var d := InGeneration(s, a, j);
    if b.Some? {
      CallersStay(s.gens[i], b.value, g);
    }
    if d.Some? {
      CallersStay(s.gens[j], d.value, g);
    }
  }

  lemma StepQueues(s: State, a: Action, i: nat)
    requires Enabled(s, a) && i < |s.gens| && P.Queued(s.gens[i])
    ensures i < |Apply(s, a).gens| && P.Queued(Apply(s, a).gens[i])
  {
    var b := InGeneration(s, a, i);
    if b.Some? {
      P.StepQueued(s.gens[i], b.value);
    }
  }

  lemma OnlyFreshIsNew(s: State, a: Action, i: nat)
    requires Enabled(s, a) && |s.gens| <= i < |Apply(s, a).gens|
    ensures Apply(s, a).gens[i] == P.FRESH
  {
  }

  lemma StepOneGeneration(s: State, a: Action)
    requires OneGeneration(s) && Enabled(s, a)
    ensures OneGeneration(Apply(s, a))
  {
    forall i | 0 <= i < |Apply(s, a).gens|
      ensures P.Queued(Apply(s, a).gens[i])
    {
      if i < |s.gens| {
        StepQueues(s, a, i);
      } else {
        OnlyFreshIsNew(s, a, i);
      }
    }
    forall i, j, c | 0 <= i < j < |Apply(s, a).gens|
      ensures Apart(Apply(s, a).gens[i], Apply(s, a).gens[j], P.Caller(c))
    {
      if j < |s.gens| {
        StepApart(s, a, i, j, c);
      } else {
        OnlyFreshIsNew(s, a, j);
      }
    }
  }

  // ------------------------------------------------------------------ whole runs

  ghost predicate Inv(s: State) {
    Dials(s) && Accounted(s) && Sockets(s) && OneGeneration(s)
  }

  predicate IsRun(run: seq<Action>)
    decreases |run|, 0
  {
    run == [] || (IsRun(run[..|run| - 1]) && Enabled(After(run[..|run| - 1]), run[|run| - 1]))
  }

  function After(run: seq<Action>): State
    requires IsRun(run)
    decreases |run|, 1
  {
    if run == [] then INIT else Apply(After(run[..|run| - 1]), run[|run| - 1])
  }

  lemma {:induction false} InvRun(run: seq<Action>)
    requires IsRun(run)
    ensures Inv(After(run))
  {
    if run != [] {
      var s, a := After(run[..|run| - 1]), run[|run| - 1];
      InvRun(run[..|run| - 1]);
      StepDials(s, a);
      StepAccounted(s, a);
      StepSockets(s, a);
      StepOneGeneration(s, a);
    }
  }

  /** Whatever happens on the connection, each of its generations goes through a run of its
      own pipeline, so everything proved of those runs holds of it. */
  lemma {:induction false} GenerationRuns(run: seq<Action>, i: nat) returns (own: seq<P.Action>)
    requires IsRun(run) && i < |After(run).gens|
    ensures P.IsRun(P.FRESH, own) && P.After(P.FRESH, own) == After(run).gens[i]
  {
    if run == [] {
      own := [];
    } else {
      var s, a := After(run[..|run| - 1]), run[|run| - 1];
      if i < |s.gens| {
        own := GenerationRuns(run[..|run| - 1], i);
        var b := InGeneration(s, a, i);
        if b.Some? {
          P.Extend(P.FRESH, own, b.value);
          own := own + [b.value];
        }
      } else {
        OnlyFreshIsNew(s, a, i);
        own := [];
      }
    }
  }

  /** In every reachable state at most one dial is in flight, and only while no connection is
      installed; the installed connection is the one current generation, none once closed;
      every connection ever dialed is installed or discarded, or about to be; and every
      socket still open is the installed one or about to be closed. */
  lemma Lifecycle(run: seq<Action>)
    requires IsRun(run)
    ensures var s := After(run);
            && (forall v, w :: v in s.dialers && w in s.dialers ==> v == w)
            && (s.dialers != map[] ==> s.conn.None?)
            && (s.closed ==> s.conn.None?)
            && (forall i :: 0 <= i < |s.gens| ==> (s.gens[i].current <==> s.conn == Some(i)))
            && Accounted(s)
            && (forall i :: 0 <= i < |s.gens| ==> SocketOk(s, i))
  {
    InvRun(run);
  }

  lemma StaysClosed(s: State, a: Action)
    requires Dials(s) && Enabled(s, a) && s.closed
    ensures Apply(s, a).closed && Apply(s, a).conn.None? && |Apply(s, a).gens| == |s.gens|
  {
  }

  /** close() is final: no connection is installed after it, whatever was being dialed. */
  lemma {:induction false} ClosedForGood(run: seq<Action>, more: seq<Action>)
    requires IsRun(run) && After(run).closed && IsRun(run + more)
    ensures After(run + more).closed && After(run + more).conn.None?
    ensures |After(run + more).gens| == |After(run).gens|
  {
    if more == [] {
      assert run + more == run;
      InvRun(run);
    } else {
      var front := run + more[..|more| - 1];
      assert (run + more)[..|run + more| - 1] == front;
      ClosedForGood(run, more[..|more| - 1]);
      InvRun(front);
      StaysClosed(After(front), (run + more)[|run + more| - 1]);
    }
  }

  /** A call is enqueued, and so answered, on one generation at most. */
  lemma AnsweredOnce(run: seq<Action>, i: nat, j: nat, c: P.Cid)
    requires IsRun(run) && i < |After(run).gens| && j < |After(run).gens|
    requires c in After(run).gens[i].enqueued && c in After(run).gens[j].enqueued
    ensures i == j
  {
    InvRun(run);
    var s := After(run);
    assert P.Queued(s.gens[i]) && P.Queued(s.gens[j]);
    assert forall p, q :: 0 <= p < q < |s.gens| ==> Apart(s.gens[p], s.gens[q], P.Caller(c));
  }
}

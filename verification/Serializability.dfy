/** Concurrent Throttle calls and their data (server/throttling.go:118-176): every
    interleaving is equivalent to running each call at once at the moment it holds all its
    locks, with the clock reading it started from. */
module Serializability {
  import opened Types
  import opened Group
  import Generations
  import L = Locking

  /** A call's data: its clock reading, entries, working copy and result. snapshot records,
      for the proofs only, the timestamps it held at its last lock. */
  datatype Local = Local(
    now: int64, es: seq<RequestEntry>, workingTat: Tats, result: seq<ResponseEntry>, snapshot: Tats)

  datatype State = State(ctl: L.State, tats: map<L.Bid, int64>, locals: map<L.Tid, Local>)

  datatype Action = Begin(t: L.Tid, now: int64, es: seq<RequestEntry>) | Step(a: L.Action)

  /** A group of Real entries, or a single peek. */
  predicate IsCall(es: seq<RequestEntry>) {
    es != [] && ((forall e :: e in es ==> !e.peek) || |es| == 1)
  }

  /** Whether a call that saw these timestamps writes anything back. */
  predicate Writes(l: Local) {
    l.es != [] && AllAdmit(l.workingTat, l.now, l.es) && !l.es[0].peek
  }

  ghost predicate Enabled(s: State, a: Action) {
    match a
    case Begin(t, _, es) => IsCall(es) && L.Enabled(s.ctl, L.Start(t, Generations.Names(es)))
    case Step(b) =>
      && !b.Start? && L.Enabled(s.ctl, b)
      && (!b.Drop? ==> b.t in s.locals && s.locals[b.t].es != [])
      && (b.Decide? ==> b.commit == Writes(s.locals[b.t]))
  }

  /** Taking the lock after which the call holds all of them. */
  ghost predicate LockPoint(s: State, a: Action) {
    a.Step? && a.a.Lock? && a.a.t in s.ctl.calls
    && var c := s.ctl.calls[a.a.t]; L.AtKey(c) && c.pc.n + 1 == |c.keys|
  }

  ghost function TatAt(s: State, c: L.Call, k: string): int64 {
    if k in c.found && c.found[k] in s.tats then s.tats[c.found[k]] else 0
  }

  ghost function StepLocal(s: State, b: L.Action): Local
    requires Enabled(s, Step(b)) && !b.Drop?
  {
    var l, c := s.locals[b.t], s.ctl.calls[b.t];
    match b
    case Lock(_) =>
      if LockPoint(s, Step(b)) then l.(snapshot := map k | k in c.names :: TatAt(s, c, k)) else l
    case Read(_) => l.(workingTat := l.workingTat[L.Current(c) := TatAt(s, c, L.Current(c))])
    case Decide(_, commit) =>
      l.(result := Reports(l.workingTat, l.now, l.es),
         workingTat := if commit then Work(l.workingTat, l.now, l.es) else l.workingTat)
    case _ => l
  }

  ghost function StepTats(s: State, b: L.Action): map<L.Bid, int64>
    requires Enabled(s, Step(b)) && !b.Drop?
  {
    var c := s.ctl.calls[b.t];
    match b
    case Find(_, key, bid) => if key in s.ctl.lookup then s.tats else s.tats[bid := 0]
    case Write(_) => s.tats[c.found[L.Current(c)] := TatOf(s.locals[b.t].workingTat, L.Current(c))]
    case _ => s.tats
  }

  ghost function Apply(s: State, a: Action): State
    requires Enabled(s, a)
  {
    match a
    case Begin(t, now, es) =>
      State(L.Apply(s.ctl, L.Start(t, Generations.Names(es))), s.tats, s.locals[t := Local(now, es, map[], [], map[])])
    case Step(b) =>
      if b.Drop? then s.(ctl := L.Apply(s.ctl, b))
      else State(L.Apply(s.ctl, b), StepTats(s, b), s.locals[b.t := StepLocal(s, b)])
  }

  /** The garbage collector drops no key that a running call has already looked up. */
  ghost predicate Clean(s: State, a: Action) {
    a.Step? && a.a.Drop? ==>
      forall t :: t in s.ctl.calls && !s.ctl.calls[t].pc.Done? ==> a.a.key !in s.ctl.calls[t].found
  }

  // -------------------------------------------------------- the atomic machine

  datatype AtomicCall =
    | Pending(now: int64, es: seq<RequestEntry>)
    | Answered(now: int64, es: seq<RequestEntry>, result: seq<ResponseEntry>)

  datatype Atomic = Atomic(tats: Tats, calls: map<L.Tid, AtomicCall>)

  datatype AtomicAction = Invoke(t: L.Tid, now: int64, es: seq<RequestEntry>) | Execute(t: L.Tid) | Forget(key: string)

  predicate AtomicEnabled(s: Atomic, a: AtomicAction) {
    match a
    case Invoke(t, _, _) => t !in s.calls
    case Execute(t) => t in s.calls && s.calls[t].Pending?
    case Forget(_) => true
  }

  /** A call executes in one step: all its checks, and its commit. */
  function AtomicApply(s: Atomic, a: AtomicAction): Atomic
    requires AtomicEnabled(s, a)
  {
    match a
    case Invoke(t, now, es) => s.(calls := s.calls[t := Pending(now, es)])
    case Execute(t) =>
      var c := s.calls[t];
      Atomic(Commit(s.tats, c.now, c.es), s.calls[t := Answered(c.now, c.es, Reports(s.tats, c.now, c.es))])
    case Forget(key) => s.(tats := s.tats - {key})
  }

  predicate AtomicRun(acts: seq<AtomicAction>)
    decreases |acts|, 0
  {
    acts == [] || (AtomicRun(acts[..|acts| - 1]) && AtomicEnabled(AtomicAfter(acts[..|acts| - 1]), acts[|acts| - 1]))
  }

  function AtomicAfter(acts: seq<AtomicAction>): Atomic
    requires AtomicRun(acts)
    decreases |acts|, 1
  {
    if acts == [] then Atomic(map[], map[]) else AtomicApply(AtomicAfter(acts[..|acts| - 1]), acts[|acts| - 1])
  }

  // ------------------------------------------------------------ the simulation

  predicate Decided(c: L.Call) {
    !c.pc.Looking? && !c.pc.Waiting?
  }

  /** What a decided call leaves in its buckets. */
  function Outcome(l: Local): Tats {
    Commit(l.snapshot, l.now, l.es)
  }

  /** A call's data, as far along as its position says. */
  ghost predicate DataOk(s: State, c: L.Call, l: Local) {
    && IsCall(l.es) && c.names == Generations.Names(l.es)
    && (Decided(c) && !c.pc.Reading? ==> l.result == Reports(l.snapshot, l.now, l.es))
    && (c.pc.Reading? ==> forall i :: 0 <= i < |c.keys| ==>
          && TatAt(s, c, c.keys[i]) == TatOf(l.snapshot, c.keys[i])
          && (i < c.pc.n ==> TatOf(l.workingTat, c.keys[i]) == TatOf(l.snapshot, c.keys[i])))
    && (c.pc.Writing? ==> forall i :: 0 <= i < |c.keys| ==>
          && TatOf(l.workingTat, c.keys[i]) == TatOf(Outcome(l), c.keys[i])
          && (i < c.pc.n ==> TatAt(s, c, c.keys[i]) == TatOf(Outcome(l), c.keys[i])))
    && (c.pc.Unlocking? ==> forall i :: c.pc.n <= i < |c.keys| ==>
          TatAt(s, c, c.keys[i]) == TatOf(Outcome(l), c.keys[i]))
  }

  ghost predicate DataOkAt(s: State, t: L.Tid) {
    t in s.ctl.calls && t in s.locals && DataOk(s, s.ctl.calls[t], s.locals[t])
  }

  /** The atomic machine's timestamp for a live key: the bucket's own, unless a decided call
      holds the bucket, and then what that call will leave in it. */
  ghost predicate KeyOk(s: State, m: Tats, k: string)
    requires k in s.ctl.lookup
  {
    var b := s.ctl.lookup[k];
    if b in s.ctl.owner && s.ctl.owner[b] in s.ctl.calls && s.ctl.owner[b] in s.locals
       && Decided(s.ctl.calls[s.ctl.owner[b]])
    then TatOf(m, k) == TatOf(Outcome(s.locals[s.ctl.owner[b]]), k)
    else b in s.tats && s.tats[b] == TatOf(m, k)
  }

  ghost predicate Domains(s: State) {
    && (forall t :: t in s.ctl.calls <==> t in s.locals)
    && (forall b :: b in s.ctl.bucketKey <==> b in s.tats)
  }

  /** The buckets a running call found are the ones the store still has. */
  ghost predicate FoundIsLive(s: State, t: L.Tid)
    requires t in s.ctl.calls
  {
    var c := s.ctl.calls[t];
    c.pc.Done? || forall k :: k in c.found ==> k in s.ctl.lookup && s.ctl.lookup[k] == c.found[k]
  }

  ghost predicate Simulates(s: State, m: Tats) {
    && L.Inv(s.ctl)
    && Domains(s)
    && (forall t :: t in s.ctl.calls ==> FoundIsLive(s, t))
    && (forall t :: t in s.locals ==> DataOkAt(s, t))
    && (forall k :: k in s.ctl.lookup ==> KeyOk(s, m, k))
    && (forall k :: k !in s.ctl.lookup ==> TatOf(m, k) == 0)
  }

  /** The atomic timestamps after a step: they change at lock points and drops only. */
  ghost function NextTats(s: State, m: Tats, a: Action): Tats
    requires Enabled(s, a)
  {
    if LockPoint(s, a) then Commit(m, s.locals[a.a.t].now, s.locals[a.a.t].es)
    else if a.Step? && a.a.Drop? then m - {a.a.key}
    else m
  }

  lemma PeekCommitsNothing(m: Tats, now: int64, es: seq<RequestEntry>)
    requires |es| == 1 && es[0].peek
    ensures Work(m, now, es) == m && Commit(m, now, es) == m
  {
    assert es[..0] == [];
  }

  // ----------------------------------------------- what a step does to a call's data

  /** What the simulation says about one call, and about one live key. */
  ghost predicate AboutCall(s: State, t: L.Tid) {
    && DataOkAt(s, t) && L.Shape(s.ctl.calls[t]) && L.Holding(s.ctl, t, s.ctl.calls[t])
    && FoundIsLive(s, t)
    && (forall k :: k in s.ctl.calls[t].found ==> s.ctl.calls[t].found[k] in s.tats)
  }

  ghost predicate AboutKey(s: State, m: Tats, k: string) {
    && k in s.ctl.lookup && KeyOk(s, m, k)
    && s.ctl.lookup[k] in s.ctl.bucketKey && s.ctl.bucketKey[s.ctl.lookup[k]] == k
    && (s.ctl.lookup[k] in s.ctl.owner ==> L.OwnerHolds(s.ctl, s.ctl.lookup[k]))
  }

  lemma AboutOne(s: State, m: Tats, t: L.Tid)
    requires Simulates(s, m) && t in s.ctl.calls
    ensures AboutCall(s, t)
  {
    var c := s.ctl.calls[t];
    assert L.Holding(s.ctl, t, c);
  }

  /** Only a write changes the timestamp of a known bucket, and only of the one it writes. */
  lemma TatKept(s: State, b: L.Action, d: L.Call, k: string)
    requires Enabled(s, Step(b)) && !b.Drop? && k in d.found && d.found[k] in s.tats && d.found[k] in s.ctl.bucketKey
    requires b.Write? ==> d.found[k] != s.ctl.calls[b.t].found[L.Current(s.ctl.calls[b.t])]
    ensures TatAt(Apply(s, Step(b)), d, k) == TatAt(s, d, k)
  {
  }

  /** No two calls hold the same bucket. */
  lemma HoldsApart(s: State, t: L.Tid, u: L.Tid, j: string, k: string)
    requires AboutCall(s, t) && AboutCall(s, u) && t != u
    requires j in s.ctl.calls[t].held && j in s.ctl.calls[t].found
    requires k in s.ctl.calls[u].held && k in s.ctl.calls[u].found
    ensures s.ctl.calls[t].found[j] != s.ctl.calls[u].found[k]
  {
  }

  /** A step of another call leaves alone the buckets this one holds. */
  lemma HeldBucketsKept(s: State, b: L.Action, u: L.Tid, k: string)
    requires Enabled(s, Step(b)) && !b.Drop? && AboutCall(s, b.t) && AboutCall(s, u)
    requires u != b.t && k in s.ctl.calls[u].held && k in s.ctl.calls[u].found
    ensures TatAt(Apply(s, Step(b)), s.ctl.calls[u], k) == TatAt(s, s.ctl.calls[u], k)
  {
    if b.Write? {
      var c := s.ctl.calls[b.t];
      assert L.Current(c) in c.names;
      HoldsApart(s, b.t, u, L.Current(c), k);
    }
    TatKept(s, b, s.ctl.calls[u], k);
  }

  lemma OthersData(s: State, b: L.Action, u: L.Tid)
    requires Enabled(s, Step(b)) && !b.Drop? && AboutCall(s, b.t) && AboutCall(s, u) && u != b.t
    ensures DataOk(Apply(s, Step(b)), s.ctl.calls[u], s.locals[u])
  {
    var c := s.ctl.calls[u];
    forall k | k in c.held && k in c.found
      ensures TatAt(Apply(s, Step(b)), c, k) == TatAt(s, c, k)
    {
      HeldBucketsKept(s, b, u, k);
    }
    SameData(s, Apply(s, Step(b)), c, s.locals[u]);
  }

  /** A call's data is in order as long as the buckets it holds are left alone. */
  lemma SameData(s: State, s': State, c: L.Call, l: Local)
    requires DataOk(s, c, l) && L.Shape(c)
    requires forall k :: k in c.held && k in c.found ==> TatAt(s', c, k) == TatAt(s, c, k)
    ensures DataOk(s', c, l)
  {
  }

  lemma LockData(s: State, b: L.Action)
    requires Enabled(s, Step(b)) && b.Lock? && AboutCall(s, b.t)
    ensures DataOk(Apply(s, Step(b)), L.StepCall(s.ctl, b), StepLocal(s, b))
  {
  }

  lemma ReadData(s: State, b: L.Action)
    requires Enabled(s, Step(b)) && b.Read? && AboutCall(s, b.t)
    ensures DataOk(Apply(s, Step(b)), L.StepCall(s.ctl, b), StepLocal(s, b))
  {
    var s', c, d := Apply(s, Step(b)), s.ctl.calls[b.t], L.StepCall(s.ctl, b);
    assert s'.tats == s.tats && d == c.(pc := L.Reading(c.pc.n + 1));
    forall k | k in c.found
      ensures TatAt(s', d, k) == TatAt(s, c, k)
    {
    }
  }

  lemma WritingAt(s: State, c: L.Call, l: Local, i: nat)
    requires DataOk(s, c, l) && c.pc.Writing? && i < |c.keys|
    ensures TatOf(l.workingTat, c.keys[i]) == TatOf(Outcome(l), c.keys[i])
    ensures i < c.pc.n ==> TatAt(s, c, c.keys[i]) == TatOf(Outcome(l), c.keys[i])
  {
  }

  lemma WrittenSoFar(s: State, b: L.Action, i: nat)
    requires Enabled(s, Step(b)) && b.Write? && AboutCall(s, b.t) && i < |s.ctl.calls[b.t].keys|
    ensures i < s.ctl.calls[b.t].pc.n + 1 ==>
              TatAt(Apply(s, Step(b)), s.ctl.calls[b.t], s.ctl.calls[b.t].keys[i])
              == TatOf(Outcome(s.locals[b.t]), s.ctl.calls[b.t].keys[i])
  {
    var c := s.ctl.calls[b.t];
    assert c.keys[i] in c.names;
    WritingAt(s, c, s.locals[b.t], i);
    if c.keys[i] != L.Current(c) {
      TatKept(s, b, c, c.keys[i]);
    }
  }

  lemma WriteData(s: State, b: L.Action)
    requires Enabled(s, Step(b)) && b.Write? && AboutCall(s, b.t)
    ensures DataOk(Apply(s, Step(b)), L.StepCall(s.ctl, b), s.locals[b.t])
  {
    forall i | 0 <= i < |s.ctl.calls[b.t].keys| {
      WrittenSoFar(s, b, i);
    }
  }

  /** Deciding on a complete working copy is deciding on the snapshot. */
  lemma DecidesAsSnapshot(c: L.Call, l: Local)
    requires L.Shape(c) && c.pc.Reading? && IsCall(l.es) && c.names == Generations.Names(l.es)
    requires forall i :: 0 <= i < |c.keys| ==> TatOf(l.workingTat, c.keys[i]) == TatOf(l.snapshot, c.keys[i])
    ensures Reports(l.workingTat, l.now, l.es) == Reports(l.snapshot, l.now, l.es)
    ensures forall k :: k in c.keys ==>
              TatOf(Outcome(l), k) == TatOf(if Writes(l) then Work(l.workingTat, l.now, l.es) else l.snapshot, k)
  {
    assert AgreeOn(l.workingTat, l.snapshot, c.names);
    LocalCall(l.workingTat, l.snapshot, l.now, l.es, c.names);
    LocalWork(l.workingTat, l.snapshot, l.now, l.es, c.names);
    if l.es[0].peek {
      PeekCommitsNothing(l.snapshot, l.now, l.es);
    }
  }

  lemma DecideData(s: State, b: L.Action)
    requires Enabled(s, Step(b)) && b.Decide? && AboutCall(s, b.t)
    ensures DataOk(Apply(s, Step(b)), L.StepCall(s.ctl, b), StepLocal(s, b))
  {
    var c, l := s.ctl.calls[b.t], s.locals[b.t];
    DecidesAsSnapshot(c, l);
    assert forall i :: 0 <= i < |c.keys| ==>
        TatAt(Apply(s, Step(b)), L.StepCall(s.ctl, b), c.keys[i]) == TatAt(s, c, c.keys[i]);
  }

  lemma OwnData(s: State, b: L.Action)
    requires Enabled(s, Step(b)) && !b.Drop? && AboutCall(s, b.t)
    ensures DataOk(Apply(s, Step(b)), L.StepCall(s.ctl, b), StepLocal(s, b))
  {
    if b.Lock? {
      LockData(s, b);
    } else if b.Read? {
      ReadData(s, b);
    } else if b.Decide? {
      DecideData(s, b);
    } else if b.Write? {
      WriteData(s, b);
    }
  }

  // --------------------------------------------------- what a step does to a key

  /** At its lock point a call sees in its buckets what the atomic machine has for its keys. */
  lemma LockPointAgrees(s: State, m: Tats, b: L.Action)
    requires Enabled(s, Step(b)) && LockPoint(s, Step(b)) && AboutCall(s, b.t)
    requires forall k :: k in s.ctl.lookup ==> KeyOk(s, m, k)
    ensures AgreeOn(m, StepLocal(s, b).snapshot, s.ctl.calls[b.t].names)
  {
    var c := s.ctl.calls[b.t];
    forall k | k in c.names
      ensures TatAt(s, c, k) == TatOf(m, k)
    {
      assert k in c.found && KeyOk(s, m, k);
      if k != L.Current(c) {
        var i :| 0 <= i < |c.keys| && c.keys[i] == k;
        assert c.keys[i] in c.held;
      }
    }
  }

  lemma LockPointOwns(s: State, b: L.Action, k: string)
    requires Enabled(s, Step(b)) && LockPoint(s, Step(b)) && AboutCall(s, b.t)
    requires k in s.ctl.lookup && k in s.ctl.calls[b.t].names
    ensures s.ctl.lookup[k] in Apply(s, Step(b)).ctl.owner && Apply(s, Step(b)).ctl.owner[s.ctl.lookup[k]] == b.t
  {
    var c := s.ctl.calls[b.t];
    if k != L.Current(c) {
      var i :| 0 <= i < |c.keys| && c.keys[i] == k;
      assert c.keys[i] in c.held;
    }
  }

  lemma LockPointOwnKey(s: State, m: Tats, b: L.Action, k: string)
    requires Enabled(s, Step(b)) && LockPoint(s, Step(b)) && AboutCall(s, b.t)
    requires k in s.ctl.lookup && k in s.ctl.calls[b.t].names
    requires AgreeOn(m, StepLocal(s, b).snapshot, s.ctl.calls[b.t].names)
    ensures KeyOk(Apply(s, Step(b)), NextTats(s, m, Step(b)), k)
  {
    LocalCall(m, StepLocal(s, b).snapshot, s.locals[b.t].now, s.locals[b.t].es, s.ctl.calls[b.t].names);
    LockPointOwns(s, b, k);
  }

  lemma LockPointOtherKey(s: State, m: Tats, b: L.Action, k: string)
    requires Enabled(s, Step(b)) && LockPoint(s, Step(b)) && AboutCall(s, b.t) && AboutKey(s, m, k)
    requires k !in s.ctl.calls[b.t].names
    ensures KeyOk(Apply(s, Step(b)), NextTats(s, m, Step(b)), k)
  {
    CommitFrame(m, s.locals[b.t].now, s.locals[b.t].es, k);
  }

  lemma UnlockKey(s: State, m: Tats, b: L.Action, k: string)
    requires Enabled(s, Step(b)) && b.Unlock? && AboutCall(s, b.t) && AboutKey(s, m, k)
    ensures KeyOk(Apply(s, Step(b)), m, k)
  {
    assert L.Current(s.ctl.calls[b.t]) in s.ctl.calls[b.t].held;
  }

  lemma WriteKey(s: State, m: Tats, b: L.Action, k: string)
    requires Enabled(s, Step(b)) && b.Write? && AboutCall(s, b.t) && AboutKey(s, m, k)
    ensures KeyOk(Apply(s, Step(b)), m, k)
  {
    assert L.Current(s.ctl.calls[b.t]) in s.ctl.calls[b.t].held;
  }

  /** Taking a lock that is not the last: the bucket's new owner is still undecided. */
  lemma EarlyLockKey(s: State, m: Tats, b: L.Action, k: string)
    requires Enabled(s, Step(b)) && b.Lock? && !LockPoint(s, Step(b)) && AboutCall(s, b.t) && AboutKey(s, m, k)
    ensures KeyOk(Apply(s, Step(b)), m, k)
  {
  }

  lemma FindKey(s: State, m: Tats, b: L.Action, k: string)
    requires Enabled(s, Step(b)) && b.Find? && AboutCall(s, b.t) && AboutKey(s, m, k)
    ensures KeyOk(Apply(s, Step(b)), m, k)
  {
  }

  /** Steps that touch neither locks nor timestamps leave every key as it was. */
  lemma QuietKey(s: State, m: Tats, b: L.Action, k: string)
    requires Enabled(s, Step(b)) && (b.Arrange? || b.Read? || b.Decide?)
    requires AboutCall(s, b.t) && AboutKey(s, m, k)
    ensures KeyOk(Apply(s, Step(b)), m, k)
  {
    QuietParts(s, b);
    if s.ctl.lookup[k] in s.ctl.owner && s.ctl.owner[s.ctl.lookup[k]] == b.t {
      NextParts(s, b, b.t);
      QuietOutcome(s, b);
    }
  }

  lemma QuietParts(s: State, b: L.Action)
    requires Enabled(s, Step(b)) && (b.Arrange? || b.Read? || b.Decide?)
    ensures Apply(s, Step(b)).ctl.lookup == s.ctl.lookup && Apply(s, Step(b)).ctl.owner == s.ctl.owner
    ensures Apply(s, Step(b)).tats == s.tats
  {
  }

  lemma QuietOutcome(s: State, b: L.Action)
    requires Enabled(s, Step(b)) && (b.Arrange? || b.Read? || b.Decide?)
    ensures Decided(L.StepCall(s.ctl, b)) == Decided(s.ctl.calls[b.t])
    ensures Outcome(StepLocal(s, b)) == Outcome(s.locals[b.t])
  {
  }

  lemma OldKey(s: State, m: Tats, b: L.Action, k: string)
    requires Simulates(s, m) && Enabled(s, Step(b)) && !b.Drop? && k in s.ctl.lookup
    ensures KeyOk(Apply(s, Step(b)), NextTats(s, m, Step(b)), k)
  {
    AboutOne(s, m, b.t);
    assert AboutKey(s, m, k);
    if LockPoint(s, Step(b)) {
      if k in s.ctl.calls[b.t].names {
        LockPointAgrees(s, m, b);
        LockPointOwnKey(s, m, b, k);
      } else {
        LockPointOtherKey(s, m, b, k);
      }
    } else if b.Unlock? {
      UnlockKey(s, m, b, k);
    } else if b.Write? {
      WriteKey(s, m, b, k);
    } else if b.Lock? {
      EarlyLockKey(s, m, b, k);
    } else if b.Find? {
      FindKey(s, m, b, k);
    } else {
      QuietKey(s, m, b, k);
    }
  }

  lemma NewKey(s: State, m: Tats, b: L.Action)
    requires Enabled(s, Step(b)) && b.Find? && b.key !in s.ctl.lookup && TatOf(m, b.key) == 0
    requires b.bid in s.ctl.owner ==> L.OwnerHolds(s.ctl, b.bid)
    ensures KeyOk(Apply(s, Step(b)), m, b.key)
  {
  }

  lemma BeginKey(s: State, m: Tats, a: Action, k: string)
    requires Enabled(s, a) && a.Begin? && AboutKey(s, m, k)
    ensures KeyOk(Apply(s, a), m, k)
  {
  }

  lemma DropKey(s: State, m: Tats, b: L.Action, k: string)
    requires Enabled(s, Step(b)) && b.Drop? && AboutKey(s, m, k) && k != b.key
    ensures KeyOk(Apply(s, Step(b)), NextTats(s, m, Step(b)), k)
  {
  }

  lemma NewlyLive(s: State, a: Action, k: string)
    requires Enabled(s, a) && k in Apply(s, a).ctl.lookup && k !in s.ctl.lookup
    ensures a.Step? && a.a.Find? && a.a.key == k
  {
  }

  lemma KeptKey(s: State, m: Tats, a: Action, k: string)
    requires Enabled(s, a) && (a.Begin? || a.a.Drop?) && k in Apply(s, a).ctl.lookup
    requires AboutKey(s, m, k)
    ensures KeyOk(Apply(s, a), NextTats(s, m, a), k)
  {
    if a.Begin? {
      BeginKey(s, m, a, k);
    } else {
      DropKey(s, m, a.a, k);
    }
  }

  lemma StepKey(s: State, m: Tats, a: Action, k: string)
    requires Simulates(s, m) && Enabled(s, a) && k in Apply(s, a).ctl.lookup
    ensures KeyOk(Apply(s, a), NextTats(s, m, a), k)
  {
    if k in s.ctl.lookup && a.Step? && !a.a.Drop? {
      OldKey(s, m, a.a, k);
    } else if k in s.ctl.lookup {
      assert AboutKey(s, m, k);
      KeptKey(s, m, a, k);
    } else {
      NewlyLive(s, a, k);
      assert a.a.bid in s.ctl.owner ==> L.OwnerHolds(s.ctl, a.a.bid);
      NewKey(s, m, a.a);
    }
  }

  // ------------------------------------------------------------- the whole state

  lemma StepDomains(s: State, a: Action)
    requires Domains(s) && Enabled(s, a)
    ensures Domains(Apply(s, a))
  {
  }

  lemma CallStepFound(s: State, b: L.Action, t: L.Tid)
    requires Enabled(s, Step(b)) && !b.Drop? && t in s.ctl.calls && FoundIsLive(s, t)
    ensures t in Apply(s, Step(b)).ctl.calls && FoundIsLive(Apply(s, Step(b)), t)
  {
    if b.Find? && t != b.t {
      assert Apply(s, Step(b)).ctl.calls[t] == s.ctl.calls[t];
    }
  }

  lemma DropFound(s: State, b: L.Action, t: L.Tid)
    requires Enabled(s, Step(b)) && b.Drop? && Clean(s, Step(b)) && t in s.ctl.calls && FoundIsLive(s, t)
    ensures FoundIsLive(Apply(s, Step(b)), t)
  {
  }

  lemma StepFound(s: State, a: Action, t: L.Tid)
    requires Enabled(s, a) && Clean(s, a) && t in Apply(s, a).ctl.calls && (t in s.ctl.calls ==> FoundIsLive(s, t))
    ensures FoundIsLive(Apply(s, a), t)
  {
    if a.Step? {
      if a.a.Drop? {
        DropFound(s, a.a, t);
      } else {
        CallStepFound(s, a.a, t);
      }
    }
  }

  lemma BeginData(s: State, a: Action, t: L.Tid)
    requires Enabled(s, a) && a.Begin? && t in Apply(s, a).locals && Domains(s)
    requires t in s.locals ==> AboutCall(s, t)
    ensures DataOkAt(Apply(s, a), t)
  {
    if t in s.locals {
      assert Apply(s, a).ctl.calls[t] == s.ctl.calls[t] && Apply(s, a).locals[t] == s.locals[t];
    }
  }

  lemma DropData(s: State, b: L.Action, t: L.Tid)
    requires Enabled(s, Step(b)) && b.Drop? && AboutCall(s, t)
    ensures DataOkAt(Apply(s, Step(b)), t)
  {
  }

  /** Where a step of a call shows. */
  lemma NextParts(s: State, b: L.Action, t: L.Tid)
    requires Enabled(s, Step(b)) && !b.Drop? && t in s.ctl.calls && t in s.locals
    ensures t in Apply(s, Step(b)).ctl.calls && t in Apply(s, Step(b)).locals
    ensures Apply(s, Step(b)).ctl.calls[t] == if t == b.t then L.StepCall(s.ctl, b) else s.ctl.calls[t]
    ensures Apply(s, Step(b)).locals[t] == if t == b.t then StepLocal(s, b) else s.locals[t]
  {
  }

  lemma CallStepData(s: State, b: L.Action, t: L.Tid)
    requires Enabled(s, Step(b)) && !b.Drop? && AboutCall(s, t) && AboutCall(s, b.t)
    ensures DataOkAt(Apply(s, Step(b)), t)
  {
    NextParts(s, b, t);
    if t == b.t {
      OwnData(s, b);
    } else {
      OthersData(s, b, t);
    }
  }

  lemma StepData(s: State, m: Tats, a: Action, t: L.Tid)
    requires Simulates(s, m) && Enabled(s, a) && t in Apply(s, a).locals
    ensures DataOkAt(Apply(s, a), t)
  {
    if t in s.locals {
      AboutOne(s, m, t);
    }
    if a.Step? && !a.a.Drop? {
      AboutOne(s, m, a.a.t);
      CallStepData(s, a.a, t);
    } else if a.Step? {
      DropData(s, a.a, t);
    } else {
      BeginData(s, a, t);
    }
  }

  lemma LockPointAbsent(s: State, m: Tats, b: L.Action, k: string)
    requires Enabled(s, Step(b)) && LockPoint(s, Step(b)) && AboutCall(s, b.t)
    requires k !in s.ctl.lookup && TatOf(m, k) == 0
    ensures TatOf(NextTats(s, m, Step(b)), k) == 0
  {
    CommitFrame(m, s.locals[b.t].now, s.locals[b.t].es, k);
  }

  lemma OnlyDropsRemove(s: State, a: Action, k: string)
    requires Enabled(s, a) && k !in Apply(s, a).ctl.lookup
    ensures k !in s.ctl.lookup || (a.Step? && a.a.Drop? && a.a.key == k)
  {
  }

  lemma StepAbsent(s: State, m: Tats, a: Action, k: string)
    requires Simulates(s, m) && Enabled(s, a) && k !in Apply(s, a).ctl.lookup
    ensures TatOf(NextTats(s, m, a), k) == 0
  {
    OnlyDropsRemove(s, a, k);
    if LockPoint(s, a) {
      AboutOne(s, m, a.a.t);
      LockPointAbsent(s, m, a.a, k);
    }
  }

  /** The atomic machine follows every step of every interleaving. */
  lemma SimulatesStep(s: State, m: Tats, a: Action)
    requires Simulates(s, m) && Enabled(s, a) && Clean(s, a)
    ensures Simulates(Apply(s, a), NextTats(s, m, a))
  {
    L.InvStep(s.ctl, if a.Begin? then L.Start(a.t, Generations.Names(a.es)) else a.a);
    StepDomains(s, a);
    forall t | t in Apply(s, a).ctl.calls {
      StepFound(s, a, t);
    }
    forall t | t in Apply(s, a).locals {
      StepData(s, m, a, t);
    }
    forall k | k in Apply(s, a).ctl.lookup {
      StepKey(s, m, a, k);
    }
    forall k | k !in Apply(s, a).ctl.lookup {
      StepAbsent(s, m, a, k);
    }
  }

  // ------------------------------------------------------------------- whole runs

  const INIT := State(L.INIT, map[], map[])

  /** A run in which no drop hits a key that a running call has looked up. */
  ghost predicate CleanRun(run: seq<Action>)
    decreases |run|, 0
  {
    run == [] || (CleanRun(run[..|run| - 1])
                  && Enabled(After(run[..|run| - 1]), run[|run| - 1]) && Clean(After(run[..|run| - 1]), run[|run| - 1]))
  }

  ghost function After(run: seq<Action>): State
    requires CleanRun(run)
    decreases |run|, 1
  {
    if run == [] then INIT else Apply(After(run[..|run| - 1]), run[|run| - 1])
  }

  /** A call's place in the order of atomic calls is its lock point. */
  ghost function Move(s: State, a: Action): seq<AtomicAction> {
    if a.Begin? then [Invoke(a.t, a.now, a.es)]
    else if LockPoint(s, a) then [Execute(a.a.t)]
    else if a.a.Drop? then [Forget(a.a.key)]
    else []
  }

  ghost function Linearized(run: seq<Action>): seq<AtomicAction>
    requires CleanRun(run)
  {
    if run == [] then []
    else Linearized(run[..|run| - 1]) + Move(After(run[..|run| - 1]), run[|run| - 1])
  }

  /** What the atomic machine knows of a call. */
  ghost predicate CallOk(s: State, calls: map<L.Tid, AtomicCall>, t: L.Tid) {
    && t in s.ctl.calls && t in s.locals && t in calls
    && var l := s.locals[t];
       calls[t] == if Decided(s.ctl.calls[t]) then Answered(l.now, l.es, Reports(l.snapshot, l.now, l.es))
                   else Pending(l.now, l.es)
  }

  ghost predicate Refines(s: State, at: Atomic) {
    && Simulates(s, at.tats)
    && (forall t :: t in s.locals <==> t in at.calls)
    && (forall t :: t in s.locals ==> CallOk(s, at.calls, t))
  }

  /** One step of the interleaving, by the atomic machine. */
  ghost function NextAtomic(s: State, at: Atomic, a: Action): Atomic
    requires Enabled(s, a)
  {
    Atomic(NextTats(s, at.tats, a),
           if a.Begin? then at.calls[a.t := Pending(a.now, a.es)]
           else if LockPoint(s, a) then
             var l := s.locals[a.a.t];
             at.calls[a.a.t := Answered(l.now, l.es, Reports(at.tats, l.now, l.es))]
           else at.calls)
  }

  lemma QuietCall(s: State, at: Atomic, b: L.Action, t: L.Tid)
    requires Enabled(s, Step(b)) && !LockPoint(s, Step(b)) && CallOk(s, at.calls, t)
    requires !b.Drop? ==> L.Shape(s.ctl.calls[b.t])
    ensures CallOk(Apply(s, Step(b)), at.calls, t)
  {
    if !b.Drop? {
      NextParts(s, b, t);
    }
  }

  lemma LockPointCall(s: State, at: Atomic, b: L.Action, t: L.Tid)
    requires Enabled(s, Step(b)) && LockPoint(s, Step(b)) && CallOk(s, at.calls, t)
    requires DataOkAt(s, b.t) && AgreeOn(at.tats, StepLocal(s, b).snapshot, s.ctl.calls[b.t].names)
    ensures CallOk(Apply(s, Step(b)), NextAtomic(s, at, Step(b)).calls, t)
  {
    NextParts(s, b, t);
    var l := s.locals[b.t];
    LocalCall(at.tats, StepLocal(s, b).snapshot, l.now, l.es, s.ctl.calls[b.t].names);
  }

  lemma StepCallOk(s: State, at: Atomic, a: Action, t: L.Tid)
    requires Refines(s, at) && Enabled(s, a) && t in Apply(s, a).locals
    ensures CallOk(Apply(s, a), NextAtomic(s, at, a).calls, t)
  {
    if a.Step? {
      assert CallOk(s, at.calls, t);
      if LockPoint(s, a) {
        AboutOne(s, at.tats, a.a.t);
        LockPointAgrees(s, at.tats, a.a);
        LockPointCall(s, at, a.a, t);
      } else {
        QuietCall(s, at, a.a, t);
      }
    } else if t in s.locals {
      assert CallOk(s, at.calls, t);
    }
  }

  lemma RefinesStep(s: State, at: Atomic, a: Action)
    requires Refines(s, at) && Enabled(s, a) && Clean(s, a)
    ensures Refines(Apply(s, a), NextAtomic(s, at, a))
  {
    SimulatesStep(s, at.tats, a);
    forall t | t in Apply(s, a).locals {
      StepCallOk(s, at, a, t);
    }
  }

  lemma AtomicExtends(acts: seq<AtomicAction>, x: AtomicAction)
    requires AtomicRun(acts) && AtomicEnabled(AtomicAfter(acts), x)
    ensures AtomicRun(acts + [x]) && AtomicAfter(acts + [x]) == AtomicApply(AtomicAfter(acts), x)
  {
    assert (acts + [x])[..|acts + [x]| - 1] == acts;
  }

  /** The atomic machine can take that step. */
  lemma MoveIsEnabled(s: State, at: Atomic, a: Action)
    requires Enabled(s, a) && Domains(s) && (forall t :: t in s.locals <==> t in at.calls)
    requires LockPoint(s, a) ==> CallOk(s, at.calls, a.a.t)
    ensures |Move(s, a)| <= 1
    ensures Move(s, a) == [] ==> NextAtomic(s, at, a) == at
    ensures Move(s, a) != [] ==>
              AtomicEnabled(at, Move(s, a)[0]) && AtomicApply(at, Move(s, a)[0]) == NextAtomic(s, at, a)
  {
  }

  lemma MoveRuns(s: State, acts: seq<AtomicAction>, a: Action)
    requires AtomicRun(acts) && Enabled(s, a) && Domains(s)
    requires var calls := AtomicAfter(acts).calls;
             (forall t :: t in s.locals <==> t in calls) && (LockPoint(s, a) ==> CallOk(s, calls, a.a.t))
    ensures AtomicRun(acts + Move(s, a)) && AtomicAfter(acts + Move(s, a)) == NextAtomic(s, AtomicAfter(acts), a)
  {
    MoveIsEnabled(s, AtomicAfter(acts), a);
    if Move(s, a) == [] {
      assert acts + Move(s, a) == acts;
    } else {
      assert Move(s, a) == [Move(s, a)[0]];
      AtomicExtends(acts, Move(s, a)[0]);
    }
  }

  lemma {:induction false} RunRefines(run: seq<Action>)
    requires CleanRun(run)
    ensures AtomicRun(Linearized(run)) && Refines(After(run), AtomicAfter(Linearized(run)))
  {
    if run != [] {
      var front, a := run[..|run| - 1], run[|run| - 1];
      RunRefines(front);
      RefinesStep(After(front), AtomicAfter(Linearized(front)), a);
      MoveRuns(After(front), Linearized(front), a);
    }
  }

  /** The atomic machine's answer is the one the call got. */
  lemma SameAnswer(s: State, at: Atomic, t: L.Tid)
    requires Refines(s, at) && t in s.ctl.calls && s.ctl.calls[t].pc.Done?
    ensures t in s.locals && t in at.calls
    ensures at.calls[t] == Answered(s.locals[t].now, s.locals[t].es, s.locals[t].result)
  {
    assert CallOk(s, at.calls, t) && DataOkAt(s, t);
  }

  lemma SameTat(s: State, at: Atomic, k: string)
    requires Refines(s, at)
    ensures k !in s.ctl.lookup ==> TatOf(at.tats, k) == 0
    ensures k in s.ctl.lookup && s.ctl.lookup[k] !in s.ctl.owner ==>
              s.ctl.lookup[k] in s.tats && s.tats[s.ctl.lookup[k]] == TatOf(at.tats, k)
  {
    assert k in s.ctl.lookup ==> KeyOk(s, at.tats, k);
  }

  /** Every interleaving is a run of atomic calls: calls that execute in one step, each at
      the point where it took its last lock and with the clock reading it began with, give
      every finished call the result it got, and a live key whose bucket no call holds the
      timestamp it has. */
  lemma Serializable(run: seq<Action>)
    requires CleanRun(run)
    ensures AtomicRun(Linearized(run))
    ensures forall t :: t in After(run).ctl.calls && After(run).ctl.calls[t].pc.Done? ==>
              && t in After(run).locals && t in AtomicAfter(Linearized(run)).calls
              && var l := After(run).locals[t];
                 AtomicAfter(Linearized(run)).calls[t] == Answered(l.now, l.es, l.result)
    ensures forall k :: k in After(run).ctl.lookup && After(run).ctl.lookup[k] !in After(run).ctl.owner ==>
              && After(run).ctl.lookup[k] in After(run).tats
              && After(run).tats[After(run).ctl.lookup[k]] == TatOf(AtomicAfter(Linearized(run)).tats, k)
    ensures forall k :: k !in After(run).ctl.lookup ==> TatOf(AtomicAfter(Linearized(run)).tats, k) == 0
  {
    RunRefines(run);
    var s, at := After(run), AtomicAfter(Linearized(run));
    forall t | t in s.ctl.calls && s.ctl.calls[t].pc.Done? {
      SameAnswer(s, at, t);
    }
    forall k {
      SameTat(s, at, k);
    }
  }
}

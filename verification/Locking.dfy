/** The locks of concurrent Throttle calls (server/throttling.go:118-139): every lookup, lock,
    read, write and unlock is a step of its own, and the garbage collector may drop keys in
    between (server/store.go), so a key may have several bucket objects at once. */
module Locking {
  import opened Ordering

  type Tid = nat
  type Bid = nat

  /** Where a call stands. The number counts the keys already dealt with, in lock order. */
  datatype Pc =
    | Looking
    | Waiting(n: nat)
    | Reading(n: nat)
    | Writing(n: nat)
    | Unlocking(n: nat)
    | Done

  /** One call: the keys it names, the bucket objects found for them so far, the lock order
      once it is fixed, and the keys whose locks it holds. */
  datatype Call = Call(names: set<string>, found: map<string, Bid>, keys: seq<string>, held: set<string>, pc: Pc)

  /** lookup is what the store maps each live key to; bucketKey covers dropped objects too. */
  datatype State = State(
    lookup: map<string, Bid>, bucketKey: map<Bid, string>, owner: map<Bid, Tid>, calls: map<Tid, Call>)

  datatype Action =
    | Start(t: Tid, names: set<string>)
    | Find(t: Tid, key: string, bid: Bid)
    | Arrange(t: Tid, keys: seq<string>)
    | Lock(t: Tid)
    | Read(t: Tid)
    | Decide(t: Tid, commit: bool)
    | Write(t: Tid)
    | Unlock(t: Tid)
    | Drop(key: string)

  /** Whether the call is at a key of its list, and which. */
  predicate AtKey(c: Call) {
    (c.pc.Waiting? || c.pc.Reading? || c.pc.Writing? || c.pc.Unlocking?) && c.pc.n < |c.keys|
  }

  function Current(c: Call): string
    requires AtKey(c)
  {
    c.keys[c.pc.n]
  }

  ghost predicate Enabled(s: State, a: Action) {
    match a
    case Start(t, names) => t !in s.calls && names != {}
    case Drop(key) => key in s.lookup
    case Find(t, key, bid) =>
      && t in s.calls && s.calls[t].pc.Looking? && key in s.calls[t].names && key !in s.calls[t].found
      && bid !in s.bucketKey
    case Arrange(t, keys) =>
      && t in s.calls && s.calls[t].pc.Looking? && Sorted(keys)
      && (forall k :: k in keys <==> k in s.calls[t].names) && (forall k :: k in keys ==> k in s.calls[t].found)
    case Lock(t) =>
      && t in s.calls && s.calls[t].pc.Waiting? && AtBucket(s, s.calls[t])
      && s.calls[t].found[Current(s.calls[t])] !in s.owner
    case Read(t) => t in s.calls && s.calls[t].pc.Reading? && AtBucket(s, s.calls[t])
    case Decide(t, _) => t in s.calls && s.calls[t].pc.Reading? && s.calls[t].pc.n == |s.calls[t].keys|
    case Write(t) => t in s.calls && s.calls[t].pc.Writing? && AtBucket(s, s.calls[t])
    case Unlock(t) => t in s.calls && s.calls[t].pc.Unlocking? && AtBucket(s, s.calls[t])
  }

  predicate AtBucket(s: State, c: Call) {
    AtKey(c) && Current(c) in c.found && c.found[Current(c)] in s.bucketKey
  }

  /** A call's own state after one of its steps. */
  ghost function StepCall(s: State, a: Action): Call
    requires Enabled(s, a) && !a.Start? && !a.Drop?
  {
    var c := s.calls[a.t];
    match a
    case Find(_, key, bid) => c.(found := c.found[key := if key in s.lookup then s.lookup[key] else bid])
    case Arrange(_, keys) => c.(keys := keys, pc := Waiting(0))
    case Lock(_) =>
      c.(held := c.held + {Current(c)}, pc := if c.pc.n + 1 < |c.keys| then Waiting(c.pc.n + 1) else Reading(0))
    case Read(_) => c.(pc := Reading(c.pc.n + 1))
    case Decide(_, commit) => c.(pc := if commit then Writing(0) else Unlocking(0))
    case Write(_) => c.(pc := if c.pc.n + 1 < |c.keys| then Writing(c.pc.n + 1) else Unlocking(0))
    case Unlock(_) =>
      c.(held := c.held - {Current(c)}, pc := if c.pc.n + 1 < |c.keys| then Unlocking(c.pc.n + 1) else Done)
  }

  ghost function Apply(s: State, a: Action): State
    requires Enabled(s, a)
  {
    match a
    case Start(t, names) => s.(calls := s.calls[t := Call(names, map[], [], {}, Looking)])
    case Drop(key) => s.(lookup := s.lookup - {key})
    case Find(t, key, bid) =>
      var s' := s.(calls := s.calls[t := StepCall(s, a)]);
      if key in s.lookup then s'
      else s'.(lookup := s.lookup[key := bid], bucketKey := s.bucketKey[bid := key])
    case Lock(t) =>
      s.(calls := s.calls[t := StepCall(s, a)], owner := s.owner[s.calls[t].found[Current(s.calls[t])] := t])
    case Unlock(t) =>
      s.(calls := s.calls[t := StepCall(s, a)], owner := s.owner - {s.calls[t].found[Current(s.calls[t])]})
    case Arrange(t, _) => s.(calls := s.calls[t := StepCall(s, a)])
    case Read(t) => s.(calls := s.calls[t := StepCall(s, a)])
    case Decide(t, _) => s.(calls := s.calls[t := StepCall(s, a)])
    case Write(t) => s.(calls := s.calls[t := StepCall(s, a)])
  }

  // ------------------------------------------------------ who holds which lock

  /** A call's own bookkeeping is in order: it holds exactly the locks its position says. */
  ghost predicate Shape(c: Call) {
    && c.names != {} && c.found.Keys <= c.names && c.held <= c.names
    && (c.pc.Looking? || c.pc.Done? ==> c.held == {})
    && (!c.pc.Looking? ==> Sorted(c.keys) && |c.keys| > 0
                           && (forall k :: k in c.keys <==> k in c.names) && c.names <= c.found.Keys)
    && (c.pc.Waiting? || c.pc.Writing? || c.pc.Unlocking? ==> c.pc.n < |c.keys|)
    && (c.pc.Reading? ==> c.pc.n <= |c.keys|)
    && (c.pc.Waiting? ==> forall i :: 0 <= i < |c.keys| ==> (c.keys[i] in c.held <==> i < c.pc.n))
    && (c.pc.Reading? || c.pc.Writing? ==> c.names <= c.held)
    && (c.pc.Unlocking? ==> forall i :: 0 <= i < |c.keys| ==> (c.keys[i] in c.held <==> i >= c.pc.n))
  }

  /** The buckets a call found are its keys' buckets, and it owns those it holds. */
  ghost predicate Holding(s: State, t: Tid, c: Call) {
    && (forall k :: k in c.found ==> c.found[k] in s.bucketKey && s.bucketKey[c.found[k]] == k)
    && (forall k :: k in c.held && k in c.found ==> c.found[k] in s.owner && s.owner[c.found[k]] == t)
  }

  /** A locked bucket is held by the call that locked it. */
  ghost predicate OwnerHolds(s: State, b: Bid)
    requires b in s.owner
  {
    var t := s.owner[b];
    && b in s.bucketKey && t in s.calls
    && s.bucketKey[b] in s.calls[t].held && s.bucketKey[b] in s.calls[t].found && s.calls[t].found[s.bucketKey[b]] == b
  }

  ghost predicate Inv(s: State) {
    && (forall t :: t in s.calls ==> Shape(s.calls[t]) && Holding(s, t, s.calls[t]))
    && (forall b :: b in s.owner ==> OwnerHolds(s, b))
    && (forall k :: k in s.lookup ==> s.lookup[k] in s.bucketKey && s.bucketKey[s.lookup[k]] == k)
  }

  lemma KeysDistinct(c: Call)
    requires Sorted(c.keys)
    ensures forall i, j :: 0 <= i < |c.keys| && 0 <= j < |c.keys| && c.keys[i] == c.keys[j] ==> i == j
  {
    forall i, j | 0 <= i < j < |c.keys|
      ensures c.keys[i] != c.keys[j]
    {
      LessTotal(c.keys[i], c.keys[j]);
    }
  }

  lemma ArrangeShape(s: State, a: Action)
    requires Enabled(s, a) && (a.Find? || a.Arrange?) && Shape(s.calls[a.t])
    ensures Shape(StepCall(s, a))
  {
    if a.Arrange? {
      var k :| k in s.calls[a.t].names;
      assert k in a.keys;
    }
  }

  lemma StepShape(s: State, a: Action)
    requires Enabled(s, a) && !a.Start? && !a.Drop? && Shape(s.calls[a.t])
    ensures Shape(StepCall(s, a))
  {
    if a.Find? || a.Arrange? {
      ArrangeShape(s, a);
    } else {
      KeysDistinct(s.calls[a.t]);
    }
  }

  /** Only lookups, locks and unlocks touch what calls share. */
  predicate Shares(a: Action) {
    a.Find? || a.Lock? || a.Unlock?
  }

  lemma OwnHolding(s: State, a: Action)
    requires Inv(s) && Enabled(s, a) && Shares(a)
    ensures Holding(Apply(s, a), a.t, StepCall(s, a))
  {
    assert Shape(s.calls[a.t]) && Holding(s, a.t, s.calls[a.t]);
  }

  lemma OthersHolding(s: State, a: Action, u: Tid)
    requires Inv(s) && Enabled(s, a) && Shares(a) && u in s.calls && u != a.t
    ensures Holding(Apply(s, a), u, s.calls[u])
  {
    assert Holding(s, u, s.calls[u]);
    if a.Unlock? {
      var c := s.calls[a.t];
      assert Holding(s, a.t, c) && Shape(c) && Current(c) in c.held;
      assert s.owner[c.found[Current(c)]] == a.t;
    }
  }

  lemma StepHolding(s: State, a: Action, u: Tid)
    requires Inv(s) && Enabled(s, a) && u in s.calls
    ensures Holding(Apply(s, a), u, Apply(s, a).calls[u])
  {
    assert Holding(s, u, s.calls[u]);
    if Shares(a) {
      if u == a.t {
        OwnHolding(s, a);
      } else {
        OthersHolding(s, a, u);
      }
    }
  }

  lemma LockOwns(s: State, a: Action)
    requires Enabled(s, a) && a.Lock? && Holding(s, a.t, s.calls[a.t])
    ensures OwnerHolds(Apply(s, a), s.calls[a.t].found[Current(s.calls[a.t])])
  {
  }

  lemma OwnerKept(s: State, a: Action, b: Bid)
    requires Enabled(s, a) && b in s.owner && b in Apply(s, a).owner && OwnerHolds(s, b)
    requires a.Lock? ==> b != s.calls[a.t].found[Current(s.calls[a.t])]
    ensures OwnerHolds(Apply(s, a), b)
  {
  }

  lemma StepOwners(s: State, a: Action, b: Bid)
    requires Inv(s) && Enabled(s, a) && b in Apply(s, a).owner
    ensures OwnerHolds(Apply(s, a), b)
  {
    if a.Lock? && b == s.calls[a.t].found[Current(s.calls[a.t])] {
      assert Holding(s, a.t, s.calls[a.t]);
      LockOwns(s, a);
    } else {
      assert OwnerHolds(s, b);
      OwnerKept(s, a, b);
    }
  }

  /** Every step keeps the lock bookkeeping, drops by the garbage collector included. */
  lemma InvStep(s: State, a: Action)
    requires Inv(s) && Enabled(s, a)
    ensures Inv(Apply(s, a))
  {
    var s' := Apply(s, a);
    forall t | t in s'.calls
      ensures Shape(s'.calls[t]) && Holding(s', t, s'.calls[t])
    {
      if t in s.calls {
        StepHolding(s, a, t);
        if !a.Start? && !a.Drop? && a.t == t {
          StepShape(s, a);
        }
      }
    }
    forall b | b in s'.owner
      ensures OwnerHolds(s', b)
    {
      StepOwners(s, a, b);
    }
  }

  // ---------------------------------------------------------- no deadlock

  const INIT := State(map[], map[], map[], map[])

  ghost predicate IsRun(s: State, run: seq<Action>)
    decreases |run|
  {
    run == [] || (Enabled(s, run[0]) && IsRun(Apply(s, run[0]), run[1..]))
  }

  ghost function After(s: State, run: seq<Action>): State
    requires IsRun(s, run)
    decreases |run|
  {
    if run == [] then s else After(Apply(s, run[0]), run[1..])
  }

  lemma {:induction false} InvRun(s: State, run: seq<Action>)
    requires Inv(s) && IsRun(s, run)
    ensures Inv(After(s, run))
    decreases |run|
  {
    if run != [] {
      InvStep(s, run[0]);
      InvRun(Apply(s, run[0]), run[1..]);
    }
  }

  /** t is queued on the mutex of a bucket that u has locked. */
  ghost predicate WaitsFor(s: State, t: Tid, u: Tid) {
    && t in s.calls && s.calls[t].pc.Waiting? && AtBucket(s, s.calls[t])
    && s.calls[t].found[Current(s.calls[t])] in s.owner && s.owner[s.calls[t].found[Current(s.calls[t])]] == u
  }

  /** Whoever holds the lock is still running, and if it waits in turn it waits for a later
      key, whichever bucket object of that key it found. */
  lemma WaitsForLaterKey(s: State, t: Tid, u: Tid)
    requires Inv(s) && WaitsFor(s, t, u)
    ensures u in s.calls && !s.calls[u].pc.Looking? && !s.calls[u].pc.Done?
    ensures s.calls[u].pc.Waiting? ==> AtKey(s.calls[u]) && Less(Current(s.calls[t]), Current(s.calls[u]))
  {
    var k := Current(s.calls[t]);
    assert OwnerHolds(s, s.calls[t].found[k]);
    var c := s.calls[u];
    assert Shape(c) && k in c.held;
    if c.pc.Waiting? {
      var i :| 0 <= i < |c.keys| && c.keys[i] == k;
      assert Less(c.keys[i], c.keys[c.pc.n]);
    }
  }

  /** The key a waiting call is queued for. */
  ghost function Awaited(s: State, t: Tid): string {
    if t in s.calls && AtKey(s.calls[t]) then Current(s.calls[t]) else ""
  }

  /** Each call of the chain waits for the next. */
  ghost predicate WaitChain(s: State, chain: seq<Tid>)
    decreases |chain|
  {
    |chain| < 2 || (WaitsFor(s, chain[0], chain[1]) && WaitChain(s, chain[1..]))
  }

  /** Along any chain of waiting calls the awaited keys strictly increase, so no call waits
      for itself through others. */
  lemma {:induction false} WaitChainIncreases(s: State, chain: seq<Tid>)
    requires Inv(s) && |chain| > 1 && WaitChain(s, chain)
    requires var last := chain[|chain| - 1]; last in s.calls && s.calls[last].pc.Waiting?
    ensures var last := chain[|chain| - 1];
            Less(Awaited(s, chain[0]), Awaited(s, last)) && chain[0] != last
    decreases |chain|
  {
    var last := chain[|chain| - 1];
    WaitsForLaterKey(s, chain[0], chain[1]);
    if |chain| > 2 {
      WaitChainIncreases(s, chain[1..]);
      assert WaitsFor(s, chain[1..][0], chain[1..][1]);
      LessTransitive(Awaited(s, chain[0]), Awaited(s, chain[1]), Awaited(s, last));
    }
    LessTotal(Awaited(s, chain[0]), Awaited(s, last));
  }

  lemma {:induction false} UnusedBid(used: set<Bid>) returns (b: Bid)
    ensures forall x :: x in used ==> x < b
  {
    if used == {} {
      b := 0;
    } else {
      var x :| x in used;
      var c := UnusedBid(used - {x});
      b := if x < c then c else x + 1;
      assert forall y :: y in used ==> y == x || y in used - {x};
    }
  }

  /** A call that waits for nobody can take its next step. */
  lemma NotWaitingCanStep(s: State, t: Tid) returns (a: Action)
    requires Inv(s) && t in s.calls && !s.calls[t].pc.Done?
    requires forall u :: !WaitsFor(s, t, u)
    ensures !a.Start? && !a.Drop? && a.t == t && Enabled(s, a)
  {
    var c := s.calls[t];
    assert Shape(c) && Holding(s, t, c);
    match c.pc
    case Looking =>
      if c.names <= c.found.Keys {
        var ks := SortedKeys(c.names);
        a := Arrange(t, ks);
      } else {
        var k :| k in c.names && k !in c.found;
        var b := UnusedBid(s.bucketKey.Keys);
        a := Find(t, k, b);
      }
    case Waiting(n) =>
      var b := c.found[Current(c)];
      assert b in s.owner ==> WaitsFor(s, t, s.owner[b]);
      a := Lock(t);
    case Reading(n) => a := if n == |c.keys| then Decide(t, false) else Read(t);
    case Writing(n) => a := Write(t);
    case Unlocking(n) => a := Unlock(t);
  }

  /** The waiting calls that await a later key than t does. */
  ghost function Behind(s: State, t: Tid): set<Tid>
    requires t in s.calls && AtKey(s.calls[t])
  {
    set u | u in s.calls && s.calls[u].pc.Waiting? && AtKey(s.calls[u])
            && Less(Current(s.calls[t]), Current(s.calls[u]))
  }

  /** Following the chain of waits from any unfinished call ends at one that can step. */
  lemma {:induction false} SomeoneCanStep(s: State, t: Tid) returns (a: Action)
    requires Inv(s) && t in s.calls && !s.calls[t].pc.Done?
    ensures !a.Start? && !a.Drop? && Enabled(s, a)
    decreases if s.calls[t].pc.Waiting? && AtKey(s.calls[t]) then Behind(s, t) + {t} else {}
  {
    if u :| WaitsFor(s, t, u) {
      WaitsForLaterKey(s, t, u);
      if s.calls[u].pc.Waiting? {
        BehindShrinks(s, t, u);
        a := SomeoneCanStep(s, u);
      } else {
        assert forall v :: !WaitsFor(s, u, v);
        a := NotWaitingCanStep(s, u);
      }
    } else {
      a := NotWaitingCanStep(s, t);
    }
  }

  lemma BehindShrinks(s: State, t: Tid, u: Tid)
    requires t in s.calls && AtKey(s.calls[t]) && u in s.calls && AtKey(s.calls[u]) && s.calls[u].pc.Waiting?
    requires Less(Current(s.calls[t]), Current(s.calls[u]))
    ensures Behind(s, u) + {u} < Behind(s, t) + {t}
  {
    LessTotal(Current(s.calls[t]), Current(s.calls[u]));
    forall v | v in Behind(s, u)
      ensures v in Behind(s, t) && v != t
    {
      LessTransitive(Current(s.calls[t]), Current(s.calls[u]), Current(s.calls[v]));
    }
    assert t !in Behind(s, u) + {u};
  }

  /** No deadlock: after any run, drops included, while a call is unfinished some call can
      take a step. */
  lemma DeadlockFree(run: seq<Action>, t: Tid)
    requires IsRun(INIT, run)
    requires t in After(INIT, run).calls && !After(INIT, run).calls[t].pc.Done?
    ensures exists a: Action :: !a.Start? && !a.Drop? && Enabled(After(INIT, run), a)
  {
    InvRun(INIT, run);
    var a := SomeoneCanStep(After(INIT, run), t);
  }

  // -------------------------------------------------------- no endless calls

  /** A bound on the steps a call still has to take. */
  function StepsLeft(c: Call): int {
    var k := |c.keys|;
    match c.pc
    case Looking => 5 * |c.names| + 1 + |c.names - c.found.Keys|
    case Waiting(n) => 5 * k - n
    case Reading(n) => 4 * k - n
    case Writing(n) => 2 * k - n
    case Unlocking(n) => k - n
    case Done => 0
  }

  lemma {:induction false} NoMoreKeysThanNames(ks: seq<string>, names: set<string>)
    requires Sorted(ks) && forall k :: k in ks ==> k in names
    ensures |ks| <= |names|
  {
    if ks != [] {
      var last := ks[|ks| - 1];
      forall i | 0 <= i < |ks| - 1
        ensures ks[i] != last
      {
        LessTotal(ks[i], last);
      }
      NoMoreKeysThanNames(ks[..|ks| - 1], names - {last});
    }
  }

  /** How a call's position moves once its lock order is fixed. */
  predicate Moves(c: Call, d: Call) {
    var k := |c.keys|;
    && |d.keys| == k > 0
    && match c.pc
       case Waiting(n) => n < k && d.pc == if n + 1 < k then Waiting(n + 1) else Reading(0)
       case Reading(n) =>
         if n < k then d.pc == Reading(n + 1) else n == k && (d.pc == Writing(0) || d.pc == Unlocking(0))
       case Writing(n) => n < k && d.pc == if n + 1 < k then Writing(n + 1) else Unlocking(0)
       case Unlocking(n) => n < k && d.pc == if n + 1 < k then Unlocking(n + 1) else Done
       case _ => false
  }

  lemma StepMoves(s: State, a: Action)
    requires Enabled(s, a) && !a.Start? && !a.Drop? && !a.Find? && !a.Arrange? && Shape(s.calls[a.t])
    ensures Moves(s.calls[a.t], StepCall(s, a))
  {
  }

  lemma MovesDown(c: Call, d: Call)
    requires Moves(c, d)
    ensures 0 <= StepsLeft(d) < StepsLeft(c)
  {
  }

  lemma FindMoves(s: State, a: Action)
    requires Enabled(s, a) && a.Find?
    ensures 0 <= StepsLeft(StepCall(s, a)) < StepsLeft(s.calls[a.t])
  {
    var c := s.calls[a.t];
    assert c.names - StepCall(s, a).found.Keys == (c.names - c.found.Keys) - {a.key};
    assert a.key in c.names - c.found.Keys;
  }

  lemma ArrangeMoves(s: State, a: Action)
    requires Enabled(s, a) && a.Arrange?
    ensures 0 <= StepsLeft(StepCall(s, a)) < StepsLeft(s.calls[a.t])
  {
    NoMoreKeysThanNames(a.keys, s.calls[a.t].names);
  }

  /** Every step brings its call closer to the end, so with no deadlock every call ends. */
  lemma StepsRunOut(s: State, a: Action)
    requires Inv(s) && Enabled(s, a) && !a.Start? && !a.Drop?
    ensures 0 <= StepsLeft(StepCall(s, a)) < StepsLeft(s.calls[a.t])
  {
    if a.Find? {
      FindMoves(s, a);
    } else if a.Arrange? {
      ArrangeMoves(s, a);
    } else {
      assert Shape(s.calls[a.t]);
      StepMoves(s, a);
      MovesDown(s.calls[a.t], StepCall(s, a));
    }
  }
}

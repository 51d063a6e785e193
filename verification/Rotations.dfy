/** Concurrent calls over a store that rotates (server/store.go:47-69, server/throttling.go):
    why short calls never lose a bucket, and what happens to one that does. */
module Rotations {
  import opened Types
  import opened Group
  import opened Serializability
  import Generations
  import L = Locking

  /** A step of the calls, or a rotation of one stripe. */
  datatype Mark = Act(a: Action) | Tick(stripe: nat)

  // --------------------------------------------------------- runs with rotations

  ghost predicate IsRun(marks: seq<Mark>)
    decreases |marks|, 0
  {
    marks == []
    || (IsRun(marks[..|marks| - 1])
        && (marks[|marks| - 1].Act? ==> Enabled(State(marks[..|marks| - 1]), marks[|marks| - 1].a)))
  }

  ghost function State(marks: seq<Mark>): Serializability.State
    requires IsRun(marks)
    decreases |marks|, 1
  {
    if marks == [] then INIT
    else
      var front, m := marks[..|marks| - 1], marks[|marks| - 1];
      if m.Act? then Apply(State(front), m.a) else State(front)
  }

  /** The steps alone. */
  function Acts(marks: seq<Mark>): seq<Action> {
    if marks == [] then []
    else
      var m := marks[|marks| - 1];
      Acts(marks[..|marks| - 1]) + if m.Act? then [m.a] else []
  }

  predicate Looks(m: Mark, t: L.Tid, key: string) {
    m.Act? && m.a.Step? && m.a.a.Find? && m.a.a.t == t && m.a.a.key == key
  }

  predicate LooksUp(m: Mark, key: string) {
    m.Act? && m.a.Step? && m.a.a.Find? && m.a.a.key == key
  }

  /** The keys in the hot and the cold generations: a lookup makes its key hot, a rotation turns
      its stripe's hot keys cold and forgets its cold ones. */
  function Hot(stripe: string -> nat, marks: seq<Mark>): set<string> {
    if marks == [] then {}
    else
      var before, m := Hot(stripe, marks[..|marks| - 1]), marks[|marks| - 1];
      if m.Tick? then set k | k in before && stripe(k) != m.stripe
      else if m.a.Step? && m.a.a.Find? then before + {m.a.a.key}
      else before
  }

  function Cold(stripe: string -> nat, marks: seq<Mark>): set<string> {
    if marks == [] then {}
    else
      var front, m := marks[..|marks| - 1], marks[|marks| - 1];
      var hot, before := Hot(stripe, front), Cold(stripe, front);
      if m.Tick? then
        (set k | k in before && stripe(k) != m.stripe) + (set k | k in hot && stripe(k) == m.stripe)
      else if m.a.Step? && m.a.a.Find? then before - {m.a.a.key}
      else before
  }

  /** Only keys in neither generation are dropped. */
  predicate Generational(stripe: string -> nat, marks: seq<Mark>) {
    forall i :: 0 <= i < |marks| && marks[i].Act? && marks[i].a.Step? && marks[i].a.a.Drop? ==>
      marks[i].a.a.key !in Hot(stripe, marks[..i]) && marks[i].a.a.key !in Cold(stripe, marks[..i])
  }

  /** How many times a stripe rotates from mark j to mark i. */
  function Ticks(marks: seq<Mark>, stripe: nat, j: nat, i: nat): nat
    requires j <= i <= |marks|
  {
    if i == j then 0 else Ticks(marks, stripe, j, i - 1) + if marks[i - 1] == Tick(stripe) then 1 else 0
  }

  /** No call is still running when the stripe of a key it looked up rotates for the second time
      since. */
  ghost predicate ShortCalls(stripe: string -> nat, marks: seq<Mark>) {
    forall j, i, t, key :: 0 <= j < i <= |marks| && Looks(marks[j], t, key) && IsRun(marks[..i])
                           && t in State(marks[..i]).ctl.calls && !State(marks[..i]).ctl.calls[t].pc.Done? ==>
      Ticks(marks, stripe(key), j, i) < 2
  }

  // ------------------------------------------------------------ short calls

  /** A key is still in a generation until its stripe has rotated twice since a lookup of it. */
  lemma {:induction false} RecentIsLive(stripe: string -> nat, marks: seq<Mark>, j: nat, i: nat, key: string)
    requires j < i <= |marks| && LooksUp(marks[j], key)
    ensures Ticks(marks, stripe(key), j, i) == 0 ==> key in Hot(stripe, marks[..i])
    ensures Ticks(marks, stripe(key), j, i) == 1 ==> key in Hot(stripe, marks[..i]) || key in Cold(stripe, marks[..i])
    decreases i
  {
    assert marks[..i][..i - 1] == marks[..i - 1];
    if j < i - 1 {
      RecentIsLive(stripe, marks, j, i - 1, key);
    }
  }

  /** What a call has found it has looked up. */
  lemma {:induction false} FoundWasLookedUp(marks: seq<Mark>, i: nat, t: L.Tid, key: string)
    requires i <= |marks| && IsRun(marks[..i])
    requires t in State(marks[..i]).ctl.calls && key in State(marks[..i]).ctl.calls[t].found
    ensures exists j :: 0 <= j < i && Looks(marks[j], t, key)
    decreases i
  {
    if i > 0 {
      assert marks[..i][..i - 1] == marks[..i - 1];
      var m := marks[i - 1];
      if !Looks(m, t, key) {
        if m.Act? {
          FoundBefore(State(marks[..i - 1]), m.a, t, key);
        }
        FoundWasLookedUp(marks, i - 1, t, key);
      }
    }
  }

  lemma FoundBefore(s: Serializability.State, a: Action, t: L.Tid, key: string)
    requires Enabled(s, a) && t in Apply(s, a).ctl.calls && key in Apply(s, a).ctl.calls[t].found
    requires !Looks(Act(a), t, key)
    ensures t in s.ctl.calls && key in s.ctl.calls[t].found
  {
  }

  lemma DropIsClean(stripe: string -> nat, marks: seq<Mark>, i: nat)
    requires i < |marks| && IsRun(marks[..i]) && marks[i].Act? && Enabled(State(marks[..i]), marks[i].a)
    requires Generational(stripe, marks) && ShortCalls(stripe, marks)
    ensures Clean(State(marks[..i]), marks[i].a)
  {
    var s, a := State(marks[..i]), marks[i].a;
    if a.Step? && a.a.Drop? {
      forall t | t in s.ctl.calls && !s.ctl.calls[t].pc.Done?
        ensures a.a.key !in s.ctl.calls[t].found
      {
        if a.a.key in s.ctl.calls[t].found {
          FoundWasLookedUp(marks, i, t, a.a.key);
          var j :| 0 <= j < i && Looks(marks[j], t, a.a.key);
          RecentIsLive(stripe, marks, j, i, a.a.key);
          assert false;
        }
      }
    }
  }

  /** With the two generations of the store and calls that do not outlast the second rotation
      of a stripe they have looked into, no drop ever hits a running call, so every
      interleaving is serializable. */
  lemma {:induction false} ShortCallsAreClean(stripe: string -> nat, marks: seq<Mark>, i: nat)
    requires i <= |marks| && IsRun(marks[..i]) && Generational(stripe, marks) && ShortCalls(stripe, marks)
    ensures CleanRun(Acts(marks[..i])) && After(Acts(marks[..i])) == State(marks[..i])
    decreases i
  {
    if i > 0 {
      assert marks[..i][..i - 1] == marks[..i - 1];
      ShortCallsAreClean(stripe, marks, i - 1);
      if marks[i - 1].Act? {
        DropIsClean(stripe, marks, i - 1);
        OneMore(Acts(marks[..i - 1]), marks[i - 1].a);
      } else {
        assert Acts(marks[..i]) == Acts(marks[..i - 1]);
      }
    }
  }

  lemma OneMore(acts: seq<Action>, a: Action)
    requires CleanRun(acts) && Enabled(After(acts), a) && Clean(After(acts), a)
    ensures CleanRun(acts + [a]) && After(acts + [a]) == Apply(After(acts), a)
  {
    assert (acts + [a])[..|acts + [a]| - 1] == acts;
  }

  /** So every finished call has the result that atomic calls would give it. */
  lemma RotatingIsSerializable(stripe: string -> nat, marks: seq<Mark>, t: L.Tid)
    requires IsRun(marks) && Generational(stripe, marks) && ShortCalls(stripe, marks)
    requires t in State(marks).ctl.calls && State(marks).ctl.calls[t].pc.Done?
    ensures CleanRun(Acts(marks)) && AtomicRun(Linearized(Acts(marks)))
    ensures t in State(marks).locals && t in AtomicAfter(Linearized(Acts(marks))).calls
    ensures var l := State(marks).locals[t];
            AtomicAfter(Linearized(Acts(marks))).calls[t] == Answered(l.now, l.es, l.result)
  {
    assert marks[..|marks|] == marks;
    ShortCallsAreClean(stripe, marks, |marks|);
    Serializable(Acts(marks));
  }

  // ------------------------------------------------- a call that lasts too long

  /** A call of one Real entry: where it stands, its data, its bucket's timestamp, and whether it
      has the lock. */
  ghost predicate Stage(s: Serializability.State, t: L.Tid, b: L.Bid, key: string, c: L.Call, l: Local, tat: int64,
                        locked: bool)
  {
    && t in s.ctl.calls && s.ctl.calls[t] == c && t in s.locals && s.locals[t] == l
    && b in s.ctl.bucketKey && s.ctl.bucketKey[b] == key && b in s.tats && s.tats[b] == tat
    && (b in s.ctl.owner <==> locked) && (locked ==> s.ctl.owner[b] == t)
  }

  /** Nothing but call t and bucket b has changed. */
  ghost predicate Frame(s: Serializability.State, s': Serializability.State, t: L.Tid, b: L.Bid) {
    && (forall u :: u != t && u in s.ctl.calls && u in s.locals ==>
          u in s'.ctl.calls && s'.ctl.calls[u] == s.ctl.calls[u] && u in s'.locals && s'.locals[u] == s.locals[u])
    && (forall d :: d != b && d in s.tats ==> d in s'.tats && s'.tats[d] == s.tats[d])
    && (forall d :: d != b ==> (d in s'.ctl.owner <==> d in s.ctl.owner))
    && s'.ctl.bucketKey == s.ctl.bucketKey
  }

  function Doing(key: string, b: L.Bid, keys: seq<string>, held: set<string>, pc: L.Pc): L.Call {
    L.Call({key}, map[key := b], keys, held, pc)
  }

  function Data(e: RequestEntry, workingTat: Tats, result: seq<ResponseEntry>, snapshot: Tats): Local {
    Local(0, [e], workingTat, result, snapshot)
  }

  lemma ArrangeStep(s: Serializability.State, t: L.Tid, b: L.Bid, e: RequestEntry, l: Local) returns (a: Action)
    requires Stage(s, t, b, e.key, Doing(e.key, b, [], {}, L.Looking), l, 0, false) && l.es != []
    ensures Enabled(s, a) && !(a.Step? && a.a.Drop?) && Frame(s, Apply(s, a), t, b)
    ensures Stage(Apply(s, a), t, b, e.key, Doing(e.key, b, [e.key], {}, L.Waiting(0)), l, 0, false)
  {
    a := Step(L.Arrange(t, [e.key]));
  }

  lemma LockStep(s: Serializability.State, t: L.Tid, b: L.Bid, e: RequestEntry) returns (a: Action)
    requires Stage(s, t, b, e.key, Doing(e.key, b, [e.key], {}, L.Waiting(0)), Data(e, map[], [], map[]), 0, false)
    ensures Enabled(s, a) && !(a.Step? && a.a.Drop?) && Frame(s, Apply(s, a), t, b)
    ensures Stage(Apply(s, a), t, b, e.key, Doing(e.key, b, [e.key], {e.key}, L.Reading(0)),
                  Data(e, map[], [], map[e.key := 0]), 0, true)
  {
    a := Step(L.Lock(t));
    assert {} + {e.key} == {e.key};
    assert StepLocal(s, a.a).snapshot == map[e.key := 0];
  }

  lemma ReadStep(s: Serializability.State, t: L.Tid, b: L.Bid, e: RequestEntry) returns (a: Action)
    requires Stage(s, t, b, e.key, Doing(e.key, b, [e.key], {e.key}, L.Reading(0)),
                   Data(e, map[], [], map[e.key := 0]), 0, true)
    ensures Enabled(s, a) && !(a.Step? && a.a.Drop?) && Frame(s, Apply(s, a), t, b)
    ensures Stage(Apply(s, a), t, b, e.key, Doing(e.key, b, [e.key], {e.key}, L.Reading(1)),
                  Data(e, map[e.key := 0], [], map[e.key := 0]), 0, true)
  {
    a := Step(L.Read(t));
  }

  /** A request that an empty bucket of capacity one admits at 0. */
  predicate Small(e: RequestEntry) {
    e.limit == Limit(1, Rate(1, 10)) && e.cost == 1 && !e.peek
  }

  lemma SmallAdmits(e: RequestEntry)
    requires Small(e)
    ensures AllAdmit(map[e.key := 0], 0, [e]) && TatOf(Work(map[e.key := 0], 0, [e]), e.key) == 10
    ensures |Reports(map[e.key := 0], 0, [e])| == 1 && !Reports(map[e.key := 0], 0, [e])[0].throttled
  {
    Generations.SmallCheck(e, 0, 0);
    SingleAdmits(map[e.key := 0], e);
  }

  lemma SingleAdmits(m: Tats, e: RequestEntry)
    requires !e.peek && !CheckEntry(e, TatOf(m, e.key), 0).throttled
    ensures AllAdmit(m, 0, [e]) && TatOf(Work(m, 0, [e]), e.key) == CheckEntry(e, TatOf(m, e.key), 0).tat
    ensures |Reports(m, 0, [e])| == 1 && !Reports(m, 0, [e])[0].throttled
  {
    assert [e][..0] == [];
    ReportsAt(m, 0, [e]);
    SingleCall(m, 0, e);
  }

  lemma DecideStep(s: Serializability.State, t: L.Tid, b: L.Bid, key: string, l: Local, tat: int64) returns (a: Action)
    requires Writes(l) && Stage(s, t, b, key, Doing(key, b, [key], {key}, L.Reading(1)), l, tat, true)
    ensures Enabled(s, a) && !(a.Step? && a.a.Drop?) && Frame(s, Apply(s, a), t, b)
    ensures Stage(Apply(s, a), t, b, key, Doing(key, b, [key], {key}, L.Writing(0)),
                  l.(workingTat := Work(l.workingTat, l.now, l.es), result := Reports(l.workingTat, l.now, l.es)),
                  tat, true)
  {
    a := Step(L.Decide(t, true));
  }

  lemma WriteStep(s: Serializability.State, t: L.Tid, b: L.Bid, e: RequestEntry, l: Local) returns (a: Action)
    requires Stage(s, t, b, e.key, Doing(e.key, b, [e.key], {e.key}, L.Writing(0)), l, 0, true)
    requires l.es != [] && TatOf(l.workingTat, e.key) == 10
    ensures Enabled(s, a) && !(a.Step? && a.a.Drop?) && Frame(s, Apply(s, a), t, b)
    ensures Stage(Apply(s, a), t, b, e.key, Doing(e.key, b, [e.key], {e.key}, L.Unlocking(0)), l, 10, true)
  {
    a := Step(L.Write(t));
  }

  lemma UnlockStep(s: Serializability.State, t: L.Tid, b: L.Bid, e: RequestEntry, l: Local) returns (a: Action)
    requires Stage(s, t, b, e.key, Doing(e.key, b, [e.key], {e.key}, L.Unlocking(0)), l, 10, true) && l.es != []
    ensures Enabled(s, a) && !(a.Step? && a.a.Drop?) && Frame(s, Apply(s, a), t, b)
    ensures Stage(Apply(s, a), t, b, e.key, Doing(e.key, b, [e.key], {}, L.Done), l, 10, false)
  {
    a := Step(L.Unlock(t));
    assert {e.key} - {e.key} == {};
  }

  lemma NextMark(stripe: string -> nat, marks: seq<Mark>, m: Mark)
    requires IsRun(marks) && Generational(stripe, marks) && (m.Act? ==> Enabled(State(marks), m.a))
    requires m.Act? && m.a.Step? && m.a.a.Drop? ==>
               m.a.a.key !in Hot(stripe, marks) && m.a.a.key !in Cold(stripe, marks)
    ensures IsRun(marks + [m]) && Generational(stripe, marks + [m])
    ensures State(marks + [m]) == if m.Act? then Apply(State(marks), m.a) else State(marks)
  {
    var all := marks + [m];
    assert all[..|all| - 1] == marks;
    forall i | 0 <= i < |all| && all[i].Act? && all[i].a.Step? && all[i].a.a.Drop?
      ensures all[i].a.a.key !in Hot(stripe, all[..i]) && all[i].a.a.key !in Cold(stripe, all[..i])
    {
      if i < |marks| {
        assert all[..i] == marks[..i];
      }
    }
  }

  /** The data of a finished call. */
  function Finished(e: RequestEntry): Local {
    Data(e, Work(map[e.key := 0], 0, [e]), Reports(map[e.key := 0], 0, [e]), map[e.key := 0])
  }

  /** From its lookup on, such a call on an empty bucket runs to its end and is admitted. */
  lemma RunsToEnd(stripe: string -> nat, marks: seq<Mark>, t: L.Tid, b: L.Bid, e: RequestEntry) returns (r: seq<Mark>)
    requires IsRun(marks) && Generational(stripe, marks) && Small(e)
    requires Stage(State(marks), t, b, e.key, Doing(e.key, b, [], {}, L.Looking), Data(e, map[], [], map[]), 0, false)
    ensures IsRun(r) && Generational(stripe, r) && Frame(State(marks), State(r), t, b)
    ensures Stage(State(r), t, b, e.key, Doing(e.key, b, [e.key], {}, L.Done), Finished(e), 10, false)
  {
    r := RunsToDecision(stripe, marks, t, b, e);
    SmallAdmits(e);
    var a := WriteStep(State(r), t, b, e, Finished(e));
    NextMark(stripe, r, Act(a));
    r := r + [Act(a)];
    a := UnlockStep(State(r), t, b, e, Finished(e));
    NextMark(stripe, r, Act(a));
    r := r + [Act(a)];
  }

  lemma RunsToDecision(stripe: string -> nat, marks: seq<Mark>, t: L.Tid, b: L.Bid, e: RequestEntry)
    returns (r: seq<Mark>)
    requires IsRun(marks) && Generational(stripe, marks) && Small(e)
    requires Stage(State(marks), t, b, e.key, Doing(e.key, b, [], {}, L.Looking), Data(e, map[], [], map[]), 0, false)
    ensures IsRun(r) && Generational(stripe, r) && Frame(State(marks), State(r), t, b)
    ensures Stage(State(r), t, b, e.key, Doing(e.key, b, [e.key], {e.key}, L.Writing(0)), Finished(e), 0, true)
  {
    r := RunsToReading(stripe, marks, t, b, e);
    var a := ReadStep(State(r), t, b, e);
    NextMark(stripe, r, Act(a));
    r := r + [Act(a)];
    SmallAdmits(e);
    a := DecideStep(State(r), t, b, e.key, Data(e, map[e.key := 0], [], map[e.key := 0]), 0);
    NextMark(stripe, r, Act(a));
    r := r + [Act(a)];
  }

  lemma RunsToReading(stripe: string -> nat, marks: seq<Mark>, t: L.Tid, b: L.Bid, e: RequestEntry)
    returns (r: seq<Mark>)
    requires IsRun(marks) && Generational(stripe, marks)
    requires Stage(State(marks), t, b, e.key, Doing(e.key, b, [], {}, L.Looking), Data(e, map[], [], map[]), 0, false)
    ensures IsRun(r) && Generational(stripe, r) && Frame(State(marks), State(r), t, b)
    ensures Stage(State(r), t, b, e.key, Doing(e.key, b, [e.key], {e.key}, L.Reading(0)),
                  Data(e, map[], [], map[e.key := 0]), 0, true)
  {
    var a := ArrangeStep(State(marks), t, b, e, Data(e, map[], [], map[]));
    NextMark(stripe, marks, Act(a));
    r := marks + [Act(a)];
    a := LockStep(State(r), t, b, e);
    NextMark(stripe, r, Act(a));
    r := r + [Act(a)];
  }

  /** A bucket object and a call that nobody has used yet. */
  ghost predicate Unused(s: Serializability.State, t: L.Tid, b: L.Bid) {
    t !in s.ctl.calls && t !in s.locals && b !in s.ctl.bucketKey && b !in s.tats && b !in s.ctl.owner
  }

  /** Another call's bucket, lock and data are as they were. */
  ghost predicate Others(s: Serializability.State, s': Serializability.State, t: L.Tid, b: L.Bid) {
    && Frame(s, s'.(ctl := s'.ctl.(bucketKey := s.ctl.bucketKey)), t, b)
    && (forall d :: d in s.ctl.bucketKey && d != b ==>
          d in s'.ctl.bucketKey && s'.ctl.bucketKey[d] == s.ctl.bucketKey[d])
    && (forall u, d :: u != t && d != b && Unused(s, u, d) ==> Unused(s', u, d))
  }

  lemma OthersTwice(s: Serializability.State, s': Serializability.State, s'': Serializability.State, t: L.Tid, b: L.Bid)
    requires Others(s, s', t, b) && Others(s', s'', t, b)
    ensures Others(s, s'', t, b)
  {
  }

  /** A call that has begun, and a bucket not yet in use. */
  ghost predicate Begun(s: Serializability.State, t: L.Tid, b: L.Bid, e: RequestEntry) {
    && t in s.ctl.calls && s.ctl.calls[t] == L.Call({e.key}, map[], [], {}, L.Looking)
    && t in s.locals && s.locals[t] == Data(e, map[], [], map[])
    && b !in s.ctl.bucketKey && b !in s.tats && b !in s.ctl.owner && e.key !in s.ctl.lookup
  }

  lemma BeginStep(s: Serializability.State, t: L.Tid, b: L.Bid, e: RequestEntry)
    requires Small(e) && Unused(s, t, b) && e.key !in s.ctl.lookup
    ensures Enabled(s, Begin(t, 0, [e])) && Begun(Apply(s, Begin(t, 0, [e])), t, b, e)
  {
    assert Generations.Names([e]) == {e.key};
  }

  lemma BeginOthers(s: Serializability.State, t: L.Tid, b: L.Bid, e: RequestEntry)
    requires Enabled(s, Begin(t, 0, [e]))
    ensures Others(s, Apply(s, Begin(t, 0, [e])), t, b)
  {
  }

  lemma FindStep(s: Serializability.State, t: L.Tid, b: L.Bid, e: RequestEntry)
    requires Begun(s, t, b, e)
    ensures var a := Step(L.Find(t, e.key, b));
            && Enabled(s, a) && e.key in Apply(s, a).ctl.lookup
            && Stage(Apply(s, a), t, b, e.key, Doing(e.key, b, [], {}, L.Looking), Data(e, map[], [], map[]), 0, false)
  {
  }

  lemma FindOthers(s: Serializability.State, t: L.Tid, b: L.Bid, key: string)
    requires Enabled(s, Step(L.Find(t, key, b))) && key !in s.ctl.lookup
    ensures Others(s, Apply(s, Step(L.Find(t, key, b))), t, b)
  {
    FindParts(s, t, b, key);
    NewBucketOthers(s, Apply(s, Step(L.Find(t, key, b))), t, b, key);
  }

  lemma FindParts(s: Serializability.State, t: L.Tid, b: L.Bid, key: string)
    requires Enabled(s, Step(L.Find(t, key, b))) && key !in s.ctl.lookup
    ensures var s' := Apply(s, Step(L.Find(t, key, b)));
            && s'.ctl.owner == s.ctl.owner && s'.ctl.bucketKey == s.ctl.bucketKey[b := key] && s'.tats == s.tats[b := 0]
            && s'.locals == s.locals[t := s.locals[t]]
            && s'.ctl.calls == s.ctl.calls[t := L.StepCall(s.ctl, L.Find(t, key, b))]
  {
  }

  lemma NewBucketOthers(s: Serializability.State, s': Serializability.State, t: L.Tid, b: L.Bid, key: string)
    requires t in s.ctl.calls && t in s.locals && t in s'.ctl.calls
    requires s'.ctl.owner == s.ctl.owner && s'.ctl.bucketKey == s.ctl.bucketKey[b := key] && s'.tats == s.tats[b := 0]
    requires s'.locals == s.locals[t := s.locals[t]] && s'.ctl.calls == s.ctl.calls[t := s'.ctl.calls[t]]
    ensures Others(s, s', t, b)
  {
  }

  /** Begin a call and look its key up, with no bucket there yet. */
  lemma StartsOn(stripe: string -> nat, marks: seq<Mark>, t: L.Tid, b: L.Bid, e: RequestEntry) returns (r: seq<Mark>)
    requires IsRun(marks) && Generational(stripe, marks) && Small(e)
    requires Unused(State(marks), t, b) && e.key !in State(marks).ctl.lookup
    ensures IsRun(r) && Generational(stripe, r) && e.key in State(r).ctl.lookup && Others(State(marks), State(r), t, b)
    ensures Stage(State(r), t, b, e.key, Doing(e.key, b, [], {}, L.Looking), Data(e, map[], [], map[]), 0, false)
  {
    r := Begins(stripe, marks, t, b, e);
    r := Finds(stripe, marks, r, t, b, e);
  }

  lemma Begins(stripe: string -> nat, marks: seq<Mark>, t: L.Tid, b: L.Bid, e: RequestEntry) returns (r: seq<Mark>)
    requires IsRun(marks) && Generational(stripe, marks) && Small(e)
    requires Unused(State(marks), t, b) && e.key !in State(marks).ctl.lookup
    ensures IsRun(r) && Generational(stripe, r) && Begun(State(r), t, b, e) && Others(State(marks), State(r), t, b)
  {
    var a := Begin(t, 0, [e]);
    BeginStep(State(marks), t, b, e);
    BeginOthers(State(marks), t, b, e);
    NextMark(stripe, marks, Act(a));
    r := marks + [Act(a)];
  }

  lemma Finds(stripe: string -> nat, start: seq<Mark>, marks: seq<Mark>, t: L.Tid, b: L.Bid, e: RequestEntry)
    returns (r: seq<Mark>)
    requires IsRun(start) && IsRun(marks) && Generational(stripe, marks)
    requires Begun(State(marks), t, b, e) && Others(State(start), State(marks), t, b)
    ensures IsRun(r) && Generational(stripe, r) && e.key in State(r).ctl.lookup && Others(State(start), State(r), t, b)
    ensures Stage(State(r), t, b, e.key, Doing(e.key, b, [], {}, L.Looking), Data(e, map[], [], map[]), 0, false)
  {
    var a := Step(L.Find(t, e.key, b));
    FindStep(State(marks), t, b, e);
    FindOthers(State(marks), t, b, e.key);
    OthersTwice(State(start), State(marks), Apply(State(marks), a), t, b);
    NextMark(stripe, marks, Act(a));
    r := marks + [Act(a)];
  }

  /** Two rotations while a call is between its lookup and its lock drop its bucket. A second
      call on the key gets a fresh one, and both are admitted where there is room for one. */
  lemma BucketLost(stripe: string -> nat, e: RequestEntry) returns (marks: seq<Mark>)
    requires Small(e)
    ensures IsRun(marks) && Generational(stripe, marks)
    ensures var s := State(marks);
            forall t :: t == 0 || t == 1 ==>
              && t in s.ctl.calls && s.ctl.calls[t].pc.Done? && t in s.locals
              && s.locals[t].now == 0 && s.locals[t].es == [e] && s.locals[t].result != []
              && !s.locals[t].result[0].throttled
  {
    marks := BothLooking(stripe, e);
    marks := RunsToEnd(stripe, marks, 0, 0, e);
    marks := RunsToEnd(stripe, marks, 1, 1, e);
    SmallAdmits(e);
  }

  lemma BothLooking(stripe: string -> nat, e: RequestEntry) returns (marks: seq<Mark>)
    requires Small(e)
    ensures IsRun(marks) && Generational(stripe, marks)
    ensures Stage(State(marks), 0, 0, e.key, Doing(e.key, 0, [], {}, L.Looking), Data(e, map[], [], map[]), 0, false)
    ensures Stage(State(marks), 1, 1, e.key, Doing(e.key, 1, [], {}, L.Looking), Data(e, map[], [], map[]), 0, false)
  {
    marks := StartsOn(stripe, [], 0, 0, e);
    assert Unused(State(marks), 1, 1);
    marks := Forgotten(stripe, marks, e.key);
    marks := StartsOn(stripe, marks, 1, 1, e);
  }

  lemma Forgotten(stripe: string -> nat, marks: seq<Mark>, key: string) returns (r: seq<Mark>)
    requires IsRun(marks) && Generational(stripe, marks) && key in State(marks).ctl.lookup
    ensures IsRun(r) && Generational(stripe, r)
    ensures State(r) == State(marks).(ctl := State(marks).ctl.(lookup := State(marks).ctl.lookup - {key}))
  {
    var tick := Tick(stripe(key));
    NextMark(stripe, marks, tick);
    TickForgets(stripe, marks, key);
    NextMark(stripe, marks + [tick], tick);
    TickForgets(stripe, marks + [tick], key);
    NextMark(stripe, marks + [tick] + [tick], Act(Step(L.Drop(key))));
    r := marks + [tick] + [tick] + [Act(Step(L.Drop(key)))];
  }

  /** A rotation leaves no key of its stripe hot, and one that was not hot nowhere. */
  lemma TickForgets(stripe: string -> nat, marks: seq<Mark>, key: string)
    ensures var after := marks + [Tick(stripe(key))];
            && key !in Hot(stripe, after)
            && (key !in Hot(stripe, marks) ==> key !in Cold(stripe, after))
  {
    assert (marks + [Tick(stripe(key))])[..|marks|] == marks;
  }
}

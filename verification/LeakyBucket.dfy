/** What the admission check guarantees over time: exact retry times, headroom
    accounting, the rate bound over any run, and agreement with an ideal leaky bucket. */
module LeakyBucket {
  import opened Types
  import opened Gcra

  // ------------------------------------------------------------ retry times

  /** The 64-bit check on a limit value. */
  function Run64(l: Limit, cost: int64, tat: int64, now: int64): Verdict {
    GcraCheck(tat, now, l.capacity, l.rate.units, l.rate.period, cost)
  }

  /** The whole verdict in elementary terms. The bucket is worth room nanoseconds, as many as
      fit its capacity; the cost comes to ns of them, as few as cover it; and the debt in the
      bucket comes to debt cost units, as few as cover it. */
  lemma VerdictInFull(l: Limit, cost: int64, tat: int64, now: int64, room: int, ns: int, debt: int)
    requires now >= 0 && l.capacity >= 0 && l.rate.units > 0 && l.rate.period > 0 && cost >= 0
    requires room * l.rate.units <= l.capacity * l.rate.period < (room + 1) * l.rate.units
    requires (ns - 1) * l.rate.units < cost * l.rate.period <= ns * l.rate.units
    requires (debt - 1) * l.rate.period
             < (if tat > now then tat - now else 0) * l.rate.units <= debt * l.rate.period
    ensures var v, start := Run64(l, cost, tat, now), if tat > now then tat else now;
            if room > INT64_MAX || ns > INT64_MAX then v == Verdict(true, 0, 0, tat)
            else
              && v.remaining == (if debt < l.capacity then l.capacity - debt else 0)
              && if cost > l.capacity || start + ns > INT64_MAX then
                   v.throttled && v.retryAfter == 0 && v.tat == tat
                 else if start - now + ns > room then
                   v.throttled && v.retryAfter == start - now + ns - room && v.tat == tat
                 else !v.throttled && v.retryAfter == 0 && v.tat == start + ns
  {
    CheckMeetsSpec(tat, now, l, cost);
    RoundedAre(l, cost, room, ns);
    CeilUnique(Product(Level(tat, now), l.rate.units), l.rate.period, debt);
  }

  lemma RoundedAre(l: Limit, cost: int64, room: int, ns: int)
    requires Sane(l) && cost >= 0
    requires room * l.rate.units <= l.capacity * l.rate.period < (room + 1) * l.rate.units
    requires (ns - 1) * l.rate.units < cost * l.rate.period <= ns * l.rate.units
    ensures MaxDebt(l) == room && CostNs(l, cost) == ns
  {
    FloorUnique(Product(l.capacity, l.rate.period), l.rate.units, room);
    CeilUnique(Product(cost, l.rate.period), l.rate.units, ns);
  }

  lemma CeilUnique(n: nat, d: int, q: int)
    requires d > 0
    requires (q - 1) * d < n <= q * d
    ensures q == Ceil(n, d)
  {
    CeilIsLeast(n, d, q);
    CeilIsLeast(n, d, q - 1);
  }

  /** A limit or a cost that makes no sense is throttled, with no headroom and no wait. */
  lemma SenselessIsThrottled(l: Limit, cost: int64, tat: int64, now: int64)
    requires now >= 0
    requires l.capacity < 0 || l.rate.units <= 0 || l.rate.period <= 0 || cost < 0
    ensures Run64(l, cost, tat, now) == Verdict(true, 0, 0, tat)
  {
    CheckMeetsSpec(tat, now, l, cost);
  }

  /** A wait is reported exactly to a request within the capacity that lacks room now, all
      amounts being representable; never to a cost over the capacity. */
  lemma WaitReported(l: Limit, cost: int64, tat: int64, now: int64)
    requires now >= 0
    ensures Run64(l, cost, tat, now).retryAfter > 0 <==>
              && l.capacity >= 0 && l.rate.units > 0 && l.rate.period > 0
              && 0 <= cost <= l.capacity && MaxDebt(l) <= INT64_MAX && CostNs(l, cost) <= INT64_MAX
              && Max(tat, now) + CostNs(l, cost) <= INT64_MAX
              && Max(tat - now, 0) + CostNs(l, cost) > MaxDebt(l)
    ensures cost > l.capacity ==> Run64(l, cost, tat, now).throttled && Run64(l, cost, tat, now).retryAfter == 0
  {
    CheckMeetsSpec(tat, now, l, cost);
  }

  /** A throttled request on an unchanged bucket is admitted at a later instant exactly
      when the reported wait is positive and over, its rounded-up cost fits the
      rounded-down bucket, and the new timestamp is representable. */
  lemma RetryAfterExact(l: Limit, cost: int64, tat: int64, now: int64)
    requires now >= 0 && Run64(l, cost, tat, now).throttled
    ensures var wait := Run64(l, cost, tat, now).retryAfter;
            forall later: int64 :: now <= later ==>
              (!Run64(l, cost, tat, later).throttled <==>
                && wait > 0 && CostNs(l, cost) <= MaxDebt(l)
                && now + wait <= later && later + CostNs(l, cost) <= INT64_MAX)
  {
    CheckMeetsSpec(tat, now, l, cost);
    var wait := Run64(l, cost, tat, now).retryAfter;
    forall later: int64 | now <= later
      ensures !Run64(l, cost, tat, later).throttled <==>
                && wait > 0 && CostNs(l, cost) <= MaxDebt(l)
                && now + wait <= later && later + CostNs(l, cost) <= INT64_MAX
    {
      CheckMeetsSpec(tat, later, l, cost);
    }
  }

  /** So the reported wait is exact whenever waiting can help at all: the instant it names
      is representable, admits the request, and no instant before it does. */
  lemma RetryAfterIsEarliest(l: Limit, cost: int64, tat: int64, now: int64)
    requires now >= 0
    requires Run64(l, cost, tat, now).retryAfter > 0 && CostNs(l, cost) <= MaxDebt(l)
    ensures var v := Run64(l, cost, tat, now);
            && v.throttled && now + v.retryAfter <= tat
            && !Run64(l, cost, tat, now + v.retryAfter).throttled
            && forall later: int64 :: now <= later < now + v.retryAfter ==> Run64(l, cost, tat, later).throttled
  {
    CheckMeetsSpec(tat, now, l, cost);
    RetryAfterExact(l, cost, tat, now);
  }

  /** Rounding can make a cost within capacity unsatisfiable: bucket 1, cost 1, 3 units per
      nanosecond. An empty bucket reports headroom 1 and a 1 ns wait, and never admits. */
  lemma RoundedOutOfReach(l: Limit, cost: int64, now: int64)
    requires l == Limit(1, Rate(3, 1)) && cost == 1 && 0 <= now < INT64_MAX
    ensures Run64(l, cost, 0, now) == Verdict(true, 1, 1, 0)
    ensures forall later: int64 :: now <= later ==> Run64(l, cost, 0, later).throttled
  {
    ThirdsRound(l, now);
    CheckMeetsSpec(0, now, l, cost);
    RetryAfterExact(l, cost, 0, now);
  }

  lemma ThirdsRound(l: Limit, now: int64)
    requires l == Limit(1, Rate(3, 1)) && now >= 0
    ensures MaxDebt(l) == 0 && CostNs(l, 1) == 1 && DebtUnits(l, 0, now) == 0
  {
    assert Product(l.capacity, l.rate.period) == 1;
    FloorUnique(1, 3, 0);
    CeilIsLeast(1, 3, 0);
    CeilIsLeast(1, 3, 1);
    CeilIsLeast(0, 1, 0);
  }

  // --------------------------------------------------------------- headroom

  /** Checking again right after an admission reports at least cost less, and exactly cost
      less at one unit per period. */
  lemma AdmissionUsesHeadroom(l: Limit, cost: int64, tat: int64, now: int64, other: int64)
    requires now >= 0 && Admits(l, cost, tat, now)
    ensures Remaining(l, other, Max(tat, now) + CostNs(l, cost), now) <= Remaining(l, cost, tat, now) - cost
    ensures l.rate.units == 1 && other >= 0 && InRange(l, other) ==>
              Remaining(l, other, Max(tat, now) + CostNs(l, cost), now) == Remaining(l, cost, tat, now) - cost
  {
    AdmittedFits(l, cost, tat, now);
    DebtAfter(l, cost, tat, now);
  }

  /** The debt in whole units right after an admission. */
  lemma DebtAfter(l: Limit, cost: int64, tat: int64, now: int64)
    requires now >= 0 && Admits(l, cost, tat, now)
    ensures var after := DebtUnits(l, Max(tat, now) + CostNs(l, cost), now);
            && after >= DebtUnits(l, tat, now) + cost
            && (l.rate.units == 1 ==> after == DebtUnits(l, tat, now) + cost)
  {
    var p, u, before := l.rate.period, l.rate.units, Level(tat, now);
    var after := before + CostNs(l, cost);
    assert after == Level(Max(tat, now) + CostNs(l, cost), now);
    assert after * u == before * u + CostNs(l, cost) * u;
    MulMono(0, before, u);
    MulMono(0, after, u);
    assert (Ceil(after * u, p) - cost) * p == Ceil(after * u, p) * p - cost * p;
    CeilIsLeast(before * u, p, Ceil(after * u, p) - cost);
    if u == 1 {
      UnitRate(Product(cost, p));
      assert (Ceil(before, p) + cost) * p == Ceil(before, p) * p + cost * p;
      CeilIsLeast(after, p, Ceil(before, p) + cost);
    }
  }

  /** The headroom reported does not depend on the cost asked for, so it is what a peek at the
      same instant would report, except when the cost itself is too large to represent: then
      it is 0. */
  lemma HeadroomAsAtPeek(l: Limit, cost: int64, peekCost: int64, tat: int64, now: int64)
    requires now >= 0 && Sane(l) && cost >= 0 && peekCost >= 0 && InRange(l, peekCost)
    ensures Run64(l, cost, tat, now).remaining == Run64(l, peekCost, tat, now).remaining
            <==> InRange(l, cost) || Run64(l, peekCost, tat, now).remaining == 0
  {
    CheckMeetsSpec(tat, now, l, cost);
    CheckMeetsSpec(tat, now, l, peekCost);
  }

  /** For example ten units, one per two nanoseconds, and a cost of 2^62: the cost in
      nanoseconds does not fit, and an empty bucket reports 0 where a peek reports 10. */
  lemma HugeCostHidesHeadroom(l: Limit, cost: int64, now: int64)
    requires l == Limit(10, Rate(1, 2)) && cost == 0x4000_0000_0000_0000 && now >= 0
    ensures Run64(l, cost, 0, now).remaining == 0 && Run64(l, 1, 0, now).remaining == 10
  {
    TenUnits(l, cost, now);
    HeadroomReported(l, cost, 0, now);
    HeadroomReported(l, 1, 0, now);
  }

  lemma HeadroomReported(l: Limit, cost: int64, tat: int64, now: int64)
    requires now >= 0 && Sane(l) && cost >= 0
    ensures Run64(l, cost, tat, now).remaining
            == if InRange(l, cost) then Max(l.capacity - DebtUnits(l, tat, now), 0) else 0
  {
    CheckMeetsSpec(tat, now, l, cost);
  }

  lemma TenUnits(l: Limit, cost: int64, now: int64)
    requires l == Limit(10, Rate(1, 2)) && cost == 0x4000_0000_0000_0000 && now >= 0
    ensures !InRange(l, cost) && InRange(l, 1) && DebtUnits(l, 0, now) == 0
  {
    assert Product(10, 2) == 20 && Product(cost, 2) == 2 * cost && Product(1, 2) == 2;
    UnitRate(20);
    UnitRate(2 * cost);
    UnitRate(2);
    CeilIsLeast(0, 2, 0);
  }

  /** At one unit per period the headroom is exactly what can be admitted. */
  lemma UnitRateAdmitsHeadroom(l: Limit, cost: int64, tat: int64, now: int64)
    requires Sane(l) && l.rate.units == 1 && cost > 0 && InRange(l, cost)
    requires Max(tat, now) + CostNs(l, cost) <= INT64_MAX
    ensures Admits(l, cost, tat, now) <==> cost <= Remaining(l, cost, tat, now)
  {
    UnitRate(Product(cost, l.rate.period));
    UnitRate(Product(l.capacity, l.rate.period));
    assert (l.capacity - cost) * l.rate.period == l.capacity * l.rate.period - cost * l.rate.period;
    CeilIsLeast(Level(tat, now), l.rate.period, l.capacity - cost);
    if cost <= l.capacity && Level(tat, now) + CostNs(l, cost) <= MaxDebt(l) {
      AdmittedFits(l, cost, tat, now);
    }
  }

  // ---------------------------------------------- the rate bound over any run

  /** One check on a key: applied is set when its timestamp was written back. A check
      that was a peek, or whose group did not commit, leaves it unset. */
  datatype Check = Check(now: int64, limit: Limit, cost: int64, applied: bool)

  /** Only admitted checks are ever applied, each against the timestamp left by the last. */
  predicate History(tat: int64, checks: seq<Check>)
    decreases |checks|
  {
    checks == [] ||
    var c := checks[0];
    && 0 <= c.now
    && (c.applied ==> !Run64(c.limit, c.cost, tat, c.now).throttled)
    && History(Apply(tat, c), checks[1..])
  }

  function Apply(tat: int64, c: Check): int64 {
    if c.applied then Run64(c.limit, c.cost, tat, c.now).tat else tat
  }

  /** The debt all applied checks added. */
  function TotalNs(checks: seq<Check>): nat {
    if checks == [] then 0
    else (if checks[0].applied && Sane(checks[0].limit) then CostNs(checks[0].limit, checks[0].cost) else 0)
         + TotalNs(checks[1..])
  }

  /** The cost units all applied checks consumed. */
  function TotalCost(checks: seq<Check>): int {
    if checks == [] then 0
    else (if checks[0].applied then checks[0].cost else 0) + TotalCost(checks[1..])
  }

  lemma {:induction false} TimestampGrows(tat: int64, checks: seq<Check>)
    requires History(tat, checks) && checks != [] && checks[|checks| - 1].applied
    ensures var last := checks[|checks| - 1];
            && Sane(last.limit)
            && tat + TotalNs(checks) <= last.now + MaxDebt(last.limit)
    decreases |checks|
  {
    var c := checks[0];
    CheckMeetsSpec(tat, c.now, c.limit, c.cost);
    if |checks| > 1 {
      assert checks[1..][|checks| - 2] == checks[|checks| - 1];
      TimestampGrows(Apply(tat, c), checks[1..]);
    } else {
      assert TotalNs(checks[1..]) == 0;
    }
  }

  /** From any first to any last applied check the debt added is at most the last limit's
      burst window plus the time between them, whatever limits and clock readings lie
      between: the clock may even run backwards. */
  lemma RateBound(tat: int64, checks: seq<Check>)
    requires History(tat, checks) && checks != []
    requires checks[0].applied && checks[|checks| - 1].applied
    ensures var last := checks[|checks| - 1];
            && Sane(last.limit)
            && TotalNs(checks) <= MaxDebt(last.limit) + last.now - checks[0].now
  {
    var c := checks[0];
    CheckMeetsSpec(tat, c.now, c.limit, c.cost);
    if |checks| > 1 {
      assert checks[1..][|checks| - 2] == checks[|checks| - 1];
      TimestampGrows(Apply(tat, c), checks[1..]);
    } else {
      assert TotalNs(checks[1..]) == 0;
    }
  }

  lemma {:induction false} CostIsRoundedUp(tat: int64, checks: seq<Check>, l: Limit)
    requires Sane(l) && History(tat, checks)
    requires forall c :: c in checks ==> c.limit == l
    ensures TotalCost(checks) * l.rate.period <= TotalNs(checks) * l.rate.units
    decreases |checks|
  {
    if checks != [] {
      var c, rest := checks[0], checks[1..];
      assert c in checks;
      CostIsRoundedUp(Apply(tat, c), rest, l);
      if c.applied {
        CheckMeetsSpec(tat, c.now, l, c.cost);
        assert Product(c.cost, l.rate.period) == c.cost * l.rate.period;
        AddScaled(c.cost, TotalCost(rest), l.rate.period, CostNs(l, c.cost), TotalNs(rest), l.rate.units);
      }
    }
  }

  lemma AddScaled(a: int, b: int, p: int, x: int, y: int, u: int)
    requires a * p <= x * u && b * p <= y * u
    ensures (a + b) * p <= (x + y) * u
  {
    assert (a + b) * p == a * p + b * p;
    assert (x + y) * u == x * u + y * u;
  }

  /** With one limit: the cost consumed stays within capacity plus what drained meanwhile. */
  lemma RateBoundInUnits(tat: int64, checks: seq<Check>, l: Limit)
    requires Sane(l) && History(tat, checks) && checks != []
    requires forall c :: c in checks ==> c.limit == l
    requires checks[0].applied && checks[|checks| - 1].applied
    ensures TotalCost(checks) * l.rate.period
            <= l.capacity * l.rate.period + l.rate.units * (checks[|checks| - 1].now - checks[0].now)
  {
    RateBound(tat, checks);
    assert checks[|checks| - 1] in checks;
    CostIsRoundedUp(tat, checks, l);
    Widen(TotalCost(checks) * l.rate.period, TotalNs(checks), MaxDebt(l), l.capacity * l.rate.period,
          checks[|checks| - 1].now - checks[0].now, l.rate.units);
  }

  lemma Widen(consumed: int, ns: int, maxDebt: int, room: int, dt: int, u: int)
    requires u > 0 && consumed <= ns * u && ns <= maxDebt + dt && maxDebt * u <= room
    ensures consumed <= room + u * dt
  {
    MulMono(ns, maxDebt + dt, u);
    assert (maxDebt + dt) * u == maxDebt * u + u * dt;
  }

  // ------------------------------------------------- the ideal leaky bucket

  /** A bucket that holds a rational amount of water, water / period cost units of it, and
      drains continuously: units / period cost units, that is units of water, every
      nanosecond. For a fixed limit every level the bucket can have is such a fraction. */
  datatype Ideal = Ideal(water: nat, at: int)

  function WaterAt(b: Ideal, l: Limit, now: int): nat {
    Max(b.water - l.rate.units * (now - b.at), 0)
  }

  /** There is room for cost more units below capacity units. */
  predicate IdealAdmits(b: Ideal, l: Limit, cost: int, now: int) {
    WaterAt(b, l, now) + cost * l.rate.period <= l.capacity * l.rate.period
  }

  function Pour(b: Ideal, l: Limit, cost: nat, now: int): Ideal
    requires Sane(l)
  {
    MulMono(0, cost, l.rate.period);
    Ideal(WaterAt(b, l, now) + cost * l.rate.period, now)
  }

  /** The machine's timestamp, the ideal bucket fed the same admissions, and their number. */
  datatype Pair = Pair(tat: int64, ideal: Ideal, admitted: nat)

  datatype Request = Request(now: int64, cost: int64)

  function Next(s: Pair, l: Limit, r: Request): Pair
    requires Sane(l)
  {
    var v := Run64(l, r.cost, s.tat, r.now);
    if v.throttled then s
    else Pair(v.tat, Pour(s.ideal, l, r.cost, r.now), s.admitted + 1)
  }

  function RunPair(s: Pair, l: Limit, rs: seq<Request>): Pair
    requires Sane(l)
  {
    if rs == [] then s else Next(RunPair(s, l, rs[..|rs| - 1]), l, rs[|rs| - 1])
  }

  /** The machine's debt is the ideal level plus less than one unit's worth of rounding
      per admission: ideal * period <= units * debt <= ideal * period + n * (units - 1). */
  predicate Tracks(s: Pair, l: Limit, now: int64) {
    && s.ideal.at <= now
    && WaterAt(s.ideal, l, now) <= Level(s.tat, now) * l.rate.units
    && Level(s.tat, now) * l.rate.units <= WaterAt(s.ideal, l, now) + s.admitted * (l.rate.units - 1)
  }

  lemma DebtDrain(tat: int64, u: int, now: int64, later: int64)
    requires u > 0 && now <= later
    ensures Level(tat, later) * u == Max(Level(tat, now) * u - u * (later - now), 0)
  {
    var dt, before := later - now, Level(tat, now);
    assert (before - dt) * u == before * u - u * dt;
    if before < dt {
      MulMono(before, dt, u);
    } else {
      MulMono(0, before - dt, u);
    }
  }

  /** Waiting keeps the two in step. */
  lemma TracksLater(s: Pair, l: Limit, now: int64, later: int64)
    requires Sane(l) && now <= later && Tracks(s, l, now)
    ensures Tracks(s, l, later)
  {
    var u := l.rate.units;
    DebtDrain(s.tat, u, now, later);
    assert u * (later - s.ideal.at) == u * (now - s.ideal.at) + u * (later - now);
    MulMono(0, u - 1, s.admitted);
    MulMono(0, later - now, u);
    MulMono(0, now - s.ideal.at, u);
  }

  lemma Poured(b: Ideal, l: Limit, cost: int64, now: int)
    requires Sane(l) && cost >= 0
    ensures WaterAt(Pour(b, l, cost, now), l, now) == WaterAt(b, l, now) + Product(cost, l.rate.period)
  {
    assert l.rate.units * (now - now) == 0;
  }

  /** The ideal bucket has room for whatever fits the machine's. */
  lemma FitsIdeal(s: Pair, l: Limit, r: Request)
    requires Sane(l) && Tracks(s, l, r.now) && Admits(l, r.cost, s.tat, r.now)
    ensures WaterAt(s.ideal, l, r.now) + Product(r.cost, l.rate.period) <= Product(l.capacity, l.rate.period)
  {
    var u, ns, debt := l.rate.units, CostNs(l, r.cost), Level(s.tat, r.now);
    assert (debt + ns) * u == debt * u + ns * u;
    MulMono(debt + ns, MaxDebt(l), u);
  }

  /** Admitting keeps them in step, costing at most units - 1 of rounding, and the ideal
      bucket has room for everything the machine admits. */
  lemma TracksAdmission(s: Pair, l: Limit, r: Request)
    requires Sane(l) && Tracks(s, l, r.now)
    requires r.now >= 0 && Admits(l, r.cost, s.tat, r.now)
    ensures Tracks(Next(s, l, r), l, r.now)
    ensures IdealAdmits(s.ideal, l, r.cost, r.now)
  {
    var u, ns, debt := l.rate.units, CostNs(l, r.cost), Level(s.tat, r.now);
    CheckMeetsSpec(s.tat, r.now, l, r.cost);
    FitsIdeal(s, l, r);
    Poured(s.ideal, l, r.cost, r.now);
    AddRounded(WaterAt(s.ideal, l, r.now), debt, ns, Product(r.cost, l.rate.period), s.admitted, u);
    assert Next(s, l, r) == Pair(Max(s.tat, r.now) + ns, Pour(s.ideal, l, r.cost, r.now), s.admitted + 1);
    assert Level(Next(s, l, r).tat, r.now) == debt + ns;
  }

  lemma AddRounded(water: int, debt: int, ns: int, poured: int, n: int, u: int)
    requires water <= debt * u <= water + n * (u - 1)
    requires poured <= ns * u < poured + u
    ensures water + poured <= (debt + ns) * u <= water + poured + (n + 1) * (u - 1)
  {
    assert (debt + ns) * u == debt * u + ns * u;
    assert (n + 1) * (u - 1) == n * (u - 1) + (u - 1);
  }

  /** A request the machine turns away for lack of room would have left the ideal bucket
      within the accumulated rounding of full. */
  lemma TurnedAwayNearFull(s: Pair, l: Limit, r: Request)
    requires Sane(l) && Tracks(s, l, r.now)
    requires 0 <= r.cost <= l.capacity && InRange(l, r.cost)
    requires Max(s.tat, r.now) + CostNs(l, r.cost) <= INT64_MAX
    requires !Admits(l, r.cost, s.tat, r.now)
    ensures WaterAt(s.ideal, l, r.now) + r.cost * l.rate.period
            > l.capacity * l.rate.period - (s.admitted + 1) * (l.rate.units - 1)
  {
    NearFull(Level(s.tat, r.now), CostNs(l, r.cost), MaxDebt(l), WaterAt(s.ideal, l, r.now),
             Product(r.cost, l.rate.period), Product(l.capacity, l.rate.period), s.admitted, l.rate.units);
  }

  lemma NearFull(debt: int, ns: int, maxDebt: int, water: int, poured: int, full: int, n: int, u: int)
    requires u > 0 && maxDebt < debt + ns && full < maxDebt * u + u
    requires debt * u <= water + n * (u - 1) && ns * u < poured + u
    ensures water + poured > full - (n + 1) * (u - 1)
  {
    assert (debt + ns) * u == debt * u + ns * u;
    assert (n + 1) * (u - 1) == n * (u - 1) + (u - 1);
    MulMono(maxDebt + 1, debt + ns, u);
    assert (maxDebt + 1) * u == maxDebt * u + u;
  }

  /** At one unit per period the machine and the ideal bucket decide alike. */
  lemma UnitRateAgrees(s: Pair, l: Limit, r: Request)
    requires Sane(l) && l.rate.units == 1 && Tracks(s, l, r.now)
    requires 0 <= r.cost && InRange(l, r.cost)
    requires Max(s.tat, r.now) + CostNs(l, r.cost) <= INT64_MAX
    ensures Level(s.tat, r.now) == WaterAt(s.ideal, l, r.now)
    ensures Admits(l, r.cost, s.tat, r.now) <==> IdealAdmits(s.ideal, l, r.cost, r.now)
  {
    UnitRate(Product(r.cost, l.rate.period));
    UnitRate(Product(l.capacity, l.rate.period));
    if r.cost > l.capacity {
      MulMono(l.capacity + 1, r.cost, l.rate.period);
      assert (l.capacity + 1) * l.rate.period == l.capacity * l.rate.period + l.rate.period;
    }
  }

  /** The clock starts after the epoch and does not run backwards. */
  predicate Timed(rs: seq<Request>) {
    && (forall i :: 0 <= i < |rs| ==> 0 <= rs[i].now)
    && (forall i, j :: 0 <= i < j < |rs| ==> rs[i].now <= rs[j].now)
  }

  lemma {:induction false} StaysInStep(tat: int64, l: Limit, rs: seq<Request>, i: nat)
    requires Sane(l) && Timed(rs) && i < |rs| && tat <= rs[0].now
    ensures var s := RunPair(Pair(tat, Ideal(0, rs[0].now), 0), l, rs[..i]);
            Tracks(s, l, rs[i].now) && s.admitted <= i
  {
    var start := Pair(tat, Ideal(0, rs[0].now), 0);
    if i == 0 {
      TracksLater(start, l, rs[0].now, rs[0].now);
    } else {
      StaysInStep(tat, l, rs, i - 1);
      assert rs[..i][..i - 1] == rs[..i - 1];
      var s, r := RunPair(start, l, rs[..i - 1]), rs[i - 1];
      CheckMeetsSpec(s.tat, r.now, l, r.cost);
      if Admits(l, r.cost, s.tat, r.now) {
        TracksAdmission(s, l, r);
      }
      TracksLater(RunPair(start, l, rs[..i]), l, r.now, rs[i].now);
    }
  }

  /** Whether the machine decides on room alone: nothing it computes overflows. */
  predicate Representable(s: Pair, l: Limit, r: Request)
    requires Sane(l)
  {
    r.cost >= 0 && InRange(l, r.cost) && Max(s.tat, r.now) + CostNs(l, r.cost) <= INT64_MAX
  }

  /** While in step, the machine never admits what the ideal bucket would refuse, refuses
      for lack of room only within (n + 1) * (units - 1) of full, and at one unit per
      period decides exactly as the ideal one. */
  lemma DecidesInStep(s: Pair, l: Limit, r: Request)
    requires Sane(l) && Tracks(s, l, r.now) && r.now >= 0
    ensures !Run64(l, r.cost, s.tat, r.now).throttled ==> IdealAdmits(s.ideal, l, r.cost, r.now)
    ensures Run64(l, r.cost, s.tat, r.now).throttled && r.cost <= l.capacity && Representable(s, l, r) ==>
              WaterAt(s.ideal, l, r.now) + r.cost * l.rate.period
              > l.capacity * l.rate.period - (s.admitted + 1) * (l.rate.units - 1)
    ensures l.rate.units == 1 && Representable(s, l, r) ==>
              && Level(s.tat, r.now) == WaterAt(s.ideal, l, r.now)
              && (!Run64(l, r.cost, s.tat, r.now).throttled <==> IdealAdmits(s.ideal, l, r.cost, r.now))
  {
    CheckMeetsSpec(s.tat, r.now, l, r.cost);
    if Admits(l, r.cost, s.tat, r.now) {
      TracksAdmission(s, l, r);
    } else if r.cost <= l.capacity && Representable(s, l, r) {
      TurnedAwayNearFull(s, l, r);
    }
    if l.rate.units == 1 && Representable(s, l, r) {
      UnitRateAgrees(s, l, r);
    }
  }

  /** Over any run with one limit on a key whose bucket starts empty, whatever was admitted
      before request i, the 64-bit check stays in step with the ideal bucket and decides as
      it does up to the accumulated rounding, exactly at one unit per period. */
  lemma SimulatesIdealBucket(tat: int64, l: Limit, rs: seq<Request>, i: nat)
    requires Sane(l) && Timed(rs) && i < |rs| && tat <= rs[0].now
    ensures var s, r := RunPair(Pair(tat, Ideal(0, rs[0].now), 0), l, rs[..i]), rs[i];
            && Tracks(s, l, r.now) && s.admitted <= i
            && (!Run64(l, r.cost, s.tat, r.now).throttled ==> IdealAdmits(s.ideal, l, r.cost, r.now))
            && (Run64(l, r.cost, s.tat, r.now).throttled && r.cost <= l.capacity && Representable(s, l, r) ==>
                  WaterAt(s.ideal, l, r.now) + r.cost * l.rate.period
                  > l.capacity * l.rate.period - (s.admitted + 1) * (l.rate.units - 1))
            && (l.rate.units == 1 && Representable(s, l, r) ==>
                  && Level(s.tat, r.now) == WaterAt(s.ideal, l, r.now)
                  && (!Run64(l, r.cost, s.tat, r.now).throttled <==> IdealAdmits(s.ideal, l, r.cost, r.now)))
  {
    StaysInStep(tat, l, rs, i);
    DecidesInStep(RunPair(Pair(tat, Ideal(0, rs[0].now), 0), l, rs[..i]), l, rs[i]);
  }
}

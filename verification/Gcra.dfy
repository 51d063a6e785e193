/** server/gcra.go: one admission check in 64-bit arithmetic, and the same check
    over the unbounded integers. */
module Gcra {
  import opened Types

  // ---------------------------------------------------------------- rounding

  /** n / d rounded up, over the unbounded integers. */
  function Ceil(n: nat, d: int): (q: nat)
    requires d > 0
    ensures n <= q * d
    ensures q * d < n + d
  {
    var q := (n + d - 1) / d;
    assert n + d - 1 == q * d + (n + d - 1) % d;
    assert q >= 0 by {
      if q < 0 { MulNonPos(q, d); }
    }
    q
  }

  /** n / d rounded down, over the unbounded integers. */
  function Floor(n: nat, d: int): (q: nat)
    requires d > 0
    ensures q * d <= n
    ensures n < q * d + d
  {
    var q := n / d;
    assert n == q * d + n % d;
    assert q >= 0 by {
      if q < 0 { MulNonPos(q, d); }
    }
    q
  }

  lemma MulNonPos(q: int, d: int)
    requires q < 0 < d
    ensures q * d <= -d
  {
  }

  lemma MulMono(a: int, b: int, c: int)
    requires a <= b && c >= 0
    ensures a * c <= b * c
  {
  }

  /** Rounding up is the least integer that is enough. */
  lemma CeilIsLeast(n: nat, d: int, k: int)
    requires d > 0
    ensures Ceil(n, d) <= k <==> n <= k * d
  {
    if k < Ceil(n, d) {
      MulMono(k, Ceil(n, d) - 1, d);
    } else {
      MulMono(Ceil(n, d), k, d);
    }
  }

  /** Rounding down is the greatest integer that fits. */
  lemma FloorIsGreatest(n: nat, d: int, k: int)
    requires d > 0
    ensures k <= Floor(n, d) <==> k * d <= n
  {
    if k > Floor(n, d) {
      MulMono(Floor(n, d) + 1, k, d);
    } else {
      MulMono(k, Floor(n, d), d);
    }
  }

  // ----------------------------------------------------- 64-bit building blocks

  /** math/bits.Mul64: the 128-bit product as two words. */
  function Mul64(a: uint64, b: uint64): (r: (uint64, uint64))
    ensures a * b == r.0 * 0x1_0000_0000_0000_0000 + r.1
  {
    var p := a * b;
    assert 0 <= p <= 0xFFFF_FFFF_FFFF_FFFF * 0xFFFF_FFFF_FFFF_FFFF by {
      MulMono(a, 0xFFFF_FFFF_FFFF_FFFF, b);
      MulMono(b, 0xFFFF_FFFF_FFFF_FFFF, 0xFFFF_FFFF_FFFF_FFFF);
      MulMono(0, a, b);
    }
    (p / 0x1_0000_0000_0000_0000, p % 0x1_0000_0000_0000_0000)
  }

  /** math/bits.Div64, which panics unless hi < y. */
  function Div64(hi: uint64, lo: uint64, y: uint64): (r: (uint64, uint64))
    requires hi < y
    ensures hi * 0x1_0000_0000_0000_0000 + lo == r.0 * y + r.1
    ensures r.1 < y
  {
    var n := hi * 0x1_0000_0000_0000_0000 + lo;
    var q := Floor(n, y);
    assert q <= 0xFFFF_FFFF_FFFF_FFFF by {
      FloorIsGreatest(n, y, 0x1_0000_0000_0000_0000);
      MulMono(hi + 1, y, 0x1_0000_0000_0000_0000);
    }
    (q, n - q * y)
  }

  /** a * b when it fits in an int64. */
  function MulNonNeg(a: int64, b: int64): (r: Option<int64>)
    requires a >= 0 && b >= 0
    ensures r.Some? <==> a * b <= INT64_MAX
    ensures r.Some? ==> r.value == a * b
  {
    if a == 0 || b == 0 then Some(0)
    else
      FloorIsGreatest(INT64_MAX, b, a);
      if a > Floor(INT64_MAX, b) then None
      else
        MulMono(0, a, b);
        Some(a * b)
  }

  /** a + b when it fits in an int64; b must not be negative. */
  function AddNonNeg(a: int64, b: int64): (r: Option<int64>)
    requires b >= 0
    ensures r.Some? <==> a + b <= INT64_MAX
    ensures r.Some? ==> r.value == a + b
  {
    if a > INT64_MAX - b then None else Some(a + b)
  }

  function CeilDiv(a: int64, b: int64): (r: int64)
    requires b > 0
    ensures r == if a <= 0 then 0 else Ceil(a, b)
  {
    if a <= 0 then 0
    else
      var q := a / b;
      var m := a % b;
      assert a == q * b + m;
      CeilIsLeast(a, b, a);
      MulMono(1, b, a);
      CeilIsLeast(a, b, q);
      CeilIsLeast(a, b, q + 1);
      if m != 0 then q + 1 else q
  }

  /** floor(a * b / c) through a 128-bit product. Success is exactly "the inputs
      are in range and the true quotient fits". */
  function MulDivFloor(a: int64, b: int64, c: int64): (r: Option<int64>)
    ensures r.Some? <==> a >= 0 && b >= 0 && c > 0 && Floor(Product(a, b), c) <= INT64_MAX
    ensures r.Some? ==> r.value == Floor(Product(a, b), c)
  {
    if a < 0 || b < 0 || c <= 0 then None
    else
      var (hi, lo) := Mul64(a, b);
      if hi >= c then
        QuotientTooBig(a, b, c, hi, lo);
        None
      else
        var (q, m) := Div64(hi, lo, c);
        FloorUnique(Product(a, b), c, q);
        if q > INT64_MAX then None else Some(q)
  }

  /** ceil(a * b / c) through a 128-bit product, with the same contract. */
  function MulDivCeil(a: int64, b: int64, c: int64): (r: Option<int64>)
    ensures r.Some? <==> a >= 0 && b >= 0 && c > 0 && Ceil(Product(a, b), c) <= INT64_MAX
    ensures r.Some? ==> r.value == Ceil(Product(a, b), c)
  {
    if a < 0 || b < 0 || c <= 0 then None
    else
      var (hi, lo) := Mul64(a, b);
      if hi >= c then
        QuotientTooBig(a, b, c, hi, lo);
        None
      else
        var (q, m) := Div64(hi, lo, c);
        CeilIsLeast(Product(a, b), c, q);
        CeilIsLeast(Product(a, b), c, q + 1);
        CeilIsLeast(Product(a, b), c, q - 1);
        if m != 0 then
          if q == UINT64_MAX then None
          else if q + 1 > INT64_MAX then None else Some(q + 1)
        else if q > INT64_MAX then None else Some(q)
  }

  /** The exact product; 0 outside the range both callers accept. */
  function Product(a: int64, b: int64): (p: nat)
    ensures a >= 0 && b >= 0 ==> p == a * b
  {
    if a >= 0 && b >= 0 then MulMono(0, a, b); a * b else 0
  }

  lemma FloorUnique(n: nat, d: int, q: int)
    requires d > 0
    requires q * d <= n < q * d + d
    ensures q == Floor(n, d)
  {
    FloorIsGreatest(n, d, q);
    FloorIsGreatest(n, d, q + 1);
  }

  lemma QuotientTooBig(a: int64, b: int64, c: int64, hi: uint64, lo: uint64)
    requires a >= 0 && b >= 0 && c > 0
    requires a * b == hi * 0x1_0000_0000_0000_0000 + lo
    requires hi >= c
    ensures Floor(Product(a, b), c) > INT64_MAX
    ensures Ceil(Product(a, b), c) > INT64_MAX
  {
    MulMono(c, hi, 0x1_0000_0000_0000_0000);
    FloorIsGreatest(Product(a, b), c, 0x1_0000_0000_0000_0000);
    CeilIsLeast(Product(a, b), c, INT64_MAX);
    MulMono(INT64_MAX, 0x1_0000_0000_0000_0000 - 1, c);
  }

  // -------------------------------------------------------------- the check

  /** What gcraCheck returns: the decision, the headroom before this request, the
      wait until it would fit, and the timestamp to persist if it is applied. */
  datatype Verdict = Verdict(throttled: bool, remaining: int64, retryAfter: int64, tat: int64)

  /** gcraCheck as the source computes it: every sum and difference in int64. */
  function GcraCheck(tat: int64, now: int64, capacity: int64, units: int64, period: int64, cost: int64): (v: Verdict)
    ensures v.throttled ==> v.tat == tat
    ensures !v.throttled ==> v.retryAfter == 0 && 0 <= cost <= capacity
    ensures v.retryAfter != 0 ==> 0 <= cost <= capacity && units > 0 && period > 0
    ensures v.remaining >= 0
  {
    if period <= 0 || units <= 0 || capacity < 0 || cost < 0 then Verdict(true, 0, 0, tat)
    else
      var maxDebt := MaxDebt64(capacity, units, period);
      if maxDebt.None? then Verdict(true, 0, 0, tat)
      else
        var costNs := CostNs64(cost, units, period);
        if costNs.None? then Verdict(true, 0, 0, tat)
        else CheckDebt(tat, now, capacity, units, period, cost, maxDebt.value, costNs.value)
  }

  /** The bucket size in nanoseconds, with the one-multiplication path for units == 1. */
  function MaxDebt64(capacity: int64, units: int64, period: int64): (r: Option<int64>)
    requires capacity >= 0 && units > 0 && period > 0
    ensures r.Some? <==> Floor(Product(capacity, period), units) <= INT64_MAX
    ensures r.Some? ==> r.value == Floor(Product(capacity, period), units)
  {
    UnitRate(Product(capacity, period));
    if units == 1 then MulNonNeg(capacity, period) else MulDivFloor(capacity, period, units)
  }

  /** The cost in nanoseconds, likewise. */
  function CostNs64(cost: int64, units: int64, period: int64): (r: Option<int64>)
    requires cost >= 0 && units > 0 && period > 0
    ensures r.Some? <==> Ceil(Product(cost, period), units) <= INT64_MAX
    ensures r.Some? ==> r.value == Ceil(Product(cost, period), units)
  {
    UnitRate(Product(cost, period));
    if units == 1 then MulNonNeg(cost, period) else MulDivCeil(cost, period, units)
  }

  /** The debt in cost units; capacity + 1 stands in for an unrepresentable one and
      itself wraps when capacity is the largest int64. */
  function DebtUnits64(level: int64, capacity: int64, units: int64, period: int64): (r: int64)
    requires units > 0 && period > 0
    ensures level >= 0 ==>
              var d := Ceil(Product(level, units), period);
              r == if d <= INT64_MAX then d else Wrap64(capacity + 1)
  {
    if units == 1 then
      if level >= 0 then
        CeilIsLeast(level, period, level);
        MulMono(1, period, level);
        CeilDiv(level, period)
      else CeilDiv(level, period)
    else
      var d := MulDivCeil(level, units, period);
      if d.Some? then d.value else Wrap64(capacity + 1)
  }

  /** The reported headroom: the fallback's second wrap brings it back to -1, hence 0. */
  function Remaining64(level: int64, capacity: int64, units: int64, period: int64): (r: int64)
    requires capacity >= 0 && units > 0 && period > 0
    ensures level >= 0 ==> r == Max(capacity - Ceil(Product(level, units), period), 0)
  {
    var debtUnits := DebtUnits64(level, capacity, units, period);
    Max(Wrap64(capacity - debtUnits), 0)
  }

  /** The second half of gcraCheck, once both nanosecond amounts are known. */
  function CheckDebt(tat: int64, now: int64, capacity: int64, units: int64, period: int64, cost: int64,
                     maxDebt: int64, costNs: int64): Verdict
    requires period > 0 && units > 0 && capacity >= 0 && cost >= 0 && costNs >= 0
  {
    var effectiveTat: int64 := Max(tat, now);
    var level := Wrap64(effectiveTat - now);
    var remaining := Remaining64(level, capacity, units, period);
    if cost > capacity then Verdict(true, remaining, 0, tat)
    else
      var candidate := AddNonNeg(effectiveTat, costNs);
      if candidate.None? then Verdict(true, remaining, 0, tat)
      else if Wrap64(candidate.value - now) > maxDebt then
        Verdict(true, remaining, Wrap64(Wrap64(candidate.value - now) - maxDebt), tat)
      else Verdict(false, remaining, 0, candidate.value)
  }

  // ------------------------------------------- the same check, unbounded integers

  /** A limit whose shape gcraCheck accepts. */
  predicate Sane(l: Limit) {
    l.capacity >= 0 && l.rate.units > 0 && l.rate.period > 0
  }

  /** How many nanoseconds of debt the whole bucket is worth. */
  function MaxDebt(l: Limit): nat
    requires Sane(l)
  {
    Floor(Product(l.capacity, l.rate.period), l.rate.units)
  }

  /** How many nanoseconds of debt one request adds. */
  function CostNs(l: Limit, cost: int64): nat
    requires Sane(l)
  {
    Ceil(Product(cost, l.rate.period), l.rate.units)
  }

  /** The debt in the bucket at time now. */
  function Level(tat: int64, now: int64): nat {
    if tat > now then tat - now else 0
  }

  /** The debt in the bucket at time now, in whole cost units, rounded up. */
  function DebtUnits(l: Limit, tat: int64, now: int64): nat
    requires Sane(l)
  {
    MulMono(0, Level(tat, now), l.rate.units);
    Ceil(Level(tat, now) * l.rate.units, l.rate.period)
  }

  /** Both nanosecond amounts are representable. */
  predicate InRange(l: Limit, cost: int64)
    requires Sane(l)
  {
    MaxDebt(l) <= INT64_MAX && CostNs(l, cost) <= INT64_MAX
  }

  /** The admission test proper: there is room, and the new timestamp is representable. */
  predicate Admits(l: Limit, cost: int64, tat: int64, now: int64) {
    && Sane(l) && 0 <= cost <= l.capacity && InRange(l, cost)
    && Max(tat, now) + CostNs(l, cost) <= INT64_MAX
    && Level(tat, now) + CostNs(l, cost) <= MaxDebt(l)
  }

  /** The headroom in cost units at time now. */
  function Remaining(l: Limit, cost: int64, tat: int64, now: int64): (r: int64)
    ensures r >= 0
    ensures l.capacity >= 0 ==> r <= l.capacity
  {
    if !Sane(l) || cost < 0 || !InRange(l, cost) then 0
    else Max(l.capacity - DebtUnits(l, tat, now), 0)
  }

  /** The wait reported to a request that does not fit now; 0 means "do not retry". */
  function RetryAfter(l: Limit, cost: int64, tat: int64, now: int64): (r: nat)
    ensures r > 0 ==> 0 <= cost <= l.capacity && l.rate.units > 0 && l.rate.period > 0
    ensures now >= 0 ==> r <= INT64_MAX
  {
    if !Sane(l) || !(0 <= cost <= l.capacity) || !InRange(l, cost)
       || Max(tat, now) + CostNs(l, cost) > INT64_MAX then 0
    else Max(Level(tat, now) + CostNs(l, cost) - MaxDebt(l), 0)
  }

  /** The 64-bit check agrees with the unbounded one for all instants since the epoch:
      nothing wraps that matters, every failed intermediate throttles, and the
      fallback for an unrepresentable debt reports exactly 0. */
  lemma CheckMeetsSpec(tat: int64, now: int64, l: Limit, cost: int64)
    requires now >= 0
    ensures var v := GcraCheck(tat, now, l.capacity, l.rate.units, l.rate.period, cost);
            && v.throttled == !Admits(l, cost, tat, now)
            && v.remaining == Remaining(l, cost, tat, now)
            && v.retryAfter == RetryAfter(l, cost, tat, now)
            && v.tat == if Admits(l, cost, tat, now) then Max(tat, now) + CostNs(l, cost) else tat
  {
    if Sane(l) && cost >= 0 && InRange(l, cost) {
      assert Product(Level(tat, now), l.rate.units) == Level(tat, now) * l.rate.units;
    }
  }

  lemma UnitRate(n: nat)
    ensures Floor(n, 1) == n && Ceil(n, 1) == n
  {
  }

  /** The fallback branch (server/gcra.go:86) is only ever taken by a throttled request. */
  lemma DebtOverflowThrottles(tat: int64, now: int64, l: Limit, cost: int64)
    requires now >= 0 && Sane(l) && cost >= 0 && InRange(l, cost)
    requires DebtUnits(l, tat, now) > INT64_MAX
    ensures var v := GcraCheck(tat, now, l.capacity, l.rate.units, l.rate.period, cost);
            v.throttled && v.remaining == 0 && v.tat == tat
  {
    CheckMeetsSpec(tat, now, l, cost);
    if Admits(l, cost, tat, now) {
      AdmittedFits(l, cost, tat, now);
    }
  }

  /** An admitted cost never exceeds the headroom reported with it. */
  lemma AdmittedFits(l: Limit, cost: int64, tat: int64, now: int64)
    requires Admits(l, cost, tat, now)
    ensures DebtUnits(l, tat, now) + cost <= l.capacity
    ensures cost <= Remaining(l, cost, tat, now)
  {
    var p, u, level := l.rate.period, l.rate.units, Level(tat, now);
    MulMono(level + CostNs(l, cost), MaxDebt(l), u);
    assert (level + CostNs(l, cost)) * u == level * u + CostNs(l, cost) * u;
    assert level * u + cost * p <= l.capacity * p;
    assert (l.capacity - cost) * p == l.capacity * p - cost * p;
    MulMono(0, level, u);
    CeilIsLeast(level * u, p, l.capacity - cost);
  }
}

/** The request and response vocabulary shared by server and client (types.go),
    with Go's int64 written as a subset of the mathematical integers. */
module Types {

  const INT64_MAX: int := 0x7FFF_FFFF_FFFF_FFFF
  const UINT64_MAX: int := 0xFFFF_FFFF_FFFF_FFFF

  type int64 = x: int | -0x8000_0000_0000_0000 <= x <= 0x7FFF_FFFF_FFFF_FFFF
  type uint64 = x: int | 0 <= x <= 0xFFFF_FFFF_FFFF_FFFF

  /** The value an int64 variable holds after an operation whose exact result is x. */
  function Wrap64(x: int): (r: int64)
    ensures -0x8000_0000_0000_0000 <= x <= 0x7FFF_FFFF_FFFF_FFFF ==> r == x
    ensures (r - x) % 0x1_0000_0000_0000_0000 == 0
  {
    (x + 0x8000_0000_0000_0000) % 0x1_0000_0000_0000_0000 - 0x8000_0000_0000_0000
  }

  function Max(a: int, b: int): int {
    if a < b then b else a
  }

  datatype Option<+T> = None | Some(value: T)

  /** The ways an entry or a call can fail. */
  datatype Error =
    | ContextDone
    | InvalidKey
    | EntryRejected
    | CircuitOpen
    | Network
    | BadResponse

  datatype Rate = Rate(units: int64, period: int64)

  datatype Limit = Limit(capacity: int64, rate: Rate)

  datatype RequestEntry = RequestEntry(key: string, limit: Limit, cost: int64, peek: bool)

  datatype ResponseEntry = ResponseEntry(
    key: string, throttled: bool, remaining: int64, retryAfter: int64, err: Option<Error>)

  function EffectiveCost(cost: int64): int64 {
    if cost <= 0 then 1 else cost
  }

  function EffectiveUnits(units: int64): int64 {
    if units <= 0 then 1 else units
  }

  /** The entry as it looks once both defaults have been filled in. */
  function Normalized(e: RequestEntry): RequestEntry {
    e.(limit := e.limit.(rate := e.limit.rate.(units := EffectiveUnits(e.limit.rate.units))),
       cost := EffectiveCost(e.cost))
  }
}

/**
 The `Event` record of the inventory and the Go integer arithmetic it is
 subject to. Go's `int` is 64 bits wide on the platforms the service targets,
 so the counts are `Int64` and a subtraction wraps around modulo 2^64.
 */
module Events {

  const MinInt64: int := -0x8000_0000_0000_0000
  const MaxInt64: int := 0x7fff_ffff_ffff_ffff
  const TwoTo64: int := 0x1_0000_0000_0000_0000

  type Int64 = x: int | MinInt64 <= x <= MaxInt64

  /** Go's `a - b` on `int`: the mathematical difference, wrapped into 64 bits. */
  function Sub64(a: Int64, b: Int64): (r: Int64)
    ensures MinInt64 <= a - b <= MaxInt64 ==> r == a - b
    ensures r == a - b || r == a - b - TwoTo64 || r == a - b + TwoTo64
  {
    var d := a - b;
    if d > MaxInt64 then d - TwoTo64
    else if d < MinInt64 then d + TwoTo64
    else d
  }

  /**
   Go's `time.Time`, as an opaque value: the model only stores it and compares
   it for equality. The field is a tag that tells values apart and has no
   meaning as a clock reading or a location.
   */
  datatype Timestamp = Timestamp(tag: int)

  datatype Event = Event(
    id: string,
    name: string,
    date: Timestamp,
    totalTickets: Int64,
    availableTickets: Int64
  )

  /** The capacity invariant the service is meant to keep for every event. */
  predicate InStock(e: Event)
  {
    0 <= e.availableTickets <= e.totalTickets
  }
}

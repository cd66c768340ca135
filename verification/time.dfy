/** Rust's `Option`: `None` is absence, `Some(value)` a present value. */
module Optional {
  datatype Option<+T> = None | Some(value: T)
}

/**
  The cache's notion of time. Every `std::time::Duration` in the cache is
  modelled by its whole-second part, so both durations (TTLs, the clean
  interval) and instants (seconds since the Unix epoch) are `Secs`.
 */
module Time {
  import opened Optional

  /** `u64::MAX`, the largest second count a `Duration` can hold. */
  const MAX_SECS: nat := 0xFFFF_FFFF_FFFF_FFFF

  type Secs = s: nat | s <= MAX_SECS

  /** TTL sentinel: "use the cache's default expiration". */
  const DEFAULT_EXPIRATION: Secs := 0

  /** TTL sentinel and stored expiration meaning "never expires". */
  const NO_EXPIRATION: Secs := MAX_SECS

  /** `Duration::checked_add`: `None` when the sum leaves the range of `Duration`. */
  function CheckedAdd(a: Secs, b: Secs): (r: Option<Secs>)
    ensures r.Some? <==> a + b <= MAX_SECS
    ensures r.Some? ==> r.value == a + b
  {
    if a + b <= MAX_SECS then Some(a + b) else None
  }
}

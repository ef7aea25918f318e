/** Instants of `DateTime<Utc>` as whole seconds since the Unix epoch,
    bounded by the range chrono 0.4 can represent (1 January 262145 BCE
    to 31 December 262143 CE, proleptic Gregorian). */
module Chrono {
  import opened Outcomes

  /** -262144-01-01T00:00:00Z, the first representable second (year -262144). */
  const MinInstant: int := -8334632937600
  /** +262143-12-31T23:59:59Z, the last representable second. */
  const MaxInstant: int := 8210298412799

  type Instant = t: int | MinInstant <= t <= MaxInstant witness 0

  /** `DateTime::checked_add_signed` with a non-negative whole-second
      duration: `None` exactly when the sum leaves the representable range. */
  function CheckedAddSeconds(t: Instant, secs: nat): (r: Option<Instant>)
    ensures r.Some? <==> t + secs <= MaxInstant
    ensures r.Some? ==> r.value == t + secs && r.value >= t
  {
    if t + secs <= MaxInstant then Some(t + secs) else None
  }
}

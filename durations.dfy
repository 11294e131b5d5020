/** Time is an integer count of nanoseconds, the unit of Go's `time.Duration`;
    instants are nanoseconds on the UTC clock. */
module Durations {
  const Nanosecond: int := 1
  const Second: int := 1_000_000_000 * Nanosecond
  const Minute: int := 60 * Second
  const Hour: int := 60 * Minute
}

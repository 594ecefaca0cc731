/** The parts of Go's `time` package the exporter relies on, with time as integer nanoseconds. */
module Clock {

  /** Nanoseconds in one second (`time.Second`). */
  const NanosPerSecond: int := 1_000_000_000

  /** Bounds of Go's `time.Duration`, a signed 64-bit count of nanoseconds. */
  const MaxDuration: int := 0x7FFF_FFFF_FFFF_FFFF
  const MinDuration: int := -0x8000_0000_0000_0000

  /** Seconds from Go's zero `time.Time` (January 1, year 1, UTC) to the Unix epoch. */
  const UnixToInternal: int := 62_135_596_800

  /** An instant, as nanoseconds since Go's zero `time.Time`. */
  type Time = int

  /** The zero `time.Time`, the value of a `time.Time` variable never assigned. */
  const ZeroTime: Time := 0

  type Duration = d: int | -0x8000_0000_0000_0000 <= d <= 0x7FFF_FFFF_FFFF_FFFF

  /** `t.Sub(u)`: the elapsed time from `u` to `t`, saturated to the range of a Duration. */
  function Sub(t: Time, u: Time): (d: Duration)
    ensures MinDuration <= t - u <= MaxDuration ==> d == t - u
    ensures t - u > MaxDuration ==> d == MaxDuration
    ensures t - u < MinDuration ==> d == MinDuration
    ensures u <= t ==> 0 <= d <= t - u
  {
    if t - u > MaxDuration then MaxDuration
    else if t - u < MinDuration then MinDuration
    else t - u
  }

  /** `d.Truncate(time.Second).Seconds()`: whole seconds in `d`, rounded toward zero. */
  function TruncSeconds(d: Duration): (s: int)
    ensures 0 <= d ==> 0 <= s && s * NanosPerSecond <= d < (s + 1) * NanosPerSecond
    ensures d < 0 ==> s <= 0 && (s - 1) * NanosPerSecond < d <= s * NanosPerSecond
  {
    if d >= 0 then d / NanosPerSecond else -((-(d as int)) / NanosPerSecond)
  }

  /** `time.Since(last).Truncate(time.Second).Seconds()` evaluated at instant `now`. */
  function SecondsSince(last: Time, now: Time): int
  {
    TruncSeconds(Sub(now, last))
  }

  /** `Sub` never decreases as its first argument grows. */
  lemma SubMonotone(last: Time, t1: Time, t2: Time)
    requires t1 <= t2
    ensures Sub(t1, last) <= Sub(t2, last)
  {
  }

  /** Truncation to whole seconds never decreases as the duration grows. */
  lemma TruncSecondsMonotone(d1: Duration, d2: Duration)
    requires d1 <= d2
    ensures TruncSeconds(d1) <= TruncSeconds(d2)
  {
  }

  /** The published time-since gauge never decreases under a non-decreasing clock. */
  lemma SecondsSinceMonotone(last: Time, t1: Time, t2: Time)
    requires t1 <= t2
    ensures SecondsSince(last, t1) <= SecondsSince(last, t2)
  {
    SubMonotone(last, t1, t2);
    TruncSecondsMonotone(Sub(t1, last), Sub(t2, last));
  }

  /** Once the clock has reached `last`, the published time since it is not negative. */
  lemma SecondsSinceNonNegative(last: Time, now: Time)
    requires last <= now
    ensures SecondsSince(last, now) >= 0
  {
  }

  /** No whole second has passed between an instant and itself. */
  lemma SecondsSinceSelf(t: Time)
    ensures SecondsSince(t, t) == 0
  {
  }

  /** `prometheus.Gauge.SetToCurrentTime`: the Unix time of `t` in (fractional) seconds. */
  function UnixSeconds(t: Time): real
  {
    (t - UnixToInternal * NanosPerSecond) as real / NanosPerSecond as real
  }
}

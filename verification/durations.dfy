/**
 Go's `time.Duration` arithmetic as the timetable's delay computation uses it:
 `t.Sub(u)` is a signed 64-bit count of nanoseconds that saturates instead of
 overflowing, and `int(d.Minutes())` truncates toward zero.
 */
module Durations {
  import opened IntDiv

  const MinDuration: int := -0x8000_0000_0000_0000
  const MaxDuration: int := 0x7fff_ffff_ffff_ffff

  /** Nanoseconds in a minute. */
  const Minute: int := 60_000_000_000

  /** Go's `t.Sub(u)`: the exact difference when it fits in an int64, else the nearest bound. */
  function Sub(t: int, u: int): (d: int)
    ensures MinDuration <= d <= MaxDuration
    ensures d == t - u || (d == MaxDuration && t - u > MaxDuration) || (d == MinDuration && t - u < MinDuration)
  {
    if t - u > MaxDuration then MaxDuration
    else if t - u < MinDuration then MinDuration
    else t - u
  }

  /** `int(d.Minutes())`: whole minutes in `d`, rounded toward zero. */
  function WholeMinutes(d: int): int {
    Quot(d, 60_000_000_000)
  }

  /**
   The delay the timetable reports for a duration `d` until the next task:
   whole minutes rounded toward zero, plus one whenever that is positive.
   The three cases pin the result down: a positive report `r` covers
   `[(r - 1) min, r min)`, zero covers the open minute on either side of now,
   and a negative report `r` covers `((r - 1) min, r min]`.
   */
  function ReportedDelay(d: int): (r: int)
    ensures r > 0 ==> r >= 2 && (r - 1) * Minute <= d < r * Minute
    ensures r == 0 <==> -Minute < d < Minute
    ensures r < 0 ==> (r - 1) * Minute < d <= r * Minute
  {
    var m := WholeMinutes(d);
    if m > 0 then m + 1 else m
  }

  /** A later task never reports a shorter delay. */
  lemma ReportedDelayMonotonic(d: int, d': int)
    requires d <= d'
    ensures ReportedDelay(d) <= ReportedDelay(d')
  {
    QuotMonotonic(d, d', 60_000_000_000);
  }

  /** Saturating subtraction grows with its first argument and shrinks as its second grows. */
  lemma SubMonotonic(t: int, t': int, u: int, u': int)
    requires t <= t' && u' <= u
    ensures Sub(t, u) <= Sub(t', u')
  {
  }
}

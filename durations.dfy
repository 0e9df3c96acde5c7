/** Durations as Go's time package represents them: signed 64-bit counts of
    nanoseconds. Instants are integer nanoseconds as well. */
module Durations {
  import opened Results

  const MinDuration: int := -0x8000_0000_0000_0000
  const MaxDuration: int := 0x7FFF_FFFF_FFFF_FFFF

  type Duration = d: int | MinDuration <= d <= MaxDuration

  const Second: Duration := 1_000_000_000
  const Minute: Duration := 60 * Second
  const Hour: Duration := 60 * Minute

  /** The standard parser of unit-suffixed duration text ("5m", "1h30m").
      Its grammar is not part of this model: it is any total function that
      either yields a duration or fails with a message. */
  type DurationParser = string -> Result<Duration, string>

  /** parseDuration: unconfigured (empty) text means a zero duration;
      anything else is left to the standard parser, whose failure is
      passed on unchanged. */
  function ParseDuration(s: string, parse: DurationParser): (r: Result<Duration, string>)
    ensures s == "" ==> r == Ok(0)
    ensures s != "" ==> r == parse(s)
  {
    if s == "" then Ok(0) else parse(s)
  }

  /** The clock's Since(t) read at instant now, that is now.Sub(t): the
      difference, saturated to the range of a Duration. */
  function Since(now: int, t: int): (d: Duration)
    ensures MinDuration <= now - t <= MaxDuration ==> d == now - t
    ensures (d > 0 <==> now > t) && (d < 0 <==> now < t)
  {
    if now - t > MaxDuration then MaxDuration
    else if now - t < MinDuration then MinDuration
    else now - t
  }

  /** The age comparison of the watcher on exact differences: a record is
      older than the lookback exactly when its true age exceeds it, except
      that nothing is older than the largest duration, because the age
      saturates there. */
  lemma SinceExceeds(now: int, t: int, lookback: Duration)
    ensures Since(now, t) > lookback <==> (now - t > lookback && lookback < MaxDuration)
  {
  }
}

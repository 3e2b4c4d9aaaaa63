/**
 * The rotation policy of the appender: from a rotation kind and the current
 * instant, the next instant at which the log file must be switched.
 *
 * Instants are whole seconds since the Unix epoch in UTC. In that setting
 * `time.Add(time.Minute)` adds 60, `time.Add(time.Hour)` adds 3600,
 * `AddDate(0, 0, 1)` adds 86400, and rebuilding a time with `time.Date` and
 * zeroed minute/second fields rounds down (towards minus infinity) to a whole
 * minute or hour, which is what Dafny's `/` and `%` with a positive divisor do.
 */
module Rotation {
  import opened Wrappers

  /** The four rotation policies; the source numbers them 0 to 3 in this order. */
  datatype RotationKind = Never | Minutely | Hourly | Daily

  const Minute: int := 60
  const Hour: int := 3600
  const Day: int := 86400

  /** How far NextDate moves the current instant before rounding. */
  function Step(kind: RotationKind): (d: int)
    requires kind != Never
    ensures d > 0
  {
    match kind
    case Minutely => Minute
    case Hourly => Hour
    case Daily => Day
  }

  /** The unit roundDate truncates to: a minute for Minutely, an hour otherwise. */
  function Unit(kind: RotationKind): (u: int)
    requires kind != Never
    ensures u > 0 && Step(kind) % u == 0
  {
    match kind
    case Minutely => Minute
    case Hourly => Hour
    case Daily => Hour
  }

  /**
   * roundDate: drop the seconds (Minutely) or the minutes and seconds
   * (Hourly, Daily). The source panics for any other kind, so the kind is a
   * precondition here; NextDate never calls it with Never.
   */
  function RoundDate(kind: RotationKind, date: int): (r: int)
    requires kind != Never
    ensures r % Unit(kind) == 0
    ensures r <= date < r + Unit(kind)
  {
    match kind
    case Minutely => date - date % Minute
    case Hourly => date - date % Hour
    case Daily => date - date % Hour
  }

  /**
   * NextDate: no boundary for Never; otherwise the current instant moved by
   * one step and then rounded. The result is aligned to the kind's unit and
   * lies strictly after `current` and at most one step after it.
   */
  function NextDate(kind: RotationKind, current: int): (r: Option<int>)
    ensures r.None? <==> kind == Never
    ensures r.Some? ==> r.value % Unit(kind) == 0
    ensures r.Some? ==> current < r.value <= current + Step(kind)
  {
    match kind
    case Never => None
    case _ => Some(RoundDate(kind, current + Step(kind)))
  }

  /** The hour of the day (0 to 23) of an instant, in UTC. */
  function HourOfDay(t: int): (h: int)
    ensures 0 <= h < 24
  {
    (t % Day) / Hour
  }

  /** roundDate is idempotent: an instant that is already rounded stays put. */
  lemma RoundDateIdempotent(kind: RotationKind, date: int)
    requires kind != Never
    ensures RoundDate(kind, RoundDate(kind, date)) == RoundDate(kind, date)
  {
  }

  /** Minutely: the boundary is a whole minute in (t, t + 60]. */
  lemma MinutelyBoundary(t: int)
    ensures NextDate(Minutely, t).Some?
    ensures var b := NextDate(Minutely, t).value;
            b % 60 == 0 && t < b <= t + 60
  {
  }

  /** Hourly: the boundary is a whole hour in (t, t + 3600]. */
  lemma HourlyBoundary(t: int)
    ensures NextDate(Hourly, t).Some?
    ensures var b := NextDate(Hourly, t).value;
            b % 3600 == 0 && t < b <= t + 3600
  {
  }

  /**
   * Daily: the boundary is the start of the hour reached one day later, so it
   * lies in (t + 82800, t + 86400] and keeps the hour of day of `t`; it is not
   * moved back to midnight.
   */
  lemma {:induction false} DailyBoundary(t: int)
    ensures NextDate(Daily, t).Some?
    ensures var b := NextDate(Daily, t).value;
            && b % 3600 == 0
            && t + 82800 < b <= t + 86400
            && b == t + Day - t % Hour
            && HourOfDay(b) == HourOfDay(t)
  {
    var b := NextDate(Daily, t).value;
    var q, s := t / Hour, t % Hour;
    assert t == q * Hour + s && 0 <= s < Hour;
    assert t + Day == (q + 24) * Hour + s;
    assert (t + Day) % Hour == s;
    assert b == (q + 24) * Hour;
    var d, h := q / 24, q % 24;
    assert q == d * 24 + h && 0 <= h < 24;
    assert t == d * Day + (h * Hour + s);
    assert t % Day == h * Hour + s;
    assert HourOfDay(t) == h;
    assert b == (d + 1) * Day + h * Hour;
    assert b % Day == h * Hour;
  }

  /** Daily rotation does not align to midnight: starting at 01:00 gives a boundary at 01:00 the next day. */
  lemma DailyIsNotMidnight()
    ensures NextDate(Daily, 3600) == Some(90000)
    ensures 90000 % Day != 0
  {
  }
}

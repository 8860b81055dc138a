/** Time as the availability handler sees it. A `Date` is a count of milliseconds of local
    wall-clock time; here it is split into the calendar day (day 0 is 1970-01-01, a Thursday)
    and the milliseconds since that day's midnight. */
module Calendar {

  const MS_PER_HOUR: int := 3_600_000
  const MS_PER_DAY: int := 86_400_000
  const HOURS_PER_DAY: int := 24

  /** Weekday of day 0 (1970-01-01), with Sunday = 0 as in `Date.getDay`. */
  const EPOCH_WEEKDAY: int := 4

  type MsOfDay = t: int | 0 <= t < 86_400_000

  datatype DateTime = DateTime(day: int, time: MsOfDay)

  /** The `Date` value: milliseconds since the local epoch. */
  function Millis(d: DateTime): int
  {
    d.day * MS_PER_DAY + d.time
  }

  /** Every millisecond count is exactly one `DateTime`. */
  function FromMillis(t: int): (d: DateTime)
    ensures Millis(d) == t
  {
    DateTime(t / MS_PER_DAY, t % MS_PER_DAY)
  }

  lemma MillisInjective(a: DateTime, b: DateTime)
    ensures Millis(a) == Millis(b) <==> a == b
  {
  }

  /** `a <= b` on `Date` values. */
  predicate NotAfter(a: DateTime, b: DateTime)
  {
    a.day < b.day || (a.day == b.day && a.time <= b.time)
  }

  lemma NotAfterIsMillisOrder(a: DateTime, b: DateTime)
    ensures NotAfter(a, b) <==> Millis(a) <= Millis(b)
  {
  }

  /** `date.setDate(date.getDate() + 1)`: the same time of day on the next calendar day. */
  function NextDay(d: DateTime): (n: DateTime)
    ensures Millis(n) == Millis(d) + MS_PER_DAY
    ensures n.time == d.time
  {
    DateTime(d.day + 1, d.time)
  }

  /** `getDay()`: 0 = Sunday .. 6 = Saturday. */
  function Weekday(day: int): (w: int)
    ensures 0 <= w < 7
  {
    (day + EPOCH_WEEKDAY) % 7
  }

  lemma WeekdayOfNextDay(day: int)
    ensures Weekday(day + 1) == (Weekday(day) + 1) % 7
  {
  }

  /** The date-time at `hour`:00:00.000 of `day`, as `setHours(hour, 0, 0, 0)` gives it,
      in milliseconds. */
  function At(day: int, hour: int): int
  {
    day * MS_PER_DAY + hour * MS_PER_HOUR
  }

  /** A whole-hour date-time lies on its day and has zero minutes, seconds and milliseconds;
      whole-hour date-times are ordered by day first and hour second. */
  lemma AtOnHour(day: int, hour: int)
    requires 0 <= hour < HOURS_PER_DAY
    ensures FromMillis(At(day, hour)) == DateTime(day, hour * MS_PER_HOUR)
    ensures At(day, hour) % MS_PER_HOUR == 0
  {
    MillisInjective(FromMillis(At(day, hour)), DateTime(day, hour * MS_PER_HOUR));
    assert At(day, hour) == (day * 24 + hour) * MS_PER_HOUR;
  }

  lemma AtOrder(d1: int, h1: int, d2: int, h2: int)
    requires 0 <= h1 < HOURS_PER_DAY && 0 <= h2 < HOURS_PER_DAY
    ensures At(d1, h1) < At(d2, h2) <==> d1 < d2 || (d1 == d2 && h1 < h2)
    ensures At(d1, h1) == At(d2, h2) <==> d1 == d2 && h1 == h2
  {
  }
}

/** Python's naive `datetime` as a day number and a time of day: the day is
    the proleptic Gregorian ordinal (`date.toordinal()`, 1 for 1 January of
    year 1, a Monday) and the time is counted in microseconds since
    midnight. */
module Clock {
  const MicrosPerMinute: nat := 60_000_000
  const MicrosPerHour: nat := 60 * MicrosPerMinute
  const MicrosPerDay: nat := 24 * MicrosPerHour

  type TimeOfDay = t: nat | t < MicrosPerDay

  datatype DateTime = DateTime(day: int, time: TimeOfDay)

  /** `datetime.weekday()`: 0 for Monday up to 6 for Sunday. */
  function Weekday(day: int): (w: nat)
    ensures w < 7
  {
    (day + 6) % 7
  }

  /** Each day's weekday follows the previous day's. */
  lemma WeekdayNext(day: int)
    ensures Weekday(day + 1) == (Weekday(day) + 1) % 7
  {
  }

  /** `datetime.hour`. */
  function Hour(t: TimeOfDay): (h: nat)
    ensures h < 24
    ensures h * MicrosPerHour <= t < (h + 1) * MicrosPerHour
  {
    t / MicrosPerHour
  }

  /** `datetime.time(hour, 0)`. */
  function OClock(hour: nat): TimeOfDay
    requires hour < 24
  {
    hour * MicrosPerHour
  }

  /** The instant on one time line, in microseconds, for comparisons. */
  function Stamp(dt: DateTime): int {
    dt.day * MicrosPerDay + dt.time
  }

  /** `dt + timedelta(days=n)`: the same time of day, `n` days on. */
  function AddDays(dt: DateTime, n: int): (r: DateTime)
    ensures Stamp(r) == Stamp(dt) + n * MicrosPerDay
  {
    DateTime(dt.day + n, dt.time)
  }

  /** A later day at any time is a later instant. */
  lemma LaterDayLater(a: DateTime, b: DateTime)
    requires a.day < b.day
    ensures Stamp(a) < Stamp(b)
  {
    assert Stamp(a) < (a.day + 1) * MicrosPerDay;
    assert (a.day + 1) * MicrosPerDay <= b.day * MicrosPerDay;
  }
}

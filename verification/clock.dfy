/** Time as the dashboard sees it: a .NET `DateTime` is a count of seconds since
    0001-01-01 00:00 (`DateTime.MinValue` is 0), its `.Date` is the day that count falls in,
    and the current time is always passed in by the caller. */
module Clock {

  const SecondsPerDay: nat := 86400

  /** The day number of an instant (`DateTime.Date`, as a count of days). */
  function DayOf(t: nat): (d: nat)
    ensures d * SecondsPerDay <= t < (d + 1) * SecondsPerDay
  {
    t / SecondsPerDay
  }

  /** Midnight of a day (`DateTime.Today` when `d` is today's number). */
  function StartOfDay(d: nat): (t: nat)
    ensures DayOf(t) == d
  {
    d * SecondsPerDay
  }
}

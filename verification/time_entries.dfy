/** A tracked block of work (`TimeEntry`) and its duration text. */
module TimeEntries {
  import opened Wrappers
  import opened Durations

  /** A `DateTimeOffset`: the instant, as whole seconds on the UTC time line, and the
      offset from UTC (in minutes) it was written with. Comparisons use the instant only. */
  datatype Stamp = Stamp(utc: int, offsetMinutes: int)

  /** `DateTimeOffset.AddSeconds`: moves the instant, keeps the offset. */
  function AddSeconds(t: Stamp, n: int): (r: Stamp)
    ensures r.utc - t.utc == n && r.offsetMinutes == t.offsetMinutes
  {
    t.(utc := t.utc + n)
  }

  datatype TimeEntry = TimeEntry(
    id: int,
    userId: string,
    taskName: string,
    startTime: Stamp,
    endTime: Stamp,
    durationInSeconds: int,
    date: Stamp)

  function Abs(n: int): nat {
    if n < 0 then -n else n
  }

  const SecondsPerDay: nat := 86400

  /** `FormattedDuration`: `TimeSpan.FromSeconds(d)` printed with the custom format
      "hh:mm:ss". The custom format prints no sign and no days, so the text shows the
      magnitude of the duration modulo one day, always as eight characters. */
  function FormattedDuration(d: int): string {
    var rem := Abs(d) % SecondsPerDay;
    ClockText(rem / 3600, rem % 3600 / 60, rem % 60)
  }

  /** The duration text is eight characters and reads back as hours under 24, minutes and
      seconds under 60 that add up to the magnitude of the duration modulo one day. */
  lemma FormattedDurationReadsBack(d: int)
    ensures |FormattedDuration(d)| == 8
    ensures ReadClock(FormattedDuration(d)).Some?
    ensures var hms := ReadClock(FormattedDuration(d)).value;
      hms.0 < 24 && hms.1 < 60 && hms.2 < 60 && ClockSeconds(hms) == Abs(d) % SecondsPerDay
  {
    var rem := Abs(d) % SecondsPerDay;
    HoursMinutesSeconds(rem);
    ReadClockText(rem / 3600, rem % 3600 / 60, rem % 60);
  }

  /** Durations shorter than a day are shown exactly: the text reads back as `d`. */
  lemma FormattedDurationRoundTrip(d: int)
    requires 0 <= d < SecondsPerDay
    ensures ReadClock(FormattedDuration(d)).Some?
    ensures ClockSeconds(ReadClock(FormattedDuration(d)).value) == d
  {
    FormattedDurationReadsBack(d);
    assert Abs(d) % SecondsPerDay == d;
  }

  /** A day or more wraps around: whole days are dropped from the text. */
  lemma FormattedDurationDropsDays(d: nat, days: nat)
    ensures FormattedDuration(d + days * SecondsPerDay) == FormattedDuration(d)
  {
    var a := d + days * SecondsPerDay;
    assert a % SecondsPerDay == d % SecondsPerDay;
  }

  /** A negative duration is shown like its magnitude, with no minus sign. */
  lemma FormattedDurationIgnoresSign(d: int)
    ensures FormattedDuration(-d) == FormattedDuration(d)
  {
  }
}

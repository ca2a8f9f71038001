/** The browser stopwatch of `timeTracker.js`: the state it keeps in local storage, how it
    is restored on page load, starting and stopping, the entry a stop posts to the server,
    and the clock text it displays. Times are JavaScript milliseconds; "now" and the local
    day are passed in. */
module Stopwatch {
  import opened Wrappers
  import opened Text
  import opened Digits
  import opened Durations
  import TimeEntries

  /** The `tt_state` object as `JSON.parse` returns it; an absent or `null` property is
      `None`. */
  datatype SavedState = SavedState(status: Option<string>, startTime: Option<int>, taskName: Option<string>)

  /** The three local-storage items: `tt_state`, `tt_date` (the local day it was last
      loaded on) and `tt_daily_total` (already read as a number). */
  datatype LocalStore = LocalStore(state: SavedState, date: Option<int>, dailyTotal: Option<int>)

  /** The tracker's fields; `startTime` is `null` when not running. */
  datatype Tracker = Tracker(status: string, startTime: Option<int>, elapsedTime: int, taskName: string, dailyTotal: int)

  const Stopped := "stopped"
  const Running := "running"
  const Paused := "paused"

  /** `x || fallback` on an optional string: `undefined`, `null` and "" are falsy. */
  function OrElse(x: Option<string>, fallback: string): (r: string)
    ensures x.Some? && x.value != "" ==> r == x.value
    ensures x.None? || x.value == "" ==> r == fallback
  {
    if x.Some? && x.value != "" then x.value else fallback
  }

  /** Whole seconds between two instants, rounded down (`Math.floor(ms / 1000)`). */
  function SecondsBetween(start: int, end: int): (r: int)
    ensures r * 1000 <= end - start < r * 1000 + 1000
  {
    (end - start) / 1000
  }

  /** The saved statuses that load as "stopped": none at all, the empty string, "stopped"
      and the retired "paused". */
  predicate LoadsAsStopped(status: Option<string>) {
    status.None? || status.value == "" || status.value == Stopped || status.value == Paused
  }

  /** `loadState`: restores the stopwatch and returns the storage as it is afterwards. On a
      new local day the daily total restarts at zero (and zero is written back). A missing
      or "paused" status becomes "stopped"; any other saved status is kept. A running
      stopwatch resumes its elapsed time from the saved start. */
  function LoadState(store: LocalStore, today: int, now: int): (r: (Tracker, LocalStore))
    ensures store.date != Some(today) ==> r.0.dailyTotal == 0 && r.1 == store.(date := Some(today), dailyTotal := Some(0))
    ensures store.date == Some(today) ==> r.1 == store && r.0.dailyTotal == store.dailyTotal.GetOr(0)
    ensures r.0.status == Stopped <==> LoadsAsStopped(store.state.status)
    ensures r.0.status != Stopped ==> r.0.status == store.state.status.value
    ensures r.0.startTime == store.state.startTime
    ensures r.0.taskName == OrElse(store.state.taskName, "")
    ensures r.0.status == Running && r.0.startTime.Some? ==> r.0.elapsedTime == SecondsBetween(r.0.startTime.value, now)
    ensures !(r.0.status == Running && r.0.startTime.Some?) ==> r.0.elapsedTime == 0
  {
    var newDay := store.date != Some(today);
    var total := if newDay then 0 else store.dailyTotal.GetOr(0);
    var after := if newDay then store.(date := Some(today), dailyTotal := Some(0)) else store;
    var status0 := OrElse(store.state.status, Stopped);
    var status := if status0 == Paused then Stopped else status0;
    var start := store.state.startTime;
    var elapsed := if status == Running && start.Some? then SecondsBetween(start.value, now) else 0;
    (Tracker(status, start, elapsed, OrElse(store.state.taskName, ""), total), after)
  }

  /** From any status the page itself writes (or none at all), loading leaves the stopwatch
      either running or stopped. */
  lemma LoadedStatusIsRunningOrStopped(store: LocalStore, today: int, now: int)
    requires LoadsAsStopped(store.state.status) || store.state.status == Some(Running)
    ensures LoadState(store, today, now).0.status in {Running, Stopped}
  {
  }

  /** A status string from elsewhere survives loading unchanged. */
  lemma UnknownStatusIsKept(store: LocalStore, today: int, now: int)
    requires store.state.status == Some("idle")
    ensures LoadState(store, today, now).0.status == "idle"
  {
  }

  /** `saveState`: the status, start time and task name, and the daily total. */
  function SaveState(t: Tracker, store: LocalStore): (r: LocalStore)
    ensures r.date == store.date && r.dailyTotal == Some(t.dailyTotal)
    ensures r.state.status == Some(t.status) && r.state.startTime == t.startTime
    ensures r.state.taskName == Some(t.taskName)
  {
    LocalStore(SavedState(Some(t.status), t.startTime, Some(t.taskName)), store.date, Some(t.dailyTotal))
  }

  /** Reloading the page on the same day restores what was saved: the status (running or
      stopped), start, task name and daily total, with the elapsed time brought up to date. */
  lemma SaveThenLoad(t: Tracker, store: LocalStore, today: int, now: int)
    requires t.status in {Running, Stopped} && store.date == Some(today)
    ensures var r := LoadState(SaveState(t, store), today, now).0;
      r.status == t.status && r.startTime == t.startTime && r.taskName == t.taskName
      && r.dailyTotal == t.dailyTotal
      && (t.status == Running && t.startTime.Some? ==> r.elapsedTime == SecondsBetween(t.startTime.value, now))
  {
  }

  /** `start`: the task name is taken from the input box ("" without one), the start is now. */
  function Start(t: Tracker, store: LocalStore, taskInput: Option<string>, now: int): (r: (Tracker, LocalStore))
    ensures r.0 == t.(taskName := r.0.taskName, startTime := Some(now), status := Running)
    ensures taskInput.Some? ==> r.0.taskName == taskInput.value
    ensures taskInput.None? ==> r.0.taskName == ""
    ensures r.1 == SaveState(r.0, store)
  {
    var t' := t.(taskName := if taskInput.Some? then taskInput.value else "", startTime := Some(now), status := Running);
    (t', SaveState(t', store))
  }

  /** The JSON body `stop` posts to `/TimeTracker/SaveEntry`; instants in milliseconds, as
      the whole-second local times `toLocalISOString` writes (its offset suffix is
      `OffsetSuffix`). */
  datatype EntryPost = EntryPost(taskName: string, startTime: int, endTime: int, date: int, durationInSeconds: int)

  const UnnamedTask := "Unnamed Task"

  /** The instant `toLocalISOString` writes for `ms`: it prints the local clock down to the
      second and no further, and the local offset is whole minutes, so the milliseconds of
      the instant are dropped (rounding down, also before the epoch). */
  function WholeSecond(ms: int): (r: int)
    ensures r % 1000 == 0 && r <= ms < r + 1000
  {
    ms / 1000 * 1000
  }

  /** `stop`: nothing happens when already stopped. Otherwise the seconds since the start are
      added to the daily total (a missing start counts as the epoch, since `Date - null`
      subtracts zero), the stopwatch is reset, and an entry is posted; without a start time
      the body cannot be built, the error is caught, and nothing is posted. The posted
      times are whole seconds, while the duration is measured on the exact instants. */
  function Stop(t: Tracker, store: LocalStore, now: int): (r: (Tracker, LocalStore, Option<EntryPost>))
    ensures t.status == Stopped ==> r == (t, store, None)
    ensures t.status != Stopped ==>
      var secs := SecondsBetween(t.startTime.GetOr(0), now);
      r.0 == t.(status := Stopped, elapsedTime := 0, startTime := None, dailyTotal := t.dailyTotal + secs)
      && r.1 == SaveState(r.0, store)
    ensures r.2.Some? <==> t.status != Stopped && t.startTime.Some?
    ensures r.2.Some? ==>
      r.2.value == EntryPost(OrElse(Some(t.taskName), UnnamedTask), WholeSecond(t.startTime.value), WholeSecond(now),
                             WholeSecond(t.startTime.value), SecondsBetween(t.startTime.value, now))
  {
    if t.status == Stopped then (t, store, None)
    else
      var start := t.startTime;
      var secs := SecondsBetween(start.GetOr(0), now);
      var t' := t.(status := Stopped, elapsedTime := 0, startTime := None, dailyTotal := t.dailyTotal + secs);
      var post := if start.Some?
        then Some(EntryPost(OrElse(Some(t.taskName), UnnamedTask), WholeSecond(start.value), WholeSecond(now),
                            WholeSecond(start.value), secs))
        else None;
      (t', SaveState(t', store), post)
  }

  /** The once-a-second updater: a running stopwatch's elapsed time follows the clock. */
  function Tick(t: Tracker, now: int): (r: Tracker)
    ensures t.status != Running ==> r == t
    ensures t.status == Running ==> r == t.(elapsedTime := SecondsBetween(t.startTime.GetOr(0), now))
  {
    if t.status == Running then t.(elapsedTime := SecondsBetween(t.startTime.GetOr(0), now)) else t
  }

  /** The daily total the page shows: the banked total plus the running session. */
  function ShownTotal(t: Tracker): (r: int)
    ensures t.status == Running ==> r == t.dailyTotal + t.elapsedTime
    ensures t.status != Running ==> r == t.dailyTotal
  {
    t.dailyTotal + (if t.status == Running then t.elapsedTime else 0)
  }

  /** Stopping banks exactly the session the page was showing: the displayed daily total
      does not jump, and the posted duration is that session. */
  lemma StopBanksTheRunningSession(t: Tracker, store: LocalStore, now: int)
    requires t.status == Running && t.startTime.Some?
    ensures var r := Stop(t, store, now);
      ShownTotal(r.0) == ShownTotal(Tick(t, now))
      && r.2.Some? && r.2.value.durationInSeconds == Tick(t, now).elapsedTime
      && r.2.value.endTime - r.2.value.startTime >= 1000 * r.2.value.durationInSeconds
  {
    PostedSpan(t.startTime.value, now);
  }

  /** The span between the posted start and end times is the posted duration, or one second
      more: both ends lose their milliseconds, and the duration is rounded down from the
      exact span. */
  lemma PostedSpan(start: int, end: int)
    ensures var span := WholeSecond(end) - WholeSecond(start);
      var d := SecondsBetween(start, end);
      span == 1000 * d || span == 1000 * d + 1000
  {
    var q := end / 1000 - start / 1000;
    var d := SecondsBetween(start, end);
    assert WholeSecond(end) - WholeSecond(start) == 1000 * q;
    assert 1000 * d - 1000 < 1000 * q < 1000 * d + 2000;
    assert d - 1 < q < d + 2;
  }

  /** A session from 0.9 s to 125.1 s after the minute lasts 124 whole seconds, but its
      posted times are 125 seconds apart. */
  lemma PostedSpanCanExceedDuration(t: Tracker, store: LocalStore)
    requires t.status == Running && t.startTime == Some(900)
    ensures var r := Stop(t, store, 125100);
      r.2.Some? && r.2.value.durationInSeconds == 124
      && r.2.value.startTime == 0 && r.2.value.endTime == 125000
  {
  }

  /** A start followed by a stop posts one entry, named after the task or "Unnamed Task",
      timed at the two clicks' whole seconds and lasting the whole seconds between them. */
  lemma StartThenStop(t: Tracker, store: LocalStore, taskInput: Option<string>, started: int, stopped: int)
    ensures var s := Start(t, store, taskInput, started);
      var r := Stop(s.0, s.1, stopped);
      r.2.Some? && r.2.value.startTime == WholeSecond(started) && r.2.value.endTime == WholeSecond(stopped)
      && r.2.value.durationInSeconds == SecondsBetween(started, stopped)
      && (taskInput.None? || taskInput.value == "" ==> r.2.value.taskName == UnnamedTask)
      && (taskInput.Some? && taskInput.value != "" ==> r.2.value.taskName == taskInput.value)
      && r.0.dailyTotal == t.dailyTotal + SecondsBetween(started, stopped)
      && r.0.status == Stopped && r.0.startTime.None?
  {
  }

  /** `formatTime`: NaN (`None`) and negative values show as zero; the hours are not capped
      at a day, and each field is padded to two digits only when below ten. */
  function FormatTime(seconds: Option<int>): string {
    var s: nat := if seconds.Some? && seconds.value >= 0 then seconds.value else 0;
    ClockText(s / 3600, s % 3600 / 60, s % 60)
  }

  /** The text `formatTime` prints reads back as hours, minutes under 60 and seconds under
      60 that add up to the (clamped) number of seconds. */
  lemma FormatTimeReadsBack(seconds: Option<int>)
    ensures ReadClock(FormatTime(seconds)).Some?
    ensures var hms := ReadClock(FormatTime(seconds)).value;
      hms.1 < 60 && hms.2 < 60
      && ClockSeconds(hms) == (if seconds.Some? && seconds.value >= 0 then seconds.value else 0)
  {
    var s: nat := if seconds.Some? && seconds.value >= 0 then seconds.value else 0;
    HoursMinutesSeconds(s);
    ReadClockText(s / 3600, s % 3600 / 60, s % 60);
  }

  /** Negative and NaN inputs both print as "00:00:00". */
  lemma FormatTimeClampsToZero(seconds: Option<int>)
    requires seconds.None? || seconds.value < 0
    ensures FormatTime(seconds) == "00:00:00"
  {
    assert FormatTime(seconds) == ClockText(0, 0, 0);
    ZeroText();
  }

  /** A hundred hours print as "100:00:00": the hour field grows past two digits. */
  lemma FormatTimeHundredHours()
    ensures FormatTime(Some(360000)) == "100:00:00"
  {
    assert FormatTime(Some(360000)) == ClockText(100, 0, 0);
    HundredHoursText();
  }

  lemma HundredHoursText()
    ensures ClockText(100, 0, 0) == "100:00:00"
  {
    HundredRendering();
    ZeroRendering();
    assert ClockText(100, 0, 0) == "100" + ":" + "00" + ":" + "00";
  }

  lemma ZeroText()
    ensures ClockText(0, 0, 0) == "00:00:00"
  {
    ZeroRendering();
    assert ClockText(0, 0, 0) == "00" + ":" + "00" + ":" + "00";
  }

  lemma ZeroRendering()
    ensures Pad2(0) == "00"
  {
  }

  lemma HundredRendering()
    ensures Pad2(100) == "100"
  {
    assert NatToString(1) == "1";
    assert NatToString(10) == NatToString(1) + [DigitChar(0)];
    assert NatToString(100) == NatToString(10) + [DigitChar(0)];
  }

  /** Under a day, the browser's `formatTime` and the server's `FormattedDuration` print the
      same text, but a day or more prints differently: the browser keeps counting hours while
      the server wraps. */
  lemma ClientAndServerAgreeUnderADay(s: int)
    requires 0 <= s < TimeEntries.SecondsPerDay
    ensures FormatTime(Some(s)) == TimeEntries.FormattedDuration(s)
  {
    assert TimeEntries.Abs(s) % TimeEntries.SecondsPerDay == s;
  }

  lemma ClientAndServerDifferFromADay(s: int)
    requires s >= TimeEntries.SecondsPerDay
    ensures FormatTime(Some(s)) != TimeEntries.FormattedDuration(s)
  {
    var rem := TimeEntries.Abs(s) % TimeEntries.SecondsPerDay;
    assert s / 3600 >= 24 && rem / 3600 < 24;
    ClockTextInjective(s / 3600, s % 3600 / 60, s % 60, rem / 3600, rem % 3600 / 60, rem % 60);
  }

  lemma ClockTextInjective(h: nat, m: nat, s: nat, h': nat, m': nat, s': nat)
    requires (h, m, s) != (h', m', s')
    ensures ClockText(h, m, s) != ClockText(h', m', s')
  {
    ReadClockText(h, m, s);
    ReadClockText(h', m', s');
  }

  /** The `+hh:mm` / `-hh:mm` suffix of `toLocalISOString`, from `Date.getTimezoneOffset()`
      (minutes, positive west of UTC): the sign is '+' when the local time is at or ahead of
      UTC. */
  function OffsetSuffix(timezoneOffset: int): (r: string)
    ensures |r| > 0 && (r[0] == '+' <==> -timezoneOffset >= 0) && (r[0] == '+' || r[0] == '-')
  {
    var tzo := -timezoneOffset;
    var a: nat := if tzo < 0 then -tzo else tzo;
    [if tzo >= 0 then '+' else '-'] + OffsetClock(a)
  }

  /** `hh:mm` for a number of minutes, hours first. */
  function OffsetClock(a: nat): string {
    Pad2(a / 60) + ":" + Pad2(a % 60)
  }

  /** The offset minutes a suffix stands for, when it is a sign and two colon-separated
      digit fields. */
  function ReadOffset(r: string): (m: Option<int>)
    ensures m.Some? ==> |r| > 0 && (r[0] == '+' || r[0] == '-')
  {
    if |r| == 0 || (r[0] != '+' && r[0] != '-') then None
    else
      match ReadOffsetClock(r[1..])
      case Some(v) => Some(if r[0] == '+' then v as int else -(v as int))
      case None => None
  }

  /** The minutes an `hh:mm` text stands for. */
  function ReadOffsetClock(t: string): Option<nat> {
    var parts := Split(t, ':');
    if |parts| != 2 then None
    else
      match (ParseNat(parts[0]), ParseNat(parts[1]))
      case (Some(h), Some(mm)) => Some(h * 60 + mm)
      case _ => None
  }

  /** The suffix reads back as the local time's offset from UTC, `-getTimezoneOffset()`. */
  lemma OffsetSuffixRoundTrip(timezoneOffset: int)
    ensures ReadOffset(OffsetSuffix(timezoneOffset)) == Some(-timezoneOffset)
  {
    var tzo := -timezoneOffset;
    var a: nat := if tzo < 0 then -tzo else tzo;
    var sign := if tzo >= 0 then '+' else '-';
    assert OffsetSuffix(timezoneOffset) == [sign] + OffsetClock(a);
    ReadSignedOffset(sign, a);
  }

  lemma ReadSignedOffset(sign: char, a: nat)
    requires sign == '+' || sign == '-'
    ensures ReadOffset([sign] + OffsetClock(a)) == Some(if sign == '+' then a as int else -(a as int))
  {
    OffsetClockRoundTrip(a);
    ReadSignedClock(sign, OffsetClock(a), a);
  }

  /** A sign in front of a clock that reads as `v` minutes reads as `v` or `-v`. */
  lemma ReadSignedClock(sign: char, clock: string, v: nat)
    requires sign == '+' || sign == '-'
    requires ReadOffsetClock(clock) == Some(v)
    ensures ReadOffset([sign] + clock) == Some(if sign == '+' then v as int else -(v as int))
  {
    assert ([sign] + clock)[1..] == clock;
  }

  lemma OffsetClockRoundTrip(a: nat)
    ensures ReadOffsetClock(OffsetClock(a)) == Some(a)
  {
    var hh, mm := Pad2(a / 60), Pad2(a % 60);
    PadHasNoColon(a / 60);
    PadHasNoColon(a % 60);
    assert [hh, mm][1..] == [mm];
    assert OffsetClock(a) == Join([hh, mm], ":");
    SplitJoin([hh, mm], ':');
    assert a / 60 * 60 + a % 60 == a;
  }
}

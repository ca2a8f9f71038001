/** The "hh:mm:ss" clock text used for durations, both by `TimeEntry.FormattedDuration` on
    the server and by `formatTime` in the browser, and its reading back. */
module Durations {
  import opened Wrappers
  import opened Text
  import opened Digits

  /** Three padded fields joined by colons. */
  function ClockText(h: nat, m: nat, s: nat): (r: string)
    ensures ':' !in Pad2(h) && ':' !in Pad2(m) && ':' !in Pad2(s)
    ensures r == Join([Pad2(h), Pad2(m), Pad2(s)], ":")
  {
    PadHasNoColon(h);
    PadHasNoColon(m);
    PadHasNoColon(s);
    var parts := [Pad2(h), Pad2(m), Pad2(s)];
    assert parts[1..] == [Pad2(m), Pad2(s)] && parts[1..][1..] == [Pad2(s)];
    assert Join(parts[1..], ":") == Pad2(m) + ":" + Pad2(s);
    assert Join(parts, ":") == Pad2(h) + ":" + (Pad2(m) + ":" + Pad2(s));
    Pad2(h) + ":" + Pad2(m) + ":" + Pad2(s)
  }

  lemma PadHasNoColon(n: nat)
    ensures ':' !in Pad2(n)
  {
  }

  /** The hours, minutes and seconds a clock text shows, when it has exactly three
      colon-separated digit fields. */
  function ReadClock(t: string): (r: Option<(nat, nat, nat)>)
    ensures r.Some? ==> |Split(t, ':')| == 3
  {
    var parts := Split(t, ':');
    if |parts| != 3 then None
    else
      match (ParseNat(parts[0]), ParseNat(parts[1]), ParseNat(parts[2]))
      case (Some(h), Some(m), Some(s)) => Some((h, m, s))
      case _ => None
  }

  /** Reading a clock text gives back the three numbers it was made from. */
  lemma ReadClockText(h: nat, m: nat, s: nat)
    ensures ReadClock(ClockText(h, m, s)) == Some((h, m, s))
  {
    var parts := [Pad2(h), Pad2(m), Pad2(s)];
    var t := ClockText(h, m, s);
    SplitJoin(parts, ':');
    assert Split(t, ':') == parts;
  }

  /** The number of seconds a clock text stands for. */
  function ClockSeconds(hms: (nat, nat, nat)): nat {
    hms.0 * 3600 + hms.1 * 60 + hms.2
  }

  /** Whole hours, the minutes left over and the seconds left over make up the seconds
      they were taken from. */
  lemma HoursMinutesSeconds(s: nat)
    ensures s % 3600 / 60 < 60 && s % 60 < 60 && s % 3600 % 60 == s % 60
    ensures ClockSeconds((s / 3600, s % 3600 / 60, s % 60)) == s
  {
    var h, rest := s / 3600, s % 3600;
    var m, sec := rest / 60, rest % 60;
    assert rest == m * 60 + sec;
    Remainder60(s, h * 60 + m, sec);
  }

  lemma Remainder60(s: int, q: int, r: int)
    requires s == q * 60 + r && 0 <= r < 60
    ensures s % 60 == r
  {
  }
}

/** The goal-tracking model: a goal's status, progress percentage, progress-bar colour and
    the "target date is not in the past" validation. Nothing derived is stored; every value
    is computed from the stored fields and the current time. C# `decimal` is modelled as
    `real`; dates are instants in seconds (see `Clock`). */
module Goals {
  import opened Wrappers
  import opened Clock
  import opened Limits

  datatype Goal = Goal(
    id: int,
    userId: string,
    title: string,
    description: string,
    targetDate: nat,
    targetValue: real,
    currentValue: real,
    category: string,
    priority: string,
    createdDate: nat)

  datatype GoalStatus = Completed | Overdue | Active

  /** Truncation toward zero, the rounding of the C# `(int)` cast of a decimal. */
  function TruncToInt(x: real): (r: int)
    ensures 0.0 <= x ==> r as real <= x < r as real + 1.0
    ensures x < 0.0 ==> r as real - 1.0 < x <= r as real
  {
    if x >= 0.0 then x.Floor else -((-x).Floor)
  }

  /** The C# `(int)` cast of a decimal: the value truncated toward zero, or `None` for the
      `OverflowException` it throws when that is not an `int`. */
  function CastToInt(x: real): (r: Option<int>)
    ensures r.Some? <==> (Int32Min - 1) as real < x < (Int32Max + 1) as real
    ensures r.Some? ==> r.value == TruncToInt(x)
  {
    var t := TruncToInt(x);
    if Int32Min <= t <= Int32Max then Some(t) else None
  }

  /** `CurrentValue * 100` is still a decimal (the product does not overflow). */
  predicate ScalesToDecimal(g: Goal) {
    -DecimalMax <= g.currentValue * 100.0 <= DecimalMax
  }

  /** `ProgressPercentage`: the truncated percentage of the target reached, capped at 100,
      and 0 for a zero target. There is no lower clamp. `None` is the `OverflowException`
      of the decimal product or of the cast; the cap is applied after the cast, so a
      percentage beyond the `int` range throws rather than showing 100. */
  function ProgressPercentage(g: Goal): (p: Option<int>)
    ensures g.targetValue == 0.0 ==> p == Some(0)
    ensures g.targetValue != 0.0 && !ScalesToDecimal(g) ==> p.None?
    ensures p.Some? ==> p.value <= 100
  {
    if g.targetValue == 0.0 then Some(0)
    else if !ScalesToDecimal(g) then None
    else
      match CastToInt((g.currentValue * 100.0) / g.targetValue)
      case None => None
      case Some(pc) => Some(if pc < 100 then pc else 100)
  }

  /** For a positive target and non-negative progress: the percentage exists exactly when
      neither the product nor the quotient leaves its range; it then lies in [0, 100],
      below 100 it is the whole number of percent reached, and it is 100 exactly when the
      target is reached. */
  lemma ProgressMeaning(g: Goal)
    requires g.targetValue > 0.0 && g.currentValue >= 0.0
    ensures ProgressPercentage(g).Some? <==>
      g.currentValue * 100.0 <= DecimalMax && g.currentValue * 100.0 < 2147483648.0 * g.targetValue
    ensures ProgressPercentage(g).Some? ==>
      var p := ProgressPercentage(g).value;
      && 0 <= p <= 100
      && (p < 100 ==> p as real * g.targetValue <= g.currentValue * 100.0 < (p + 1) as real * g.targetValue)
      && (p == 100 <==> g.currentValue >= g.targetValue)
  {
    var c, target := g.currentValue, g.targetValue;
    var q := (c * 100.0) / target;
    assert q * target == c * 100.0;
    QuotientAgainstHundred(c, target, q);
    CompareQuotient(c * 100.0, target, q, 2147483648.0);
    if ScalesToDecimal(g) && q < 2147483648.0 {
      var t := TruncToInt(q);
      assert CastToInt(q) == Some(t);
      var p := ProgressPercentage(g).value;
      assert p == if t < 100 then t else 100;
      assert t >= 100 <==> q >= 100.0;
      if p < 100 {
        TruncBracket(c, q, target, p);
      }
    }
  }

  /** Thirty million against a target of one is three billion percent, beyond `int`, so
      the cast throws instead of the percentage being capped at 100. */
  lemma LargeProgressThrows(g: Goal)
    requires g.targetValue == 1.0 && g.currentValue == 30000000.0
    ensures ProgressPercentage(g).None?
  {
    assert (g.currentValue * 100.0) / g.targetValue == 3000000000.0;
  }

  /** `q` is `x / target`: it is below (at most) `b` exactly when `x` is below (at most)
      `b * target`. */
  lemma CompareQuotient(x: real, target: real, q: real, b: real)
    requires target > 0.0 && q * target == x
    ensures q < b <==> x < b * target
    ensures q <= b <==> x <= b * target
  {
    if q < b { ScaleLt(q, b, target); }
    if b < q { ScaleLt(b, q, target); }
  }

  /** `q` is `100 * c / target`: it is non-negative, and at least 100 exactly when `c`
      reaches `target`. */
  lemma QuotientAgainstHundred(c: real, target: real, q: real)
    requires target > 0.0 && c >= 0.0 && q * target == c * 100.0
    ensures q >= 0.0
    ensures q >= 100.0 <==> c >= target
  {
    CompareQuotient(c * 100.0, target, q, 0.0);
    CompareQuotient(c * 100.0, target, q, 100.0);
    ScaleLe(0.0, c * 100.0, 1.0);
  }

  /** A whole number of percent `t` below the quotient `q` brackets `100 * c`. */
  lemma TruncBracket(c: real, q: real, target: real, t: int)
    requires target > 0.0 && t as real <= q < t as real + 1.0 && q * target == c * 100.0
    ensures t as real * target <= c * 100.0 < (t + 1) as real * target
  {
    var hi := (t + 1) as real;
    assert q < hi;
    ProductBounds(t as real, q, hi, target, c * 100.0);
  }

  /** Scaling `lo <= q < hi` by a positive factor. */
  lemma ProductBounds(lo: real, q: real, hi: real, target: real, x: real)
    requires target > 0.0 && lo <= q < hi && q * target == x
    ensures lo * target <= x < hi * target
  {
    ScaleLe(lo, q, target);
    ScaleLt(q, hi, target);
  }

  lemma ScaleLe(a: real, b: real, c: real)
    requires a <= b && c > 0.0
    ensures a * c <= b * c
  {
  }

  lemma ScaleLt(a: real, b: real, c: real)
    requires a < b && c > 0.0
    ensures a * c < b * c
  {
  }

  /** More progress never shows a smaller percentage, and never makes it exist where it
      did not. */
  lemma ProgressMonotone(g: Goal, more: real)
    requires g.targetValue > 0.0 && 0.0 <= g.currentValue <= more
    ensures ProgressPercentage(g.(currentValue := more)).Some? ==>
      ProgressPercentage(g).Some? && ProgressPercentage(g).value <= ProgressPercentage(g.(currentValue := more)).value
  {
    var h := g.(currentValue := more);
    ProgressMeaning(g);
    ProgressMeaning(h);
    ScaleLe(g.currentValue, more, 100.0);
    var q1 := (g.currentValue * 100.0) / g.targetValue;
    var q2 := (more * 100.0) / g.targetValue;
    assert q1 * g.targetValue == g.currentValue * 100.0;
    assert q2 * g.targetValue == more * 100.0;
    CompareQuotient(g.currentValue * 100.0, g.targetValue, q1, q2);
    if ProgressPercentage(h).Some? {
      assert CastToInt(q2) == Some(TruncToInt(q2));
      assert CastToInt(q1) == Some(TruncToInt(q1));
    }
  }

  /** Without a lower clamp, progress at least one percent below zero shows negative
      whenever it shows at all. */
  lemma ProgressCanBeNegative(g: Goal)
    requires g.targetValue > 0.0 && g.currentValue * 100.0 <= -g.targetValue
    ensures ProgressPercentage(g).Some? ==> ProgressPercentage(g).value < 0
  {
    var q := (g.currentValue * 100.0) / g.targetValue;
    assert q * g.targetValue == g.currentValue * 100.0;
    CompareQuotient(g.currentValue * 100.0, g.targetValue, q, -1.0);
    assert q <= -1.0;
  }

  /** `Status`, read at time `now`. The percentage is consulted only for an unfinished goal
      whose target day has passed, so only then can its overflow make the getter throw
      (`None`). */
  function Status(g: Goal, now: nat): (s: Option<GoalStatus>)
    ensures s == Some(Completed) <==> g.currentValue >= g.targetValue
    ensures s.None? ==> g.currentValue < g.targetValue && DayOf(now) > DayOf(g.targetDate)
  {
    if g.currentValue >= g.targetValue then Some(Completed)
    else if DayOf(now) > DayOf(g.targetDate) then
      match ProgressPercentage(g)
      case None => None
      case Some(p) => if p < 100 then Some(Overdue) else Some(Active)
    else Some(Active)
  }

  /** Whether a goal is completed does not depend on the date. */
  lemma CompletedIgnoresDate(g: Goal, now1: nat, now2: nat)
    ensures Status(g, now1) == Some(Completed) <==> Status(g, now2) == Some(Completed)
  {
  }

  /** A completed goal with a positive target shows 100% whenever its percentage can be
      computed at all. */
  lemma CompletedShowsFullProgress(g: Goal, now: nat)
    requires g.targetValue > 0.0 && Status(g, now) == Some(Completed)
    ensures ProgressPercentage(g).Some? ==> ProgressPercentage(g).value == 100
  {
    var q := (g.currentValue * 100.0) / g.targetValue;
    assert q * g.targetValue == g.currentValue * 100.0;
    CompareQuotient(g.currentValue * 100.0, g.targetValue, q, 100.0);
    ScaleLe(g.targetValue, g.currentValue, 100.0);
    assert q >= 100.0;
  }

  /** For a positive target whose percentage can be computed, the `ProgressPercentage < 100`
      test of `Status` is implied by "not completed": a goal is overdue exactly when it is
      unfinished and its target day has passed. */
  lemma OverdueMeaning(g: Goal, now: nat)
    requires g.targetValue > 0.0 && ProgressPercentage(g).Some?
    ensures Status(g, now) == Some(Overdue) <==> g.currentValue < g.targetValue && DayOf(now) > DayOf(g.targetDate)
    ensures Status(g, now) == Some(Active) <==> g.currentValue < g.targetValue && DayOf(now) <= DayOf(g.targetDate)
  {
    if g.currentValue < g.targetValue {
      var q := (g.currentValue * 100.0) / g.targetValue;
      assert q * g.targetValue == g.currentValue * 100.0;
      ScaleLt(g.currentValue, g.targetValue, 100.0);
      CompareQuotient(g.currentValue * 100.0, g.targetValue, q, 100.0);
      assert q < 100.0;
      assert ProgressPercentage(g).value < 100;
    }
  }

  /** Once overdue, a goal whose values do not change stays overdue. */
  lemma OverdueIsPermanent(g: Goal, now: nat, later: nat)
    requires Status(g, now) == Some(Overdue) && now <= later
    ensures Status(g, later) == Some(Overdue)
  {
    assert DayOf(now) <= DayOf(later);
  }

  /** `ProgressBarColor` at time `now`; `None` when the `Status` or `ProgressPercentage`
      getter it reads throws. */
  function ProgressBarColor(g: Goal, now: nat): (c: Option<string>)
    ensures Status(g, now) == Some(Completed) ==> c == Some("bg-success")
    ensures Status(g, now) == Some(Overdue) ==> c == Some("bg-danger")
    ensures c.None? <==> Status(g, now).None? || (Status(g, now) == Some(Active) && ProgressPercentage(g).None?)
    ensures c.Some? ==> c.value in {"bg-success", "bg-danger", "bg-warning", "bg-info", "bg-primary"}
  {
    match Status(g, now)
    case None => None
    case Some(s) =>
      if s == Completed then Some("bg-success")
      else if s == Overdue then Some("bg-danger")
      else
        match ProgressPercentage(g)
        case None => None
        case Some(p) =>
          if p < 25 then Some("bg-danger")
          else if p < 50 then Some("bg-warning")
          else if p < 75 then Some("bg-info")
          else Some("bg-primary")
  }

  /** The colour bands of an active goal: each colour covers one quarter of the percentage
      range, and "bg-success" is reserved for completed goals. */
  lemma ActiveColorBands(g: Goal, now: nat)
    requires Status(g, now) == Some(Active) && ProgressPercentage(g).Some?
    ensures var p := ProgressPercentage(g).value; var c := ProgressBarColor(g, now).value;
      && (c == "bg-danger" <==> p < 25)
      && (c == "bg-warning" <==> 25 <= p < 50)
      && (c == "bg-info" <==> 50 <= p < 75)
      && (c == "bg-primary" <==> 75 <= p)
      && c != "bg-success"
  {
  }

  /** A value handed to the `FutureDate` validation attribute. */
  datatype ValidatedValue = DateTimeValue(t: nat) | OtherValue | NullValue

  /** `FutureDateAttribute.IsValid`: a date passes when its day is today or later; a
      value that is not a `DateTime` (null included) always passes. */
  function FutureDateIsValid(v: ValidatedValue, now: nat): (ok: bool)
    ensures v.DateTimeValue? ==> (ok <==> v.t >= StartOfDay(DayOf(now)))
    ensures !v.DateTimeValue? ==> ok
  {
    match v
    case DateTimeValue(t) => DayOf(t) >= DayOf(now)
    case _ => true
  }
}

/** The personal dashboard (`DashboardController`): the view model it assembles, the PIN
    gate in front of the private widgets, input validation for notes and habits, the
    parsing of a habit's custom weekdays, and the daily completion toggle. The note and
    habit repositories are not part of this model: each action receives what the
    repository lookup returned and yields the record it would hand back to it. */
module Dashboard {
  import opened Wrappers
  import opened Seqs
  import opened Text
  import opened Digits
  import opened Clock
  import opened Sorting
  import opened Limits
  import Users

  datatype Note = Note(id: int, text: string, userId: string, createdAt: nat)

  /** A habit; `customDays` holds `DayOfWeek` values (0 is Sunday) and `completedDates`
      the instants at which the habit was ticked off. */
  datatype Habit = Habit(
    id: int,
    name: string,
    description: string,
    userId: string,
    frequency: string,
    customDays: seq<int>,
    startDate: nat,
    completedDates: seq<nat>,
    createdAt: nat)

  datatype DashboardView = DashboardView(
    notes: seq<Note>,
    habits: seq<Habit>,
    permittedWidgets: seq<string>,
    hasSecurityPin: bool,
    isPinVerified: bool)

  function NoteCreated(n: Note): Key { [n.createdAt] }
  function HabitCreated(h: Habit): Key { [h.createdAt] }

  predicate HasPin(user: Option<Users.User>) {
    user.Some? && user.value.securityPin.Some? && |user.value.securityPin.value| > 0
  }

  /** `Index`: notes and habits newest first, the signed-in user's widgets (none when the
      user record is missing), and the two PIN flags. */
  function Index(notes: seq<Note>, habits: seq<Habit>, user: Option<Users.User>, pinSession: Option<string>): (v: DashboardView)
    ensures Sorted(v.notes, NoteCreated, Descending) && multiset(v.notes) == multiset(notes)
    ensures Sorted(v.habits, HabitCreated, Descending) && multiset(v.habits) == multiset(habits)
    ensures user.None? ==> v.permittedWidgets == []
    ensures user.Some? ==> v.permittedWidgets == user.value.permittedWidgets
    ensures v.hasSecurityPin <==> HasPin(user)
    ensures v.isPinVerified <==> pinSession == Some("true")
  {
    DashboardView(
      SortBy(notes, NoteCreated, Descending),
      SortBy(habits, HabitCreated, Descending),
      if user.Some? then user.value.permittedWidgets else [],
      HasPin(user),
      pinSession == Some("true"))
  }

  /** Notes created at the same instant keep the order the repository returned them in. */
  lemma IndexKeepsTiesInStoredOrder(notes: seq<Note>, habits: seq<Habit>, user: Option<Users.User>, pinSession: Option<string>, t: nat)
    ensures var v := Index(notes, habits, user, pinSession);
      Filter(v.notes, HasKey(NoteCreated, [t])) == Filter(notes, HasKey(NoteCreated, [t]))
      && Filter(v.habits, HasKey(HabitCreated, [t])) == Filter(habits, HasKey(HabitCreated, [t]))
  {
    SortByStable(notes, NoteCreated, Descending, [t]);
    SortByStable(habits, HabitCreated, Descending, [t]);
  }

  /** Result of `VerifyPin`: whether it answered success, and the session's `PinVerified`
      entry afterwards. */
  datatype PinOutcome = PinOutcome(success: bool, pinSession: Option<string>)

  /** `VerifyPin`: succeeds exactly when the user exists and the posted PIN equals the stored
      one, null included; success marks the session as verified. */
  function VerifyPin(user: Option<Users.User>, pin: Option<string>, pinSession: Option<string>): (r: PinOutcome)
    ensures r.success ==> user.Some? && user.value.securityPin == pin
    ensures user.Some? && user.value.securityPin == pin ==> r.success
    ensures r.success ==> r.pinSession == Some("true")
    ensures !r.success ==> r.pinSession == pinSession
  {
    if user.Some? && user.value.securityPin == pin then PinOutcome(true, Some("true"))
    else PinOutcome(false, pinSession)
  }

  /** When the dashboard asks for a PIN, only that exact non-empty PIN unlocks it, and after
      it does the next dashboard view reports the PIN as verified. */
  lemma PinGate(notes: seq<Note>, habits: seq<Habit>, user: Option<Users.User>, pin: Option<string>, pinSession: Option<string>)
    requires Index(notes, habits, user, pinSession).hasSecurityPin
    ensures VerifyPin(user, pin, pinSession).success ==> pin.Some? && |pin.value| > 0 && pin == user.value.securityPin
    ensures VerifyPin(user, pin, pinSession).success ==> Index(notes, habits, user, VerifyPin(user, pin, pinSession).pinSession).isPinVerified
    ensures pin != user.value.securityPin ==> VerifyPin(user, pin, pinSession).pinSession == pinSession
  {
  }

  /** A user without a stored PIN passes the check by posting no PIN at all. */
  lemma NoStoredPinAcceptsNoPin(user: Users.User, pinSession: Option<string>)
    requires user.securityPin.None?
    ensures VerifyPin(Some(user), None, pinSession).success
    ensures !VerifyPin(Some(user), Some("0000"), pinSession).success
  {
  }

  /** What a note action hands to the note repository. */
  datatype NoteWrite = NewNote(text: string, userId: string) | NoteEdit(id: int, text: string, userId: string)

  const EmptyNoteMessage := "Note text cannot be empty."

  /** `AddNote`: rejects text that is empty or all white space. */
  function AddNote(text: string, userId: string): (r: Result<NoteWrite>)
    ensures r.Ok? <==> !IsBlank(text)
    ensures r.Ok? ==> r.value == NewNote(text, userId)
    ensures r.Err? ==> r.message == EmptyNoteMessage
  {
    if IsBlank(text) then Err(EmptyNoteMessage) else Ok(NewNote(text, userId))
  }

  /** `EditNote`: the same rule; the edit is scoped to the caller's notes. */
  function EditNote(id: int, text: string, userId: string): (r: Result<NoteWrite>)
    ensures r.Ok? <==> !IsBlank(text)
    ensures r.Ok? ==> r.value == NoteEdit(id, text, userId)
    ensures r.Err? ==> r.message == EmptyNoteMessage
  {
    if IsBlank(text) then Err(EmptyNoteMessage) else Ok(NoteEdit(id, text, userId))
  }

  /** A note is accepted exactly when trimming leaves something, and the text is stored
      untrimmed; adding and editing apply the same rule. */
  lemma NoteAcceptedIffTrimmedNonEmpty(id: int, text: string, userId: string)
    ensures AddNote(text, userId).Ok? <==> |Trim(text)| > 0
    ensures AddNote(text, userId).Ok? <==> EditNote(id, text, userId).Ok?
    ensures AddNote(text, userId).Ok? ==> AddNote(text, userId).value.text == text
  {
  }

  // ---------------------------------------------------------------- custom days

  const DayNames: seq<string> := ["Sunday", "Monday", "Tuesday", "Wednesday", "Thursday", "Friday", "Saturday"]

  /** A named weekday, matched exactly (case-sensitive). */
  function DayNamed(t: string): (r: Option<int>)
    ensures r.Some? ==> 0 <= r.value < 7 && DayNames[r.value] == t
    ensures r.None? <==> t !in DayNames
  {
    match FirstIndex(DayNames, (n: string) => n == t)
    case None => None
    case Some(i) => Some(i)
  }

  /** The numeric form: an optional sign and decimal digits, within the 32-bit range of
      the enum's underlying type. */
  function ParseSigned(t: string): (r: Option<int>)
    requires |t| > 0
    ensures r.Some? ==> Int32Min <= r.value <= Int32Max
    ensures AllDigits(t) && DigitsValue(t) <= Int32Max ==> r == Some(DigitsValue(t))
  {
    var digits := if t[0] == '-' || t[0] == '+' then t[1..] else t;
    match ParseNat(digits)
    case None => None
    case Some(n) =>
      var v := if t[0] == '-' then -(n as int) else n as int;
      if Int32Min <= v <= Int32Max then Some(v) else None
  }

  /** `Enum.Parse(typeof(DayOfWeek), piece)`: surrounding white space is ignored; text that
      starts like a number is read as one (any 32-bit value, named or not); anything else
      must be one of the seven names. `None` is the exception the parse throws. */
  function ParseDay(piece: string): (r: Option<int>)
    ensures r.Some? ==> Int32Min <= r.value <= Int32Max
    ensures var t := Trim(piece); |t| > 0 && !IsDigit(t[0]) && t[0] != '+' && t[0] != '-' ==>
      (r.Some? <==> t in DayNames) && (r.Some? ==> 0 <= r.value < 7 && DayNames[r.value] == t)
  {
    var t := Trim(piece);
    if |t| == 0 then None
    else if IsDigit(t[0]) || t[0] == '+' || t[0] == '-' then ParseSigned(t)
    else DayNamed(t)
  }

  /** The custom days of a new habit: only for the "Custom" frequency with a non-empty
      list; the comma-separated pieces are all parsed, and one bad piece discards the
      whole list. */
  function CustomDays(frequency: string, customDays: string): (r: seq<int>)
    ensures frequency != "Custom" || |customDays| == 0 ==> r == []
    ensures var pieces := Split(customDays, ',');
      frequency == "Custom" && |customDays| > 0 && (forall k :: 0 <= k < |pieces| ==> ParseDay(pieces[k]).Some?) ==>
        |r| == |pieces| && forall k :: 0 <= k < |pieces| ==> ParseDay(pieces[k]) == Some(r[k])
    ensures var pieces := Split(customDays, ',');
      (exists k :: 0 <= k < |pieces| && ParseDay(pieces[k]).None?) ==> r == []
  {
    if frequency == "Custom" && |customDays| > 0 then
      match MapAll(Split(customDays, ','), ParseDay)
      case None => []
      case Some(days) => days
    else []
  }

  function DayNameList(days: seq<int>): (r: seq<string>)
    requires forall k :: 0 <= k < |days| ==> 0 <= days[k] < 7
    ensures |r| == |days|
    ensures forall k :: 0 <= k < |days| ==> r[k] == DayNames[days[k]]
  {
    seq(|days|, k requires 0 <= k < |days| => DayNames[days[k]])
  }

  lemma DayNameParses(d: int)
    requires 0 <= d < 7
    ensures ParseDay(DayNames[d]) == Some(d)
    ensures ',' !in DayNames[d] && |DayNames[d]| > 0
  {
    var n := DayNames[d];
    DayNameShape(d);
    TrimUntrimmed(n);
    DayNamesDistinct();
    assert DayNamed(n) == Some(d);
  }

  lemma DayNameShape(d: int)
    requires 0 <= d < 7
    ensures |DayNames[d]| > 0 && 'A' <= DayNames[d][0] <= 'Z' && DayNames[d][|DayNames[d]| - 1] == 'y'
    ensures forall k :: 0 <= k < |DayNames[d]| ==> DayNames[d][k] != ','
  {
  }

  lemma DayNamesDistinct()
    ensures forall i, j :: 0 <= i < j < 7 ==> DayNames[i] != DayNames[j]
  {
    assert DayNames[0][0] == 'S' && |DayNames[0]| == 6;
    assert DayNames[1][0] == 'M' && |DayNames[1]| == 6;
    assert DayNames[2][0] == 'T' && |DayNames[2]| == 7;
    assert DayNames[3][0] == 'W' && |DayNames[3]| == 9;
    assert DayNames[4][0] == 'T' && |DayNames[4]| == 8;
    assert DayNames[5][0] == 'F' && |DayNames[5]| == 6;
    assert DayNames[6][0] == 'S' && |DayNames[6]| == 8;
  }

  /** A list of weekday names written as the form posts it ("Monday,Wednesday") is read back
      as exactly those days, in order. */
  lemma {:induction false} CustomDaysRoundTrip(days: seq<int>)
    requires |days| > 0
    requires forall k :: 0 <= k < |days| ==> 0 <= days[k] < 7
    ensures CustomDays("Custom", Join(DayNameList(days), ",")) == days
  {
    var names := DayNameList(days);
    forall k | 0 <= k < |names|
      ensures ',' !in names[k] && ParseDay(names[k]) == Some(days[k])
    {
      DayNameParses(days[k]);
    }
    SplitJoin(names, ',');
    var text := Join(names, ",");
    assert Split(text, ',') == names;
    DayNameParses(days[0]);
    JoinNonEmpty(names, ",");
    var r := CustomDays("Custom", text);
    assert |r| == |names|;
    forall k | 0 <= k < |days|
      ensures r[k] == days[k]
    {
      assert ParseDay(names[k]) == Some(r[k]);
    }
  }

  lemma {:induction false} JoinNonEmpty(parts: seq<string>, sep: string)
    requires |parts| > 0 && |parts[0]| > 0
    ensures |Join(parts, sep)| > 0
  {
  }

  // ---------------------------------------------------------------- habits

  /** What `AddHabit` hands to the habit repository. */
  datatype NewHabit = NewHabit(
    name: string,
    description: string,
    userId: string,
    frequency: string,
    customDays: seq<int>,
    startDate: nat)

  const EmptyHabitMessage := "Habit name cannot be empty."

  /** `AddHabit`: the name must not be blank; the start date defaults to today's midnight. */
  function AddHabit(name: string, description: string, frequency: string, customDays: string,
                    startDate: Option<nat>, userId: string, now: nat): (r: Result<NewHabit>)
    ensures r.Ok? <==> !IsBlank(name)
    ensures r.Err? ==> r.message == EmptyHabitMessage
    ensures r.Ok? ==> (r.value.name == name && r.value.description == description
                       && r.value.userId == userId && r.value.frequency == frequency)
    ensures r.Ok? ==> r.value.customDays == CustomDays(frequency, customDays)
    ensures r.Ok? && startDate.Some? ==> r.value.startDate == startDate.value
    ensures r.Ok? && startDate.None? ==>
              (r.value.startDate <= now < r.value.startDate + SecondsPerDay && DayOf(r.value.startDate) == DayOf(now))
  {
    if IsBlank(name) then Err(EmptyHabitMessage)
    else
      var start := if startDate.Some? then startDate.value else StartOfDay(DayOf(now));
      Ok(NewHabit(name, description, userId, frequency, CustomDays(frequency, customDays), start))
  }

  function OnDay(day: nat): nat -> bool {
    (t: nat) => DayOf(t) == day
  }

  function NotOnDay(day: nat): nat -> bool {
    (t: nat) => DayOf(t) != day
  }

  predicate DoneOn(h: Habit, day: nat) {
    exists j :: 0 <= j < |h.completedDates| && DayOf(h.completedDates[j]) == day
  }

  predicate Owns(found: Option<Habit>, userId: string) {
    found.Some? && found.value.userId == userId
  }

  /** `ToggleHabit`: on a habit the caller owns, unticks today if it is ticked (every entry
      dated today goes, the rest keep their order) and otherwise appends today's midnight;
      entries on other days and every other field stay as they were. `None` is "Habit not found.". */
  function ToggleHabit(found: Option<Habit>, userId: string, now: nat): (r: Option<Habit>)
    ensures r.Some? <==> Owns(found, userId)
    ensures r.Some? ==> r.value == found.value.(completedDates := r.value.completedDates)
    ensures r.Some? ==> (DoneOn(r.value, DayOf(now)) <==> !DoneOn(found.value, DayOf(now)))
    ensures r.Some? ==> Filter(r.value.completedDates, NotOnDay(DayOf(now)))
                        == Filter(found.value.completedDates, NotOnDay(DayOf(now)))
    ensures r.Some? && !DoneOn(found.value, DayOf(now)) ==>
      r.value.completedDates == found.value.completedDates + [StartOfDay(DayOf(now))]
    ensures r.Some? && DoneOn(found.value, DayOf(now)) ==>
      r.value.completedDates == Filter(found.value.completedDates, NotOnDay(DayOf(now)))
  {
    if !Owns(found, userId) then None
    else
      var h := found.value;
      var today := DayOf(now);
      if DoneOn(h, today) then
        var kept := Filter(h.completedDates, NotOnDay(today));
        FilterFilter(h.completedDates, NotOnDay(today));
        Some(h.(completedDates := kept))
      else
        var added := h.completedDates + [StartOfDay(today)];
        FilterConcat(h.completedDates, [StartOfDay(today)], NotOnDay(today));
        assert added[|added| - 1] == StartOfDay(today);
        Some(h.(completedDates := added))
  }

  lemma {:induction false} FilterFilter<T>(s: seq<T>, p: T -> bool)
    ensures Filter(Filter(s, p), p) == Filter(s, p)
    decreases |s|
  {
    if |s| > 0 {
      FilterFilter(s[1..], p);
    }
  }

  /** Ticking a habit and unticking it on the same day restores its completion list. */
  lemma ToggleTwiceRestores(h: Habit, userId: string, now: nat)
    requires h.userId == userId && !DoneOn(h, DayOf(now))
    ensures var once := ToggleHabit(Some(h), userId, now);
      once.Some? && ToggleHabit(once, userId, now) == Some(h)
  {
    var today := DayOf(now);
    var once := ToggleHabit(Some(h), userId, now).value;
    assert once.completedDates == h.completedDates + [StartOfDay(today)];
    assert DoneOn(once, today) by {
      assert DayOf(once.completedDates[|once.completedDates| - 1]) == today;
    }
    FilterConcat(h.completedDates, [StartOfDay(today)], NotOnDay(today));
    FilterAll(h.completedDates, NotOnDay(today));
  }

  /** `DeleteHabit`: the id to delete when the caller owns the habit, else "Habit not found.". */
  function DeleteHabit(found: Option<Habit>, userId: string): (r: Option<int>)
    ensures r.Some? <==> found.Some? && found.value.userId == userId
    ensures r.Some? ==> r.value == found.value.id
  {
    if Owns(found, userId) then Some(found.value.id) else None
  }

  /** Toggling and deleting apply the same ownership rule. */
  lemma ToggleAndDeleteAgreeOnOwnership(found: Option<Habit>, userId: string, now: nat)
    ensures ToggleHabit(found, userId, now).None? <==> DeleteHabit(found, userId).None?
  {
  }
}

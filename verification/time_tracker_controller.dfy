/** `TimeTrackerController`: the signed-in user's timesheet and the JSON endpoints the
    stopwatch page posts to. The user id is the caller's name claim. */
module TimeTracker {
  import opened Wrappers
  import opened Seqs
  import opened Sorting
  import opened TimeEntries
  import opened TimeRepository

  /** `OrderBy(Date).ThenBy(StartTime)`, as one composite key on the two instants. */
  function DateThenStart(e: TimeEntry): Key {
    [e.date.utc, e.startTime.utc]
  }

  /** `Index`: the user's entries only, by date and then start time. */
  function Index(entries: seq<TimeEntry>, userId: string): (r: seq<TimeEntry>)
    ensures forall i :: 0 <= i < |r| ==> r[i].userId == userId
    ensures multiset(r) == multiset(GetAll(entries, userId))
    ensures Sorted(r, DateThenStart, Ascending)
  {
    var mine := GetAll(entries, userId);
    var r := SortBy(mine, DateThenStart, Ascending);
    SortBySameElements(mine, DateThenStart, Ascending);
    r
  }

  /** The timesheet order spelled out: earlier dates first, and within one date earlier
      start times first. */
  lemma IndexOrder(entries: seq<TimeEntry>, userId: string, i: int, j: int)
    requires 0 <= i < j < |Index(entries, userId)|
    ensures var r := Index(entries, userId);
      r[i].date.utc < r[j].date.utc
      || (r[i].date.utc == r[j].date.utc && r[i].startTime.utc <= r[j].startTime.utc)
  {
    var r := Index(entries, userId);
    var a, b := DateThenStart(r[i]), DateThenStart(r[j]);
    assert KeyLe(a, b);
    assert a[1..] == [r[i].startTime.utc] && b[1..] == [r[j].startTime.utc];
    if a[0] == b[0] {
      assert KeyLe(a[1..], b[1..]);
      assert a[1..][1..] == [];
    }
  }

  /** `SaveEntry`: the entry is stored as the browser sent it, stamped with the caller as
      owner and given a fresh id. */
  function SaveEntry(entries: seq<TimeEntry>, entry: TimeEntry, userId: string): (r: seq<TimeEntry>)
    ensures |r| == |entries| + 1 && r[..|entries|] == entries
    ensures r[|entries|] == entry.(id := r[|entries|].id, userId := userId)
    ensures forall i :: 0 <= i < |entries| ==> entries[i].id < r[|entries|].id
  {
    Add(entries, entry.(userId := userId))
  }

  /** A saved entry shows up on the caller's timesheet and on nobody else's. */
  lemma SavedEntryIsListedForCallerOnly(entries: seq<TimeEntry>, entry: TimeEntry, userId: string, other: string)
    requires other != userId
    ensures var r := SaveEntry(entries, entry, userId);
      r[|entries|] in Index(r, userId) && r[|entries|] !in Index(r, other)
  {
    var r := SaveEntry(entries, entry, userId);
    var x := r[|entries|];
    assert x in GetAll(r, userId);
    assert x in multiset(Index(r, userId));
  }

  /** `UpdateEntry`: `None` is the 404 for an id the caller does not own. Otherwise the
      entry takes the new task name and duration, its end time is recomputed from its
      stored start time, and its start, date, id and owner are kept: whatever start or
      date the request carried is ignored. */
  function UpdateEntry(entries: seq<TimeEntry>, entry: TimeEntry, userId: string): (r: Option<seq<TimeEntry>>)
    ensures r.None? <==> forall i :: 0 <= i < |entries| ==> !(entries[i].id == entry.id && entries[i].userId == userId)
    ensures r.Some? ==> FirstIndex(entries, OwnedWithId(entry.id, userId)).Some? && |r.value| == |entries|
    ensures r.Some? ==>
      var i := FirstIndex(entries, OwnedWithId(entry.id, userId)).value;
      var before := entries[i];
      var after := r.value[i];
      SameExceptAt(entries, r.value, i)
      && after.taskName == entry.taskName && after.durationInSeconds == entry.durationInSeconds
      && after.endTime.utc - after.startTime.utc == entry.durationInSeconds
      && after.endTime.offsetMinutes == before.startTime.offsetMinutes
      && after.startTime == before.startTime && after.date == before.date
      && after.id == before.id && after.userId == before.userId
  {
    match GetById(entries, entry.id, userId)
    case None => None
    case Some(existing) =>
      var updated := existing.(taskName := entry.taskName,
                               durationInSeconds := entry.durationInSeconds,
                               endTime := AddSeconds(existing.startTime, entry.durationInSeconds));
      Some(Update(entries, updated, userId))
  }
}

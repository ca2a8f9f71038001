/** `JsonTimeTrackerRepository` as operations on the loaded list of entries. Unlike the
    other stores, every lookup and mutation except `Add` is scoped to the calling user. */
module TimeRepository {
  import opened Wrappers
  import opened Seqs
  import opened TimeEntries

  function EntryId(e: TimeEntry): int { e.id }

  function OwnedBy(userId: string): TimeEntry -> bool { (e: TimeEntry) => e.userId == userId }

  function HasId(id: int): TimeEntry -> bool { (e: TimeEntry) => e.id == id }

  function OwnedWithId(id: int, userId: string): TimeEntry -> bool {
    (e: TimeEntry) => e.id == id && e.userId == userId
  }

  /** `GetAll(userId)`: exactly the user's entries, in stored order and as often as they
      are stored. */
  function GetAll(entries: seq<TimeEntry>, userId: string): (r: seq<TimeEntry>)
    ensures forall i :: 0 <= i < |r| ==> r[i].userId == userId
    ensures IsSubsequence(r, entries)
    ensures forall e :: multiset(r)[e] == if e.userId == userId then multiset(entries)[e] else 0
  {
    FilterIsSubsequence(entries, OwnedBy(userId));
    FilterCounts(entries, OwnedBy(userId));
    Filter(entries, OwnedBy(userId))
  }

  /** `GetById(id, userId)`: the first of the user's entries with the id; another user's
      entry is never returned. */
  function GetById(entries: seq<TimeEntry>, id: int, userId: string): (r: Option<TimeEntry>)
    ensures r.Some? ==> r.value.id == id && r.value.userId == userId && r.value in entries
    ensures r.None? <==> forall i :: 0 <= i < |entries| ==> !(entries[i].id == id && entries[i].userId == userId)
    ensures FirstIndex(entries, OwnedWithId(id, userId)).Some? ==>
      r == Some(entries[FirstIndex(entries, OwnedWithId(id, userId)).value])
  {
    FirstWhereFilter(entries, OwnedBy(userId), HasId(id), OwnedWithId(id, userId));
    FirstWhere(GetAll(entries, userId), HasId(id))
  }

  /** `Add`: the entry gets `max(id) + 1` over all users' entries (1 in an empty store) and
      is appended; its other fields are stored as given. */
  function Add(entries: seq<TimeEntry>, entry: TimeEntry): (r: seq<TimeEntry>)
    ensures |r| == |entries| + 1 && r[..|entries|] == entries
    ensures r[|entries|] == entry.(id := r[|entries|].id)
    ensures forall i :: 0 <= i < |entries| ==> entries[i].id < r[|entries|].id
    ensures |entries| == 0 ==> r[0].id == 1
  {
    entries + [entry.(id := NextId(entries, EntryId))]
  }

  /** The fields `Update` copies from the submitted entry; id and owner are kept. */
  function CopyEditable(target: TimeEntry, from: TimeEntry): (r: TimeEntry)
    ensures r.id == target.id && r.userId == target.userId
    ensures r.(id := from.id, userId := from.userId) == from
  {
    target.(taskName := from.taskName, startTime := from.startTime, endTime := from.endTime,
            durationInSeconds := from.durationInSeconds, date := from.date)
  }

  /** `Update(entry, userId)`: the first entry with the submitted id that the user owns takes
      the submitted task name, times, duration and date; when the user owns no entry with
      that id nothing is written. */
  function Update(entries: seq<TimeEntry>, entry: TimeEntry, userId: string): (r: seq<TimeEntry>)
    ensures FirstIndex(entries, OwnedWithId(entry.id, userId)).None? ==> r == entries
    ensures FirstIndex(entries, OwnedWithId(entry.id, userId)).Some? ==>
      var i := FirstIndex(entries, OwnedWithId(entry.id, userId)).value;
      SameExceptAt(entries, r, i) && r[i] == CopyEditable(entries[i], entry)
    ensures |r| == |entries|
  {
    match FirstIndex(entries, OwnedWithId(entry.id, userId))
    case None => entries
    case Some(i) => entries[i := CopyEditable(entries[i], entry)]
  }

  /** `Delete(id, userId)`: removes the first entry with the id that the user owns. */
  function Delete(entries: seq<TimeEntry>, id: int, userId: string): (r: seq<TimeEntry>)
    ensures FirstIndex(entries, OwnedWithId(id, userId)).None? ==> r == entries
    ensures FirstIndex(entries, OwnedWithId(id, userId)).Some? ==>
      RemovedAt(entries, r, FirstIndex(entries, OwnedWithId(id, userId)).value)
  {
    RemoveFirst(entries, OwnedWithId(id, userId))
  }

  /** Updates never move an entry between users, never renumber one, and leave every other
      user's entries exactly as they were. */
  lemma UpdateKeepsOwnership(entries: seq<TimeEntry>, entry: TimeEntry, userId: string, other: string)
    requires other != userId
    ensures var r := Update(entries, entry, userId);
      (forall i :: 0 <= i < |entries| ==> r[i].userId == entries[i].userId && r[i].id == entries[i].id)
      && GetAll(r, other) == GetAll(entries, other)
  {
    var r := Update(entries, entry, userId);
    match FirstIndex(entries, OwnedWithId(entry.id, userId))
    case None =>
    case Some(i) =>
      assert r == entries[i := CopyEditable(entries[i], entry)];
      FilterSkipsReplaced(entries, i, CopyEditable(entries[i], entry), OwnedBy(other));
  }

  /** Deleting only ever removes one of the caller's own entries. */
  lemma DeleteKeepsOthers(entries: seq<TimeEntry>, id: int, userId: string, other: string)
    requires other != userId
    ensures GetAll(Delete(entries, id, userId), other) == GetAll(entries, other)
  {
    match FirstIndex(entries, OwnedWithId(id, userId))
    case None =>
    case Some(i) =>
      assert Delete(entries, id, userId) == entries[..i] + entries[i + 1..];
      FilterSkipsRemoved(entries, i, OwnedBy(other));
  }

  /** An added entry is found by its owner under its new id, and by
      nobody else. */
  lemma AddThenGetById(entries: seq<TimeEntry>, entry: TimeEntry, other: string)
    requires other != entry.userId
    ensures var r := Add(entries, entry);
      GetById(r, r[|entries|].id, entry.userId) == Some(r[|entries|])
      && GetById(r, r[|entries|].id, other).None?
  {
    var r := Add(entries, entry);
    var id := r[|entries|].id;
    assert forall i :: 0 <= i < |entries| ==> r[i].id != id;
    assert FirstIndex(r, OwnedWithId(id, entry.userId)) == Some(|entries|);
  }

  /** A saved entry is appended to its owner's list, and nobody else's list changes. */
  lemma AddThenGetAll(entries: seq<TimeEntry>, entry: TimeEntry, userId: string)
    ensures var r := Add(entries, entry);
      GetAll(r, userId) == GetAll(entries, userId) + (if entry.userId == userId then [r[|entries|]] else [])
  {
    var r := Add(entries, entry);
    assert r == entries + [r[|entries|]];
    FilterSnoc(entries, r[|entries|], OwnedBy(userId));
  }
}

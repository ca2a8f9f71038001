/** `JsonGoalRepository` as operations on the loaded list of goals. Each mutation returns
    the list written back to the file. */
module GoalRepository {
  import opened Wrappers
  import opened Seqs
  import opened Goals

  function GoalId(g: Goal): int { g.id }

  function OwnedBy(userId: string): Goal -> bool { (g: Goal) => g.userId == userId }

  function HasId(id: int): Goal -> bool { (g: Goal) => g.id == id }

  /** `GetAll(userId)`: exactly the goals owned by the user, in stored order and as often
      as they are stored. */
  function GetAll(goals: seq<Goal>, userId: string): (r: seq<Goal>)
    ensures forall i :: 0 <= i < |r| ==> r[i].userId == userId
    ensures IsSubsequence(r, goals)
    ensures forall g :: multiset(r)[g] == if g.userId == userId then multiset(goals)[g] else 0
  {
    FilterIsSubsequence(goals, OwnedBy(userId));
    FilterCounts(goals, OwnedBy(userId));
    Filter(goals, OwnedBy(userId))
  }

  /** `GetById(id)`: the first goal with the id, whoever owns it. */
  function GetById(goals: seq<Goal>, id: int): (r: Option<Goal>)
    ensures r.Some? ==> r.value.id == id && r.value in goals
    ensures r.None? <==> forall i :: 0 <= i < |goals| ==> goals[i].id != id
    ensures FirstIndex(goals, HasId(id)).Some? ==> r == Some(goals[FirstIndex(goals, HasId(id)).value])
  {
    FirstWhere(goals, HasId(id))
  }

  /** `Add`: the goal gets `max(id) + 1` (1 in an empty store) and is appended. */
  function Add(goals: seq<Goal>, goal: Goal): (r: seq<Goal>)
    ensures |r| == |goals| + 1 && r[..|goals|] == goals
    ensures r[|goals|] == goal.(id := r[|goals|].id)
    ensures forall i :: 0 <= i < |goals| ==> goals[i].id < r[|goals|].id
    ensures |goals| == 0 ==> r[0].id == 1
  {
    goals + [goal.(id := NextId(goals, GoalId))]
  }

  /** `Update`: the first goal with the submitted goal's id is replaced by it, with no
      ownership check; with no such goal nothing changes. */
  function Update(goals: seq<Goal>, goal: Goal): (r: seq<Goal>)
    ensures |r| == |goals|
    ensures (forall i :: 0 <= i < |goals| ==> goals[i].id != goal.id) ==> r == goals
    ensures forall i :: 0 <= i < |goals| && goals[i].id == goal.id ==>
      (forall j :: 0 <= j < i ==> goals[j].id != goal.id) ==> r == goals[i := goal]
  {
    ReplaceFirst(goals, HasId(goal.id), goal)
  }

  /** `Delete`: the first goal with the id is removed; the others keep their order. */
  function Delete(goals: seq<Goal>, id: int): (r: seq<Goal>)
    ensures (forall i :: 0 <= i < |goals| ==> goals[i].id != id) ==> r == goals
    ensures forall i :: 0 <= i < |goals| && goals[i].id == id ==>
      (forall j :: 0 <= j < i ==> goals[j].id != id) ==> r == goals[..i] + goals[i + 1..]
  {
    RemoveFirst(goals, HasId(id))
  }

  ghost predicate UniqueIds(goals: seq<Goal>) {
    forall i, j :: 0 <= i < j < |goals| ==> goals[i].id != goals[j].id
  }

  /** Adding keeps ids unique. */
  lemma AddKeepsIdsUnique(goals: seq<Goal>, goal: Goal)
    requires UniqueIds(goals)
    ensures UniqueIds(Add(goals, goal))
  {
  }

  /** With unique ids, the goal just added is what `GetById` finds under its new id. */
  lemma AddThenGetById(goals: seq<Goal>, goal: Goal)
    requires UniqueIds(goals)
    ensures var r := Add(goals, goal); GetById(r, r[|goals|].id) == Some(r[|goals|])
  {
    var r := Add(goals, goal);
    assert forall i :: 0 <= i < |goals| ==> r[i].id != r[|goals|].id;
  }

  /** A goal added for a user is appended to that user's list, and nobody else's list
      changes. */
  lemma AddThenGetAll(goals: seq<Goal>, goal: Goal, userId: string)
    ensures var r := Add(goals, goal);
      GetAll(r, userId) == GetAll(goals, userId) + (if goal.userId == userId then [r[|goals|]] else [])
  {
    var r := Add(goals, goal);
    assert r == goals + [r[|goals|]];
    FilterSnoc(goals, r[|goals|], OwnedBy(userId));
  }

  /** With unique ids, an update is what `GetById` finds afterwards under its id. */
  lemma UpdateThenGetById(goals: seq<Goal>, goal: Goal)
    requires UniqueIds(goals) && exists i :: 0 <= i < |goals| && goals[i].id == goal.id
    ensures GetById(Update(goals, goal), goal.id) == Some(goal)
  {
    var i := FirstIndex(goals, HasId(goal.id)).value;
    var r := Update(goals, goal);
    assert r == goals[i := goal];
    assert forall j :: 0 <= j < |r| && j != i ==> r[j].id != goal.id;
    assert FirstIndex(r, HasId(goal.id)) == Some(i) by {
      assert HasId(goal.id)(r[i]);
    }
  }

  /** With unique ids, a deleted goal is no longer found. */
  lemma DeleteThenGetById(goals: seq<Goal>, id: int)
    requires UniqueIds(goals)
    ensures GetById(Delete(goals, id), id).None?
  {
    match FirstIndex(goals, HasId(id))
    case None =>
    case Some(i) =>
      var r := Delete(goals, id);
      assert r == goals[..i] + goals[i + 1..];
      forall j | 0 <= j < |r|
        ensures r[j].id != id
      {
        if j < i { assert r[j] == goals[j]; } else { assert r[j] == goals[j + 1]; }
      }
  }
}

/** The user directory (`JsonUserRepository`). Every read resolves each user's role, by
    role id first and by role name (ignoring case) as a fallback, and overwrites the user's
    stored widgets, role name and role id with the role's: the stored copies are a cache
    that heals on every load. Mutations read (and so resolve) the whole list, change it and
    return the list written back. */
module Users {
  import opened Wrappers
  import opened Seqs
  import opened Text
  import Roles

  /** A user record. The pending-signup fields `otp`/`otpExpiry`, the optional security PIN
      and the last-login date are nullable in the source. */
  datatype User = User(
    id: int,
    name: string,
    email: string,
    password: string,
    confirmPassword: string,
    role: string,
    roleId: int,
    permittedWidgets: seq<string>,
    securityPin: Option<string>,
    isEmailVerified: bool,
    otp: Option<string>,
    otpExpiry: Option<nat>,
    loginHistory: seq<nat>,
    loginCount: int,
    lastLoginDate: Option<nat>)

  function RoleWithId(id: int): Roles.Role -> bool {
    (r: Roles.Role) => r.id == id
  }

  /** The role a user inherits from: the first role with the user's role id, else the first
      role named like the user's role ignoring case, else none. */
  function ResolveRole(roles: seq<Roles.Role>, u: User): (r: Option<Roles.Role>)
    ensures (exists i :: 0 <= i < |roles| && roles[i].id == u.roleId) ==>
      r.Some? && r.value.id == u.roleId && r == FirstWhere(roles, RoleWithId(u.roleId))
    ensures (forall i :: 0 <= i < |roles| ==> roles[i].id != u.roleId) ==> r == Roles.GetByName(roles, u.role)
  {
    match FirstWhere(roles, RoleWithId(u.roleId))
    case Some(role) => Some(role)
    case None => Roles.GetByName(roles, u.role)
  }

  /** One user as a read returns it. */
  function Resolve(roles: seq<Roles.Role>, u: User): (r: User)
    ensures r == u.(permittedWidgets := r.permittedWidgets, role := r.role, roleId := r.roleId)
    ensures ResolveRole(roles, u).None? ==> r == u
    ensures ResolveRole(roles, u).Some? ==>
      var role := ResolveRole(roles, u).value;
      r == u.(permittedWidgets := role.permittedWidgets, role := role.name, roleId := role.id)
  {
    match ResolveRole(roles, u)
    case None => u
    case Some(role) => u.(permittedWidgets := role.permittedWidgets, role := role.name, roleId := role.id)
  }

  /** `ReadData`: every stored user, resolved against the current roles, in stored order. */
  function ReadData(roles: seq<Roles.Role>, stored: seq<User>): (r: seq<User>)
    ensures |r| == |stored|
    ensures forall i :: 0 <= i < |stored| ==> r[i] == Resolve(roles, stored[i])
    ensures forall i :: 0 <= i < |stored| ==> r[i].id == stored[i].id && r[i].email == stored[i].email
  {
    seq(|stored|, i requires 0 <= i < |stored| => Resolve(roles, stored[i]))
  }

  /** After a read, a user whose role id names a role carries that role's widgets, name and
      id, whatever its stored copies said. */
  lemma ReadInheritsRoleById(roles: seq<Roles.Role>, stored: seq<User>, i: nat, k: nat)
    requires i < |stored| && k < |roles| && roles[k].id == stored[i].roleId
    requires forall j :: 0 <= j < k ==> roles[j].id != stored[i].roleId
    ensures var u := ReadData(roles, stored)[i];
      u.permittedWidgets == roles[k].permittedWidgets && u.role == roles[k].name && u.roleId == roles[k].id
  {
    assert FirstIndex(roles, RoleWithId(stored[i].roleId)) == Some(k);
  }

  /** Id lookup takes priority: when a role has the user's role id, the stored role name
      is never consulted. */
  lemma IdTakesPriority(roles: seq<Roles.Role>, u: User, otherName: string)
    requires exists k :: 0 <= k < |roles| && roles[k].id == u.roleId
    ensures ResolveRole(roles, u.(role := otherName)) == ResolveRole(roles, u)
    ensures Resolve(roles, u.(role := otherName)) == Resolve(roles, u)
  {
  }

  /** The name fallback ignores case: two spellings of a role name differing only in case
      resolve to the same role. */
  lemma NameFallbackIgnoresCase(roles: seq<Roles.Role>, u: User, spelling: string)
    requires forall k :: 0 <= k < |roles| ==> roles[k].id != u.roleId
    requires EqualsIgnoreCase(u.role, spelling)
    ensures ResolveRole(roles, u) == ResolveRole(roles, u.(role := spelling))
  {
    var a := Roles.GetByName(roles, u.role);
    var b := Roles.GetByName(roles, spelling);
    assert forall k :: 0 <= k < |roles| ==> (EqualsIgnoreCase(roles[k].name, u.role) <==> EqualsIgnoreCase(roles[k].name, spelling));
    assert FirstIndex(roles, Roles.NamedIgnoringCase(u.role)) == FirstIndex(roles, Roles.NamedIgnoringCase(spelling)) by {
      FirstIndexSamePredicate(roles, Roles.NamedIgnoringCase(u.role), Roles.NamedIgnoringCase(spelling));
    }
  }

  /** Two predicates that agree on every element find the same first index. */
  lemma {:induction false} FirstIndexSamePredicate<T>(s: seq<T>, p: T -> bool, q: T -> bool)
    requires forall k :: 0 <= k < |s| ==> (p(s[k]) <==> q(s[k]))
    ensures FirstIndex(s, p) == FirstIndex(s, q)
    decreases |s|
  {
    if |s| > 0 {
      FirstIndexSamePredicate(s[1..], p, q);
    }
  }

  /** A user matched by neither id nor name passes through with its stored role, role id
      and widgets. */
  lemma UnmatchedPassesThrough(roles: seq<Roles.Role>, u: User)
    requires forall k :: 0 <= k < |roles| ==> roles[k].id != u.roleId && !EqualsIgnoreCase(roles[k].name, u.role)
    ensures Resolve(roles, u) == u
  {
  }

  /** With unique role ids, resolving is idempotent: reading what a read returned changes
      nothing. */
  lemma ReadIdempotent(roles: seq<Roles.Role>, stored: seq<User>)
    requires Roles.UniqueIds(roles)
    ensures ReadData(roles, ReadData(roles, stored)) == ReadData(roles, stored)
  {
    forall i | 0 <= i < |stored|
      ensures Resolve(roles, Resolve(roles, stored[i])) == Resolve(roles, stored[i])
    {
      ResolveIdempotent(roles, stored[i]);
    }
  }

  lemma ResolveIdempotent(roles: seq<Roles.Role>, u: User)
    requires Roles.UniqueIds(roles)
    ensures Resolve(roles, Resolve(roles, u)) == Resolve(roles, u)
  {
    match ResolveRole(roles, u)
    case None =>
    case Some(role) =>
      var k :| 0 <= k < |roles| && roles[k] == role;
      var v := Resolve(roles, u);
      assert roles[k].id == v.roleId;
      var j := FirstIndex(roles, RoleWithId(v.roleId)).value;
      assert roles[j] == roles[k];
  }

  /** Renaming a role propagates: after the role with id `k` is renamed through `Update`
      (its name taken by no other role), every user whose role id is `k` reads back with
      the new name and the role's widgets, whatever its stored copies say. */
  lemma RenamePropagates(roles: seq<Roles.Role>, stored: seq<User>, k: nat, newName: string, i: nat)
    requires Roles.UniqueIds(roles) && k < |roles| && i < |stored|
    requires forall j :: 0 <= j < |roles| ==> !EqualsIgnoreCase(roles[j].name, newName)
    requires stored[i].roleId == roles[k].id
    ensures var renamed := Roles.Update(roles, roles[k].(name := newName));
      var u := ReadData(renamed, stored)[i];
      u.role == newName && u.permittedWidgets == roles[k].permittedWidgets && u.roleId == roles[k].id
  {
    var upd := roles[k].(name := newName);
    var p := Roles.IdOrName(upd);
    assert p(roles[k]);
    assert forall j :: 0 <= j < k ==> !p(roles[j]);
    var renamed := Roles.Update(roles, upd);
    assert renamed == roles[k := upd];
    assert Roles.UniqueIds(renamed);
    ReadInheritsRoleById(renamed, stored, i, k);
  }

  function UserId(u: User): int { u.id }

  function HasEmail(email: string): User -> bool { (u: User) => u.email == email }

  function HasId(id: int): User -> bool { (u: User) => u.id == id }

  /** `GetByEmail`: the first stored user whose email equals `email` exactly, case
      included, as a read resolves it. */
  function GetByEmail(roles: seq<Roles.Role>, stored: seq<User>, email: string): (r: Option<User>)
    ensures r.Some? ==> r.value.email == email && r.value in ReadData(roles, stored)
    ensures r.None? <==> forall i :: 0 <= i < |stored| ==> stored[i].email != email
    ensures FirstIndex(stored, HasEmail(email)).Some? ==>
      r == Some(Resolve(roles, stored[FirstIndex(stored, HasEmail(email)).value]))
  {
    var users := ReadData(roles, stored);
    FirstIndexAgree(users, HasEmail(email), stored, HasEmail(email));
    FirstWhere(users, HasEmail(email))
  }

  /** `GetById`: the first (resolved) user with the id. */
  function GetById(roles: seq<Roles.Role>, stored: seq<User>, id: int): (r: Option<User>)
    ensures r.Some? ==> r.value.id == id && r.value in ReadData(roles, stored)
    ensures r.None? <==> forall i :: 0 <= i < |stored| ==> stored[i].id != id
  {
    FirstWhere(ReadData(roles, stored), HasId(id))
  }

  /** `Add`: the list written back is the resolved list plus the new user, whose id is
      `max(id) + 1` (1 when there are no users). */
  function Add(roles: seq<Roles.Role>, stored: seq<User>, user: User): (r: seq<User>)
    ensures |r| == |stored| + 1 && r[..|stored|] == ReadData(roles, stored)
    ensures r[|stored|] == user.(id := r[|stored|].id)
    ensures forall i :: 0 <= i < |stored| ==> stored[i].id < r[|stored|].id
    ensures |stored| == 0 ==> r[0].id == 1
  {
    var users := ReadData(roles, stored);
    users + [user.(id := NextId(users, UserId))]
  }

  /** `Update`: the first user with the submitted user's id is replaced by it; the other
      users keep their place. With no such user nothing is written. */
  function Update(roles: seq<Roles.Role>, stored: seq<User>, user: User): (r: Option<seq<User>>)
    ensures r.None? <==> forall i :: 0 <= i < |stored| ==> stored[i].id != user.id
    ensures r.Some? ==> exists i :: (0 <= i < |stored| && stored[i].id == user.id
                                     && (forall j :: 0 <= j < i ==> stored[j].id != user.id)
                                     && r.value == ReadData(roles, stored)[i := user])
  {
    var users := ReadData(roles, stored);
    match FirstIndex(users, HasId(user.id))
    case None => None
    case Some(i) =>
      FirstWithId(roles, stored, user.id, i);
      Some(users[i := user])
  }

  /** `Delete`: the first user with the id is removed; the others keep their order. With no
      such user nothing is written. */
  function Delete(roles: seq<Roles.Role>, stored: seq<User>, id: int): (r: Option<seq<User>>)
    ensures r.None? <==> forall i :: 0 <= i < |stored| ==> stored[i].id != id
    ensures r.Some? ==> exists i :: (0 <= i < |stored| && stored[i].id == id
                                     && (forall j :: 0 <= j < i ==> stored[j].id != id)
                                     && r.value == ReadData(roles, stored)[..i] + ReadData(roles, stored)[i + 1..])
  {
    var users := ReadData(roles, stored);
    match FirstIndex(users, HasId(id))
    case None => None
    case Some(i) =>
      FirstWithId(roles, stored, id, i);
      Some(users[..i] + users[i + 1..])
  }

  /** The first stored record with an id is the user that lookups by the id find and that
      `Update` rewrites. */
  lemma LocateId(roles: seq<Roles.Role>, stored: seq<User>, id: int, i: nat)
    requires i < |stored| && stored[i].id == id
    requires forall j :: 0 <= j < i ==> stored[j].id != id
    ensures FirstIndex(ReadData(roles, stored), HasId(id)) == Some(i)
    ensures GetById(roles, stored, id) == Some(ReadData(roles, stored)[i])
  {
    var users := ReadData(roles, stored);
    assert HasId(id)(users[i]);
    forall j | 0 <= j < i
      ensures !HasId(id)(users[j])
    {
      assert users[j].id == stored[j].id;
    }
  }

  /** A read keeps every id in place, so the first user with an id sits where the first
      stored record with it does. */
  lemma FirstWithId(roles: seq<Roles.Role>, stored: seq<User>, id: int, i: nat)
    requires FirstIndex(ReadData(roles, stored), HasId(id)) == Some(i)
    ensures i < |stored| && stored[i].id == id
    ensures forall j :: 0 <= j < i ==> stored[j].id != id
  {
    var users := ReadData(roles, stored);
    forall j | 0 <= j < i
      ensures stored[j].id != id
    {
      assert !HasId(id)(users[j]);
    }
  }

  /** A user added under an email nobody has is what a later lookup by that email finds,
      exactly as written. */
  lemma AddThenGetByEmail(roles: seq<Roles.Role>, stored: seq<User>, user: User)
    requires forall i :: 0 <= i < |stored| ==> stored[i].email != user.email
    ensures var written := Add(roles, stored, user);
      GetByEmail(roles, written, user.email) == Some(Resolve(roles, written[|stored|]))
  {
    var written := Add(roles, stored, user);
    forall j | 0 <= j < |stored|
      ensures !HasEmail(user.email)(written[j])
    {
      assert written[j] == ReadData(roles, stored)[j];
    }
    assert HasEmail(user.email)(written[|stored|]);
    assert FirstIndex(written, HasEmail(user.email)) == Some(|stored|);
  }
}

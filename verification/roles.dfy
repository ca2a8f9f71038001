/** The role registry (`JsonRoleRepository`): named permission sets, seeded with four
    defaults when the roles file does not exist, looked up by name ignoring case. */
module Roles {
  import opened Wrappers
  import opened Seqs
  import opened Text
  import opened Storage

  datatype Role = Role(
    id: int,
    name: string,
    permittedWidgets: seq<string>,
    canViewUsers: bool,
    canAddUser: bool,
    canEditUser: bool,
    canDeleteUser: bool,
    canAccessDashboard: bool,
    canAccessWidgets: bool,
    canAccessSettings: bool)

  /** The widget catalog the widget repository seeds, in id order 1..11. */
  const WidgetCatalog: seq<string> := [
    "Weather Details", "Currency Conversion", "Time Conversion", "Headlines / News",
    "World Countries", "Personal Notes", "Habit Tracker", "Emergency Numbers",
    "Language Translator", "PDF Converter", "Goal Tracking"]

  const UserWidgets: seq<string> := [
    "Weather Details", "Currency Conversion", "Time Conversion", "Headlines / News",
    "World Countries", "Emergency Numbers", "Language Translator", "Goal Tracking"]

  const PrivateWidgets: seq<string> := [
    "Weather Details", "Time Conversion", "Personal Notes", "Emergency Numbers",
    "Language Translator"]

  const VisitorWidgets: seq<string> := [
    "Weather Details", "Currency Conversion", "Time Conversion", "Headlines / News",
    "World Countries", "Emergency Numbers"]

  /** Every widget of `ws` is in the catalog. */
  predicate InCatalog(ws: seq<string>) {
    forall i :: 0 <= i < |ws| ==> ws[i] in WidgetCatalog
  }

  /** The four roles written when the roles file is missing. */
  function SeedRoles(): (r: seq<Role>)
    ensures |r| == 4
    ensures forall i :: 0 <= i < 4 ==> r[i].id == i + 1
    ensures r[0].name == "Admin" && r[1].name == "User" && r[2].name == "Private" && r[3].name == "Visitor"
    ensures forall i, j :: 0 <= i < j < 4 ==> !EqualsIgnoreCase(r[i].name, r[j].name)
    ensures forall i :: 0 <= i < 4 ==> InCatalog(r[i].permittedWidgets)
    ensures r[0].permittedWidgets == WidgetCatalog
    ensures forall i :: 0 <= i < 4 ==> r[i].canAccessDashboard
    ensures r[0].canAddUser && r[0].canEditUser && r[0].canDeleteUser && r[0].canAccessSettings
    ensures forall i :: 1 <= i < 4 ==> !r[i].canAddUser && !r[i].canEditUser && !r[i].canDeleteUser && !r[i].canAccessSettings
  {
    var seeds := [
      Role(1, "Admin", WidgetCatalog, true, true, true, true, true, true, true),
      Role(2, "User", UserWidgets, true, false, false, false, true, true, false),
      Role(3, "Private", PrivateWidgets, false, false, false, false, true, true, false),
      Role(4, "Visitor", VisitorWidgets, false, false, false, false, true, false, false)];
    assert Lower("Admin") == "admin" && Lower("User") == "user";
    assert Lower("Private") == "private" && Lower("Visitor") == "visitor";
    seeds
  }

  /** The constructor: a missing roles file is created holding the seed roles. */
  function AfterConstruction(f: StoredFile<Role>): (r: StoredFile<Role>)
    ensures f.Missing? ==> ReadData(r) == Ok(SeedRoles())
    ensures !f.Missing? ==> r == f
  {
    if f.Missing? then Records(SeedRoles()) else f
  }

  function RoleId(r: Role): int { r.id }

  function NamedIgnoringCase(name: string): Role -> bool {
    (r: Role) => EqualsIgnoreCase(r.name, name)
  }

  function IdOrName(role: Role): Role -> bool {
    (r: Role) => r.id == role.id || EqualsIgnoreCase(r.name, role.name)
  }

  /** `GetByName`: the first role whose name equals `name` ignoring case. */
  function GetByName(roles: seq<Role>, name: string): (r: Option<Role>)
    ensures r.Some? ==> EqualsIgnoreCase(r.value.name, name)
    ensures r.Some? ==> exists i :: (0 <= i < |roles| && roles[i] == r.value
                                     && forall j :: 0 <= j < i ==> !EqualsIgnoreCase(roles[j].name, name))
    ensures r.None? <==> forall i :: 0 <= i < |roles| ==> !EqualsIgnoreCase(roles[i].name, name)
  {
    FirstWhere(roles, NamedIgnoringCase(name))
  }

  /** `Add`: the role gets `max(id) + 1` (1 in an empty store) and is appended. */
  function Add(roles: seq<Role>, role: Role): (r: seq<Role>)
    ensures |r| == |roles| + 1 && r[..|roles|] == roles
    ensures r[|roles|] == role.(id := r[|roles|].id)
    ensures forall i :: 0 <= i < |roles| ==> roles[i].id < r[|roles|].id
    ensures |roles| == 0 ==> r[0].id == 1
  {
    roles + [role.(id := NextId(roles, RoleId))]
  }

  /** `Update`: the first role that has the submitted role's id OR its name (ignoring case)
      is replaced by the submitted role. */
  function Update(roles: seq<Role>, role: Role): (r: seq<Role>)
    ensures |r| == |roles|
    ensures (forall i :: 0 <= i < |roles| ==> !IdOrName(role)(roles[i])) ==> r == roles
    ensures forall i :: 0 <= i < |roles| && IdOrName(role)(roles[i]) ==>
      (forall j :: 0 <= j < i ==> !IdOrName(role)(roles[j])) ==> r == roles[i := role]
  {
    ReplaceFirst(roles, IdOrName(role), role)
  }

  ghost predicate UniqueIds(roles: seq<Role>) {
    forall i, j :: 0 <= i < j < |roles| ==> roles[i].id != roles[j].id
  }

  /** The name half of `Update`'s match can replace a role that has a different id, so an
      update can leave two roles sharing an id: updating the seeds with a role whose id is 2
      and whose name is "ADMIN" overwrites Admin (id 1) instead of User (id 2). */
  lemma UpdateByNameCanDuplicateIds()
    ensures var upd := Role(2, "ADMIN", [], false, false, false, false, false, false, false);
      UniqueIds(SeedRoles()) && !UniqueIds(Update(SeedRoles(), upd))
  {
    var seeds := SeedRoles();
    var upd := Role(2, "ADMIN", [], false, false, false, false, false, false, false);
    AdminInCapitals();
    assert IdOrName(upd)(seeds[0]);
    var r := Update(seeds, upd);
    assert r == seeds[0 := upd];
    assert r[0].id == 2 && r[1].id == 2;
  }

  lemma AdminInCapitals()
    ensures EqualsIgnoreCase("Admin", "ADMIN")
  {
    assert Lower("ADMIN") == "admin" == Lower("Admin");
  }

  /** An update whose id and name are both new leaves the registry unchanged. */
  lemma UpdateUnknownIsNoOp(roles: seq<Role>, role: Role)
    requires forall i :: 0 <= i < |roles| ==> roles[i].id != role.id && !EqualsIgnoreCase(roles[i].name, role.name)
    ensures Update(roles, role) == roles
  {
  }
}

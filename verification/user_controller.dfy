/** The decision rules of the user-administration controller (`UserController`): widget
    allow-listing per role, the user list's visibility/filter/search/sort, OTP-gated user
    creation, editing with password-keep-on-blank, and the login-history window. Session,
    TempData, ModelState and view rendering become inputs and outputs; the clock and the
    random OTP draw are parameters. */
module UserController {
  import opened Wrappers
  import opened Seqs
  import opened Text
  import opened Digits
  import opened Clock
  import opened Sorting
  import Roles
  import Users

  // ---------------------------------------------------------------- widgets

  /** The allow-list for the "User" role. */
  const UserAllowList: seq<string> := [
    "Weather Details", "Currency Conversion", "Time Conversion", "Headlines / News",
    "World Countries", "Emergency Numbers", "Language Translator", "Goal Tracking"]

  /** The allow-list for the "Private" role. */
  const PrivateAllowList: seq<string> := [
    "Weather Details", "Time Conversion", "Personal Notes", "Emergency Numbers",
    "Language Translator"]

  function AllowedBy(allowed: seq<string>): string -> bool {
    (w: string) => w in allowed
  }

  /** `GetAuthorizedWidgets`: "Admin" keeps every requested widget; "User" and "Private"
      keep, in request order, the requested widgets on their allow-list; every other role
      name gets none. Role names are compared case-sensitively. */
  function GetAuthorizedWidgets(role: string, requested: seq<string>): (r: seq<string>)
    ensures role == "Admin" ==> r == requested
    ensures role == "User" ==> forall i :: 0 <= i < |r| ==> r[i] in requested && r[i] in UserAllowList
    ensures role == "User" ==> forall i :: 0 <= i < |requested| && requested[i] in UserAllowList ==> requested[i] in r
    ensures role == "Private" ==> forall i :: 0 <= i < |r| ==> r[i] in requested && r[i] in PrivateAllowList
    ensures role == "Private" ==> forall i :: 0 <= i < |requested| && requested[i] in PrivateAllowList ==> requested[i] in r
    ensures role == "User" ==>
      forall w :: multiset(r)[w] == if w in UserAllowList then multiset(requested)[w] else 0
    ensures role == "Private" ==>
      forall w :: multiset(r)[w] == if w in PrivateAllowList then multiset(requested)[w] else 0
    ensures role != "Admin" && role != "User" && role != "Private" ==> r == []
  {
    if role == "Admin" then requested
    else if role == "User" then
      FilterCounts(requested, AllowedBy(UserAllowList));
      Filter(requested, AllowedBy(UserAllowList))
    else if role == "Private" then
      FilterCounts(requested, AllowedBy(PrivateAllowList));
      Filter(requested, AllowedBy(PrivateAllowList))
    else []
  }

  /** A widget requested twice and allowed is kept twice: the filter drops no copies. */
  lemma RepeatedRequestKept()
    ensures GetAuthorizedWidgets("User", ["Weather Details", "Weather Details"])
      == ["Weather Details", "Weather Details"]
  {
    assert UserAllowList[0] == "Weather Details";
  }

  /** Whatever the role, the authorized widgets are the request with some entries deleted. */
  lemma AuthorizedIsSubsequence(role: string, requested: seq<string>)
    ensures IsSubsequence(GetAuthorizedWidgets(role, requested), requested)
  {
    if role == "User" {
      FilterIsSubsequence(requested, AllowedBy(UserAllowList));
    } else if role == "Private" {
      FilterIsSubsequence(requested, AllowedBy(PrivateAllowList));
    } else if role != "Admin" {
    } else {
      SubsequenceReflexive(requested);
    }
  }

  lemma {:induction false} SubsequenceReflexive(s: seq<string>)
    ensures IsSubsequence(s, s)
    decreases |s|
  {
    if |s| > 0 {
      SubsequenceReflexive(s[1..]);
    }
  }

  /** The controller's allow-lists coincide with the widget lists of the seeded "User" and
      "Private" roles, and a "User"/"Private" request is left as it is exactly when it stays
      inside its role's seeded list. */
  lemma AllowListsMatchSeeds(requested: seq<string>)
    ensures UserAllowList == Roles.SeedRoles()[1].permittedWidgets
    ensures PrivateAllowList == Roles.SeedRoles()[2].permittedWidgets
    ensures (forall i :: 0 <= i < |requested| ==> requested[i] in UserAllowList) ==>
      GetAuthorizedWidgets("User", requested) == requested
  {
    if forall i :: 0 <= i < |requested| ==> requested[i] in UserAllowList {
      FilterAll(requested, AllowedBy(UserAllowList));
    }
  }

  // ---------------------------------------------------------------- user list

  /** The column-header links of the user list: the sort order each header requests next. */
  datatype SortLinks = SortLinks(name: string, email: string, login: string, date: string, role: string)

  function NextSortLinks(sortOrder: string): (l: SortLinks)
    ensures l.name == (if sortOrder == "" then "name_desc" else "")
    ensures sortOrder == "Email" <==> l.email == "email_desc"
    ensures sortOrder == "Login" <==> l.login == "login_desc"
    ensures sortOrder == "Date" <==> l.date == "date_desc"
    ensures sortOrder == "Role" <==> l.role == "role_desc"
    ensures sortOrder != "Email" ==> l.email == "Email"
    ensures sortOrder != "Login" ==> l.login == "Login"
    ensures sortOrder != "Date" ==> l.date == "Date"
    ensures sortOrder != "Role" ==> l.role == "Role"
  {
    SortLinks(
      if sortOrder == "" then "name_desc" else "",
      if sortOrder == "Email" then "email_desc" else "Email",
      if sortOrder == "Login" then "login_desc" else "Login",
      if sortOrder == "Date" then "date_desc" else "Date",
      if sortOrder == "Role" then "role_desc" else "Role")
  }

  /** Following a column's link twice returns to the first order: each header alternates
      between ascending and descending. */
  lemma SortLinksAlternate()
    ensures NextSortLinks(NextSortLinks("").name).name == ""
    ensures NextSortLinks(NextSortLinks("Email").email).email == "Email"
    ensures NextSortLinks(NextSortLinks("Login").login).login == "Login"
    ensures NextSortLinks(NextSortLinks("Date").date).date == "Date"
    ensures NextSortLinks(NextSortLinks("Role").role).role == "Role"
  {
  }

  /** The listing request. A null `searchString` falls back to `currentFilter`; null sort
      order and filter are "" (they behave alike). */
  datatype ListQuery = ListQuery(
    sortOrder: string,
    currentFilter: string,
    searchString: Option<string>,
    filter: string)

  /** The sort key of a user under a sort order. Names, emails and role names go through
      the collation `collate`; a missing last-login date sorts before every date. */
  function SortKeyFor(sortOrder: string, collate: string -> Key): Users.User -> Key {
    (u: Users.User) =>
      if sortOrder == "Email" || sortOrder == "email_desc" then collate(u.email)
      else if sortOrder == "Login" || sortOrder == "login_desc" then [u.loginCount]
      else if sortOrder == "Date" || sortOrder == "date_desc" then
        (match u.lastLoginDate case None => [] case Some(d) => [d])
      else if sortOrder == "Role" || sortOrder == "role_desc" then collate(u.role)
      else collate(u.name)
  }

  function SortDirectionFor(sortOrder: string): Direction {
    if sortOrder in {"name_desc", "email_desc", "login_desc", "date_desc", "role_desc"} then Descending
    else Ascending
  }

  /** The search term in effect. */
  function SearchTerm(q: ListQuery): string {
    match q.searchString
    case Some(s) => s
    case None => q.currentFilter
  }

  /** Whether a user survives the visibility rule, the "today" filter and the search. */
  predicate Listed(u: Users.User, q: ListQuery, callerIsAdmin: bool, today: nat) {
    && (callerIsAdmin || u.role != "Private")
    && (q.filter == "today" ==> u.lastLoginDate.Some? && DayOf(u.lastLoginDate.value) == today)
    && (SearchTerm(q) != "" ==> ContainsIgnoreCase(u.name, SearchTerm(q)) || ContainsIgnoreCase(u.email, SearchTerm(q)))
  }

  function ListedBy(q: ListQuery, callerIsAdmin: bool, today: nat): Users.User -> bool {
    (u: Users.User) => Listed(u, q, callerIsAdmin, today)
  }

  /** `Index`: the listed users, stably sorted by the requested column (by name ascending
      when the sort order is not one of the nine known values). */
  function Index(users: seq<Users.User>, q: ListQuery, callerIsAdmin: bool, today: nat, collate: string -> Key): (r: seq<Users.User>)
    ensures forall i :: 0 <= i < |r| ==> r[i] in users && Listed(r[i], q, callerIsAdmin, today)
    ensures forall i :: 0 <= i < |users| && Listed(users[i], q, callerIsAdmin, today) ==> users[i] in r
    ensures Sorted(r, SortKeyFor(q.sortOrder, collate), SortDirectionFor(q.sortOrder))
    ensures multiset(r) == multiset(Filter(users, ListedBy(q, callerIsAdmin, today)))
  {
    var kept := Filter(users, ListedBy(q, callerIsAdmin, today));
    SortBySameElements(kept, SortKeyFor(q.sortOrder, collate), SortDirectionFor(q.sortOrder));
    SortBy(kept, SortKeyFor(q.sortOrder, collate), SortDirectionFor(q.sortOrder))
  }

  /** The default order is by name, ascending. */
  lemma DefaultSortIsByName(users: seq<Users.User>, q: ListQuery, callerIsAdmin: bool, today: nat, collate: string -> Key)
    requires q.sortOrder !in {"name_desc", "Email", "email_desc", "Login", "login_desc", "Date", "date_desc", "Role", "role_desc"}
    ensures var r := Index(users, q, callerIsAdmin, today, collate);
      forall i, j :: 0 <= i < j < |r| ==> KeyLe(collate(r[i].name), collate(r[j].name))
  {
    var r := Index(users, q, callerIsAdmin, today, collate);
    assert SortDirectionFor(q.sortOrder) == Ascending;
    forall i, j | 0 <= i < j < |r|
      ensures KeyLe(collate(r[i].name), collate(r[j].name))
    {
      assert InOrder(Ascending, SortKeyFor(q.sortOrder, collate)(r[i]), SortKeyFor(q.sortOrder, collate)(r[j]));
    }
  }

  // ---------------------------------------------------------------- creation with OTP

  /** Minutes an OTP stays valid, in seconds. */
  const OtpLifetime: nat := 5 * 60

  datatype CreateOutcome =
    | InvalidForm                          // the form is redisplayed
    | EmailTaken                           // "Email already exists."
    | Pending(user: Users.User, emailBody: string)  // held until the code is confirmed

  /** `Create` (POST). `draw` is `Random.Next(100000, 999999)`, so it lies in
      [100000, 999998]; `now` is the clock. */
  function Create(roles: seq<Roles.Role>, stored: seq<Users.User>, form: Users.User, role: string,
                  formValid: bool, draw: nat, now: nat): (r: CreateOutcome)
    requires 100000 <= draw <= 999998
    ensures !formValid ==> r == InvalidForm
    ensures formValid && Users.GetByEmail(roles, stored, form.email).Some? ==> r == EmailTaken
    ensures formValid && Users.GetByEmail(roles, stored, form.email).None? ==> r.Pending?
    ensures r.Pending? ==>
      && r.user.otp.Some? && |r.user.otp.value| == 6 && AllDigits(r.user.otp.value)
      && ParseNat(r.user.otp.value) == Some(draw)
      && r.user.otpExpiry == Some(now + OtpLifetime)
      && !r.user.isEmailVerified
      && r.user.role == role
      && r.user.permittedWidgets == GetAuthorizedWidgets(role, form.permittedWidgets)
      && r.user.email == form.email && r.user.password == form.password
  {
    if !formValid then InvalidForm
    else if Users.GetByEmail(roles, stored, form.email).Some? then EmailTaken
    else
      var otp := NatToString(draw);
      assert Pow10(5) == 100000 && Pow10(6) == 1000000;
      NatToStringLength(draw, 6);
      ParseNatToString(draw);
      var pending := form.(
        isEmailVerified := false,
        otp := Some(otp),
        otpExpiry := Some(now + OtpLifetime),
        permittedWidgets := GetAuthorizedWidgets(role, form.permittedWidgets),
        role := role);
      Pending(pending, "Your verification code is: " + otp)
  }

  datatype VerifyOutcome = Added(written: seq<Users.User>) | InvalidOrExpired

  /** Whether a pending user accepts a submitted code at time `now`. */
  predicate OtpAccepted(pending: Users.User, code: string, now: nat) {
    pending.otp == Some(code) && pending.otpExpiry.Some? && pending.otpExpiry.value > now
  }

  /** `VerifyAddUserOtp` (POST): the pending user is added, verified and with its OTP
      cleared, exactly when the code matches and has not expired. */
  function VerifyOtp(roles: seq<Roles.Role>, stored: seq<Users.User>, pending: Option<Users.User>,
                     code: string, now: nat): (r: VerifyOutcome)
    ensures r.Added? <==> pending.Some? && OtpAccepted(pending.value, code, now)
    ensures r.Added? ==>
      && |r.written| == |stored| + 1
      && var added := r.written[|stored|];
      && added.isEmailVerified && added.otp.None? && added.otpExpiry.None?
      && added == pending.value.(isEmailVerified := true, otp := None, otpExpiry := None, id := added.id)
      && r.written[..|stored|] == Users.ReadData(roles, stored)
      && forall i :: 0 <= i < |stored| ==> stored[i].id < added.id
  {
    match pending
    case None => InvalidOrExpired
    case Some(u) =>
      if OtpAccepted(u, code, now) then
        Added(Users.Add(roles, stored, u.(isEmailVerified := true, otp := None, otpExpiry := None)))
      else InvalidOrExpired
  }

  /** The code e-mailed by `Create` completes the signup when it is entered before the
      five minutes are over, and is refused from the expiry instant on. */
  lemma CreateThenVerify(roles: seq<Roles.Role>, stored: seq<Users.User>, form: Users.User, role: string,
                         draw: nat, now: nat, later: nat)
    requires 100000 <= draw <= 999998
    requires Users.GetByEmail(roles, stored, form.email).None?
    requires now <= later
    ensures var c := Create(roles, stored, form, role, true, draw, now);
      c.Pending? && (VerifyOtp(roles, stored, Some(c.user), NatToString(draw), later).Added? <==> later < now + OtpLifetime)
  {
  }

  // ---------------------------------------------------------------- editing

  datatype EditOutcome = NotFound | Redisplay | Saved(written: seq<Users.User>)

  /** The user as `Edit` (POST) rewrites it from the form. The password is kept when the
      submitted one is blank. */
  function EditedUser(existing: Users.User, form: Users.User): (u: Users.User)
    ensures IsBlank(form.password) ==> u.password == existing.password && u.confirmPassword == existing.confirmPassword
    ensures !IsBlank(form.password) ==> u.password == form.password && u.confirmPassword == form.confirmPassword
    ensures u.id == existing.id && u.roleId == existing.roleId && u.loginHistory == existing.loginHistory
    ensures u.role == form.role && u.name == form.name && u.email == form.email
  {
    var u := existing.(
      name := form.name,
      email := form.email,
      securityPin := form.securityPin,
      isEmailVerified := form.isEmailVerified,
      permittedWidgets := GetAuthorizedWidgets(form.role, form.permittedWidgets),
      role := form.role);
    if !IsBlank(form.password) then u.(password := form.password, confirmPassword := form.confirmPassword)
    else u
  }

  /** `Edit` (POST) as written. `otherFieldsValid` is the model state without the password
      fields, `passwordValid` their validity; a blank password drops its validation. The role
      NAME is replaced but the role id is not. */
  function Edit(roles: seq<Roles.Role>, stored: seq<Users.User>, id: int, form: Users.User,
                otherFieldsValid: bool, passwordValid: bool): (r: EditOutcome)
    ensures Users.GetById(roles, stored, id).None? <==> r == NotFound
    ensures r.Saved? <==>
      (Users.GetById(roles, stored, id).Some? && otherFieldsValid && (IsBlank(form.password) || passwordValid))
    ensures r.Saved? ==> |r.written| == |stored|
  {
    match Users.GetById(roles, stored, id)
    case None => NotFound
    case Some(existing) =>
      if otherFieldsValid && (IsBlank(form.password) || passwordValid) then
        Saved(Users.Update(roles, stored, EditedUser(existing, form)).value)
      else Redisplay
  }

  /** A valid edit writes back the resolved list with the first user of that id rewritten
      from the form, and every other user where it was. Valid includes a blank password
      whose password fields fail validation, since a blank password drops that check. */
  lemma EditWritesEditedUser(roles: seq<Roles.Role>, stored: seq<Users.User>, id: int, form: Users.User, i: nat,
                             otherFieldsValid: bool, passwordValid: bool)
    requires i < |stored| && stored[i].id == id
    requires forall j :: 0 <= j < i ==> stored[j].id != id
    requires otherFieldsValid && (IsBlank(form.password) || passwordValid)
    ensures var users := Users.ReadData(roles, stored);
      Edit(roles, stored, id, form, otherFieldsValid, passwordValid) == Saved(users[i := EditedUser(users[i], form)])
  {
    var users := Users.ReadData(roles, stored);
    Users.LocateId(roles, stored, id, i);
    var e := EditedUser(users[i], form);
    assert e.id == id;
    assert Users.Update(roles, stored, e) == Some(users[i := e]);
  }

  /** A blank password removes the password fields from validation: with only the password
      fields in error, an edit of an existing user is saved exactly when the submitted
      password is blank, and redisplayed otherwise. */
  lemma BlankPasswordIgnoresPasswordErrors(roles: seq<Roles.Role>, stored: seq<Users.User>, id: int,
                                           form: Users.User)
    requires Users.GetById(roles, stored, id).Some?
    ensures Edit(roles, stored, id, form, true, false).Saved? <==> IsBlank(form.password)
    ensures EditCorrected(roles, stored, id, form, true, false).Saved? <==> IsBlank(form.password)
    ensures !IsBlank(form.password) ==> Edit(roles, stored, id, form, true, false) == Redisplay
  {
  }

  /** The role change made through `Edit` does not survive the next read: with the seeded
      roles, a "User" (role id 2) edited to "Admin" reads back as "User" with the User
      role's widgets. */
  lemma EditRoleChangeIsLost(u: Users.User)
    requires u.id == 7 && u.roleId == 2 && u.role == "User"
    ensures var roles := Roles.SeedRoles();
      var form := u.(role := "Admin");
      var e := Edit(roles, [u], 7, form, true, true);
      e.Saved? && Users.ReadData(roles, e.written)[0].role == "User"
      && Users.ReadData(roles, e.written)[0].permittedWidgets == Roles.UserWidgets
  {
    var roles := Roles.SeedRoles();
    var form := u.(role := "Admin");
    var e := Edit(roles, [u], 7, form, true, true);
    var stored := [u];
    assert Users.ReadData(roles, stored)[0].id == 7;
    assert FirstIndex(Users.ReadData(roles, stored), Users.HasId(7)) == Some(0);
    var w := e.written;
    assert w[0].roleId == 2;
    assert FirstIndex(roles, Users.RoleWithId(2)) == Some(1);
  }

  /** `Edit` with the role link kept consistent: the role id follows the submitted role name
      whenever a role of that name exists. */
  function EditCorrected(roles: seq<Roles.Role>, stored: seq<Users.User>, id: int, form: Users.User,
                         otherFieldsValid: bool, passwordValid: bool): (r: EditOutcome)
    ensures Users.GetById(roles, stored, id).None? <==> r == NotFound
    ensures r.Saved? <==>
      (Users.GetById(roles, stored, id).Some? && otherFieldsValid && (IsBlank(form.password) || passwordValid))
  {
    match Users.GetById(roles, stored, id)
    case None => NotFound
    case Some(existing) =>
      if otherFieldsValid && (IsBlank(form.password) || passwordValid) then
        var edited := EditedUser(existing, form);
        var linked := match Roles.GetByName(roles, form.role)
          case Some(role) => edited.(roleId := role.id)
          case None => edited;
        Saved(Users.Update(roles, stored, linked).value)
      else Redisplay
  }

  /** With unique role ids, a user edited to an existing role name reads back with that
      role's name, id and widgets. */
  lemma EditCorrectedRoleSticks(roles: seq<Roles.Role>, stored: seq<Users.User>, id: int, form: Users.User, k: nat)
    requires Roles.UniqueIds(roles) && k < |roles| && Roles.GetByName(roles, form.role) == Some(roles[k])
    requires exists i :: 0 <= i < |stored| && stored[i].id == id
    ensures var e := EditCorrected(roles, stored, id, form, true, true);
      e.Saved? && exists i :: (0 <= i < |e.written| && e.written[i].id == id
        && var u := Users.Resolve(roles, e.written[i]);
           u.role == roles[k].name && u.roleId == roles[k].id && u.permittedWidgets == roles[k].permittedWidgets)
  {
    var users := Users.ReadData(roles, stored);
    var existing := Users.GetById(roles, stored, id).value;
    var linked := EditedUser(existing, form).(roleId := roles[k].id);
    var i := FirstIndex(users, Users.HasId(linked.id)).value;
    var e := EditCorrected(roles, stored, id, form, true, true);
    assert e.written == users[i := linked];
    assert e.written[i] == linked;
    ResolveByUniqueId(roles, linked, k);
  }

  /** With unique role ids, a user linked to a role by id reads back as that role. */
  lemma ResolveByUniqueId(roles: seq<Roles.Role>, u: Users.User, k: nat)
    requires Roles.UniqueIds(roles) && k < |roles| && u.roleId == roles[k].id
    ensures var r := Users.Resolve(roles, u);
      r.role == roles[k].name && r.roleId == roles[k].id && r.permittedWidgets == roles[k].permittedWidgets
  {
    var f := FirstIndex(roles, Users.RoleWithId(roles[k].id));
    assert f.Some?;
    assert roles[f.value].id == roles[k].id;
    assert f == Some(k);
    assert FirstWhere(roles, Users.RoleWithId(roles[k].id)) == Some(roles[k]);
  }

  // ---------------------------------------------------------------- login history

  /** The window a history filter keeps, relative to `now` in seconds: "7days" and "30days"
      keep entries at or after `now` minus that many days; any other filter keeps all. */
  function InWindow(filter: string, now: nat): nat -> bool {
    (d: nat) =>
      if filter == "7days" then d as int >= now - 7 * SecondsPerDay
      else if filter == "30days" then d as int >= now - 30 * SecondsPerDay
      else true
  }

  function Instant(d: nat): Key { [d] }

  /** The history view: login instants newest first, restricted to the window. */
  function HistoryView(history: seq<nat>, filter: string, now: nat): (r: seq<nat>)
    ensures forall i, j :: 0 <= i < j < |r| ==> r[i] >= r[j]
    ensures forall i :: 0 <= i < |r| ==> r[i] in history && InWindow(filter, now)(r[i])
    ensures forall i :: 0 <= i < |history| && InWindow(filter, now)(history[i]) ==> history[i] in r
    ensures multiset(r) == multiset(Filter(history, InWindow(filter, now)))
  {
    var sorted := SortBy(history, Instant, Descending);
    NewestFirstInWindow(history, InWindow(filter, now));
    Filter(sorted, InWindow(filter, now))
  }

  /** Sorting the instants newest first and then keeping those a window passes gives a
      list in that order holding exactly the instants of the history the window passes. */
  lemma NewestFirstInWindow(history: seq<nat>, window: nat -> bool)
    ensures var r := Filter(SortBy(history, Instant, Descending), window);
      (forall i, j :: 0 <= i < j < |r| ==> r[i] >= r[j])
      && (forall i :: 0 <= i < |r| ==> r[i] in history && window(r[i]))
      && (forall i :: 0 <= i < |history| && window(history[i]) ==> history[i] in r)
      && multiset(r) == multiset(Filter(history, window))
  {
    var sorted := SortBy(history, Instant, Descending);
    SortBySameElements(history, Instant, Descending);
    FilterKeepsSorted(sorted, window, Instant, Descending);
    var r := Filter(sorted, window);
    assert forall i, j :: 0 <= i < j < |r| ==> InOrder(Descending, Instant(r[i]), Instant(r[j]));
    FilterSameElements(sorted, history, window);
  }

  /** `GetLoginHistory`: the history view of the user with the id; `None` (NotFound) when
      there is no such user. */
  function GetLoginHistory(roles: seq<Roles.Role>, stored: seq<Users.User>, id: int, filter: string, now: nat): (r: Option<seq<nat>>)
    ensures r.None? <==> Users.GetById(roles, stored, id).None?
    ensures r.Some? ==> r.value == HistoryView(Users.GetById(roles, stored, id).value.loginHistory, filter, now)
  {
    match Users.GetById(roles, stored, id)
    case None => None
    case Some(u) => Some(HistoryView(u.loginHistory, filter, now))
  }
}

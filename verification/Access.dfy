/**
 Users, roles and the cache of each user's role ids: what every operation does, and what the
 cache may be relied on for in between.
 */
module Access {
  import opened Wrappers
  import opened Paths
  import opened Identifiers
  import opened Tables

  datatype User = User(
    id: string, username: string, name: string, password: string, phone: string, email: string,
    remark: string, status: string, createdAt: int, updatedAt: int)

  const ACTIVATED := "activated"

  /** The account tables beside `store`, and the cached role ids per user. */
  datatype Accounts = Accounts(
    store: Store,
    users: map<string, User>,
    userRoles: map<string, UserRole>,
    cache: map<string, set<string>>)

  datatype UserForm = UserForm(
    username: string, name: string, password: string, phone: string, email: string, remark: string,
    status: string, roles: seq<UserRole>)

  datatype Profile = Profile(name: string, phone: string, email: string, remark: string)

  datatype RoleForm = RoleForm(
    code: string, name: string, description: string, sequence: int, status: string, menus: seq<RoleMenu>)

  datatype AccessError = NotFound | NameExists | DuplicateKey | BadCredentials | NotActivated | InvalidToken | RootUser

  /** An id that occurs nowhere in tables or cache. */
  ghost predicate Unused(a: Accounts, id: string) {
    && Fresh(a.store, id) && id !in a.users && id !in a.userRoles && id !in a.cache
    && (forall k :: k in a.userRoles ==> a.userRoles[k].userID != id && a.userRoles[k].roleID != id)
    && (forall u :: u in a.cache ==> id !in a.cache[u])
  }

  ghost predicate IsAccountIdSource(gen: Accounts -> string) {
    forall a: Accounts :: IsId(gen(a)) && Unused(a, gen(a))
  }

  type AccountIdSource = gen: Accounts -> string | IsAccountIdSource(gen) ghost witness UnusedAccountId

  ghost function UnusedAccountId(a: Accounts): (id: string)
    ensures IsId(id) && Unused(a, id)
  {
    var mentioned :=
      a.users.Keys + a.userRoles.Keys + a.cache.Keys
      + (set k | k in a.userRoles :: a.userRoles[k].userID)
      + (set k | k in a.userRoles :: a.userRoles[k].roleID)
      + (set u, r | u in a.cache && r in a.cache[u] :: r);
    var id := LongerThanAll(UsedIds(a.store) + mentioned);
    FreshOutside(a.store, id);
    assert id !in mentioned;
    id
  }

  /** `GetRoleIDs`. */
  function RoleIDs(userRoles: map<string, UserRole>, userID: string): set<string> {
    set k | k in userRoles && userRoles[k].userID == userID :: userRoles[k].roleID
  }

  predicate ExistsUsername(users: map<string, User>, username: string) {
    exists k :: k in users && users[k].username == username
  }

  predicate ExistsRoleCode(roles: map<string, Role>, code: string) {
    exists k :: k in roles && roles[k].code == code
  }

  /** `hashed` stands for the password hash, computed only when the form carries a password. */
  function FillUser(f: UserForm, u: User, hashed: string): User {
    u.(username := f.username, name := f.name, phone := f.phone, email := f.email, remark := f.remark,
    status := f.status, password := if f.password != "" then hashed else u.password)
  }

  function FillRole(f: RoleForm, r: Role): Role {
    r.(code := f.code, name := f.name, description := f.description, sequence := f.sequence, status := f.status)
  }

  /** `Create` gives every row of the form a new id; `Update` keeps the ids that rows carry. */
  function AddUserRoles(a: Accounts, rows: seq<UserRole>, userID: string, keepIDs: bool, gen: AccountIdSource)
    : Result<Accounts, AccessError>
    decreases |rows|
  {
    if rows == [] then Success(a)
    else
      var id := if keepIDs && rows[0].id != "" then rows[0].id else gen(a);
      if id in a.userRoles then Failure(DuplicateKey)
      else
        var a' := a.(userRoles := a.userRoles[id := UserRole(id, userID, rows[0].roleID)]);
        AddUserRoles(a', rows[1..], userID, keepIDs, gen)
  }

  function AddRoleMenus(a: Accounts, rows: seq<RoleMenu>, roleID: string, keepIDs: bool, gen: AccountIdSource)
    : Result<Accounts, AccessError>
    decreases |rows|
  {
    if rows == [] then Success(a)
    else
      var id := if keepIDs && rows[0].id != "" then rows[0].id else gen(a);
      if id in a.store.roleMenus then Failure(DuplicateKey)
      else
        var s := a.store.(roleMenus := a.store.roleMenus[id := RoleMenu(id, roleID, rows[0].menuID)]);
        AddRoleMenus(a.(store := s), rows[1..], roleID, keepIDs, gen)
  }

  function CreateUser(
      a: Accounts, f: UserForm, hashed: string, gen: AccountIdSource, now: int): Result<Accounts, AccessError> {
    if ExistsUsername(a.users, f.username) then Failure(NameExists)
    else
      var id := gen(a);
      // the form's password, or the configured default, is always hashed
      var user := FillUser(f, User(id, "", "", hashed, "", "", "", "", now, now), hashed);
      AddUserRoles(a.(users := a.users[id := user]), f.roles, id, false, gen)
  }

  function UpdateUser(a: Accounts, id: string, f: UserForm, hashed: string, gen: AccountIdSource, now: int)
    : Result<Accounts, AccessError>
  {
    if id !in a.users then Failure(NotFound)
    else if a.users[id].username != f.username && ExistsUsername(a.users, f.username) then Failure(NameExists)
    else
      var a1 := a.(users := a.users[id := FillUser(f, a.users[id], hashed).(updatedAt := now)],
                   userRoles := map k | k in a.userRoles && a.userRoles[k].userID != id :: a.userRoles[k]);
      match AddUserRoles(a1, f.roles, id, true, gen)
      case Failure(e) => Failure(e)
      case Success(a2) => Success(a2.(cache := a2.cache - {id}))
  }

  function DeleteUser(a: Accounts, id: string): Result<Accounts, AccessError> {
    if id !in a.users then Failure(NotFound)
    else Success(a.(users := a.users - {id},
                    userRoles := map k | k in a.userRoles && a.userRoles[k].userID != id :: a.userRoles[k],
                    cache := a.cache - {id}))
  }

  /** `ResetPassword`, to the configured default; `hashed` stands for its hash. */
  function ResetPassword(a: Accounts, id: string, hashed: string, now: int): Result<Accounts, AccessError> {
    if id !in a.users then Failure(NotFound)
    else Success(a.(users := a.users[id := a.users[id].(password := hashed, updatedAt := now)]))
  }

  /** A user's own change of password; `oldOk` stands for the comparison with the old one. */
  function UpdatePassword(
      a: Accounts, id: string, oldOk: bool, hashed: string, now: int): Result<Accounts, AccessError> {
    if id !in a.users then Failure(NotFound)
    else if !oldOk then Failure(BadCredentials)
    else Success(a.(users := a.users[id := a.users[id].(password := hashed, updatedAt := now)]))
  }

  /** A user's own change of profile: four fields and no other. */
  function UpdateProfile(a: Accounts, id: string, p: Profile, now: int): Result<Accounts, AccessError> {
    if id !in a.users then Failure(NotFound)
    else
      var user :=
        a.users[id].(name := p.name, phone := p.phone, email := p.email, remark := p.remark, updatedAt := now);
      Success(a.(users := a.users[id := user]))
  }

  function UsernameMatches(users: map<string, User>, username: string): set<string> {
    set k | k in users && users[k].username == username
  }

  /** The login of a user other than root; `passwordOk` stands for the hash comparison. */
  function Login(a: Accounts, username: string, passwordOk: bool): Result<Accounts, AccessError> {
    var ids := UsernameMatches(a.users, username);
    if ids == {} then Failure(BadCredentials)
    else
      var id := Least(ids);
      if a.users[id].status != ACTIVATED then Failure(NotActivated)
      else if !passwordOk then Failure(BadCredentials)
      else Success(a.(cache := a.cache[id := RoleIDs(a.userRoles, id)]))
  }

  /** `ParseUserID` for a valid token of a user other than root: the roles the request runs with, and the new state. */
  function ParseUserID(a: Accounts, userID: string): Result<(Accounts, set<string>), AccessError> {
    if userID in a.cache then Success((a, a.cache[userID]))
    else if userID !in a.users || a.users[userID].status != ACTIVATED then Failure(InvalidToken)
    else
      var ids := RoleIDs(a.userRoles, userID);
      Success((a.(cache := a.cache[userID := ids]), ids))
  }

  /** `Logout` and the expiry of an entry both just drop it. */
  function Forget(a: Accounts, userID: string): Accounts {
    a.(cache := a.cache - {userID})
  }

  function Stamp(a: Accounts, now: int): Accounts {
    a.(store := a.store.(stamp := Some(now)))
  }

  function CreateRole(a: Accounts, f: RoleForm, gen: AccountIdSource, now: int): Result<Accounts, AccessError> {
    if ExistsRoleCode(a.store.roles, f.code) then Failure(NameExists)
    else
      var id := gen(a);
      var s := a.store.(roles := a.store.roles[id := FillRole(f, Role(id, "", "", "", 0, ""))]);
      match AddRoleMenus(a.(store := s), f.menus, id, false, gen)
      case Failure(e) => Failure(e)
      case Success(a1) => Success(Stamp(a1, now))
  }

  function UpdateRole(
      a: Accounts, id: string, f: RoleForm, gen: AccountIdSource, now: int): Result<Accounts, AccessError> {
    if id !in a.store.roles then Failure(NotFound)
    else if a.store.roles[id].code != f.code && ExistsRoleCode(a.store.roles, f.code) then Failure(NameExists)
    else
      var s := a.store.(roles := a.store.roles[id := FillRole(f, a.store.roles[id])],
                        roleMenus := WithoutRole(a.store.roleMenus, id));
      match AddRoleMenus(a.(store := s), f.menus, id, true, gen)
      case Failure(e) => Failure(e)
      case Success(a1) => Success(Stamp(a1, now))
  }

  function WithoutRole(roleMenus: map<string, RoleMenu>, id: string): map<string, RoleMenu> {
    map k | k in roleMenus && roleMenus[k].roleID != id :: roleMenus[k]
  }

  function DeleteRole(a: Accounts, id: string, now: int): Result<Accounts, AccessError> {
    if id !in a.store.roles then Failure(NotFound)
    else
      var s := a.store.(roles := a.store.roles - {id}, roleMenus := WithoutRole(a.store.roleMenus, id));
      Success(Stamp(a.(store := s,
                       userRoles := map k | k in a.userRoles && a.userRoles[k].roleID != id :: a.userRoles[k]), now))
  }

  // ----- coherence -----

  /** One cached entry may be relied on. */
  ghost predicate EntryCoherent(a: Accounts, u: string)
    requires u in a.cache
  {
    && u in a.users && a.users[u].status == ACTIVATED
    && RoleIDs(a.userRoles, u) <= a.cache[u]
    && (forall r :: r in a.cache[u] && r !in RoleIDs(a.userRoles, u) ==> r !in a.store.roles)
  }

  ghost predicate Coherent(a: Accounts) {
    forall u :: u in a.cache ==> EntryCoherent(a, u)
  }

  ghost predicate UsersKeyed(a: Accounts) {
    forall k :: k in a.users ==> a.users[k].id == k
  }

  /** Of the roles that exist, a cached user has exactly the cached ones. */
  lemma CoherentRoles(a: Accounts, u: string, r: string)
    requires Coherent(a) && u in a.cache && r in a.store.roles
    ensures r in a.cache[u] <==> r in RoleIDs(a.userRoles, u)
  {
    assert EntryCoherent(a, u);
  }

  lemma {:induction false} AddUserRolesEffect(
      a: Accounts, rows: seq<UserRole>, userID: string, keepIDs: bool, gen: AccountIdSource)
    requires AddUserRoles(a, rows, userID, keepIDs, gen).Success?
    ensures var t := AddUserRoles(a, rows, userID, keepIDs, gen).value;
            && t == a.(userRoles := t.userRoles)
            && (forall k :: k in a.userRoles ==> k in t.userRoles && t.userRoles[k] == a.userRoles[k])
            && (forall k :: k in t.userRoles && k !in a.userRoles ==> t.userRoles[k].userID == userID)
    decreases |rows|
  {
    if rows != [] {
      var id := if keepIDs && rows[0].id != "" then rows[0].id else gen(a);
      var a' := a.(userRoles := a.userRoles[id := UserRole(id, userID, rows[0].roleID)]);
      AddUserRolesEffect(a', rows[1..], userID, keepIDs, gen);
    }
  }

  /** Rows that all get new ids are always inserted. */
  lemma {:induction false} NewRowsNeverCollide(a: Accounts, rows: seq<UserRole>, userID: string, gen: AccountIdSource)
    ensures AddUserRoles(a, rows, userID, false, gen).Success?
    decreases |rows|
  {
    if rows != [] {
      var id := gen(a);
      var a' := a.(userRoles := a.userRoles[id := UserRole(id, userID, rows[0].roleID)]);
      NewRowsNeverCollide(a', rows[1..], userID, gen);
    }
  }

  function RoleIDsOf(rows: seq<UserRole>): set<string> {
    set i | 0 <= i < |rows| :: rows[i].roleID
  }

  lemma {:induction false} AddUserRolesIDs(
      a: Accounts, rows: seq<UserRole>, userID: string, keepIDs: bool, gen: AccountIdSource)
    requires AddUserRoles(a, rows, userID, keepIDs, gen).Success?
    ensures RoleIDs(AddUserRoles(a, rows, userID, keepIDs, gen).value.userRoles, userID)
         == RoleIDs(a.userRoles, userID) + RoleIDsOf(rows)
    decreases |rows|
  {
    if rows != [] {
      var id := if keepIDs && rows[0].id != "" then rows[0].id else gen(a);
      var a' := a.(userRoles := a.userRoles[id := UserRole(id, userID, rows[0].roleID)]);
      AddUserRolesIDs(a', rows[1..], userID, keepIDs, gen);
      AddedRole(a.userRoles, id, userID, rows[0].roleID);
      FirstRole(rows);
    }
  }

  lemma AddedRole(userRoles: map<string, UserRole>, id: string, userID: string, roleID: string)
    requires id !in userRoles
    ensures RoleIDs(userRoles[id := UserRole(id, userID, roleID)], userID) == RoleIDs(userRoles, userID) + {roleID}
  {
    var after := userRoles[id := UserRole(id, userID, roleID)];
    assert after[id].roleID in RoleIDs(after, userID);
    forall r | r in RoleIDs(userRoles, userID) ensures r in RoleIDs(after, userID) {
      var k :| k in userRoles && userRoles[k].userID == userID && userRoles[k].roleID == r;
      assert after[k] == userRoles[k];
    }
  }

  lemma FirstRole(rows: seq<UserRole>)
    requires rows != []
    ensures RoleIDsOf(rows) == {rows[0].roleID} + RoleIDsOf(rows[1..])
  {
    var all, tail := RoleIDsOf(rows), RoleIDsOf(rows[1..]);
    forall r | r in all ensures r in {rows[0].roleID} + tail {
      var i :| 0 <= i < |rows| && rows[i].roleID == r;
      if i > 0 { assert rows[1..][i - 1].roleID == r; }
    }
    forall r | r in tail ensures r in all {
      var i :| 0 <= i < |rows[1..]| && rows[1..][i].roleID == r;
      assert rows[i + 1].roleID == r;
    }
  }

  lemma {:induction false} AddRoleMenusEffect(
      a: Accounts, rows: seq<RoleMenu>, roleID: string, keepIDs: bool, gen: AccountIdSource)
    requires AddRoleMenus(a, rows, roleID, keepIDs, gen).Success?
    ensures var t := AddRoleMenus(a, rows, roleID, keepIDs, gen).value;
            && t == a.(store := a.store.(roleMenus := t.store.roleMenus))
            && (forall k :: k in a.store.roleMenus ==>
                k in t.store.roleMenus && t.store.roleMenus[k] == a.store.roleMenus[k])
            && (forall k :: k in t.store.roleMenus && k !in a.store.roleMenus ==> t.store.roleMenus[k].roleID == roleID)
    decreases |rows|
  {
    if rows != [] {
      var id := if keepIDs && rows[0].id != "" then rows[0].id else gen(a);
      var s := a.store.(roleMenus := a.store.roleMenus[id := RoleMenu(id, roleID, rows[0].menuID)]);
      AddRoleMenusEffect(a.(store := s), rows[1..], roleID, keepIDs, gen);
    }
  }

  lemma {:induction false} AddRoleMenusGrants(
      a: Accounts, rows: seq<RoleMenu>, roleID: string, keepIDs: bool, gen: AccountIdSource)
    requires AddRoleMenus(a, rows, roleID, keepIDs, gen).Success?
    ensures forall i :: 0 <= i < |rows| ==>
              GrantedToRole(AddRoleMenus(a, rows, roleID, keepIDs, gen).value.store.roleMenus, roleID, rows[i].menuID)
    decreases |rows|
  {
    if rows != [] {
      var id := if keepIDs && rows[0].id != "" then rows[0].id else gen(a);
      var s := a.store.(roleMenus := a.store.roleMenus[id := RoleMenu(id, roleID, rows[0].menuID)]);
      var t := AddRoleMenus(a, rows, roleID, keepIDs, gen).value;
      AddRoleMenusEffect(a.(store := s), rows[1..], roleID, keepIDs, gen);
      AddRoleMenusGrants(a.(store := s), rows[1..], roleID, keepIDs, gen);
      assert t.store.roleMenus[id] == RoleMenu(id, roleID, rows[0].menuID);
      forall i | 0 <= i < |rows| ensures GrantedToRole(t.store.roleMenus, roleID, rows[i].menuID) {
        if i > 0 { assert rows[1..][i - 1] == rows[i]; }
      }
    }
  }

  /** Rows that all get new ids are always inserted. */
  lemma {:induction false} NewGrantsNeverCollide(a: Accounts, rows: seq<RoleMenu>, roleID: string, gen: AccountIdSource)
    ensures AddRoleMenus(a, rows, roleID, false, gen).Success?
    decreases |rows|
  {
    if rows != [] {
      var id := gen(a);
      var s := a.store.(roleMenus := a.store.roleMenus[id := RoleMenu(id, roleID, rows[0].menuID)]);
      NewGrantsNeverCollide(a.(store := s), rows[1..], roleID, gen);
    }
  }

  /** `t` is `a` with one more role `id` as in the form, which holds the menus of the form, and a stamp. */
  ghost predicate RoleAdded(a: Accounts, t: Accounts, id: string, f: RoleForm, now: int) {
    && t == a.(store := t.store)
    && t.store == a.store.(roles := t.store.roles, roleMenus := t.store.roleMenus, stamp := Some(now))
    && id !in a.store.roles && t.store.roles.Keys == a.store.roles.Keys + {id}
    && (forall k :: k in a.store.roles ==> t.store.roles[k] == a.store.roles[k])
    && t.store.roles[id] == Role(id, f.code, f.name, f.description, f.sequence, f.status)
    && GrantsAre(a.store.roleMenus, t.store.roleMenus, id, f.menus)
  }

  /** `id` holds exactly the menus of `rows`, and every other role the same rows as before. */
  ghost predicate GrantsAre(
      before: map<string, RoleMenu>, after: map<string, RoleMenu>, id: string, rows: seq<RoleMenu>)
  {
    && (forall i :: 0 <= i < |rows| ==> GrantedToRole(after, id, rows[i].menuID))
    && (forall g :: GrantedToRole(after, id, g) ==> exists i :: 0 <= i < |rows| && rows[i].menuID == g)
    && (forall k :: k in before && before[k].roleID != id ==> k in after && after[k] == before[k])
    && (forall k :: k in after && after[k].roleID != id ==> k in before && before[k] == after[k])
  }

  /** Rows added for a role without any make up exactly its grants. */
  lemma AddedGrantsAre(
      a: Accounts, before: map<string, RoleMenu>, rows: seq<RoleMenu>, id: string, keepIDs: bool, gen: AccountIdSource)
    requires AddRoleMenus(a, rows, id, keepIDs, gen).Success?
    requires forall k :: k in a.store.roleMenus <==> k in before && before[k].roleID != id
    requires forall k :: k in a.store.roleMenus ==> a.store.roleMenus[k] == before[k]
    ensures GrantsAre(before, AddRoleMenus(a, rows, id, keepIDs, gen).value.store.roleMenus, id, rows)
  {
    AddRoleMenusEffect(a, rows, id, keepIDs, gen);
    AddRoleMenusGrants(a, rows, id, keepIDs, gen);
    AddRoleMenusOnly(a, rows, id, keepIDs, gen);
  }

  lemma {:induction false} AddRoleMenusOnly(
      a: Accounts, rows: seq<RoleMenu>, roleID: string, keepIDs: bool, gen: AccountIdSource)
    requires AddRoleMenus(a, rows, roleID, keepIDs, gen).Success?
    ensures var t := AddRoleMenus(a, rows, roleID, keepIDs, gen).value.store.roleMenus;
            forall k :: k in t && k !in a.store.roleMenus ==>
                exists i :: 0 <= i < |rows| && rows[i].menuID == t[k].menuID
    decreases |rows|
  {
    if rows != [] {
      var id := if keepIDs && rows[0].id != "" then rows[0].id else gen(a);
      var s := a.store.(roleMenus := a.store.roleMenus[id := RoleMenu(id, roleID, rows[0].menuID)]);
      var t := AddRoleMenus(a, rows, roleID, keepIDs, gen).value.store.roleMenus;
      AddRoleMenusOnly(a.(store := s), rows[1..], roleID, keepIDs, gen);
      AddRoleMenusEffect(a.(store := s), rows[1..], roleID, keepIDs, gen);
      forall k | k in t && k !in a.store.roleMenus
        ensures exists i :: 0 <= i < |rows| && rows[i].menuID == t[k].menuID
      {
        if k == id {
          assert rows[0].menuID == t[k].menuID;
        } else {
          var i :| 0 <= i < |rows[1..]| && rows[1..][i].menuID == t[k].menuID;
          assert rows[i + 1] == rows[1..][i];
        }
      }
    }
  }

  /** `Create` of a role fails only on a code already taken. */
  lemma CreateRoleEffect(a: Accounts, f: RoleForm, gen: AccountIdSource, now: int)
    requires !ExistsRoleCode(a.store.roles, f.code)
    ensures CreateRole(a, f, gen, now).Success?
    ensures RoleAdded(a, CreateRole(a, f, gen, now).value, gen(a), f, now)
  {
    var id := gen(a);
    var s := a.store.(roles := a.store.roles[id := FillRole(f, Role(id, "", "", "", 0, ""))]);
    NewGrantsNeverCollide(a.(store := s), f.menus, id, gen);
    AddRoleMenusEffect(a.(store := s), f.menus, id, false, gen);
    assert Unused(a, id);
    AddedGrantsAre(a.(store := s), a.store.roleMenus, f.menus, id, false, gen);
  }

  /** A successful `Update` of a role: its own row, exactly the menus of the form, and everything else as it was. */
  lemma UpdatedRoleSays(a: Accounts, id: string, f: RoleForm, gen: AccountIdSource, now: int)
    requires UpdateRole(a, id, f, gen, now).Success?
    ensures id in a.store.roles
    ensures var t := UpdateRole(a, id, f, gen, now).value;
            && t == a.(store := a.store.(roles := t.store.roles, roleMenus := t.store.roleMenus, stamp := Some(now)))
            && t.store.roles.Keys == a.store.roles.Keys
            && t.store.roles[id] == Role(a.store.roles[id].id, f.code, f.name, f.description, f.sequence, f.status)
            && (forall k :: k in a.store.roles && k != id ==> t.store.roles[k] == a.store.roles[k])
            && GrantsAre(a.store.roleMenus, t.store.roleMenus, id, f.menus)
  {
    var s := a.store.(roles := a.store.roles[id := FillRole(f, a.store.roles[id])],
                      roleMenus := WithoutRole(a.store.roleMenus, id));
    AddRoleMenusEffect(a.(store := s), f.menus, id, true, gen);
    AddedGrantsAre(a.(store := s), a.store.roleMenus, f.menus, id, true, gen);
  }

  datatype Operation =
    | OpCreateUser(uform: UserForm, hashed: string, now: int)
    | OpUpdateUser(id: string, uform: UserForm, hashed: string, now: int)
    | OpDeleteUser(id: string)
    | OpLogin(username: string, passwordOk: bool)
    | OpParseUserID(id: string)
    | OpForget(id: string)
    | OpResetPassword(id: string, hashed: string, now: int)
    | OpUpdatePassword(id: string, oldOk: bool, hashed: string, now: int)
    | OpUpdateProfile(id: string, profile: Profile, now: int)
    | OpCreateRole(rform: RoleForm, now: int)
    | OpUpdateRole(id: string, rform: RoleForm, now: int)
    | OpDeleteRole(id: string, now: int)

  function Apply(a: Accounts, op: Operation, gen: AccountIdSource): Accounts {
    var r :=
      match op
      case OpCreateUser(f, hashed, now) => CreateUser(a, f, hashed, gen, now)
      case OpUpdateUser(id, f, hashed, now) => UpdateUser(a, id, f, hashed, gen, now)
      case OpDeleteUser(id) => DeleteUser(a, id)
      case OpLogin(username, ok) => Login(a, username, ok)
      case OpParseUserID(id) =>
        (match ParseUserID(a, id) case Success(p) => Success(p.0) case Failure(e) => Failure(e))
      case OpForget(id) => Success(Forget(a, id))
      case OpResetPassword(id, hashed, now) => ResetPassword(a, id, hashed, now)
      case OpUpdatePassword(id, oldOk, hashed, now) => UpdatePassword(a, id, oldOk, hashed, now)
      case OpUpdateProfile(id, p, now) => UpdateProfile(a, id, p, now)
      case OpCreateRole(f, now) => CreateRole(a, f, gen, now)
      case OpUpdateRole(id, f, now) => UpdateRole(a, id, f, gen, now)
      case OpDeleteRole(id, now) => DeleteRole(a, id, now);
    match r case Success(t) => t case Failure(_) => a
  }

  /**
   An entry stays coherent if its user, the user's role rows and the cached ids are the same, and no cached id
   became a role.
   */
  lemma EntryKept(a: Accounts, t: Accounts, u: string)
    requires u in a.cache && u in t.cache && EntryCoherent(a, u) && t.cache[u] == a.cache[u]
    requires u in t.users && t.users[u].status == a.users[u].status
    requires RoleIDs(t.userRoles, u) == RoleIDs(a.userRoles, u)
    requires forall r :: r in t.store.roles && r in a.cache[u] ==> r in a.store.roles
    ensures EntryCoherent(t, u)
  {
  }

  lemma OtherUsersRoles(before: map<string, UserRole>, after: map<string, UserRole>, userID: string, u: string)
    requires u != userID
    requires forall k :: k in before && before[k].userID != userID ==> k in after && after[k] == before[k]
    requires forall k :: k in after && after[k].userID != userID ==> k in before && after[k] == before[k]
    ensures RoleIDs(after, u) == RoleIDs(before, u)
  {
    forall r | r in RoleIDs(before, u) ensures r in RoleIDs(after, u) {
      var k :| k in before && before[k].userID == u && before[k].roleID == r;
      assert after[k].roleID == r;
    }
    forall r | r in RoleIDs(after, u) ensures r in RoleIDs(before, u) {
      var k :| k in after && after[k].userID == u && after[k].roleID == r;
      assert before[k].roleID == r;
    }
  }

  lemma CreateUserKeeps(a: Accounts, f: UserForm, hashed: string, gen: AccountIdSource, now: int)
    requires Coherent(a) && CreateUser(a, f, hashed, gen, now).Success?
    ensures Coherent(CreateUser(a, f, hashed, gen, now).value)
  {
    var t, id := CreateUser(a, f, hashed, gen, now).value, gen(a);
    var user := FillUser(f, User(id, "", "", hashed, "", "", "", "", now, now), hashed);
    AddUserRolesEffect(a.(users := a.users[id := user]), f.roles, id, false, gen);
    forall u | u in t.cache ensures EntryCoherent(t, u) {
      OtherUsersRoles(a.userRoles, t.userRoles, id, u);
      EntryKept(a, t, u);
    }
  }

  lemma UpdateUserKeeps(a: Accounts, id: string, f: UserForm, hashed: string, gen: AccountIdSource, now: int)
    requires Coherent(a) && UpdateUser(a, id, f, hashed, gen, now).Success?
    ensures Coherent(UpdateUser(a, id, f, hashed, gen, now).value)
    ensures RoleIDs(UpdateUser(a, id, f, hashed, gen, now).value.userRoles, id) == RoleIDsOf(f.roles)
    ensures id !in UpdateUser(a, id, f, hashed, gen, now).value.cache
  {
    var t := UpdateUser(a, id, f, hashed, gen, now).value;
    var a1 := a.(users := a.users[id := FillUser(f, a.users[id], hashed).(updatedAt := now)],
                 userRoles := map k | k in a.userRoles && a.userRoles[k].userID != id :: a.userRoles[k]);
    AddUserRolesEffect(a1, f.roles, id, true, gen);
    AddUserRolesIDs(a1, f.roles, id, true, gen);
    assert RoleIDs(a1.userRoles, id) == {};
    forall u | u in t.cache ensures EntryCoherent(t, u) {
      OtherUsersRoles(a.userRoles, t.userRoles, id, u);
      EntryKept(a, t, u);
    }
  }

  lemma DeleteUserKeeps(a: Accounts, id: string)
    requires Coherent(a) && id in a.users
    ensures Coherent(DeleteUser(a, id).value)
  {
    var t := DeleteUser(a, id).value;
    forall u | u in t.cache ensures EntryCoherent(t, u) {
      OtherUsersRoles(a.userRoles, t.userRoles, id, u);
      EntryKept(a, t, u);
    }
  }

  /** Deleting a role leaves cached ids behind that no longer name a role: the one way an entry goes stale. */
  lemma DeleteRoleKeeps(a: Accounts, id: string, now: int)
    requires Coherent(a) && id in a.store.roles
    ensures Coherent(DeleteRole(a, id, now).value)
  {
    var t := DeleteRole(a, id, now).value;
    forall u | u in t.cache ensures EntryCoherent(t, u) {
      assert EntryCoherent(a, u);
      forall r | r in RoleIDs(t.userRoles, u) ensures r in RoleIDs(a.userRoles, u) {
        var k :| k in t.userRoles && t.userRoles[k].userID == u && t.userRoles[k].roleID == r;
        assert a.userRoles[k].roleID == r;
      }
      forall r | r in RoleIDs(a.userRoles, u) && r != id ensures r in RoleIDs(t.userRoles, u) {
        var k :| k in a.userRoles && a.userRoles[k].userID == u && a.userRoles[k].roleID == r;
        assert t.userRoles[k].roleID == r;
      }
    }
  }

  /** Neither do changes of users that leave their statuses alone. */
  lemma SameStatusesKeep(a: Accounts, t: Accounts)
    requires Coherent(a) && t == a.(users := t.users)
    requires forall u :: u in a.users ==> u in t.users && t.users[u].status == a.users[u].status
    ensures Coherent(t)
  {
    forall u | u in t.cache ensures EntryCoherent(t, u) { EntryKept(a, t, u); }
  }

  lemma RoleChangeKeeps(a: Accounts, t: Accounts, newID: string)
    requires Coherent(a) && t == a.(store := t.store) && t.store.roles.Keys <= a.store.roles.Keys + {newID}
    requires newID in a.store.roles || Unused(a, newID)
    ensures Coherent(t)
  {
    forall u | u in t.cache ensures EntryCoherent(t, u) { EntryKept(a, t, u); }
  }

  lemma StepKeepsCoherence(a: Accounts, op: Operation, gen: AccountIdSource)
    requires Coherent(a)
    ensures Coherent(Apply(a, op, gen))
  {
    match op
    case OpCreateUser(f, hashed, now) =>
      if CreateUser(a, f, hashed, gen, now).Success? { CreateUserKeeps(a, f, hashed, gen, now); }
    case OpUpdateUser(id, f, hashed, now) =>
      if UpdateUser(a, id, f, hashed, gen, now).Success? { UpdateUserKeeps(a, id, f, hashed, gen, now); }
    case OpDeleteUser(id) => if id in a.users { DeleteUserKeeps(a, id); }
    case OpLogin(username, ok) => CacheFillKeeps(a, Apply(a, op, gen));
    case OpParseUserID(id) => CacheFillKeeps(a, Apply(a, op, gen));
    case OpForget(id) => CacheFillKeeps(a, Apply(a, op, gen));
    case OpResetPassword(id, hashed, now) => SameStatusesKeep(a, Apply(a, op, gen));
    case OpUpdatePassword(id, oldOk, hashed, now) => SameStatusesKeep(a, Apply(a, op, gen));
    case OpUpdateProfile(id, p, now) => SameStatusesKeep(a, Apply(a, op, gen));
    case OpCreateRole(f, now) => if CreateRole(a, f, gen, now).Success? { CreateRoleKeeps(a, f, gen, now); }
    case OpUpdateRole(id, f, now) => if UpdateRole(a, id, f, gen, now).Success? { UpdateRoleKeeps(a, id, f, gen, now); }
    case OpDeleteRole(id, now) => if id in a.store.roles { DeleteRoleKeeps(a, id, now); }
  }

  lemma CreateRoleKeeps(a: Accounts, f: RoleForm, gen: AccountIdSource, now: int)
    requires Coherent(a) && CreateRole(a, f, gen, now).Success?
    ensures Coherent(CreateRole(a, f, gen, now).value)
  {
    var s := a.store.(roles := a.store.roles[gen(a) := FillRole(f, Role(gen(a), "", "", "", 0, ""))]);
    AddRoleMenusEffect(a.(store := s), f.menus, gen(a), false, gen);
    RoleChangeKeeps(a, CreateRole(a, f, gen, now).value, gen(a));
  }

  lemma UpdateRoleKeeps(a: Accounts, id: string, f: RoleForm, gen: AccountIdSource, now: int)
    requires Coherent(a) && UpdateRole(a, id, f, gen, now).Success?
    ensures Coherent(UpdateRole(a, id, f, gen, now).value)
  {
    var s := a.store.(roles := a.store.roles[id := FillRole(f, a.store.roles[id])],
                      roleMenus := WithoutRole(a.store.roleMenus, id));
    AddRoleMenusEffect(a.(store := s), f.menus, id, true, gen);
    RoleChangeKeeps(a, UpdateRole(a, id, f, gen, now).value, id);
  }

  /** Filling an entry from the tables, or dropping one, keeps every entry coherent. */
  lemma CacheFillKeeps(a: Accounts, t: Accounts)
    requires Coherent(a) && t == a.(cache := t.cache)
    requires forall u :: u in t.cache ==>
               || (u in a.cache && t.cache[u] == a.cache[u])
               || (u in a.users && a.users[u].status == ACTIVATED && t.cache[u] == RoleIDs(a.userRoles, u))
    ensures Coherent(t)
  {
    forall u | u in t.cache ensures EntryCoherent(t, u) {
      if u in a.cache && t.cache[u] == a.cache[u] { EntryKept(a, t, u); }
    }
  }

  function StateAt(a: Accounts, ops: seq<Operation>, gens: nat -> AccountIdSource, i: nat): Accounts
    requires i <= |ops|
  {
    if i == 0 then a else Apply(StateAt(a, ops, gens, i - 1), ops[i - 1], gens(i - 1))
  }

  /** In every state of every run that starts with an empty cache, each cached entry may be relied on. */
  lemma {:induction false} CacheAlwaysCoherent(a: Accounts, ops: seq<Operation>, gens: nat -> AccountIdSource, i: nat)
    requires a.cache == map[] && i <= |ops|
    ensures Coherent(StateAt(a, ops, gens, i))
  {
    if i > 0 {
      CacheAlwaysCoherent(a, ops, gens, i - 1);
      StepKeepsCoherence(StateAt(a, ops, gens, i - 1), ops[i - 1], gens(i - 1));
    }
  }
}

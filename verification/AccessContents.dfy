/** What the rows carry that operations on users and roles write, and when the operations are turned down. */
module AccessContents {
  import opened Wrappers
  import opened Tables
  import opened Access
  import Identifiers

  ghost predicate HoldsRole(userRoles: map<string, UserRole>, userID: string, roleID: string) {
    exists k :: k in userRoles && userRoles[k].userID == userID && userRoles[k].roleID == roleID
  }

  lemma RoleIDsSay(userRoles: map<string, UserRole>, userID: string)
    ensures forall r :: r in RoleIDs(userRoles, userID) <==> HoldsRole(userRoles, userID, r)
  {
  }

  /** `id` holds exactly the roles of `rows`, and every other user the same rows as before. */
  ghost predicate RolesAre(
      before: map<string, UserRole>, after: map<string, UserRole>, id: string, rows: seq<UserRole>)
  {
    && (forall r :: HoldsRole(after, id, r) <==> exists i :: 0 <= i < |rows| && rows[i].roleID == r)
    && (forall k :: k in before && before[k].userID != id ==> k in after && after[k] == before[k])
    && (forall k :: k in after && after[k].userID != id ==> k in before && before[k] == after[k])
  }

  lemma AddedRolesAre(
      a: Accounts, before: map<string, UserRole>, rows: seq<UserRole>, id: string, keepIDs: bool, gen: AccountIdSource)
    requires AddUserRoles(a, rows, id, keepIDs, gen).Success?
    requires forall k :: k in a.userRoles <==> k in before && before[k].userID != id
    requires forall k :: k in a.userRoles ==> a.userRoles[k] == before[k]
    ensures RolesAre(before, AddUserRoles(a, rows, id, keepIDs, gen).value.userRoles, id, rows)
  {
    var after := AddUserRoles(a, rows, id, keepIDs, gen).value.userRoles;
    AddUserRolesEffect(a, rows, id, keepIDs, gen);
    AddUserRolesIDs(a, rows, id, keepIDs, gen);
    RoleIDsSay(after, id);
    assert RoleIDs(a.userRoles, id) == {};
    forall r ensures HoldsRole(after, id, r) <==> exists i :: 0 <= i < |rows| && rows[i].roleID == r {
      assert HoldsRole(after, id, r) <==> r in RoleIDsOf(rows);
    }
  }

  /**
   `Create`: turned down exactly for a user name in use; else one row with the form's fields, and the form's roles.
   */
  lemma CreatedUserSays(a: Accounts, f: UserForm, hashed: string, gen: AccountIdSource, now: int)
    ensures CreateUser(a, f, hashed, gen, now).Success? <==>
              forall k :: k in a.users ==> a.users[k].username != f.username
    ensures CreateUser(a, f, hashed, gen, now).Failure? ==> CreateUser(a, f, hashed, gen, now).error == NameExists
    ensures CreateUser(a, f, hashed, gen, now).Success? ==>
              var t, id := CreateUser(a, f, hashed, gen, now).value, gen(a);
              && id !in a.users
              && t.users == a.users[id :=
                   User(id, f.username, f.name, hashed, f.phone, f.email, f.remark, f.status, now, now)]
              && RolesAre(a.userRoles, t.userRoles, id, f.roles)
              && t.store == a.store && t.cache == a.cache
  {
    var id := gen(a);
    assert Unused(a, id);
    var user := FillUser(f, User(id, "", "", hashed, "", "", "", "", now, now), hashed);
    var a1 := a.(users := a.users[id := user]);
    NewRowsNeverCollide(a1, f.roles, id, gen);
    AddUserRolesEffect(a1, f.roles, id, false, gen);
    AddedRolesAre(a1, a.userRoles, f.roles, id, false, gen);
  }

  /** A successful `Update`: the user's fields, with the old password where the form has none, and the form's roles. */
  lemma UpdatedUserSays(a: Accounts, id: string, f: UserForm, hashed: string, gen: AccountIdSource, now: int)
    requires UpdateUser(a, id, f, hashed, gen, now).Success?
    ensures id in a.users
    ensures var t, old_ := UpdateUser(a, id, f, hashed, gen, now).value, a.users[id];
            && t.users == a.users[id :=
                 User(old_.id, f.username, f.name, if f.password == "" then old_.password else hashed,
                      f.phone, f.email, f.remark, f.status, old_.createdAt, now)]
            && RolesAre(a.userRoles, t.userRoles, id, f.roles)
            && t.store == a.store && t.cache == a.cache - {id}
  {
    var a1 := a.(users := a.users[id := FillUser(f, a.users[id], hashed).(updatedAt := now)],
                 userRoles := map k | k in a.userRoles && a.userRoles[k].userID != id :: a.userRoles[k]);
    AddUserRolesEffect(a1, f.roles, id, true, gen);
    AddedRolesAre(a1, a.userRoles, f.roles, id, true, gen);
  }

  /** Why `Update` of a user is turned down; a key already taken is the only other reason. */
  lemma UserRefusalSays(a: Accounts, id: string, f: UserForm, hashed: string, gen: AccountIdSource, now: int)
    ensures UpdateUser(a, id, f, hashed, gen, now) == Failure(NotFound) <==> id !in a.users
    ensures UpdateUser(a, id, f, hashed, gen, now) == Failure(NameExists) <==>
              && id in a.users && a.users[id].username != f.username
              && exists k :: k in a.users && a.users[k].username == f.username
    ensures UpdateUser(a, id, f, hashed, gen, now).Failure? ==>
              UpdateUser(a, id, f, hashed, gen, now).error in {NotFound, NameExists, DuplicateKey}
  {
    var a1 := if id in a.users then
                a.(users := a.users[id := FillUser(f, a.users[id], hashed).(updatedAt := now)],
                   userRoles := map k | k in a.userRoles && a.userRoles[k].userID != id :: a.userRoles[k])
              else a;
    OnlyUserKeysFail(a1, f.roles, id, true, gen);
  }

  lemma {:induction false} OnlyUserKeysFail(
      a: Accounts, rows: seq<UserRole>, userID: string, keepIDs: bool, gen: AccountIdSource)
    ensures AddUserRoles(a, rows, userID, keepIDs, gen).Failure? ==>
              AddUserRoles(a, rows, userID, keepIDs, gen).error == DuplicateKey
    ensures (forall i :: 0 <= i < |rows| ==> rows[i].id == "") ==> AddUserRoles(a, rows, userID, keepIDs, gen).Success?
    decreases |rows|
  {
    if rows != [] {
      var id := if keepIDs && rows[0].id != "" then rows[0].id else gen(a);
      assert (forall i :: 0 <= i < |rows| ==> rows[i].id == "") ==> id == gen(a);
      OnlyUserKeysFail(a.(userRoles := a.userRoles[id := UserRole(id, userID, rows[0].roleID)]), rows[1..], userID,
                       keepIDs, gen);
    }
  }

  /** The same for roles; `Create` of a role is turned down exactly for a code in use. */
  lemma RoleRefusalSays(a: Accounts, id: string, f: RoleForm, gen: AccountIdSource, now: int)
    ensures CreateRole(a, f, gen, now).Success? <==> forall k :: k in a.store.roles ==> a.store.roles[k].code != f.code
    ensures CreateRole(a, f, gen, now).Failure? ==> CreateRole(a, f, gen, now).error == NameExists
    ensures UpdateRole(a, id, f, gen, now) == Failure(NotFound) <==> id !in a.store.roles
    ensures UpdateRole(a, id, f, gen, now) == Failure(NameExists) <==>
              && id in a.store.roles && a.store.roles[id].code != f.code
              && exists k :: k in a.store.roles && a.store.roles[k].code == f.code
    ensures UpdateRole(a, id, f, gen, now).Failure? ==>
              UpdateRole(a, id, f, gen, now).error in {NotFound, NameExists, DuplicateKey}
  {
    if !ExistsRoleCode(a.store.roles, f.code) { CreateRoleEffect(a, f, gen, now); }
    var a1 := if id in a.store.roles then
                a.(store := a.store.(roles := a.store.roles[id := FillRole(f, a.store.roles[id])],
                                     roleMenus := WithoutRole(a.store.roleMenus, id)))
              else a;
    OnlyGrantKeysFail(a1, f.menus, id, true, gen);
  }

  lemma {:induction false} OnlyGrantKeysFail(
      a: Accounts, rows: seq<RoleMenu>, roleID: string, keepIDs: bool, gen: AccountIdSource)
    ensures AddRoleMenus(a, rows, roleID, keepIDs, gen).Failure? ==>
              AddRoleMenus(a, rows, roleID, keepIDs, gen).error == DuplicateKey
    ensures (forall i :: 0 <= i < |rows| ==> rows[i].id == "") ==> AddRoleMenus(a, rows, roleID, keepIDs, gen).Success?
    decreases |rows|
  {
    if rows != [] {
      var id := if keepIDs && rows[0].id != "" then rows[0].id else gen(a);
      assert (forall i :: 0 <= i < |rows| ==> rows[i].id == "") ==> id == gen(a);
      var s := a.store.(roleMenus := a.store.roleMenus[id := RoleMenu(id, roleID, rows[0].menuID)]);
      OnlyGrantKeysFail(a.(store := s), rows[1..], roleID, keepIDs, gen);
    }
  }

  /** `Delete` of a role takes the role, exactly its grants and its user rows, and stamps. */
  lemma DeletedRoleSays(a: Accounts, id: string, now: int)
    requires id in a.store.roles
    ensures DeleteRole(a, id, now).Success?
    ensures var t := DeleteRole(a, id, now).value;
            && t.store.roles == a.store.roles - {id} && t.store.stamp == Some(now)
            && GrantsAre(a.store.roleMenus, t.store.roleMenus, id, [])
            && (forall k :: k in t.userRoles <==> k in a.userRoles && a.userRoles[k].roleID != id)
            && (forall k :: k in t.userRoles ==> t.userRoles[k] == a.userRoles[k])
            && t.users == a.users && t.cache == a.cache
            && t.store.menus == a.store.menus && t.store.resources == a.store.resources
  {
  }

  /** A user name that nobody has does not log in. */
  lemma UnknownUserSays(a: Accounts, username: string, passwordOk: bool)
    requires forall k :: k in a.users ==> a.users[k].username != username
    ensures Login(a, username, passwordOk) == Failure(BadCredentials)
  {
    assert UsernameMatches(a.users, username) == {};
  }

  /**
   For a user name that somebody has, the first such row decides: its status, then the password; only a success
   fills its entry.
   */
  lemma LoginSays(a: Accounts, username: string, passwordOk: bool) returns (id: string)
    requires exists k :: k in a.users && a.users[k].username == username
    ensures id in a.users && a.users[id].username == username
    ensures forall k :: k in a.users && a.users[k].username == username ==> Identifiers.Leq(id, k)
    ensures a.users[id].status != "activated" ==> Login(a, username, passwordOk) == Failure(NotActivated)
    ensures a.users[id].status == "activated" && !passwordOk ==>
              Login(a, username, passwordOk) == Failure(BadCredentials)
    ensures a.users[id].status == "activated" && passwordOk ==>
              && Login(a, username, passwordOk).Success?
              && var t := Login(a, username, passwordOk).value;
                 && t == a.(cache := t.cache) && id in t.cache
                 && (forall r :: r in t.cache[id] <==> HoldsRole(a.userRoles, id, r))
                 && (forall u :: u != id ==>
                       (u in t.cache <==> u in a.cache) && (u in t.cache ==> t.cache[u] == a.cache[u]))
  {
    var k :| k in a.users && a.users[k].username == username;
    assert k in UsernameMatches(a.users, username);
    id := Identifiers.Least(UsernameMatches(a.users, username));
    RoleIDsSay(a.userRoles, id);
  }

  /** The roles of a request: the cached ones if there are any, else those of the tables for an activated user. */
  lemma ParseSays(a: Accounts, id: string)
    ensures ParseUserID(a, id).Success? <==> id in a.cache || (id in a.users && a.users[id].status == "activated")
    ensures id in a.cache ==> ParseUserID(a, id) == Success((a, a.cache[id]))
    ensures id !in a.cache && ParseUserID(a, id).Success? ==>
              var (t, ids) := ParseUserID(a, id).value;
              t == a.(cache := a.cache[id := ids]) && forall r :: r in ids <==> HoldsRole(a.userRoles, id, r)
  {
    RoleIDsSay(a.userRoles, id);
  }
}

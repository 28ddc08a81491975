/** Users, logins and roles in place, over the shared tables and the cache of role ids. */
module AccessService {
  import opened Wrappers
  import opened Identifiers
  import opened Tables
  import opened MenuDal
  import opened Access
  import Ancestors

  class Service {
    const db: Database
    const rootUsername: string
    const rootID: string
    var users: map<string, User>
    var cache: map<string, seq<string>>

    /** The state that the operations are specified on; a cached list counts as the set of its ids. */
    function Snapshot(): Accounts
      reads this, db
    {
      Accounts(db.Snapshot(), users, db.userRoles, map u | u in cache :: Ancestors.Elements(cache[u]))
    }

    ghost predicate Valid()
      reads this, db
    {
      UsersKeyed(Snapshot())
    }

    constructor (db: Database, rootUsername: string, rootID: string)
      ensures Valid() && this.db == db && this.rootUsername == rootUsername && this.rootID == rootID
      ensures Snapshot() == Accounts(db.Snapshot(), map[], db.userRoles, map[])
    {
      this.db, this.rootUsername, this.rootID, users, cache := db, rootUsername, rootID, map[], map[];
    }

    /** The role ids of a user, in the order the rows come back. */
    method GetRoleIDs(userID: string) returns (ids: seq<string>)
      ensures Ancestors.Elements(ids) == RoleIDs(db.userRoles, userID)
    {
      var rows := set k | k in db.userRoles && db.userRoles[k].userID == userID;
      ghost var all := rows;
      ids := [];
      while rows != {}
        invariant rows <= all
        invariant Ancestors.Elements(ids) == set k | k in all - rows :: db.userRoles[k].roleID
        decreases rows
      {
        var k :| k in rows;
        ghost var done := all - rows;
        Ancestors.ConcatElements(ids, [db.userRoles[k].roleID]);
        assert Ancestors.Elements([db.userRoles[k].roleID]) == {db.userRoles[k].roleID};
        ids := ids + [db.userRoles[k].roleID];
        rows := rows - {k};
        assert all - rows == done + {k};
      }
      assert all - rows == all;
    }

    method AddUserRoles(rows: seq<UserRole>, userID: string, keepIDs: bool, gen: AccountIdSource) returns (ok: bool)
      modifies db`userRoles
      ensures match Access.AddUserRoles(old(Snapshot()), rows, userID, keepIDs, gen)
              case Success(t) => ok && Snapshot() == t
              case Failure(e) => !ok && e == DuplicateKey
      ensures Snapshot() == old(Snapshot()).(userRoles := db.userRoles)
    {
      ghost var a0 := Snapshot();
      for i := 0 to |rows|
        invariant Snapshot() == a0.(userRoles := db.userRoles)
        invariant Access.AddUserRoles(Snapshot(), rows[i..], userID, keepIDs, gen)
            == Access.AddUserRoles(a0, rows, userID, keepIDs, gen)
      {
        assert rows[i..][0] == rows[i] && rows[i..][1..] == rows[i + 1..];
        var id := rows[i].id;
        if !keepIDs || id == "" { id := gen(Snapshot()); }
        if id in db.userRoles { return false; }
        db.userRoles := db.userRoles[id := UserRole(id, userID, rows[i].roleID)];
      }
      ok := true;
    }

    method CreateUser(f: UserForm, hashed: string, gen: AccountIdSource, now: int) returns (err: Option<AccessError>)
      requires Valid()
      modifies this, db`userRoles
      ensures Valid()
      ensures match Access.CreateUser(old(Snapshot()), f, hashed, gen, now)
              case Success(t) => err == None && Snapshot() == t
              case Failure(e) => err == Some(e) && Snapshot() == old(Snapshot())
    {
      if ExistsUsername(users, f.username) { return Some(NameExists); }
      var user := User(gen(Snapshot()), "", "", hashed, "", "", "", "", now, now);
      user := FillUser(f, user, hashed);
      ghost var a0 := Snapshot();
      NewRowsNeverCollide(a0.(users := a0.users[user.id := user]), f.roles, user.id, gen);
      users := users[user.id := user];
      var ok := AddUserRoles(f.roles, user.id, false, gen);
      err := None;
    }

    method UpdateUser(id: string, f: UserForm, hashed: string, gen: AccountIdSource, now: int)
      returns (err: Option<AccessError>)
      requires Valid()
      modifies this, db`userRoles
      ensures Valid()
      ensures match Access.UpdateUser(old(Snapshot()), id, f, hashed, gen, now)
              case Success(t) => err == None && Snapshot() == t
              case Failure(e) => err == Some(e) && Snapshot() == old(Snapshot())
    {
      if id !in users { return Some(NotFound); }
      var user := users[id];
      if user.username != f.username && ExistsUsername(users, f.username) { return Some(NameExists); }
      user := FillUser(f, user, hashed).(updatedAt := now);
      var savedUsers, savedUserRoles := users, db.userRoles;
      users := users[id := user];
      db.userRoles := map k | k in db.userRoles && db.userRoles[k].userID != id :: db.userRoles[k];
      var ok := AddUserRoles(f.roles, id, true, gen);
      if ok {
        cache := cache - {id};
        err := None;
      } else {
        users, db.userRoles := savedUsers, savedUserRoles;
        err := Some(DuplicateKey);
      }
    }

    method DeleteUser(id: string) returns (err: Option<AccessError>)
      requires Valid()
      modifies this, db`userRoles
      ensures Valid()
      ensures err == if id in old(users) then None else Some(NotFound)
      ensures users == old(users) - {id} && cache == if id in old(users) then old(cache) - {id} else old(cache)
      ensures forall k ::
                k in db.userRoles <==> k in old(db.userRoles) && (err.None? ==> old(db.userRoles)[k].userID != id)
      ensures forall k :: k in db.userRoles ==> db.userRoles[k] == old(db.userRoles)[k]
      ensures match Access.DeleteUser(old(Snapshot()), id)
              case Success(t) => err == None && Snapshot() == t
              case Failure(e) => err == Some(e) && Snapshot() == old(Snapshot())
    {
      if id !in users { return Some(NotFound); }
      users := users - {id};
      db.userRoles := map k | k in db.userRoles && db.userRoles[k].userID != id :: db.userRoles[k];
      cache := cache - {id};
      err := None;
    }

    method ResetPassword(id: string, hashed: string, now: int) returns (err: Option<AccessError>)
      requires Valid()
      modifies this`users
      ensures Valid()
      ensures err == if id in old(users) then None else Some(NotFound)
      ensures users.Keys == old(users).Keys && forall k :: k in users && k != id ==> users[k] == old(users)[k]
      ensures id in users ==> users[id] == old(users)[id].(password := hashed, updatedAt := now)
      ensures match Access.ResetPassword(old(Snapshot()), id, hashed, now)
              case Success(t) => err == None && Snapshot() == t
              case Failure(e) => err == Some(e) && Snapshot() == old(Snapshot())
    {
      if id !in users { return Some(NotFound); }
      users := users[id := users[id].(password := hashed, updatedAt := now)];
      err := None;
    }

    /** `UpdatePassword` of a user other than root, whose requests are turned down. */
    method UpdatePassword(id: string, oldOk: bool, hashed: string, now: int) returns (err: Option<AccessError>)
      requires Valid()
      modifies this`users
      ensures Valid()
      ensures id == rootID ==> err == Some(RootUser) && Snapshot() == old(Snapshot())
      ensures users.Keys == old(users).Keys && forall k :: k in users && k != id ==> users[k] == old(users)[k]
      ensures id != rootID && id in users ==>
                users[id] == if oldOk then old(users)[id].(password := hashed, updatedAt := now) else old(users)[id]
      ensures id != rootID ==>
                match Access.UpdatePassword(old(Snapshot()), id, oldOk, hashed, now)
                case Success(t) => err == None && Snapshot() == t
                case Failure(e) => err == Some(e) && Snapshot() == old(Snapshot())
    {
      if id == rootID { return Some(RootUser); }
      if id !in users { return Some(NotFound); }
      if !oldOk { return Some(BadCredentials); }
      users := users[id := users[id].(password := hashed, updatedAt := now)];
      err := None;
    }

    /** `UpdateUser` of the login code: a user's own profile. */
    method UpdateProfile(id: string, p: Profile, now: int) returns (err: Option<AccessError>)
      requires Valid()
      modifies this`users
      ensures Valid()
      ensures id == rootID ==> err == Some(RootUser) && Snapshot() == old(Snapshot())
      ensures users.Keys == old(users).Keys && forall k :: k in users && k != id ==> users[k] == old(users)[k]
      ensures id != rootID ==> err == if id in old(users) then None else Some(NotFound)
      ensures id != rootID && id in users ==>
                && users[id].name == p.name && users[id].phone == p.phone && users[id].email == p.email
                && users[id].remark == p.remark && users[id].updatedAt == now
      ensures id in users ==>
                && users[id].username == old(users)[id].username && users[id].status == old(users)[id].status
                && users[id].password == old(users)[id].password && users[id].createdAt == old(users)[id].createdAt
      ensures id != rootID ==>
                match Access.UpdateProfile(old(Snapshot()), id, p, now)
                case Success(t) => err == None && Snapshot() == t
                case Failure(e) => err == Some(e) && Snapshot() == old(Snapshot())
    {
      if id == rootID { return Some(RootUser); }
      if id !in users { return Some(NotFound); }
      var user := users[id];
      user := user.(name := p.name, phone := p.phone, email := p.email, remark := p.remark, updatedAt := now);
      users := users[id := user];
      err := None;
    }

    /** Root logs in against the configuration and is never cached. */
    method Login(username: string, passwordOk: bool) returns (r: Result<string, AccessError>)
      requires Valid()
      modifies this`cache
      ensures Valid()
      ensures username == rootUsername ==>
                r == (if passwordOk then Success(rootID) else Failure(BadCredentials)) && Snapshot() == old(Snapshot())
      ensures username != rootUsername && r.Success? ==>
                && passwordOk && r.value in users
                && users[r.value].username == username && users[r.value].status == ACTIVATED
                && cache.Keys == old(cache).Keys + {r.value}
                && Ancestors.Elements(cache[r.value]) == RoleIDs(db.userRoles, r.value)
                && forall u :: u in old(cache) && u != r.value ==> cache[u] == old(cache)[u]
      ensures r.Failure? ==> cache == old(cache)
      ensures username != rootUsername ==>
                match Access.Login(old(Snapshot()), username, passwordOk)
                case Success(t) => r == Success(Least(UsernameMatches(users, username))) && Snapshot() == t
                case Failure(e) => r == Failure(e) && Snapshot() == old(Snapshot())
    {
      if username == rootUsername {
        return if passwordOk then Success(rootID) else Failure(BadCredentials);
      }
      var ids := UsernameMatches(users, username);
      if ids == {} { return Failure(BadCredentials); }
      var user := users[Least(ids)];
      if user.status != ACTIVATED { return Failure(NotActivated); }
      if !passwordOk { return Failure(BadCredentials); }
      var roleIDs := GetRoleIDs(user.id);
      cache := cache[user.id := roleIDs];
      r := Success(user.id);
    }

    /** The roles that a request with a valid token runs with. */
    method ParseUserID(userID: string) returns (r: Result<seq<string>, AccessError>)
      requires Valid()
      modifies this`cache
      ensures Valid()
      ensures userID == rootID ==> r == Success([]) && Snapshot() == old(Snapshot())
      ensures userID != rootID && userID in old(cache) ==> r == Success(old(cache)[userID]) && cache == old(cache)
      ensures userID != rootID && userID !in old(cache) ==>
                if userID in users && users[userID].status == ACTIVATED
                then r.Success? && Ancestors.Elements(r.value) == RoleIDs(db.userRoles, userID)
                     && cache == old(cache)[userID := r.value]
                else r == Failure(InvalidToken) && cache == old(cache)
      ensures userID != rootID ==>
                match Access.ParseUserID(old(Snapshot()), userID)
                case Success(p) => r.Success? && Ancestors.Elements(r.value) == p.1 && Snapshot() == p.0
                case Failure(e) => r == Failure(e) && Snapshot() == old(Snapshot())
    {
      if userID == rootID { return Success([]); }
      if userID in cache { return Success(cache[userID]); }
      if userID !in users || users[userID].status != ACTIVATED { return Failure(InvalidToken); }
      var roleIDs := GetRoleIDs(userID);
      cache := cache[userID := roleIDs];
      r := Success(roleIDs);
    }

    method Logout(userID: string)
      requires Valid()
      modifies this`cache
      ensures Valid() && cache == old(cache) - {userID} && Snapshot() == Forget(old(Snapshot()), userID)
    {
      cache := cache - {userID};
    }

    method AddRoleMenus(rows: seq<RoleMenu>, roleID: string, keepIDs: bool, gen: AccountIdSource) returns (ok: bool)
      modifies db`roleMenus
      ensures match Access.AddRoleMenus(old(Snapshot()), rows, roleID, keepIDs, gen)
              case Success(t) => ok && Snapshot() == t
              case Failure(e) => !ok && e == DuplicateKey
      ensures Snapshot() == old(Snapshot()).(store := old(Snapshot()).store.(roleMenus := db.roleMenus))
    {
      ghost var a0 := Snapshot();
      for i := 0 to |rows|
        invariant Snapshot() == a0.(store := a0.store.(roleMenus := db.roleMenus))
        invariant Access.AddRoleMenus(Snapshot(), rows[i..], roleID, keepIDs, gen)
            == Access.AddRoleMenus(a0, rows, roleID, keepIDs, gen)
      {
        assert rows[i..][0] == rows[i] && rows[i..][1..] == rows[i + 1..];
        var id := rows[i].id;
        if !keepIDs || id == "" { id := gen(Snapshot()); }
        if id in db.roleMenus { return false; }
        db.roleMenus := db.roleMenus[id := RoleMenu(id, roleID, rows[i].menuID)];
      }
      ok := true;
    }

    method CreateRole(f: RoleForm, gen: AccountIdSource, now: int) returns (err: Option<AccessError>)
      requires Valid()
      modifies db`roles, db`roleMenus, db`stamp
      ensures Valid()
      ensures match Access.CreateRole(old(Snapshot()), f, gen, now)
              case Success(t) => err == None && Snapshot() == t
              case Failure(e) => err == Some(e) && Snapshot() == old(Snapshot())
    {
      if ExistsRoleCode(db.roles, f.code) { return Some(NameExists); }
      var role := FillRole(f, Role(gen(Snapshot()), "", "", "", 0, ""));
      var savedRoles, savedRoleMenus := db.roles, db.roleMenus;
      db.roles := db.roles[role.id := role];
      var ok := AddRoleMenus(f.menus, role.id, false, gen);
      if ok {
        db.stamp := Some(now);
        err := None;
      } else {
        db.roles, db.roleMenus := savedRoles, savedRoleMenus;
        err := Some(DuplicateKey);
      }
    }

    method UpdateRole(id: string, f: RoleForm, gen: AccountIdSource, now: int) returns (err: Option<AccessError>)
      requires Valid()
      modifies db`roles, db`roleMenus, db`stamp
      ensures Valid()
      ensures match Access.UpdateRole(old(Snapshot()), id, f, gen, now)
              case Success(t) => err == None && Snapshot() == t
              case Failure(e) => err == Some(e) && Snapshot() == old(Snapshot())
    {
      if id !in db.roles { return Some(NotFound); }
      if db.roles[id].code != f.code && ExistsRoleCode(db.roles, f.code) { return Some(NameExists); }
      var savedRoles, savedRoleMenus := db.roles, db.roleMenus;
      db.roles := db.roles[id := FillRole(f, db.roles[id])];
      db.roleMenus := WithoutRole(db.roleMenus, id);
      var ok := AddRoleMenus(f.menus, id, true, gen);
      if ok {
        db.stamp := Some(now);
        err := None;
      } else {
        db.roles, db.roleMenus := savedRoles, savedRoleMenus;
        err := Some(DuplicateKey);
      }
    }

    method DeleteRole(id: string, now: int) returns (err: Option<AccessError>)
      requires Valid()
      modifies db`roles, db`roleMenus, db`userRoles, db`stamp
      ensures Valid()
      ensures err == if id in old(db.roles) then None else Some(NotFound)
      ensures db.roles == old(db.roles) - {id} && db.stamp == if err.None? then Some(now) else old(db.stamp)
      ensures forall k ::
                k in db.roleMenus <==> k in old(db.roleMenus) && (err.None? ==> old(db.roleMenus)[k].roleID != id)
      ensures forall k :: k in db.roleMenus ==> db.roleMenus[k] == old(db.roleMenus)[k]
      ensures forall k ::
                k in db.userRoles <==> k in old(db.userRoles) && (err.None? ==> old(db.userRoles)[k].roleID != id)
      ensures forall k :: k in db.userRoles ==> db.userRoles[k] == old(db.userRoles)[k]
      ensures match Access.DeleteRole(old(Snapshot()), id, now)
              case Success(t) => err == None && Snapshot() == t
              case Failure(e) => err == Some(e) && Snapshot() == old(Snapshot())
    {
      if id !in db.roles { return Some(NotFound); }
      db.roles := db.roles - {id};
      db.roleMenus := WithoutRole(db.roleMenus, id);
      db.userRoles := map k | k in db.userRoles && db.userRoles[k].roleID != id :: db.userRoles[k];
      db.stamp := Some(now);
      err := None;
    }
  }
}

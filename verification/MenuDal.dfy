/** The tables in place, with the data-access calls of the menu code as methods. */
module MenuDal {
  import opened Wrappers
  import opened Identifiers
  import opened Tables
  import opened MenuTree
  import opened MenuOps
  import opened MenuImport

  /** Query parameters; an empty field is no restriction. */
  datatype MenuQuery = MenuQuery(
    inIDs: seq<string> := [], likeName: string := "", status: string := "", parentID: string := "",
    parentPathPrefix: string := "", userID: string := "", roleID: string := "")

  predicate Contains(s: string, sub: string) {
    sub <= s || (s != "" && Contains(s[1..], sub))
  }

  /** `LIKE '%sub%'`: the text stands somewhere in the string. */
  lemma {:induction false} ContainsSays(s: string, sub: string)
    ensures Contains(s, sub) <==> exists before, after :: s == before + sub + after
  {
    if sub <= s {
      assert s == "" + sub + s[|sub|..];
    } else if s != "" {
      ContainsSays(s[1..], sub);
      if before, after :| s[1..] == before + sub + after {
        assert s == ([s[0]] + before) + sub + after;
      }
    }
    if before, after :| s == before + sub + after {
      if before == "" {
        assert s[..|sub|] == sub;
      } else {
        assert s[1..] == before[1..] + sub + after;
      }
    }
  }

  predicate GrantedToUser(
      roleMenus: map<string, RoleMenu>, userRoles: map<string, UserRole>, userID: string, menuID: string) {
    exists k :: k in userRoles && userRoles[k].userID == userID && GrantedToRole(roleMenus, userRoles[k].roleID, menuID)
  }

  predicate Selects(q: MenuQuery, roleMenus: map<string, RoleMenu>, userRoles: map<string, UserRole>, r: Menu) {
    && (q.inIDs != [] ==> r.id in q.inIDs)
    && (q.likeName != "" ==> Contains(r.name, q.likeName))
    && (q.status != "" ==> r.status == q.status)
    && (q.parentID != "" ==> r.parentID == q.parentID)
    && (q.parentPathPrefix != "" ==> q.parentPathPrefix <= r.parentPath)
    && (q.userID != "" ==> GrantedToUser(roleMenus, userRoles, q.userID, r.id))
    && (q.roleID != "" ==> GrantedToRole(roleMenus, q.roleID, r.id))
  }

  /** What the parameters ask of a row: each of them that is given is met. */
  lemma SelectsSays(q: MenuQuery, roleMenus: map<string, RoleMenu>, userRoles: map<string, UserRole>, r: Menu)
    ensures Selects(q, roleMenus, userRoles, r) <==>
              && (q.inIDs == [] || exists i :: 0 <= i < |q.inIDs| && q.inIDs[i] == r.id)
              && (q.likeName == "" || exists before, after :: r.name == before + q.likeName + after)
              && q.status in {"", r.status} && q.parentID in {"", r.parentID}
              && (exists rest :: r.parentPath == q.parentPathPrefix + rest)
              && (q.userID == "" ||
                  exists u, g ::
                    && u in userRoles && userRoles[u].userID == q.userID
                    && g in roleMenus && roleMenus[g].roleID == userRoles[u].roleID && roleMenus[g].menuID == r.id)
              && (q.roleID == "" ||
                  exists g :: g in roleMenus && roleMenus[g].roleID == q.roleID && roleMenus[g].menuID == r.id)
  {
    ContainsSays(r.name, q.likeName);
    if q.parentPathPrefix <= r.parentPath {
      assert r.parentPath == q.parentPathPrefix + r.parentPath[|q.parentPathPrefix|..];
    }
    if GrantedToUser(roleMenus, userRoles, q.userID, r.id) {
      var u :| u in userRoles && userRoles[u].userID == q.userID && GrantedToRole(roleMenus, userRoles[u].roleID, r.id);
    }
  }

  /** `rows` lists the stored rows with the given ids, each once, in whatever order the query returns them. */
  ghost predicate Lists(rows: seq<Menu>, m: MenuTable, ids: set<string>) {
    && (forall i :: 0 <= i < |rows| ==> rows[i].id in ids && rows[i].id in m && m[rows[i].id] == rows[i])
    && (forall i, j :: 0 <= i < j < |rows| ==> rows[i].id != rows[j].id)
    && (forall id :: id in ids ==> exists i :: 0 <= i < |rows| && rows[i].id == id)
  }

  ghost predicate ResourceKeysMatch(resources: map<string, Resource>) {
    forall k :: k in resources ==> resources[k].id == k
  }

  /** `rows` lists the stored resources with the given ids, each once. */
  ghost predicate ListsResources(rows: seq<Resource>, resources: map<string, Resource>, ids: set<string>) {
    && (forall i :: 0 <= i < |rows| ==>
          rows[i].id in ids && rows[i].id in resources && resources[rows[i].id] == rows[i])
    && (forall i, j :: 0 <= i < j < |rows| ==> rows[i].id != rows[j].id)
    && (forall id :: id in ids ==> exists i :: 0 <= i < |rows| && rows[i].id == id)
  }

  /** The resources attached to one of the given menus. */
  function AttachedTo(resources: map<string, Resource>, menuIDs: seq<string>): set<string> {
    set k | k in resources && resources[k].menuID in menuIDs
  }

  function Lookup(m: MenuTable, id: Option<string>): Option<Menu>
    requires id.Some? ==> id.value in m
  {
    if id.None? then None else Some(m[id.value])
  }

  class Database {
    var menus: MenuTable
    var resources: map<string, Resource>
    var roleMenus: map<string, RoleMenu>
    var roles: map<string, Role>
    var userRoles: map<string, UserRole>
    var stamp: Option<int>

    function Snapshot(): Store
      reads this
    {
      Store(menus, resources, roleMenus, roles, stamp)
    }

    ghost predicate Valid()
      reads this
    {
      KeysMatch(menus) && ResourceKeysMatch(resources)
    }

    constructor ()
      ensures Valid() && Snapshot() == EMPTY_STORE && userRoles == map[]
    {
      menus, resources, roleMenus, roles, userRoles, stamp := map[], map[], map[], map[], map[], None;
    }

    /** A failed transaction puts back what was there when it began. */
    method Rollback(s: Store)
      requires KeysMatch(s.menus) && ResourceKeysMatch(s.resources)
      modifies this
      ensures Valid() && Snapshot() == s && userRoles == old(userRoles)
    {
      menus, resources, roleMenus, roles, stamp := s.menus, s.resources, s.roleMenus, s.roles, s.stamp;
    }

    method GetMenu(id: string) returns (r: Option<Menu>)
      ensures r == if id in menus then Some(menus[id]) else None
    {
      r := if id in menus then Some(menus[id]) else None;
    }

    method GetByCodeAndParentID(code: string, parentID: string) returns (r: Option<Menu>)
      ensures r.None? <==> forall k :: k in menus ==> menus[k].code != code || menus[k].parentID != parentID
      ensures r.Some? ==> exists k ::
                && k in menus && r.value == menus[k] && r.value.code == code && r.value.parentID == parentID
                && forall l :: l in menus && menus[l].code == code && menus[l].parentID == parentID ==> Leq(k, l)
      ensures r == Lookup(menus, FirstOf(CodeMatches(menus, code, parentID)))
    {
      var first := FirstOf(CodeMatches(menus, code, parentID));
      if first.None? {
        forall k | k in menus ensures menus[k].code != code || menus[k].parentID != parentID {
          assert k !in CodeMatches(menus, code, parentID);
        }
        return None;
      }
      r := Some(menus[first.value]);
    }

    method GetByNameAndParentID(name: string, parentID: string) returns (r: Option<Menu>)
      ensures r.None? <==> forall k :: k in menus ==> menus[k].name != name || menus[k].parentID != parentID
      ensures r.Some? ==> exists k ::
                && k in menus && r.value == menus[k] && r.value.name == name && r.value.parentID == parentID
                && forall l :: l in menus && menus[l].name == name && menus[l].parentID == parentID ==> Leq(k, l)
      ensures r == Lookup(menus, FirstOf(NameMatches(menus, name, parentID)))
    {
      var first := FirstOf(NameMatches(menus, name, parentID));
      if first.None? {
        forall k | k in menus ensures menus[k].name != name || menus[k].parentID != parentID {
          assert k !in NameMatches(menus, name, parentID);
        }
        return None;
      }
      r := Some(menus[first.value]);
    }

    method QueryMenus(q: MenuQuery) returns (rows: seq<Menu>)
      requires Valid()
      ensures Lists(rows, menus, set k | k in menus && Selects(q, roleMenus, userRoles, menus[k]))
    {
      var ids := set k | k in menus && Selects(q, roleMenus, userRoles, menus[k]);
      var rest := ids;
      rows := [];
      while rest != {}
        invariant rest <= ids && Lists(rows, menus, ids - rest)
        decreases rest
      {
        var k :| k in rest;
        var before := rows;
        rows := before + [menus[k]];
        ListsSnoc(before, menus, ids - rest, k);
        assert ids - (rest - {k}) == ids - rest + {k};
        rest := rest - {k};
      }
      assert ids - rest == ids;
    }

    /** `menu_id IN ?`, asked only with a non-empty list. */
    method QueryResources(menuIDs: seq<string>) returns (rows: seq<Resource>)
      requires Valid()
      ensures ListsResources(rows, resources, AttachedTo(resources, menuIDs))
    {
      var ids := AttachedTo(resources, menuIDs);
      var rest := ids;
      rows := [];
      while rest != {}
        invariant rest <= ids && ListsResources(rows, resources, ids - rest)
        decreases rest
      {
        var k :| k in rest;
        var before := rows;
        rows := before + [resources[k]];
        ListsResourcesSnoc(before, resources, ids - rest, k);
        assert ids - (rest - {k}) == ids - rest + {k};
        rest := rest - {k};
      }
      assert ids - rest == ids;
    }

    method InsertMenu(r: Menu)
      requires Valid() && r.id !in menus
      modifies this
      ensures Valid() && Snapshot() == old(Snapshot()).(menus := old(menus)[r.id := r]) && userRoles == old(userRoles)
    {
      menus := menus[r.id := r];
    }

    method UpdateMenu(r: Menu)
      requires Valid()
      modifies this
      ensures Valid() && userRoles == old(userRoles)
      ensures Snapshot() == old(Snapshot()).(menus := if r.id in old(menus) then old(menus)[r.id := r] else old(menus))
    {
      if r.id in menus { menus := menus[r.id := r]; }
    }

    method DeleteMenu(id: string)
      requires Valid()
      modifies this
      ensures Valid() && Snapshot() == old(Snapshot()).(menus := old(menus) - {id}) && userRoles == old(userRoles)
    {
      menus := menus - {id};
    }

    method UpdateParentPath(id: string, parentPath: string, now: int)
      requires Valid()
      modifies this
      ensures Valid() && Snapshot() == old(Snapshot()).(menus := menus) && userRoles == old(userRoles)
      ensures menus.Keys == old(menus).Keys
      ensures forall k :: k in menus && k != id ==> menus[k] == old(menus)[k]
      ensures id in menus ==> menus[id] == old(menus)[id].(parentPath := parentPath, updatedAt := now)
    {
      if id in menus { menus := menus[id := menus[id].(parentPath := parentPath, updatedAt := now)]; }
    }

    method UpdateStatusByParentPath(prefix: string, status: string, now: int)
      requires Valid()
      modifies this
      ensures Valid() && Snapshot() == old(Snapshot()).(menus := menus) && userRoles == old(userRoles)
      ensures menus.Keys == old(menus).Keys
      ensures forall k :: k in menus && !(prefix <= old(menus)[k].parentPath) ==> menus[k] == old(menus)[k]
      ensures forall k :: k in menus && prefix <= old(menus)[k].parentPath ==>
                menus[k] == old(menus)[k].(status := status, updatedAt := now)
    {
      menus := CascadeStatus(menus, prefix, status, now);
    }

    /** Inserting a resource fails when its key is taken. */
    method InsertResource(r: Resource) returns (ok: bool)
      requires Valid()
      modifies this
      ensures Valid()
      ensures ok == (r.id !in old(resources)) && userRoles == old(userRoles)
      ensures Snapshot() == if ok then old(Snapshot()).(resources := old(resources)[r.id := r]) else old(Snapshot())
    {
      ok := r.id !in resources;
      if ok { resources := resources[r.id := r]; }
    }

    method DeleteResourcesOf(menuID: string)
      requires Valid()
      modifies this
      ensures Valid()
      ensures Snapshot() == old(Snapshot()).(resources := WithoutMenus(old(resources), MENU_OF_RESOURCE, {menuID}))
      ensures userRoles == old(userRoles)
    {
      resources := WithoutMenus(resources, MENU_OF_RESOURCE, {menuID});
    }

    method DeleteRoleMenusOf(menuID: string)
      requires Valid()
      modifies this
      ensures Valid()
      ensures Snapshot() == old(Snapshot()).(roleMenus := WithoutMenus(old(roleMenus), MENU_OF_ROLE_MENU, {menuID}))
      ensures userRoles == old(userRoles)
    {
      roleMenus := WithoutMenus(roleMenus, MENU_OF_ROLE_MENU, {menuID});
    }

    method SyncToCasbin(now: int)
      requires Valid()
      modifies this
      ensures Valid()
      ensures Snapshot() == old(Snapshot()).(stamp := Some(now)) && userRoles == old(userRoles)
    {
      stamp := Some(now);
    }
  }

  lemma ListsSnoc(rows: seq<Menu>, m: MenuTable, ids: set<string>, k: string)
    requires Lists(rows, m, ids) && k in m && m[k].id == k && k !in ids
    ensures Lists(rows + [m[k]], m, ids + {k})
  {
    var rows' := rows + [m[k]];
    forall id | id in ids + {k} ensures exists i :: 0 <= i < |rows'| && rows'[i].id == id {
      if id == k {
        assert rows'[|rows|].id == id;
      } else {
        var i :| 0 <= i < |rows| && rows[i].id == id;
        assert rows'[i].id == id;
      }
    }
  }

  lemma ListsResourcesSnoc(rows: seq<Resource>, resources: map<string, Resource>, ids: set<string>, k: string)
    requires ListsResources(rows, resources, ids) && k in resources && resources[k].id == k && k !in ids
    ensures ListsResources(rows + [resources[k]], resources, ids + {k})
  {
    var rows' := rows + [resources[k]];
    forall id | id in ids + {k} ensures exists i :: 0 <= i < |rows'| && rows'[i].id == id {
      if id == k {
        assert rows'[|rows|].id == id;
      } else {
        var i :| 0 <= i < |rows| && rows[i].id == id;
        assert rows'[i].id == id;
      }
    }
  }
}

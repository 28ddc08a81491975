/** The policy that the tables call for, and the query that reads one role's share of it. */
module Policy {
  import opened Tables
  import opened MenuTree
  import opened MenuOps
  import opened MenuImport
  import opened MenuDal
  import opened Ancestors

  /** Role `roleID` holds the enabled menu `g`. */
  predicate Granted(s: Store, roleID: string, g: string) {
    g in s.menus && s.menus[g].status == ENABLED && GrantedToRole(s.roleMenus, roleID, g)
  }

  /** `menuID` is a granted menu or lies above one. */
  ghost predicate Reaches(s: Store, roleID: string, menuID: string) {
    exists g :: Granted(s, roleID, g) && (g == menuID || IsAncestor(s.menus, menuID, g))
  }

  /** The resources that role `roleID` gets: those attached to a menu it reaches. */
  ghost function RoleResources(s: Store, roleID: string): set<string> {
    set k | k in s.resources && Reaches(s, roleID, s.resources[k].menuID)
  }

  function EnabledRoles(s: Store): set<string> {
    set k | k in s.roles && s.roles[k].status == ENABLED
  }

  datatype Rule = Rule(roleID: string, path: string, verb: string)

  /** The compiled policy. */
  ghost function PolicyOf(s: Store): set<Rule> {
    set r, k | r in EnabledRoles(s) && k in RoleResources(s, r) :: Rule(r, s.resources[k].path, s.resources[k].verb)
  }

  function GrantedIds(s: Store, roleID: string): set<string> {
    set k | k in s.menus && Granted(s, roleID, k)
  }

  /** `queryRoleResources`: granted menus, their closure read off the paths, then the attached resources. */
  method QueryRoleResources(db: Database, roleID: string) returns (rs: seq<Resource>, ghost granted: seq<Menu>)
    requires db.Valid() && roleID != ""
    ensures Lists(granted, db.menus, GrantedIds(db.Snapshot(), roleID))
    ensures ListsResources(rs, db.resources, AttachedTo(db.resources, MenuIDs(granted, {})))
    ensures PathInv(db.menus) ==> ListsResources(rs, db.resources, RoleResources(db.Snapshot(), roleID))
  {
    var q := MenuQuery(roleID := roleID, status := ENABLED);
    var rows := db.QueryMenus(q);
    granted := rows;
    assert (set k | k in db.menus && Selects(q, db.roleMenus, db.userRoles, db.menus[k]))
        == GrantedIds(db.Snapshot(), roleID);
    if |rows| == 0 {
      rs := [];
    } else {
      var menuIDs := CollectMenuIDs(rows);
      rs := db.QueryResources(menuIDs);
    }
    if PathInv(db.menus) {
      AttachedAreReached(db.Snapshot(), roleID, granted);
    }
  }

  /** What is read off the paths of the granted menus is what the role reaches by parent links. */
  lemma AttachedAreReached(s: Store, roleID: string, granted: seq<Menu>)
    requires PathInv(s.menus) && Lists(granted, s.menus, GrantedIds(s, roleID))
    ensures AttachedTo(s.resources, MenuIDs(granted, {})) == RoleResources(s, roleID)
  {
    CollectedAreReached(s, roleID, granted);
  }

  lemma CollectedAreReached(s: Store, roleID: string, granted: seq<Menu>)
    requires PathInv(s.menus) && Lists(granted, s.menus, GrantedIds(s, roleID))
    ensures forall x :: x in MenuIDs(granted, {}) <==> Reaches(s, roleID, x)
  {
    CollectMenuIDsIsClosure(s.menus, granted);
    forall x ensures x in MenuIDs(granted, {}) <==> Reaches(s, roleID, x) {
      if Reaches(s, roleID, x) {
        var g :| Granted(s, roleID, g) && (g == x || IsAncestor(s.menus, x, g));
        assert g in GrantedIds(s, roleID);
      }
    }
  }

  // ----- which operations leave the policy alone -----

  /**
   `Create` leaves every role's share unchanged in every table state, even one whose paths are wrong:
   the new menu is granted to nobody and occurs in no path, so each listing of granted menus
   collects the same ids, and the new resources hang on none of them.
   */
  lemma CreateKeepsPolicy(s: Store, f: MenuForm, gen: IdSource, now: int, roleID: string, granted: seq<Menu>)
    requires CreateMenu(s, f, gen, now).Success?
    requires Lists(granted, s.menus, GrantedIds(s, roleID))
    ensures var t := CreateMenu(s, f, gen, now).value.0;
            && EnabledRoles(t) == EnabledRoles(s)
            && Lists(granted, t.menus, GrantedIds(t, roleID))
            && AttachedTo(t.resources, MenuIDs(granted, {})) == AttachedTo(s.resources, MenuIDs(granted, {}))
            && forall k :: k in AttachedTo(s.resources, MenuIDs(granted, {})) ==> t.resources[k] == s.resources[k]
  {
    var (t, menu) := CreateMenu(s, f, gen, now).value;
    AddNewResourcesEffect(s.(menus := s.menus[menu.id := menu]), f.resources, menu.id, gen, now);
    FreshIsUngranted(s, t, menu, roleID, granted);
  }

  /** A menu with an id that occurs nowhere is granted to nobody and collected from no path. */
  lemma FreshIsUngranted(s: Store, t: Store, menu: Menu, roleID: string, granted: seq<Menu>)
    requires Fresh(s, menu.id) && Lists(granted, s.menus, GrantedIds(s, roleID))
    requires t.menus == s.menus[menu.id := menu] && t.roleMenus == s.roleMenus
    ensures GrantedIds(t, roleID) == GrantedIds(s, roleID)
    ensures Lists(granted, t.menus, GrantedIds(t, roleID))
    ensures menu.id !in MenuIDs(granted, {})
  {
    assert GrantedIds(t, roleID) == GrantedIds(s, roleID) by {
      assert !GrantedToRole(s.roleMenus, roleID, menu.id);
    }
    if menu.id in MenuIDs(granted, {}) {
      CollectedFromRows(granted, {}, menu.id);
    }
  }

  /** Under the path invariant this says that the compiled policy is the same before and after `Create`. */
  lemma CreateNeedsNoStamp(s: Store, f: MenuForm, gen: IdSource, now: int)
    requires PathInv(s.menus) && CreateMenu(s, f, gen, now).Success?
    ensures SamePolicy(s, CreateMenu(s, f, gen, now).value.0)
    ensures CreateMenu(s, f, gen, now).value.0.stamp == s.stamp
  {
    var t := CreateMenu(s, f, gen, now).value.0;
    CreateKeepsPathInv(s, f, gen, now);
    forall roleID ensures SameShare(s, t, roleID) {
      CreateKeepsShare(s, f, gen, now, roleID);
    }
    assert SameShare(s, t, "");
    assert forall roleID :: SameShare(s, t, roleID);
  }

  lemma CreateKeepsShare(s: Store, f: MenuForm, gen: IdSource, now: int, roleID: string)
    requires PathInv(s.menus) && CreateMenu(s, f, gen, now).Success?
    requires PathInv(CreateMenu(s, f, gen, now).value.0.menus)
    ensures EnabledRoles(CreateMenu(s, f, gen, now).value.0) == EnabledRoles(s)
    ensures SameShare(s, CreateMenu(s, f, gen, now).value.0, roleID)
  {
    var t := CreateMenu(s, f, gen, now).value.0;
    var granted := SomeListing(s.menus, GrantedIds(s, roleID));
    CreateKeepsPolicy(s, f, gen, now, roleID, granted);
    SameCollected(s, t, roleID, granted);
  }

  lemma SameCollected(s: Store, t: Store, roleID: string, granted: seq<Menu>)
    requires PathInv(s.menus) && Lists(granted, s.menus, GrantedIds(s, roleID))
    requires PathInv(t.menus) && Lists(granted, t.menus, GrantedIds(t, roleID))
    requires AttachedTo(t.resources, MenuIDs(granted, {})) == AttachedTo(s.resources, MenuIDs(granted, {}))
    requires forall k :: k in AttachedTo(s.resources, MenuIDs(granted, {})) ==> t.resources[k] == s.resources[k]
    ensures SameShare(s, t, roleID)
  {
    AttachedAreReached(s, roleID, granted);
    AttachedAreReached(t, roleID, granted);
    CollectedAreReached(s, roleID, granted);
    CollectedAreReached(t, roleID, granted);
  }

  /** A role reaches the same menus and gets the same resources. */
  ghost predicate SameShare(s: Store, t: Store, roleID: string) {
    && (forall x :: Reaches(t, roleID, x) <==> Reaches(s, roleID, x))
    && RoleResources(t, roleID) == RoleResources(s, roleID)
    && (forall k :: k in RoleResources(s, roleID) ==> t.resources[k] == s.resources[k])
  }

  /** Nothing a load reads differs between the two states. */
  ghost predicate SamePolicy(s: Store, t: Store) {
    && EnabledRoles(t) == EnabledRoles(s)
    && (forall roleID :: SameShare(s, t, roleID))
  }

  lemma {:induction false} SomeListing(m: MenuTable, ids: set<string>) returns (rows: seq<Menu>)
    requires KeysMatch(m) && ids <= m.Keys
    ensures Lists(rows, m, ids)
    decreases ids
  {
    if ids == {} {
      rows := [];
    } else {
      var k :| k in ids;
      rows := SomeListing(m, ids - {k});
      ListsSnoc(rows, m, ids - {k}, k);
      rows := rows + [m[k]];
      assert ids - {k} + {k} == ids;
    }
  }
}

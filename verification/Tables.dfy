/** The rows and tables behind menus, roles and their permissions. */
module Tables {
  import opened Wrappers
  import opened Paths
  import opened Identifiers

  datatype Menu = Menu(
    id: string, code: string, name: string, description: string, sequence: int,
    kind: string, path: string, properties: string, status: string,
    parentID: string, parentPath: string, createdAt: int, updatedAt: int)

  datatype Resource = Resource(
    id: string, menuID: string, verb: string, path: string, createdAt: int, updatedAt: int)

  datatype RoleMenu = RoleMenu(id: string, roleID: string, menuID: string)

  datatype UserRole = UserRole(id: string, userID: string, roleID: string)

  datatype Role = Role(
    id: string, code: string, name: string, description: string, sequence: int, status: string)

  /** The tables the menu code reads and writes; `stamp` is the cached `sync:casbin` value. */
  datatype Store = Store(
    menus: map<string, Menu>,
    resources: map<string, Resource>,
    roleMenus: map<string, RoleMenu>,
    roles: map<string, Role>,
    stamp: Option<int>)

  const ENABLED := "enabled"

  /** What the database layer fills in when a row is created: times that are still zero. */
  function WithTimes(r: Resource, now: int): Resource {
    r.(createdAt := if r.createdAt == 0 then now else r.createdAt,
       updatedAt := if r.updatedAt == 0 then now else r.updatedAt)
  }

  predicate GrantedToRole(roleMenus: map<string, RoleMenu>, roleID: string, menuID: string) {
    exists k :: k in roleMenus && roleMenus[k].roleID == roleID && roleMenus[k].menuID == menuID
  }

  predicate HasResource(resources: map<string, Resource>, verb: string, path: string, menuID: string) {
    exists k ::
      k in resources && resources[k].verb == verb && resources[k].path == path && resources[k].menuID == menuID
  }

  const EMPTY_STORE := Store(map[], map[], map[], map[], None)

  /** `id` occurs nowhere in the tables. */
  ghost predicate Fresh(s: Store, id: string) {
    && id !in s.menus && id !in s.resources && id !in s.roleMenus && id !in s.roles
    && (forall k :: k in s.menus ==> s.menus[k].parentID != id && id !in Segments(s.menus[k].parentPath))
    && (forall k :: k in s.resources ==> s.resources[k].menuID != id)
    && (forall k :: k in s.roleMenus ==> s.roleMenus[k].menuID != id && s.roleMenus[k].roleID != id)
  }

  /** `util.NewXID`: any generator whose ids are valid and occur nowhere in the tables. */
  ghost predicate IsIdSource(gen: Store -> string) {
    forall s: Store :: IsId(gen(s)) && Fresh(s, gen(s))
  }

  type IdSource = gen: Store -> string | IsIdSource(gen) ghost witness UnusedId

  /** Every id that occurs anywhere in the tables. */
  ghost function UsedIds(s: Store): set<string> {
    s.menus.Keys + s.resources.Keys + s.roleMenus.Keys + s.roles.Keys
    + (set k | k in s.menus :: s.menus[k].parentID)
    + (set k, id | k in s.menus && id in Segments(s.menus[k].parentPath) :: id)
    + (set k | k in s.resources :: s.resources[k].menuID)
    + (set k | k in s.roleMenus :: s.roleMenus[k].menuID)
    + (set k | k in s.roleMenus :: s.roleMenus[k].roleID)
  }

  lemma FreshOutside(s: Store, id: string)
    requires id !in UsedIds(s)
    ensures Fresh(s, id)
  {
  }

  ghost function UnusedId(s: Store): (id: string)
    ensures IsId(id) && Fresh(s, id)
  {
    FreshOutside(s, LongerThanAll(UsedIds(s)));
    LongerThanAll(UsedIds(s))
  }
}

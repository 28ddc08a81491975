/**
 What one call of `Create`, `Update` and `Delete` on menus does to the tables,
 and what each call keeps of the path invariant.
 */
module MenuOps {
  import opened Wrappers
  import opened Paths
  import opened Tables
  import opened MenuTree

  datatype MenuForm = MenuForm(
    code: string, name: string, description: string, sequence: int, kind: string, path: string,
    properties: string, status: string, parentID: string, resources: seq<Resource>)

  datatype MenuError = NotAllowed | MenuNotFound | ParentNotFound | CodeExists | DuplicateKey

  function FillTo(f: MenuForm, r: Menu): Menu {
    r.(code := f.code, name := f.name, description := f.description, sequence := f.sequence, kind := f.kind,
    path := f.path, properties := f.properties, status := f.status, parentID := f.parentID)
  }

  predicate ExistsCode(m: MenuTable, code: string, parentID: string) {
    exists k :: k in m && m[k].code == code && m[k].parentID == parentID
  }

  /** The path a menu gets under `parentID`. */
  function PathUnder(m: MenuTable, parentID: string): string
    requires parentID == "" || parentID in m
  {
    if parentID == "" then "" else SubtreePrefix(m[parentID])
  }

  /** `Create` gives every resource of the form a new id. */
  function AddNewResources(s: Store, rs: seq<Resource>, menuID: string, gen: IdSource, now: int): Store
    decreases |rs|
  {
    if rs == [] then s
    else
      var id := gen(s);
      var r := WithTimes(rs[0].(id := id, menuID := menuID, createdAt := now), now);
      AddNewResources(s.(resources := s.resources[id := r]), rs[1..], menuID, gen, now)
  }

  /** `Update` keeps the ids that the form carries; a key already taken fails the transaction. */
  function AddFormResources(s: Store, rs: seq<Resource>, menuID: string, gen: IdSource, now: int)
    : Result<Store, MenuError>
    decreases |rs|
  {
    if rs == [] then Success(s)
    else
      var id := if rs[0].id == "" then gen(s) else rs[0].id;
      if id in s.resources then Failure(DuplicateKey)
      else
        var created := if rs[0].createdAt == 0 then now else rs[0].createdAt;
        var r := rs[0].(id := id, menuID := menuID, createdAt := created, updatedAt := now);
        AddFormResources(s.(resources := s.resources[id := r]), rs[1..], menuID, gen, now)
  }

  function NewMenu(s: Store, f: MenuForm, id: string, now: int): Menu
    requires f.parentID == "" || f.parentID in s.menus
  {
    FillTo(f, Menu(id, "", "", "", 0, "", "", "", "", "", PathUnder(s.menus, f.parentID), now, now))
  }

  function CreateMenu(s: Store, f: MenuForm, gen: IdSource, now: int): Result<(Store, Menu), MenuError> {
    var id := gen(s);
    if f.parentID != "" && f.parentID !in s.menus then Failure(ParentNotFound)
    else if ExistsCode(s.menus, f.code, f.parentID) then Failure(CodeExists)
    else
      var menu := NewMenu(s, f, id, now);
      Success((AddNewResources(s.(menus := s.menus[id := menu]), f.resources, id, gen, now), menu))
  }

  function CascadeStatus(m: MenuTable, prefix: string, status: string, now: int): MenuTable {
    map k | k in m :: if prefix <= m[k].parentPath then m[k].(status := status, updatedAt := now) else m[k]
  }

  function RewritePaths(m: MenuTable, old_: string, new_: string, now: int): MenuTable {
    map k | k in m ::
      if old_ <= m[k].parentPath
      then m[k].(parentPath := ReplaceFirst(m[k].parentPath, old_, new_), updatedAt := now)
      else m[k]
  }

  function WithoutMenus<R>(rows: map<string, R>, menuOf: R -> string, removed: set<string>): map<string, R> {
    map k | k in rows && menuOf(rows[k]) !in removed :: rows[k]
  }

  const MENU_OF_RESOURCE := (r: Resource) => r.menuID
  const MENU_OF_ROLE_MENU := (r: RoleMenu) => r.menuID

  /** Why `Update` turns a form down before it opens the transaction. */
  function UpdateRefusal(s: Store, id: string, f: MenuForm): Option<MenuError> {
    if id !in s.menus then Some(MenuNotFound)
    else if s.menus[id].parentID != f.parentID && f.parentID != "" && f.parentID !in s.menus then Some(ParentNotFound)
    else if s.menus[id].code != f.code && ExistsCode(s.menus, f.code, f.parentID) then Some(CodeExists)
    else None
  }

  /** The row that `Update` writes for the menu itself. */
  function UpdatedMenu(m: MenuTable, id: string, f: MenuForm, now: int): Menu
    requires id in m && (m[id].parentID == f.parentID || f.parentID == "" || f.parentID in m)
  {
    var path := if m[id].parentID == f.parentID then m[id].parentPath else PathUnder(m, f.parentID);
    FillTo(f, m[id].(parentPath := path, updatedAt := now))
  }

  /** The menu table after `Update`: status cascade on the old path, path rewrite, then the menu itself. */
  function UpdatedMenus(m: MenuTable, id: string, f: MenuForm, now: int): MenuTable
    requires id in m && (m[id].parentID == f.parentID || f.parentID == "" || f.parentID in m)
  {
    var menu := UpdatedMenu(m, id, f, now);
    var old_ := SubtreePrefix(m[id]);
    var m1 := if m[id].status != f.status then CascadeStatus(m, old_, f.status, now) else m;
    var m2 := if m[id].parentID != f.parentID then RewritePaths(m1, old_, SubtreePrefix(menu), now) else m1;
    m2[id := menu]
  }

  function UpdateMenu(s: Store, id: string, f: MenuForm, gen: IdSource, now: int): Result<Store, MenuError> {
    match UpdateRefusal(s, id, f)
    case Some(e) => Failure(e)
    case None =>
      var s1 := s.(menus := UpdatedMenus(s.menus, id, f, now),
                   resources := WithoutMenus(s.resources, MENU_OF_RESOURCE, {id}));
      match AddFormResources(s1, f.resources, id, gen, now)
      case Failure(e) => Failure(e)
      case Success(s2) => Success(s2.(stamp := Some(now)))
  }

  function DeleteMenu(s: Store, id: string, now: int): Result<Store, MenuError> {
    if id !in s.menus then Failure(MenuNotFound)
    else
      var removed := {id} + Below(s.menus, SubtreePrefix(s.menus[id]));
      Success(s.(menus := s.menus - removed,
                 resources := WithoutMenus(s.resources, MENU_OF_RESOURCE, removed),
                 roleMenus := WithoutMenus(s.roleMenus, MENU_OF_ROLE_MENU, removed),
                 stamp := Some(now)))
  }

  /** Which resource rows an operation may have added: only new ones, all attached to `menuID`. */
  ghost predicate AddsOnlyTo(before: map<string, Resource>, after: map<string, Resource>, menuID: string) {
    && before.Keys <= after.Keys
    && (forall k :: k in before ==> after[k] == before[k])
    && (forall k :: k in after && k !in before ==> after[k].id == k && after[k].menuID == menuID)
  }

  lemma AddsOneMore(before: map<string, Resource>, r: Resource, after: map<string, Resource>, menuID: string)
    requires r.id !in before && r.menuID == menuID && AddsOnlyTo(before[r.id := r], after, menuID)
    ensures AddsOnlyTo(before, after, menuID) && |before[r.id := r]| == |before| + 1
  {
  }

  lemma {:induction false} AddNewResourcesEffect(s: Store, rs: seq<Resource>, menuID: string, gen: IdSource, now: int)
    ensures var t := AddNewResources(s, rs, menuID, gen, now);
            && t == s.(resources := t.resources)
            && AddsOnlyTo(s.resources, t.resources, menuID)
            && |t.resources| == |s.resources| + |rs|
    decreases |rs|
  {
    if rs != [] {
      var id := gen(s);
      var r := WithTimes(rs[0].(id := id, menuID := menuID, createdAt := now), now);
      var t := AddNewResources(s, rs, menuID, gen, now);
      AddNewResourcesEffect(s.(resources := s.resources[id := r]), rs[1..], menuID, gen, now);
      AddsOneMore(s.resources, r, t.resources, menuID);
    }
  }

  lemma {:induction false} AddFormResourcesEffect(s: Store, rs: seq<Resource>, menuID: string, gen: IdSource, now: int)
    requires AddFormResources(s, rs, menuID, gen, now).Success?
    ensures var t := AddFormResources(s, rs, menuID, gen, now).value;
            && t == s.(resources := t.resources)
            && AddsOnlyTo(s.resources, t.resources, menuID)
            && |t.resources| == |s.resources| + |rs|
    decreases |rs|
  {
    if rs != [] {
      var id := if rs[0].id == "" then gen(s) else rs[0].id;
      var created := if rs[0].createdAt == 0 then now else rs[0].createdAt;
      var r := rs[0].(id := id, menuID := menuID, createdAt := created, updatedAt := now);
      var t := AddFormResources(s, rs, menuID, gen, now).value;
      AddFormResourcesEffect(s.(resources := s.resources[id := r]), rs[1..], menuID, gen, now);
      AddsOneMore(s.resources, r, t.resources, menuID);
    }
  }

  /** Adding a row under an existing parent, with the path that parent gives, keeps the invariant. */
  lemma InsertKeepsPathInv(m: MenuTable, r: Menu)
    requires PathInv(m) && IsId(r.id) && r.id !in m
    requires r.parentID == "" || r.parentID in m
    requires r.parentPath == PathUnder(m, r.parentID)
    ensures PathInv(m[r.id := r])
  {
    var m' := m[r.id := r];
    forall k | k in m' ensures RowInv(m', k) {
      if k in m { assert RowInv(m, k); }
    }
  }

  /** `Create` adds one menu under the parent it names, and keeps the invariant. */
  lemma CreateKeepsPathInv(s: Store, f: MenuForm, gen: IdSource, now: int)
    requires PathInv(s.menus) && CreateMenu(s, f, gen, now).Success?
    ensures var (t, menu) := CreateMenu(s, f, gen, now).value;
            && PathInv(t.menus)
            && menu.id !in s.menus
            && t.menus == s.menus[menu.id := menu]
            && AddsOnlyTo(s.resources, t.resources, menu.id)
            && |t.resources| == |s.resources| + |f.resources|
            && t == s.(menus := t.menus, resources := t.resources)
  {
    var menu := CreateMenu(s, f, gen, now).value.1;
    AddNewResourcesEffect(s.(menus := s.menus[menu.id := menu]), f.resources, menu.id, gen, now);
    InsertKeepsPathInv(s.menus, menu);
  }

  /** Adding a row leaves the other chains alone and hangs the new row under its parent. */
  lemma InsertedChain(m: MenuTable, r: Menu, k: string)
    requires PathInv(m) && PathInv(m[r.id := r]) && r.id !in m && k in m[r.id := r]
    requires r.parentID == "" || r.parentID in m
    ensures k in m ==> Chain(m[r.id := r], k) == Chain(m, k)
    ensures k == r.id ==> Chain(m[r.id := r], k) == if r.parentID == "" then [] else Chain(m, r.parentID) + [r.parentID]
  {
    var m' := m[r.id := r];
    assert RowInv(m', k);
    if k in m {
      ChainFromParents(m, m', k);
    } else if r.parentID != "" {
      ChainDistinct(m', k);
      assert Chain(m', k) == Chain(m', r.parentID) + [r.parentID];
      ChainFromParents(m, m', r.parentID);
    }
  }

  /** Chains depend only on the parent links above. */
  lemma {:induction false} ChainFromParents(m: MenuTable, m': MenuTable, id: string)
    requires PathInv(m) && PathInv(m') && id in m && id in m'
    requires m'[id].parentID == m[id].parentID
    requires forall a :: a in Chain(m, id) ==> a in m' && m'[a].parentID == m[a].parentID
    ensures Chain(m', id) == Chain(m, id)
    decreases |m[id].parentPath|
  {
    assert RowInv(m, id);
    var p := m[id].parentID;
    if p != "" {
      assert Chain(m, id)[|Chain(m, p)|] == p;
      assert forall a :: a in Chain(m, p) ==> a in Chain(m, id);
      ChainFromParents(m, m', p);
    }
  }

  /** The move that the code does not refuse but should: under the menu itself or one of its descendants. */
  ghost predicate InOwnSubtree(m: MenuTable, id: string, parentID: string) {
    parentID == id || IsAncestor(m, id, parentID)
  }

  /** Row by row, what a relocation of `id` together with its subtree means. */
  ghost predicate Relocates(m: MenuTable, m': MenuTable, id: string)
    requires id in m
  {
    && m'.Keys == m.Keys
    && m'[id].id == id
    && (forall k :: k in m && k != id && !(SubtreePrefix(m[id]) <= m[k].parentPath) ==> m'[k] == m[k])
    && (forall k :: k in m && k != id && SubtreePrefix(m[id]) <= m[k].parentPath ==>
          && m'[k].id == m[k].id
          && m'[k].parentID == m[k].parentID
          && m'[k].parentPath == SubtreePrefix(m'[id]) + m[k].parentPath[|SubtreePrefix(m[id])|..])
  }

  lemma UpdateRelocates(m: MenuTable, id: string, f: MenuForm, now: int)
    requires Keyed(m) && id in m && (m[id].parentID == f.parentID || f.parentID == "" || f.parentID in m)
    ensures var m' := UpdatedMenus(m, id, f, now);
            && Relocates(m, m', id)
            && m'[id] == UpdatedMenu(m, id, f, now)
            && forall k :: k in m && k != id && SubtreePrefix(m[id]) <= m[k].parentPath ==>
                  m'[k].status == if m[id].status != f.status then f.status else m[k].status
  {
    var m', old_ := UpdatedMenus(m, id, f, now), SubtreePrefix(m[id]);
    forall k | k in m && k != id ensures UpdatedRow(m, m', id, f, k) {
      UpdatedRowOf(m, id, f, now, k);
    }
    assert forall k :: k in m && k != id ==> UpdatedRow(m, m', id, f, k);
  }

  /** What becomes of another row. */
  ghost predicate UpdatedRow(m: MenuTable, m': MenuTable, id: string, f: MenuForm, k: string)
    requires id in m && k in m
  {
    && k in m' && id in m'
    && (!(SubtreePrefix(m[id]) <= m[k].parentPath) ==> m'[k] == m[k])
    && (SubtreePrefix(m[id]) <= m[k].parentPath ==>
          && m'[k].id == m[k].id
          && m'[k].parentID == m[k].parentID
          && m'[k].parentPath == SubtreePrefix(m'[id]) + m[k].parentPath[|SubtreePrefix(m[id])|..]
          && m'[k].status == if m[id].status != f.status then f.status else m[k].status)
  }

  lemma UpdatedRowOf(m: MenuTable, id: string, f: MenuForm, now: int, k: string)
    requires Keyed(m) && id in m && (m[id].parentID == f.parentID || f.parentID == "" || f.parentID in m)
    requires k in m && k != id
    ensures UpdatedRow(m, UpdatedMenus(m, id, f, now), id, f, k)
  {
    var old_ := SubtreePrefix(m[id]);
    if old_ <= m[k].parentPath {
      assert m[k].parentPath == old_ + m[k].parentPath[|old_|..];
    }
  }

  /** Nothing is moved below itself: the prefix form of `!InOwnSubtree`. */
  lemma MoveIsOutside(m: MenuTable, id: string, p: string)
    requires PathInv(m) && id in m && p in m
    ensures InOwnSubtree(m, id, p) <==> p == id || SubtreePrefix(m[id]) <= m[p].parentPath
  {
    PrefixSelectsDescendants(m, id, p);
  }

  /** A row below `id` sits under `id` or under a row below `id`. */
  lemma PrefixOfSubtree(m: MenuTable, id: string, k: string)
    requires PathInv(m) && id in m && k in m && SubtreePrefix(m[id]) <= m[k].parentPath
    ensures m[k].parentID in m
    ensures m[k].parentID == id || SubtreePrefix(m[id]) <= m[m[k].parentID].parentPath
  {
    PrefixTestIsChainPrefix(m, id, k);
    assert RowInv(m, k);
    var p := m[k].parentID;
    PrefixTestIsChainPrefix(m, id, p);
    assert Chain(m, k) == Chain(m, p) + [p];
    if |Chain(m, id)| + 1 == |Chain(m, k)| {
      assert (Chain(m, id) + [id])[|Chain(m, id)|] == Chain(m, k)[|Chain(m, id)|];
    }
  }

  /** Conversely, whatever sits under `id` or under a row below `id` is below `id`. */
  lemma BelowFromParent(m: MenuTable, id: string, k: string)
    requires PathInv(m) && id in m && k in m && m[k].parentID in m
    requires m[k].parentID == id || SubtreePrefix(m[id]) <= m[m[k].parentID].parentPath
    ensures SubtreePrefix(m[id]) <= m[k].parentPath
  {
    assert RowInv(m, k);
  }

  lemma RelocationKeepsRow(m: MenuTable, m': MenuTable, id: string, k: string)
    requires PathInv(m) && id in m && k in m && Relocates(m, m', id)
    requires RowInv(m', id)
    requires m'[id].parentID != "" ==> !(SubtreePrefix(m[id]) <= m[m'[id].parentID].parentPath)
    ensures RowInv(m', k)
  {
    assert RowInv(m, k);
    var p := m[k].parentID;
    if k == id {
    } else if SubtreePrefix(m[id]) <= m[k].parentPath {
      PrefixOfSubtree(m, id, k);
      RebasedRow(SubtreePrefix(m[id]), SubtreePrefix(m'[id]), m[p].parentPath, p, m[k].parentPath);
    } else if p != "" && (p == id || SubtreePrefix(m[id]) <= m[p].parentPath) {
      BelowFromParent(m, id, k);
    }
  }

  /** Rebasing a path commutes with appending an id to it. */
  lemma RebasedRow(old_: string, new_: string, parentPath: string, parentID: string, path: string)
    requires old_ <= path && path == parentPath + parentID + [DELIMITER]
    ensures old_ <= parentPath ==>
              new_ + path[|old_|..] == new_ + parentPath[|old_|..] + parentID + [DELIMITER]
    ensures path == old_ ==> new_ + path[|old_|..] == new_
  {
    if old_ <= parentPath {
      assert path[|old_|..] == parentPath[|old_|..] + (parentID + [DELIMITER]);
    }
  }

  lemma RelocationKeepsPathInv(m: MenuTable, m': MenuTable, id: string)
    requires PathInv(m) && id in m && Relocates(m, m', id)
    requires RowInv(m', id)
    requires m'[id].parentID != "" ==> !(SubtreePrefix(m[id]) <= m[m'[id].parentID].parentPath)
    ensures PathInv(m')
  {
    forall k | k in m' ensures RowInv(m', k) && m'[k].id == k && IsId(k) {
      RelocationKeepsRow(m, m', id, k);
    }
  }

  /** Climbing from below `id` to `id` meets the same links before and after. */
  lemma {:induction false} RelocationKeepsClimb(m: MenuTable, m': MenuTable, id: string, k: string, n: nat)
    requires id in m && id != "" && Relocates(m, m', id) && n > 0 && Up(m, k, n) == id && k != id
    ensures IsAncestor(m', id, k)
    decreases n
  {
    if k !in m { UpOutside(m, k, n); }
    var p := m[k].parentID;
    assert m'[k].parentID == p;
    if p == id {
      assert Up(m', k, 1) == Up(m', p, 0);
    } else {
      assert n > 1;
      RelocationKeepsClimb(m, m', id, p, n - 1);
      var j: nat :| j > 0 && Up(m', p, j) == id;
      assert Up(m', k, j + 1) == id;
    }
  }

  lemma UpOutside(m: MenuTable, k: string, n: nat)
    requires k !in m && n > 0
    ensures Up(m, k, n) == ""
  {
  }

  /** A menu moved into its own subtree leaves a table whose index no longer agrees with the links. */
  lemma MoveBelowItselfBreaks(m: MenuTable, m': MenuTable, id: string)
    requires PathInv(m) && id in m && Relocates(m, m', id)
    requires m'[id].parentID in m && InOwnSubtree(m, id, m'[id].parentID)
    ensures !PathInv(m')
  {
    var p := m'[id].parentID;
    if PathInv(m') {
      assert RowInv(m', id);
      assert Chain(m', id) == Chain(m', p) + [p];
      if p != id {
        var n: nat :| n > 0 && Up(m, p, n) == id;
        RelocationKeepsClimb(m, m', id, p, n);
        ChainIsAncestors(m', id, p);
      }
      assert id in Chain(m', id);
      ChainDistinct(m', id);
    }
  }

  /** `Update` keeps the path invariant exactly when the menu is not moved into its own subtree. */
  lemma UpdateKeepsPathInv(s: Store, id: string, f: MenuForm, gen: IdSource, now: int)
    requires PathInv(s.menus) && UpdateMenu(s, id, f, gen, now).Success?
    ensures UpdateMenu(s, id, f, gen, now).value.menus == UpdatedMenus(s.menus, id, f, now)
    ensures PathInv(UpdateMenu(s, id, f, gen, now).value.menus)
       <==> s.menus[id].parentID == f.parentID || !InOwnSubtree(s.menus, id, f.parentID)
  {
    var s1 := s.(menus := UpdatedMenus(s.menus, id, f, now),
                 resources := WithoutMenus(s.resources, MENU_OF_RESOURCE, {id}));
    AddFormResourcesEffect(s1, f.resources, id, gen, now);
    UpdatedMenusKeepPathInv(s.menus, id, f, now);
  }

  lemma UpdatedMenusKeepPathInv(m: MenuTable, id: string, f: MenuForm, now: int)
    requires PathInv(m) && id in m && (m[id].parentID == f.parentID || f.parentID == "" || f.parentID in m)
    ensures PathInv(UpdatedMenus(m, id, f, now))
       <==> m[id].parentID == f.parentID || !InOwnSubtree(m, id, f.parentID)
  {
    UpdateRelocates(m, id, f, now);
    var m', p := UpdatedMenus(m, id, f, now), f.parentID;
    assert RowInv(m, id);
    if p != "" { MoveIsOutside(m, id, p); }
    ChainDistinct(m, id);
    NothingAboveRoots(m, id);
    if m[id].parentID == p {
      if p != "" { ChainIsAncestors(m, id, p); assert Chain(m, id) == Chain(m, p) + [p]; }
      RelocationKeepsPathInv(m, m', id);
    } else if InOwnSubtree(m, id, p) {
      MoveBelowItselfBreaks(m, m', id);
    } else {
      RelocationKeepsPathInv(m, m', id);
    }
  }

  /** A menu as it is, in the form that puts it under another parent. */
  function MovedTo(r: Menu, parentID: string): MenuForm {
    MenuForm(r.code, r.name, r.description, r.sequence, r.kind, r.path, r.properties, r.status, parentID, [])
  }

  /**
   For every menu, and every place in its own subtree, the form that moves it there is accepted and breaks the
   paths.
   */
  lemma MoveBelowItselfIsAccepted(s: Store, id: string, p: string, gen: IdSource, now: int)
    requires PathInv(s.menus) && id in s.menus && p in s.menus && InOwnSubtree(s.menus, id, p)
    ensures UpdateMenu(s, id, MovedTo(s.menus[id], p), gen, now).Success?
    ensures !PathInv(UpdateMenu(s, id, MovedTo(s.menus[id], p), gen, now).value.menus)
  {
    var m, f := s.menus, MovedTo(s.menus[id], p);
    assert UpdateRefusal(s, id, f) == None;
    if m[id].parentID != "" { ParentIsOutside(m, id); }
    UpdateKeepsPathInv(s, id, f, gen, now);
  }

  lemma ParentIsOutside(m: MenuTable, id: string)
    requires PathInv(m) && id in m && m[id].parentID != ""
    ensures !InOwnSubtree(m, id, m[id].parentID)
  {
    assert RowInv(m, id);
    var p := m[id].parentID;
    assert Chain(m, id) == Chain(m, p) + [p];
    ChainDistinct(m, id);
    ChainIsAncestors(m, id, p);
  }

  lemma NothingAboveRoots(m: MenuTable, id: string)
    requires PathInv(m) && id in m
    ensures !InOwnSubtree(m, id, "")
  {
    forall n: nat ensures Up(m, "", n) == "" { UpAboveRoot(m, n); }
  }

  /** A move carries the subtree along: below the moved menu every chain is kept, above it is the new one. */
  lemma UpdateMovesSubtree(m: MenuTable, id: string, f: MenuForm, now: int, k: string)
    requires PathInv(m) && id in m && (f.parentID == "" || f.parentID in m)
    requires PathInv(UpdatedMenus(m, id, f, now)) && k in m && k in UpdatedMenus(m, id, f, now)
    ensures var m' := UpdatedMenus(m, id, f, now);
            && m'.Keys == m.Keys
            && (k == id ==> Chain(m', k) == if f.parentID == "" then [] else Chain(m', f.parentID) + [f.parentID])
            && (IsAncestor(m, id, k) ==>
                  && Chain(m, id) <= Chain(m, k)
                  && Chain(m', k) == Chain(m', id) + Chain(m, k)[|Chain(m, id)|..]
                  && m'[k] ==
                       m[k].(status := m'[k].status, parentPath := m'[k].parentPath, updatedAt := m'[k].updatedAt)
                  && m'[k].status == if m[id].status != f.status then f.status else m[k].status)
            && (k != id && !IsAncestor(m, id, k) ==> m'[k] == m[k] && Chain(m', k) == Chain(m, k))
  {
    UpdateRelocates(m, id, f, now);
    var m' := UpdatedMenus(m, id, f, now);
    PrefixSelectsDescendants(m, id, k);
    ChainDistinct(m, id);
    ChainIsAncestors(m, id, k);
    if k == id {
      assert RowInv(m', id);
    } else if IsAncestor(m, id, k) {
      RelocatedChain(m, m', id, k);
      UpdatedDescendant(m, id, f, now, k);
    } else {
      OutsideKeepsChain(m, m', id, k);
    }
  }

  lemma UpdatedDescendant(m: MenuTable, id: string, f: MenuForm, now: int, k: string)
    requires Keyed(m) && id in m && (m[id].parentID == f.parentID || f.parentID == "" || f.parentID in m)
    requires k in m && k != id && SubtreePrefix(m[id]) <= m[k].parentPath
    ensures var m' := UpdatedMenus(m, id, f, now);
            && m'[k] == m[k].(status := m'[k].status, parentPath := m'[k].parentPath, updatedAt := m'[k].updatedAt)
            && m'[k].status == (if m[id].status != f.status then f.status else m[k].status)
            && m'[k].updatedAt ==
                 if m[id].status != f.status || m[id].parentID != f.parentID then now else m[k].updatedAt
  {
  }

  /** Outside the moved subtree rows and chains stay. */
  lemma OutsideKeepsChain(m: MenuTable, m': MenuTable, id: string, k: string)
    requires PathInv(m) && PathInv(m') && id in m && Relocates(m, m', id) && k in m && k != id && id !in Chain(m, k)
    ensures m'[k] == m[k] && Chain(m', k) == Chain(m, k)
  {
    PrefixTestIsChainPrefix(m, id, k);
    InChainIsChainPrefix(m, id, k);
    forall a | a in Chain(m, k) ensures a in m' && m'[a].parentID == m[a].parentID {
      KeptAbove(m, id, a, k);
      PrefixTestIsChainPrefix(m, id, a);
      InChainIsChainPrefix(m, id, a);
    }
    ChainFromParents(m, m', k);
  }

  lemma {:induction false} RelocatedChain(m: MenuTable, m': MenuTable, id: string, k: string)
    requires PathInv(m) && PathInv(m') && id in m && k in m && Relocates(m, m', id)
    requires id in Chain(m, k)
    ensures Chain(m, id) <= Chain(m, k)
    ensures Chain(m', k) == Chain(m', id) + Chain(m, k)[|Chain(m, id)|..]
    decreases |m[k].parentPath|
  {
    ChainDistinct(m, id);
    assert RowInv(m, k);
    var p := m[k].parentID;
    assert k != id && m'[k].parentID == p by { PrefixTestIsChainPrefix(m, id, k); InChainIsChainPrefix(m, id, k); }
    if p != id {
      RelocatedChain(m, m', id, p);
    }
    DropAppended(Chain(m, id), Chain(m', id), Chain(m, p), p);
  }

  /** Rebasing a sequence commutes with appending to it. */
  lemma DropAppended<T>(old_: seq<T>, new_: seq<T>, s: seq<T>, x: T)
    requires old_ <= s
    ensures old_ <= s + [x]
    ensures new_ + (s + [x])[|old_|..] == new_ + s[|old_|..] + [x]
  {
    assert (s + [x])[|old_|..] == s[|old_|..] + [x];
  }

  /** What lies above a row outside the subtree lies outside the subtree. */
  lemma KeptAbove(m: MenuTable, id: string, a: string, k: string)
    requires PathInv(m) && k in m && a in Chain(m, k) && id !in Chain(m, k)
    ensures a != id && id !in Chain(m, a)
  {
    var i :| 0 <= i < |Chain(m, k)| && Chain(m, k)[i] == a;
    ChainPrefix(m, k, i);
  }

  /** Taking a subtree out of the table keeps the invariant and every other chain. */
  lemma PrunedKeepsPathInv(m: MenuTable, m': MenuTable, id: string)
    requires PathInv(m) && id in m
    requires m'.Keys == m.Keys - ({id} + Below(m, SubtreePrefix(m[id])))
    requires forall k :: k in m' ==> m'[k] == m[k]
    ensures PathInv(m')
    ensures forall k :: k in m' ==> Chain(m', k) == Chain(m, k)
    ensures forall k :: k in m' <==> k in m && k != id && !IsAncestor(m, id, k)
  {
    forall k | k in m ensures SubtreePrefix(m[id]) <= m[k].parentPath <==> IsAncestor(m, id, k) {
      PrefixSelectsDescendants(m, id, k);
    }
    forall k | k in m' ensures RowInv(m', k) {
      assert RowInv(m, k);
      if m[k].parentID != "" && m[k].parentID !in m' { BelowFromParent(m, id, k); }
    }
    forall k | k in m' ensures Chain(m', k) == Chain(m, k) {
      ChainIsAncestors(m, id, k);
      forall a | a in Chain(m, k) ensures a in m' {
        KeptAbove(m, id, a, k);
        ChainIsAncestors(m, id, a);
      }
      ChainFromParents(m, m', k);
    }
  }

  /** `Delete` removes exactly the menu and its descendants. */
  lemma DeleteIsExact(s: Store, id: string, now: int)
    requires PathInv(s.menus) && id in s.menus
    ensures DeleteMenu(s, id, now).Success?
    ensures var t := DeleteMenu(s, id, now).value;
            && PathInv(t.menus)
            && (forall k :: k in t.menus <==> k in s.menus && k != id && !IsAncestor(s.menus, id, k))
            && (forall k :: k in t.menus ==> t.menus[k] == s.menus[k] && Chain(t.menus, k) == Chain(s.menus, k))
            && t.roles == s.roles
  {
    var t := DeleteMenu(s, id, now).value;
    PrunedKeepsPathInv(s.menus, t.menus, id);
  }

  /** After `Delete` nothing refers to a removed menu, and every row that did not is still there. */
  lemma DeleteLeavesNoReference(s: Store, id: string, now: int)
    requires PathInv(s.menus) && id in s.menus
    ensures var t := DeleteMenu(s, id, now).value;
            var gone := s.menus.Keys - t.menus.Keys;
            && (forall k :: k in t.menus ==> t.menus[k].parentID !in gone)
            && (forall k :: k in t.resources <==> k in s.resources && s.resources[k].menuID !in gone)
            && (forall k :: k in t.roleMenus <==> k in s.roleMenus && s.roleMenus[k].menuID !in gone)
            && (forall k :: k in t.resources ==> t.resources[k] == s.resources[k])
            && (forall k :: k in t.roleMenus ==> t.roleMenus[k] == s.roleMenus[k])
  {
    DeleteIsExact(s, id, now);
    var t := DeleteMenu(s, id, now).value;
    var removed := {id} + Below(s.menus, SubtreePrefix(s.menus[id]));
    assert s.menus.Keys - t.menus.Keys == removed;
    forall k | k in t.menus ensures t.menus[k].parentID !in removed {
      assert RowInv(t.menus, k);
      assert "" !in s.menus;
    }
  }
}

/** Menu management in place: each call, step by step, ends in the state its specification gives. */
module MenuBiz {
  import opened Wrappers
  import opened Paths
  import opened Tables
  import opened MenuTree
  import opened MenuOps
  import opened MenuImport
  import opened MenuDal

  class MenuService {
    const db: Database
    const denyOperate: bool

    constructor (db: Database, denyOperate: bool)
      ensures this.db == db && this.denyOperate == denyOperate
    {
      this.db, this.denyOperate := db, denyOperate;
    }

    method Create(f: MenuForm, gen: IdSource, now: int) returns (r: Result<Menu, MenuError>)
      requires db.Valid()
      modifies db
      ensures db.Valid()
      ensures denyOperate ==> r == Failure(NotAllowed) && db.Snapshot() == old(db.Snapshot())
      ensures !denyOperate ==>
                match CreateMenu(old(db.Snapshot()), f, gen, now)
                case Success(done) => r == Success(done.1) && db.Snapshot() == done.0
                case Failure(e) => r == Failure(e) && db.Snapshot() == old(db.Snapshot())
    {
      if denyOperate { return Failure(NotAllowed); }
      ghost var s0 := db.Snapshot();
      var menu := Menu(gen(db.Snapshot()), "", "", "", 0, "", "", "", "", "", "", now, now);
      if f.parentID != "" {
        var parent := db.GetMenu(f.parentID);
        if parent.None? { return Failure(ParentNotFound); }
        assert parent.value == s0.menus[f.parentID];
        menu := menu.(parentPath := SubtreePrefix(parent.value));
      }
      if ExistsCode(db.menus, f.code, f.parentID) { return Failure(CodeExists); }
      menu := FillTo(f, menu);
      assert menu == NewMenu(s0, f, gen(s0), now);
      db.InsertMenu(menu);
      CreateResources(f.resources, menu.id, gen, now);
      r := Success(menu);
    }

    method CreateResources(rs: seq<Resource>, menuID: string, gen: IdSource, now: int)
      requires db.Valid()
      modifies db
      ensures db.Valid() && db.Snapshot() == AddNewResources(old(db.Snapshot()), rs, menuID, gen, now)
    {
      for i := 0 to |rs|
        invariant db.Valid() && db.menus == old(db.menus)
        invariant AddNewResources(db.Snapshot(), rs[i..], menuID, gen, now)
               == AddNewResources(old(db.Snapshot()), rs, menuID, gen, now)
      {
        var res := rs[i].(id := gen(db.Snapshot()), menuID := menuID, createdAt := now);
        assert rs[i..][0] == rs[i] && rs[i..][1..] == rs[i + 1..];
        var ok := db.InsertResource(WithTimes(res, now));
        assert ok;
      }
    }

    method Update(id: string, f: MenuForm, gen: IdSource, now: int) returns (err: Option<MenuError>)
      requires db.Valid()
      modifies db
      ensures db.Valid()
      ensures denyOperate ==> err == Some(NotAllowed) && db.Snapshot() == old(db.Snapshot())
      ensures !denyOperate ==>
                match UpdateMenu(old(db.Snapshot()), id, f, gen, now)
                case Success(t) => err == None && db.Snapshot() == t
                case Failure(e) => err == Some(e) && db.Snapshot() == old(db.Snapshot())
    {
      err := None;
      if denyOperate { return Some(NotAllowed); }
      var s0 := db.Snapshot();
      var found := db.GetMenu(id);
      if found.None? { return Some(MenuNotFound); }
      var menu := found.value;
      var oldPath, oldStatus := SubtreePrefix(menu), menu.status;
      var childData := [];
      if menu.parentID != f.parentID {
        if f.parentID != "" {
          var parent := db.GetMenu(f.parentID);
          if parent.None? { return Some(ParentNotFound); }
          menu := menu.(parentPath := SubtreePrefix(parent.value));
        } else {
          menu := menu.(parentPath := "");
        }
        childData := db.QueryMenus(MenuQuery(parentPathPrefix := oldPath));
        assert (set k | k in db.menus &&
                  Selects(MenuQuery(parentPathPrefix := oldPath), db.roleMenus, db.userRoles, db.menus[k]))
            == Below(db.menus, oldPath);
      }
      if menu.code != f.code && ExistsCode(db.menus, f.code, f.parentID) { return Some(CodeExists); }
      menu := FillTo(f, menu);
      assert UpdateRefusal(s0, id, f) == None;
      assert menu.(updatedAt := now) == UpdatedMenu(s0.menus, id, f, now);
      WriteMenus(menu.(updatedAt := now), oldPath, oldStatus, childData, s0.menus[id].parentID != f.parentID, now);
      db.DeleteResourcesOf(id);
      var ok := CreateFormResources(f.resources, id, gen, now);
      if ok {
        db.SyncToCasbin(now);
      } else {
        err := Some(DuplicateKey);
        db.Rollback(s0);
      }
    }

    /** The transaction's writes to the menu table: status cascade, child paths, then the row itself. */
    method WriteMenus(menu: Menu, oldPath: string, oldStatus: string, childData: seq<Menu>, ghost moved: bool, now: int)
      requires db.Valid() && menu.id in db.menus
      requires moved ==> Lists(childData, db.menus, Below(db.menus, oldPath))
      requires !moved ==> childData == []
      modifies db
      ensures db.Valid()
      ensures var m := old(db.menus);
              var m1 := if oldStatus != menu.status then CascadeStatus(m, oldPath, menu.status, now) else m;
              var m2 := if moved then RewritePaths(m1, oldPath, SubtreePrefix(menu), now) else m1;
              db.Snapshot() == old(db.Snapshot()).(menus := m2[menu.id := menu])
    {
      ghost var m0 := db.menus;
      if oldStatus != menu.status {
        db.UpdateStatusByParentPath(oldPath, menu.status, now);
        assert db.menus == CascadeStatus(m0, oldPath, menu.status, now);
      }
      ghost var m1 := db.menus;
      RewriteChildPaths(childData, oldPath, SubtreePrefix(menu), now);
      if moved {
        forall k | k in m1
          ensures oldPath <= m1[k].parentPath <==> exists i :: 0 <= i < |childData| && childData[i].id == k
        {
          assert oldPath <= m1[k].parentPath <==> k in Below(m0, oldPath);
        }
        FoldIsRewrite(m1, childData, oldPath, SubtreePrefix(menu), now);
      }
      db.UpdateMenu(menu);
    }

    method RewriteChildPaths(childData: seq<Menu>, oldPath: string, newPath: string, now: int)
      requires db.Valid() && forall i :: 0 <= i < |childData| ==> childData[i].id in db.menus
      modifies db
      ensures db.Valid()
      ensures db.Snapshot() == old(db.Snapshot()).(menus := FoldPaths(old(db.menus), childData, oldPath, newPath, now))
    {
      ghost var s0 := db.Snapshot();
      for i := 0 to |childData|
        invariant db.Valid() && db.Snapshot() == s0.(menus := db.menus) && db.menus.Keys == s0.menus.Keys
        invariant FoldPaths(db.menus, childData[i..], oldPath, newPath, now)
            == FoldPaths(s0.menus, childData, oldPath, newPath, now)
      {
        var child := childData[i];
        assert childData[i..][0] == child && childData[i..][1..] == childData[i + 1..];
        ghost var before := db.menus;
        db.UpdateParentPath(child.id, ReplaceFirst(child.parentPath, oldPath, newPath), now);
        assert db.menus ==
          before[child.id := before[child.id].(
            parentPath := ReplaceFirst(child.parentPath, oldPath, newPath), updatedAt := now)];
      }
    }

    method CreateFormResources(rs: seq<Resource>, menuID: string, gen: IdSource, now: int) returns (ok: bool)
      requires db.Valid()
      modifies db
      ensures db.Valid() && db.menus == old(db.menus)
      ensures match AddFormResources(old(db.Snapshot()), rs, menuID, gen, now)
              case Success(t) => ok && db.Snapshot() == t
              case Failure(e) => !ok && e == DuplicateKey
    {
      for i := 0 to |rs|
        invariant db.Valid() && db.menus == old(db.menus)
        invariant AddFormResources(db.Snapshot(), rs[i..], menuID, gen, now)
               == AddFormResources(old(db.Snapshot()), rs, menuID, gen, now)
      {
        var res := rs[i];
        assert rs[i..][0] == rs[i] && rs[i..][1..] == rs[i + 1..];
        if res.id == "" { res := res.(id := gen(db.Snapshot())); }
        res := res.(menuID := menuID);
        if res.createdAt == 0 { res := res.(createdAt := now); }
        ok := db.InsertResource(res.(updatedAt := now));
        if !ok { return; }
      }
      ok := true;
    }

    method Delete(id: string, now: int) returns (err: Option<MenuError>)
      requires db.Valid()
      modifies db
      ensures db.Valid()
      ensures denyOperate ==> err == Some(NotAllowed) && db.Snapshot() == old(db.Snapshot())
      ensures !denyOperate ==>
                match MenuOps.DeleteMenu(old(db.Snapshot()), id, now)
                case Success(t) => err == None && db.Snapshot() == t
                case Failure(e) => err == Some(e) && db.Snapshot() == old(db.Snapshot())
    {
      err := None;
      if denyOperate { return Some(NotAllowed); }
      var found := db.GetMenu(id);
      if found.None? { return Some(MenuNotFound); }
      var prefix := SubtreePrefix(found.value);
      var children := db.QueryMenus(MenuQuery(parentPathPrefix := prefix));
      assert (set k | k in db.menus &&
                Selects(MenuQuery(parentPathPrefix := prefix), db.roleMenus, db.userRoles, db.menus[k]))
          == Below(db.menus, prefix);
      ghost var s0 := db.Snapshot();
      DeleteOne(id);
      ghost var done := {id};
      for i := 0 to |children|
        invariant db.Valid() && db.Snapshot() == WithoutSubtree(s0, done)
        invariant done == {id} + set j | 0 <= j < i :: children[j].id
      {
        DeleteOne(children[i].id);
        WithoutOneMore(s0, done, children[i].id);
        done := done + {children[i].id};
      }
      assert done == {id} + Below(s0.menus, prefix);
      db.SyncToCasbin(now);
    }

    method DeleteOne(id: string)
      requires db.Valid()
      modifies db
      ensures db.Valid() && db.Snapshot() == WithoutSubtree(old(db.Snapshot()), {id})
    {
      db.DeleteMenu(id);
      db.DeleteResourcesOf(id);
      db.DeleteRoleMenusOf(id);
    }

    /** `InitFromFile` on the parsed items. */
    method InitFromFile(items: seq<FileItem>, gen: IdSource, now: int)
      requires db.Valid()
      modifies db
      ensures db.Valid() && db.Snapshot() == ImportItems(old(db.Snapshot()), items, None, gen, now)
    {
      CreateInBatchByParent(items, None, gen, now);
    }

    method CreateInBatchByParent(items: seq<FileItem>, parent: Option<Menu>, gen: IdSource, now: int)
      requires db.Valid()
      modifies db
      ensures db.Valid() && db.Snapshot() == ImportItems(old(db.Snapshot()), items, parent, gen, now)
      decreases items, 1
    {
      ghost var total := AfterRest(db.Snapshot(), items, 0, parent, gen, now);
      AllItems(db.Snapshot(), items, parent, gen, now);
      for i := 0 to |items|
        invariant db.Valid() && AfterRest(db.Snapshot(), items, i, parent, gen, now) == total
      {
        ProcessNext(items, i, parent, gen, now);
      }
      AllItems(db.Snapshot(), items, parent, gen, now);
    }

    /** The body of the loop. */
    method ProcessNext(items: seq<FileItem>, i: nat, parent: Option<Menu>, gen: IdSource, now: int)
      requires db.Valid() && i < |items|
      modifies db
      ensures db.Valid()
      ensures AfterRest(db.Snapshot(), items, i + 1, parent, gen, now)
          == AfterRest(old(db.Snapshot()), items, i, parent, gen, now)
      decreases items, 0
    {
      NextItem(db.Snapshot(), items, i, parent, gen, now);
      ProcessItem(items[i], |items| - i, parent, gen, now);
    }

    method ProcessItem(item: FileItem, remaining: nat, parent: Option<Menu>, gen: IdSource, now: int)
      requires db.Valid()
      modifies db
      ensures db.Valid() && db.Snapshot() == AfterItem(old(db.Snapshot()), item, remaining, parent, gen, now)
      decreases item
    {
      var row := ProcessRow(item.row, remaining, parent, gen, now);
      ProcessResources(item.resources, row.id, gen, now);
      CreateInBatchByParent(item.children, Some(row), gen, now);
    }

    method ProcessRow(r: Menu, remaining: nat, parent: Option<Menu>, gen: IdSource, now: int) returns (row: Menu)
      requires db.Valid()
      modifies db
      ensures db.Valid() && row == RowFor(old(db.Snapshot()), r, remaining, parent, gen, now)
      ensures db.Snapshot() == ImportRow(old(db.Snapshot()), r, remaining, parent, gen, now)
    {
      var parentID := ParentIDOf(parent);
      var found := None;
      if r.id != "" {
        found := db.GetMenu(r.id);
      } else if r.code != "" {
        found := db.GetByCodeAndParentID(r.code, parentID);
      } else if r.name != "" {
        found := db.GetByNameAndParentID(r.name, parentID);
      }
      if found.Some? {
        row := found.value;
        var merged := row.(name := r.name, description := r.description, path := r.path, kind := r.kind,
                           sequence := r.sequence, status := FileStatus(r));
        if merged != row {
          row := merged.(updatedAt := now);
          db.UpdateMenu(row);
        }
        assert db.menus == old(db.menus)[row.id := row];
      } else {
        row := Created(db.Snapshot(), r, remaining, parent, gen, now);
        db.InsertMenu(row);
      }
    }

    method ProcessResources(rs: seq<Resource>, menuID: string, gen: IdSource, now: int)
      requires db.Valid()
      modifies db
      ensures db.Valid() && db.Snapshot() == ImportResources(old(db.Snapshot()), rs, menuID, gen, now)
    {
      for i := 0 to |rs|
        invariant db.Valid() && db.menus == old(db.menus)
        invariant ImportResources(db.Snapshot(), rs[i..], menuID, gen, now)
               == ImportResources(old(db.Snapshot()), rs, menuID, gen, now)
      {
        var res := rs[i];
        assert rs[i..][0] == rs[i] && rs[i..][1..] == rs[i + 1..];
        if res.id != "" && res.id in db.resources { continue; }
        if res.path != "" && HasResource(db.resources, res.verb, res.path, menuID) { continue; }
        if res.id == "" { res := res.(id := gen(db.Snapshot())); }
        var ok := db.InsertResource(WithTimes(res.(menuID := menuID), now));
        assert ok;
      }
    }
  }

  /** What the items from `i` on make of a state. */
  function AfterRest(s: Store, items: seq<FileItem>, i: nat, parent: Option<Menu>, gen: IdSource, now: int): Store
    requires i <= |items|
  {
    ImportItems(s, items[i..], parent, gen, now)
  }

  lemma AllItems(s: Store, items: seq<FileItem>, parent: Option<Menu>, gen: IdSource, now: int)
    ensures AfterRest(s, items, 0, parent, gen, now) == ImportItems(s, items, parent, gen, now)
    ensures AfterRest(s, items, |items|, parent, gen, now) == s
  {
    assert items[0..] == items;
  }

  lemma NextItem(s: Store, items: seq<FileItem>, i: nat, parent: Option<Menu>, gen: IdSource, now: int)
    requires i < |items|
    ensures AfterRest(s, items, i, parent, gen, now)
         == AfterRest(AfterItem(s, items[i], |items| - i, parent, gen, now), items, i + 1, parent, gen, now)
  {
    assert items[i..][0] == items[i] && items[i..][1..] == items[i + 1..];
  }

  /** The path updates of a list of rows, one after the other. */
  function FoldPaths(m: MenuTable, rows: seq<Menu>, old_: string, new_: string, now: int): MenuTable
    decreases |rows|
  {
    if rows == [] then m
    else if rows[0].id !in m then FoldPaths(m, rows[1..], old_, new_, now)
    else
      var r := m[rows[0].id].(parentPath := ReplaceFirst(rows[0].parentPath, old_, new_), updatedAt := now);
      FoldPaths(m[rows[0].id := r], rows[1..], old_, new_, now)
  }

  lemma {:induction false} FoldPathsAt(m: MenuTable, rows: seq<Menu>, old_: string, new_: string, now: int, k: string)
    requires forall i, j :: 0 <= i < j < |rows| ==> rows[i].id != rows[j].id
    requires forall i :: 0 <= i < |rows| ==> rows[i].id in m && m[rows[i].id].parentPath == rows[i].parentPath
    requires k in m
    ensures var m' := FoldPaths(m, rows, old_, new_, now);
            && m'.Keys == m.Keys
            && ((exists i :: 0 <= i < |rows| && rows[i].id == k) ==>
                  m'[k] == m[k].(parentPath := ReplaceFirst(m[k].parentPath, old_, new_), updatedAt := now))
            && ((forall i :: 0 <= i < |rows| ==> rows[i].id != k) ==> m'[k] == m[k])
    decreases |rows|
  {
    if rows != [] {
      var r := m[rows[0].id].(parentPath := ReplaceFirst(rows[0].parentPath, old_, new_), updatedAt := now);
      var m1 := m[rows[0].id := r];
      FoldPathsAt(m1, rows[1..], old_, new_, now, k);
      if i :| 0 <= i < |rows| && rows[i].id == k && i > 0 {
        assert rows[1..][i - 1].id == k;
      }
    }
  }

  /** Updating the listed descendants one by one is the rewrite of the whole subtree. */
  lemma FoldIsRewrite(m: MenuTable, rows: seq<Menu>, old_: string, new_: string, now: int)
    requires forall i, j :: 0 <= i < j < |rows| ==> rows[i].id != rows[j].id
    requires forall i :: 0 <= i < |rows| ==> rows[i].id in m && m[rows[i].id].parentPath == rows[i].parentPath
    requires forall k :: k in m ==> (old_ <= m[k].parentPath <==> exists i :: 0 <= i < |rows| && rows[i].id == k)
    ensures FoldPaths(m, rows, old_, new_, now) == RewritePaths(m, old_, new_, now)
  {
    var m', w := FoldPaths(m, rows, old_, new_, now), RewritePaths(m, old_, new_, now);
    FoldPathsKeys(m, rows, old_, new_, now);
    forall k | k in m ensures m'[k] == w[k] {
      FoldPathsAt(m, rows, old_, new_, now, k);
    }
  }

  lemma {:induction false} FoldPathsKeys(m: MenuTable, rows: seq<Menu>, old_: string, new_: string, now: int)
    ensures FoldPaths(m, rows, old_, new_, now).Keys == m.Keys
    decreases |rows|
  {
    if rows != [] && rows[0].id in m {
      var r := m[rows[0].id].(parentPath := ReplaceFirst(rows[0].parentPath, old_, new_), updatedAt := now);
      FoldPathsKeys(m[rows[0].id := r], rows[1..], old_, new_, now);
    } else if rows != [] {
      FoldPathsKeys(m, rows[1..], old_, new_, now);
    }
  }

  /** The tables with the given menus and everything that refers to them taken out. */
  function WithoutSubtree(s: Store, removed: set<string>): Store {
    s.(menus := s.menus - removed,
       resources := WithoutMenus(s.resources, MENU_OF_RESOURCE, removed),
       roleMenus := WithoutMenus(s.roleMenus, MENU_OF_ROLE_MENU, removed))
  }

  lemma WithoutOneMore(s: Store, removed: set<string>, id: string)
    ensures WithoutSubtree(WithoutSubtree(s, removed), {id}) == WithoutSubtree(s, removed + {id})
  {
    assert s.menus - removed - {id} == s.menus - (removed + {id});
  }
}

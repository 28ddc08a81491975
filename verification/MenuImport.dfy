/**
 The recursive import of a menu file: find each item by id, code or name under
 its parent, update or create it, then its resources, then its children.
 */
module MenuImport {
  import opened Wrappers
  import opened Paths
  import opened Identifiers
  import opened Tables
  import opened MenuTree

  datatype FileItem = FileItem(row: Menu, resources: seq<Resource>, children: seq<FileItem>)

  function CodeMatches(m: MenuTable, code: string, parentID: string): set<string> {
    set k | k in m && m[k].code == code && m[k].parentID == parentID
  }

  function NameMatches(m: MenuTable, name: string, parentID: string): set<string> {
    set k | k in m && m[k].name == name && m[k].parentID == parentID
  }

  /** `First`: the matching row that comes first in primary-key order. */
  function FirstOf(ids: set<string>): Option<string> {
    if ids == {} then None else Some(Least(ids))
  }

  function Find(m: MenuTable, r: Menu, parentID: string): (id: Option<string>)
    ensures id.Some? ==> id.value in m
  {
    if r.id != "" then (if r.id in m then Some(r.id) else None)
    else if r.code != "" then FirstOf(CodeMatches(m, r.code, parentID))
    else if r.name != "" then FirstOf(NameMatches(m, r.name, parentID))
    else None
  }

  function ParentIDOf(parent: Option<Menu>): string {
    if parent.None? then "" else parent.value.id
  }

  function FileStatus(r: Menu): string {
    if r.status == "" then ENABLED else r.status
  }

  /** An existing row after the file's fields have been copied over it. */
  function Merge(old_: Menu, r: Menu, now: int): Menu {
    var merged := old_.(name := r.name, description := r.description, path := r.path, kind := r.kind,
                        sequence := r.sequence, status := FileStatus(r));
    if merged == old_ then old_ else merged.(updatedAt := now)
  }

  /** The row created for an item that was not found; `remaining` counts the siblings from it on. */
  function Created(s: Store, r: Menu, remaining: nat, parent: Option<Menu>, gen: IdSource, now: int): Menu {
    r.(id := if r.id == "" then gen(s) else r.id,
       sequence := if r.sequence == 0 then remaining else r.sequence,
       status := FileStatus(r),
       parentID := ParentIDOf(parent),
       parentPath := if parent.None? then r.parentPath else SubtreePrefix(parent.value),
       createdAt := if r.createdAt == 0 then now else r.createdAt,
       updatedAt := if r.updatedAt == 0 then now else r.updatedAt)
  }

  /** The row an item stands for once it has been processed. */
  function RowFor(s: Store, r: Menu, remaining: nat, parent: Option<Menu>, gen: IdSource, now: int): Menu {
    match Find(s.menus, r, ParentIDOf(parent))
    case Some(id) => Merge(s.menus[id], r, now)
    case None => Created(s, r, remaining, parent, gen, now)
  }

  function ImportRow(s: Store, r: Menu, remaining: nat, parent: Option<Menu>, gen: IdSource, now: int): Store {
    var row := RowFor(s, r, remaining, parent, gen, now);
    s.(menus := s.menus[row.id := row])
  }

  function ImportResource(s: Store, r: Resource, menuID: string, gen: IdSource, now: int): Store {
    if r.id != "" && r.id in s.resources then s
    else if r.path != "" && HasResource(s.resources, r.verb, r.path, menuID) then s
    else
      var id := if r.id == "" then gen(s) else r.id;
      s.(resources := s.resources[id := WithTimes(r.(id := id, menuID := menuID), now)])
  }

  function ImportResources(s: Store, rs: seq<Resource>, menuID: string, gen: IdSource, now: int): Store
    decreases |rs|
  {
    if rs == [] then s
    else ImportResources(ImportResource(s, rs[0], menuID, gen, now), rs[1..], menuID, gen, now)
  }

  /** `createInBatchByParent`, on the items that are still to be processed. */
  function ImportItems(s: Store, items: seq<FileItem>, parent: Option<Menu>, gen: IdSource, now: int): Store
    decreases items
  {
    if items == [] then s
    else
      var row := RowFor(s, items[0].row, |items|, parent, gen, now);
      var s1 := ImportRow(s, items[0].row, |items|, parent, gen, now);
      var s2 := ImportResources(s1, items[0].resources, row.id, gen, now);
      var s3 := ImportItems(s2, items[0].children, Some(row), gen, now);
      ImportItems(s3, items[1..], parent, gen, now)
  }

  /** The state once one item of a file, with its resources and children, has been processed. */
  function AfterItem(s: Store, item: FileItem, remaining: nat, parent: Option<Menu>, gen: IdSource, now: int): Store {
    var row := RowFor(s, item.row, remaining, parent, gen, now);
    var s2 := ImportResources(ImportRow(s, item.row, remaining, parent, gen, now), item.resources, row.id, gen, now);
    ImportItems(s2, item.children, Some(row), gen, now)
  }

  // ----- what an import keeps -----

  /** Rows may be added and have fields updated, but none is removed, moved or recoded. */
  ghost predicate KeepsRows(m: MenuTable, m': MenuTable) {
    forall k :: k in m ==>
      && k in m' && m'[k].id == m[k].id && m'[k].code == m[k].code
      && m'[k].parentID == m[k].parentID && m'[k].parentPath == m[k].parentPath
  }

  lemma {:induction false} ResourcesOnly(s: Store, rs: seq<Resource>, menuID: string, gen: IdSource, now: int)
    ensures var t := ImportResources(s, rs, menuID, gen, now);
            && t == s.(resources := t.resources)
            && (forall k :: k in s.resources ==> k in t.resources && t.resources[k] == s.resources[k])
    decreases |rs|
  {
    if rs != [] {
      ResourcesOnly(ImportResource(s, rs[0], menuID, gen, now), rs[1..], menuID, gen, now);
    }
  }

  lemma RowKeeps(s: Store, r: Menu, remaining: nat, parent: Option<Menu>, gen: IdSource, now: int)
    requires KeysMatch(s.menus)
    ensures KeysMatch(ImportRow(s, r, remaining, parent, gen, now).menus)
    ensures KeepsRows(s.menus, ImportRow(s, r, remaining, parent, gen, now).menus)
    ensures var row := RowFor(s, r, remaining, parent, gen, now);
            row.id in ImportRow(s, r, remaining, parent, gen, now).menus
            && (Find(s.menus, r, ParentIDOf(parent)).Some? ==> row.id in s.menus)
            && (Find(s.menus, r, ParentIDOf(parent)).None? ==> row.id !in s.menus)
  {
  }

  /** The parent handed down is the stored one as far as ids and paths go. */
  predicate ParentStored(m: MenuTable, parent: Option<Menu>) {
    parent.Some? ==>
      && parent.value.id in m
      && m[parent.value.id].id == parent.value.id
      && m[parent.value.id].parentPath == parent.value.parentPath
  }

  // ----- the path invariant -----

  /**
   Items found are safe; an item that gets created must have a valid id and, at the top level,
   must not bring a path of its own along.
   */
  ghost predicate SafeItems(s: Store, items: seq<FileItem>, parent: Option<Menu>, gen: IdSource, now: int)
    decreases items
  {
    items == [] ||
    var row := RowFor(s, items[0].row, |items|, parent, gen, now);
    var s1 := ImportRow(s, items[0].row, |items|, parent, gen, now);
    var s2 := ImportResources(s1, items[0].resources, row.id, gen, now);
    && (Find(s.menus, items[0].row, ParentIDOf(parent)).None? ==>
          IsId(row.id) && (parent.None? ==> items[0].row.parentPath == ""))
    && SafeItems(s2, items[0].children, Some(row), gen, now)
    && SafeItems(ImportItems(s2, items[0].children, Some(row), gen, now), items[1..], parent, gen, now)
  }

  /** What can be checked on a file alone: valid ids, and no path at the top level. */
  predicate SafeFile(items: seq<FileItem>, top: bool)
    decreases items
  {
    forall i :: 0 <= i < |items| ==>
      && (items[i].row.id == "" || IsId(items[i].row.id))
      && (top ==> items[i].row.parentPath == "")
      && SafeFile(items[i].children, false)
  }

  /** Such a file is safe in every table state, whatever it finds or creates there. */
  lemma {:induction false} SafeFileIsSafe(s: Store, items: seq<FileItem>, parent: Option<Menu>, gen: IdSource, now: int)
    requires SafeFile(items, parent.None?)
    ensures SafeItems(s, items, parent, gen, now)
    decreases items
  {
    if items != [] {
      var row := RowFor(s, items[0].row, |items|, parent, gen, now);
      var s1 := ImportRow(s, items[0].row, |items|, parent, gen, now);
      var s2 := ImportResources(s1, items[0].resources, row.id, gen, now);
      SafeFileIsSafe(s2, items[0].children, Some(row), gen, now);
      SafeFileIsSafe(ImportItems(s2, items[0].children, Some(row), gen, now), items[1..], parent, gen, now);
    }
  }

  lemma RowPathInv(s: Store, r: Menu, remaining: nat, parent: Option<Menu>, gen: IdSource, now: int)
    requires PathInv(s.menus) && ParentStored(s.menus, parent)
    ensures PathInv(ImportRow(s, r, remaining, parent, gen, now).menus)
       <==> (Find(s.menus, r, ParentIDOf(parent)).None? ==>
               IsId(RowFor(s, r, remaining, parent, gen, now).id) && (parent.None? ==> r.parentPath == ""))
    ensures !PathInv(ImportRow(s, r, remaining, parent, gen, now).menus) ==>
              Find(s.menus, r, ParentIDOf(parent)).None?
  {
    var row := RowFor(s, r, remaining, parent, gen, now);
    if Find(s.menus, r, ParentIDOf(parent)).Some? {
      MergeKeepsPathInv(s.menus, row.id, row);
    } else {
      NewRowPathInv(s.menus, row, parent);
    }
  }

  lemma MergeKeepsPathInv(m: MenuTable, id: string, row: Menu)
    requires PathInv(m) && id in m && row.id == id
    requires row.parentID == m[id].parentID && row.parentPath == m[id].parentPath
    ensures PathInv(m[id := row])
  {
    forall k | k in m ensures RowInv(m[id := row], k) { assert RowInv(m, k); }
  }

  /** A new row under a stored parent, or at the top level with whatever path it has. */
  lemma NewRowPathInv(m: MenuTable, row: Menu, parent: Option<Menu>)
    requires PathInv(m) && ParentStored(m, parent) && row.id !in m && row.parentID == ParentIDOf(parent)
    requires parent.Some? ==> row.parentPath == SubtreePrefix(parent.value)
    ensures PathInv(m[row.id := row]) <==> IsId(row.id) && (parent.None? ==> row.parentPath == "")
  {
    var m' := m[row.id := row];
    if IsId(row.id) && (parent.None? ==> row.parentPath == "") {
      forall k | k in m' ensures RowInv(m', k) {
        if k in m { assert RowInv(m, k); }
      }
    } else if IsId(row.id) {
      assert !RowInv(m', row.id);
    }
  }

  /** A row that breaks the invariant once keeps breaking it: imports never repair paths. */
  lemma BrokenStaysBroken(m: MenuTable, m': MenuTable, k: string)
    requires KeepsRows(m, m') && k in m
    requires !IsId(k) || (m[k].parentID == "" && m[k].parentPath != "")
    ensures !PathInv(m')
  {
    if IsId(k) { assert !RowInv(m', k); }
  }

  lemma {:induction false} ImportKeepsRows(
      s: Store, items: seq<FileItem>, parent: Option<Menu>, gen: IdSource, now: int)
    requires KeysMatch(s.menus)
    ensures KeepsRows(s.menus, ImportItems(s, items, parent, gen, now).menus)
    ensures KeysMatch(ImportItems(s, items, parent, gen, now).menus)
    decreases items
  {
    if items != [] {
      var row := RowFor(s, items[0].row, |items|, parent, gen, now);
      var s1 := ImportRow(s, items[0].row, |items|, parent, gen, now);
      ResourcesOnly(s1, items[0].resources, row.id, gen, now);
      var s2 := ImportResources(s1, items[0].resources, row.id, gen, now);
      var s3 := ImportItems(s2, items[0].children, Some(row), gen, now);
      RowKeeps(s, items[0].row, |items|, parent, gen, now);
      ImportKeepsRows(s2, items[0].children, Some(row), gen, now);
      KeepsRowsTransitive(s.menus, s1.menus, s3.menus);
      ImportKeepsRows(s3, items[1..], parent, gen, now);
      KeepsRowsTransitive(s.menus, s3.menus, ImportItems(s3, items[1..], parent, gen, now).menus);
    }
  }

  lemma KeepsRowsTransitive(m: MenuTable, m1: MenuTable, m2: MenuTable)
    requires KeepsRows(m, m1) && KeepsRows(m1, m2)
    ensures KeepsRows(m, m2)
  {
  }

  /** No resource is lost, and only menus and resources change: no grant, no role and no stamp. */
  lemma {:induction false} ImportOnlyAdds(s: Store, items: seq<FileItem>, parent: Option<Menu>, gen: IdSource, now: int)
    ensures var t := ImportItems(s, items, parent, gen, now);
            && t == s.(menus := t.menus, resources := t.resources)
            && (forall k :: k in s.resources ==> k in t.resources && t.resources[k] == s.resources[k])
    decreases items
  {
    if items != [] {
      var row := RowFor(s, items[0].row, |items|, parent, gen, now);
      var s1 := ImportRow(s, items[0].row, |items|, parent, gen, now);
      ResourcesOnly(s1, items[0].resources, row.id, gen, now);
      var s2 := ImportResources(s1, items[0].resources, row.id, gen, now);
      ImportOnlyAdds(s2, items[0].children, Some(row), gen, now);
      ImportOnlyAdds(ImportItems(s2, items[0].children, Some(row), gen, now), items[1..], parent, gen, now);
    }
  }

  /** Rows are stored under their own id. */
  ghost predicate KeysMatch(m: MenuTable) {
    forall k :: k in m ==> m[k].id == k
  }

  /** An import keeps the path invariant exactly when every item it creates is safe. */
  lemma {:induction false} ImportKeepsPathInv(
      s: Store, items: seq<FileItem>, parent: Option<Menu>, gen: IdSource, now: int)
    requires PathInv(s.menus) && ParentStored(s.menus, parent)
    ensures PathInv(ImportItems(s, items, parent, gen, now).menus) <==> SafeItems(s, items, parent, gen, now)
    decreases items
  {
    if items != [] {
      var row := RowFor(s, items[0].row, |items|, parent, gen, now);
      var s1 := ImportRow(s, items[0].row, |items|, parent, gen, now);
      var s2 := ImportResources(s1, items[0].resources, row.id, gen, now);
      var s3 := ImportItems(s2, items[0].children, Some(row), gen, now);
      var t := ImportItems(s3, items[1..], parent, gen, now);
      RowKeeps(s, items[0].row, |items|, parent, gen, now);
      RowPathInv(s, items[0].row, |items|, parent, gen, now);
      ResourcesOnly(s1, items[0].resources, row.id, gen, now);
      ImportKeepsRows(s2, items[0].children, Some(row), gen, now);
      ImportKeepsRows(s3, items[1..], parent, gen, now);
      if PathInv(s1.menus) {
        ImportKeepsPathInv(s2, items[0].children, Some(row), gen, now);
        if PathInv(s3.menus) {
          ImportKeepsPathInv(s3, items[1..], parent, gen, now);
        } else {
          UnsafeStays(s2, items[0].children, Some(row), gen, now, t.menus);
        }
      } else {
        BrokenStaysBroken(s1.menus, t.menus, row.id);
      }
    }
  }

  /** If part of an import is unsafe, no later import makes up for it. */
  lemma {:induction false} UnsafeStays(
      s: Store, items: seq<FileItem>, parent: Option<Menu>, gen: IdSource, now: int, m': MenuTable)
    requires PathInv(s.menus) && ParentStored(s.menus, parent)
    requires !SafeItems(s, items, parent, gen, now)
    requires KeepsRows(ImportItems(s, items, parent, gen, now).menus, m')
    ensures !PathInv(m')
    decreases items
  {
    var row := RowFor(s, items[0].row, |items|, parent, gen, now);
    var s1 := ImportRow(s, items[0].row, |items|, parent, gen, now);
    var s2 := ImportResources(s1, items[0].resources, row.id, gen, now);
    var s3 := ImportItems(s2, items[0].children, Some(row), gen, now);
    RowKeeps(s, items[0].row, |items|, parent, gen, now);
    RowPathInv(s, items[0].row, |items|, parent, gen, now);
    ResourcesOnly(s1, items[0].resources, row.id, gen, now);
    ImportKeepsRows(s2, items[0].children, Some(row), gen, now);
    ImportKeepsRows(s3, items[1..], parent, gen, now);
    if !PathInv(s1.menus) {
      BrokenStaysBroken(s1.menus, m', row.id);
    } else if !SafeItems(s2, items[0].children, Some(row), gen, now) {
      UnsafeStays(s2, items[0].children, Some(row), gen, now, m');
    } else {
      ImportKeepsPathInv(s2, items[0].children, Some(row), gen, now);
      UnsafeStays(s3, items[1..], parent, gen, now, m');
    }
  }
}

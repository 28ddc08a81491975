/**
 What the rows carry that menu operations and file imports write, field by field, and when the operations are
 turned down.
 */
module MenuContents {
  import opened Wrappers
  import opened Identifiers
  import opened Tables
  import opened MenuTree
  import opened MenuOps
  import opened MenuImport

  // ----- resources of a form -----

  ghost predicate Carries(stored: Resource, r: Resource, menuID: string) {
    stored.menuID == menuID && stored.verb == r.verb && stored.path == r.path
  }

  /** A row that is only in `after` carries `r`. */
  ghost predicate Stored(before: map<string, Resource>, after: map<string, Resource>, r: Resource, menuID: string) {
    exists k :: k in after && k !in before && Carries(after[k], r, menuID)
  }

  ghost predicate FromForm(stored: Resource, rs: seq<Resource>, menuID: string) {
    exists i :: 0 <= i < |rs| && Carries(stored, rs[i], menuID)
  }

  /** The rows that are only in `after` carry the entries of a form, all of them and nothing else. */
  ghost predicate StoresForm(
      before: map<string, Resource>, after: map<string, Resource>, rs: seq<Resource>, menuID: string) {
    && (forall i :: 0 <= i < |rs| ==> Stored(before, after, rs[i], menuID))
    && (forall k :: k in after && k !in before ==> FromForm(after[k], rs, menuID))
  }

  lemma StoredBefore(
      before: map<string, Resource>, more: map<string, Resource>, after: map<string, Resource>, r: Resource,
      menuID: string)
    requires Stored(more, after, r, menuID) && before.Keys <= more.Keys
    ensures Stored(before, after, r, menuID)
  {
  }

  lemma FromLongerForm(stored: Resource, rs: seq<Resource>, menuID: string)
    requires rs != [] && FromForm(stored, rs[1..], menuID)
    ensures FromForm(stored, rs, menuID)
  {
    var i :| 0 <= i < |rs[1..]| && Carries(stored, rs[1..][i], menuID);
    assert rs[i + 1] == rs[1..][i];
  }

  lemma StoresOneMore(
      before: map<string, Resource>, r: Resource, after: map<string, Resource>, rs: seq<Resource>, menuID: string)
    requires rs != [] && r.id !in before && Carries(r, rs[0], menuID)
    requires AddsOnlyTo(before[r.id := r], after, menuID) && StoresForm(before[r.id := r], after, rs[1..], menuID)
    ensures StoresForm(before, after, rs, menuID)
  {
    var more := before[r.id := r];
    assert r.id in after && after[r.id] == r;
    forall i | 0 <= i < |rs| ensures Stored(before, after, rs[i], menuID) {
      if i > 0 {
        assert rs[i] == rs[1..][i - 1];
        StoredBefore(before, more, after, rs[i], menuID);
      }
    }
    forall k | k in after && k !in before ensures FromForm(after[k], rs, menuID) {
      if k == r.id {
        assert Carries(after[k], rs[0], menuID);
      } else {
        FromLongerForm(after[k], rs, menuID);
      }
    }
  }

  /** `Create` stores verb and path of every entry, under a new id and with the current times. */
  lemma {:induction false} NewResourcesCarryForm(s: Store, rs: seq<Resource>, menuID: string, gen: IdSource, now: int)
    ensures var t := AddNewResources(s, rs, menuID, gen, now);
            && StoresForm(s.resources, t.resources, rs, menuID)
            && forall k :: k in t.resources && k !in s.resources ==> t.resources[k].createdAt == now
    decreases |rs|
  {
    if rs != [] {
      var r := WithTimes(rs[0].(id := gen(s), menuID := menuID, createdAt := now), now);
      var s' := s.(resources := s.resources[r.id := r]);
      NewResourcesCarryForm(s', rs[1..], menuID, gen, now);
      AddNewResourcesEffect(s', rs[1..], menuID, gen, now);
      StoresOneMore(s.resources, r, AddNewResources(s, rs, menuID, gen, now).resources, rs, menuID);
    }
  }

  /** The row that `Update` makes of an entry, under the given id. */
  function FormRow(r: Resource, id: string, menuID: string, now: int): Resource {
    r.(id := id, menuID := menuID, createdAt := if r.createdAt == 0 then now else r.createdAt, updatedAt := now)
  }

  /** `Update` does so too. */
  lemma {:induction false} FormResourcesCarryForm(s: Store, rs: seq<Resource>, menuID: string, gen: IdSource, now: int)
    requires AddFormResources(s, rs, menuID, gen, now).Success?
    ensures StoresForm(s.resources, AddFormResources(s, rs, menuID, gen, now).value.resources, rs, menuID)
    decreases |rs|
  {
    if rs != [] {
      var r := FormRow(rs[0], if rs[0].id == "" then gen(s) else rs[0].id, menuID, now);
      var s' := s.(resources := s.resources[r.id := r]);
      FormResourcesCarryForm(s', rs[1..], menuID, gen, now);
      AddFormResourcesEffect(s', rs[1..], menuID, gen, now);
      StoresOneMore(s.resources, r, AddFormResources(s, rs, menuID, gen, now).value.resources, rs, menuID);
    }
  }

  /** It keeps an id and a creation time that the form brings along. */
  lemma {:induction false} FormResourcesKeepIds(
      s: Store, rs: seq<Resource>, menuID: string, gen: IdSource, now: int, i: nat)
    requires AddFormResources(s, rs, menuID, gen, now).Success? && i < |rs| && rs[i].id != ""
    ensures var t := AddFormResources(s, rs, menuID, gen, now).value;
            && rs[i].id in t.resources
            && t.resources[rs[i].id] ==
                 Resource(rs[i].id, menuID, rs[i].verb, rs[i].path,
                          if rs[i].createdAt == 0 then now else rs[i].createdAt, now)
    decreases |rs|
  {
    var r := FormRow(rs[0], if rs[0].id == "" then gen(s) else rs[0].id, menuID, now);
    var s' := s.(resources := s.resources[r.id := r]);
    if i > 0 {
      FormResourcesKeepIds(s', rs[1..], menuID, gen, now, i - 1);
    } else {
      AddFormResourcesEffect(s', rs[1..], menuID, gen, now);
    }
  }

  /** Entries without ids are never turned down. */
  lemma {:induction false} NewEntriesAreAccepted(s: Store, rs: seq<Resource>, menuID: string, gen: IdSource, now: int)
    requires forall i :: 0 <= i < |rs| ==> rs[i].id == ""
    ensures AddFormResources(s, rs, menuID, gen, now).Success?
    decreases |rs|
  {
    if rs != [] {
      var created := if rs[0].createdAt == 0 then now else rs[0].createdAt;
      var r := rs[0].(id := gen(s), menuID := menuID, createdAt := created, updatedAt := now);
      NewEntriesAreAccepted(s.(resources := s.resources[r.id := r]), rs[1..], menuID, gen, now);
    }
  }

  /** An entry with an id that is taken is. */
  lemma {:induction false} TakenIdIsRefused(
      s: Store, rs: seq<Resource>, menuID: string, gen: IdSource, now: int, i: nat)
    requires i < |rs| && rs[i].id != "" && rs[i].id in s.resources
    ensures AddFormResources(s, rs, menuID, gen, now) == Failure(DuplicateKey)
    decreases |rs|
  {
    var id := if rs[0].id == "" then gen(s) else rs[0].id;
    if i > 0 && id !in s.resources {
      var created := if rs[0].createdAt == 0 then now else rs[0].createdAt;
      var r := rs[0].(id := id, menuID := menuID, createdAt := created, updatedAt := now);
      TakenIdIsRefused(s.(resources := s.resources[id := r]), rs[1..], menuID, gen, now, i - 1);
    }
  }

  // ----- menus of a form -----

  /** The row has every field of the form. */
  ghost predicate HasForm(r: Menu, f: MenuForm) {
    && r.code == f.code && r.name == f.name && r.description == f.description && r.sequence == f.sequence
    && r.kind == f.kind && r.path == f.path && r.properties == f.properties && r.status == f.status
    && r.parentID == f.parentID
  }

  /**
   `Create`: turned down exactly for a missing parent or a sibling with the code; else one row with the form's
   fields.
   */
  lemma CreatedMenuSays(s: Store, f: MenuForm, gen: IdSource, now: int)
    ensures CreateMenu(s, f, gen, now) == Failure(ParentNotFound) <==> f.parentID != "" && f.parentID !in s.menus
    ensures CreateMenu(s, f, gen, now) == Failure(CodeExists) <==>
              && (f.parentID == "" || f.parentID in s.menus)
              && exists k :: k in s.menus && s.menus[k].code == f.code && s.menus[k].parentID == f.parentID
    ensures CreateMenu(s, f, gen, now).Failure? ==> CreateMenu(s, f, gen, now).error in {ParentNotFound, CodeExists}
    ensures CreateMenu(s, f, gen, now).Success? ==>
              var (t, r) := CreateMenu(s, f, gen, now).value;
              && t.menus == s.menus[r.id := r] && r.id !in s.menus && HasForm(r, f)
              && r.parentPath == (if f.parentID == "" then ""
                                  else s.menus[f.parentID].parentPath + s.menus[f.parentID].id + ".")
              && r.createdAt == now && r.updatedAt == now
              && StoresForm(s.resources, t.resources, f.resources, r.id)
              && AddsOnlyTo(s.resources, t.resources, r.id) && |t.resources| == |s.resources| + |f.resources|
              && forall k :: k in t.resources && k !in s.resources ==> t.resources[k].createdAt == now
  {
    if CreateMenu(s, f, gen, now).Success? {
      var r := CreateMenu(s, f, gen, now).value.1;
      var s1 := s.(menus := s.menus[r.id := r]);
      AddNewResourcesEffect(s1, f.resources, r.id, gen, now);
      NewResourcesCarryForm(s1, f.resources, r.id, gen, now);
    }
  }

  /** Why `Update` is turned down before the transaction. */
  lemma UpdateRefusalSays(s: Store, id: string, f: MenuForm, gen: IdSource, now: int)
    ensures UpdateMenu(s, id, f, gen, now) == Failure(MenuNotFound) <==> id !in s.menus
    ensures UpdateMenu(s, id, f, gen, now) == Failure(ParentNotFound) <==>
              id in s.menus && f.parentID != s.menus[id].parentID && f.parentID != "" && f.parentID !in s.menus
    ensures UpdateMenu(s, id, f, gen, now) == Failure(CodeExists) <==>
              && id in s.menus && (f.parentID == s.menus[id].parentID || f.parentID == "" || f.parentID in s.menus)
              && f.code != s.menus[id].code
              && exists k :: k in s.menus && s.menus[k].code == f.code && s.menus[k].parentID == f.parentID
  {
    if UpdateRefusal(s, id, f).None? {
      OnlyKeysFail(s.(menus := UpdatedMenus(s.menus, id, f, now),
                      resources := WithoutMenus(s.resources, MENU_OF_RESOURCE, {id})), f.resources, id, gen, now);
    }
  }

  lemma {:induction false} OnlyKeysFail(s: Store, rs: seq<Resource>, menuID: string, gen: IdSource, now: int)
    ensures AddFormResources(s, rs, menuID, gen, now).Failure? ==>
              AddFormResources(s, rs, menuID, gen, now).error == DuplicateKey
    decreases |rs|
  {
    if rs != [] {
      var id := if rs[0].id == "" then gen(s) else rs[0].id;
      var created := if rs[0].createdAt == 0 then now else rs[0].createdAt;
      var r := rs[0].(id := id, menuID := menuID, createdAt := created, updatedAt := now);
      OnlyKeysFail(s.(resources := s.resources[id := r]), rs[1..], menuID, gen, now);
    }
  }

  /** A form without resource ids passes once it is not refused, and one that names another menu's resource does not. */
  lemma UpdateKeysSay(s: Store, id: string, f: MenuForm, gen: IdSource, now: int)
    requires UpdateRefusal(s, id, f).None?
    ensures (forall i :: 0 <= i < |f.resources| ==> f.resources[i].id == "") ==> UpdateMenu(s, id, f, gen, now).Success?
    ensures (exists i :: 0 <= i < |f.resources| && f.resources[i].id != "" && f.resources[i].id in s.resources
                         && s.resources[f.resources[i].id].menuID != id) ==>
              UpdateMenu(s, id, f, gen, now) == Failure(DuplicateKey)
  {
    var s1 := s.(menus := UpdatedMenus(s.menus, id, f, now),
                 resources := WithoutMenus(s.resources, MENU_OF_RESOURCE, {id}));
    if forall i :: 0 <= i < |f.resources| ==> f.resources[i].id == "" {
      NewEntriesAreAccepted(s1, f.resources, id, gen, now);
    }
    if i :| 0 <= i < |f.resources| && f.resources[i].id != "" && f.resources[i].id in s.resources
            && s.resources[f.resources[i].id].menuID != id {
      TakenIdIsRefused(s1, f.resources, id, gen, now, i);
    }
  }

  /** The menu's resources are those of the form, all of them and nothing else; other menus keep theirs. */
  ghost predicate ResourcesReplaced(
      before: map<string, Resource>, after: map<string, Resource>, rs: seq<Resource>, menuID: string)
  {
    && (forall i :: 0 <= i < |rs| ==> HasResource(after, rs[i].verb, rs[i].path, menuID))
    && (forall k :: k in after && after[k].menuID == menuID ==> FromForm(after[k], rs, menuID))
    && (forall k :: k in before && before[k].menuID != menuID ==> k in after && after[k] == before[k])
    && (forall k :: k in after && after[k].menuID != menuID ==> k in before && before[k] == after[k])
  }

  lemma ReplacedByForm(
      before: map<string, Resource>, kept: map<string, Resource>, after: map<string, Resource>, rs: seq<Resource>,
      menuID: string)
    requires forall k :: k in kept <==> k in before && before[k].menuID != menuID
    requires forall k :: k in kept ==> kept[k] == before[k]
    requires AddsOnlyTo(kept, after, menuID) && StoresForm(kept, after, rs, menuID)
    ensures ResourcesReplaced(before, after, rs, menuID)
  {
    forall i | 0 <= i < |rs| ensures HasResource(after, rs[i].verb, rs[i].path, menuID) {
      assert Stored(kept, after, rs[i], menuID);
    }
  }

  lemma UpdatedRowSays(m: MenuTable, id: string, f: MenuForm, now: int)
    requires Keyed(m) && id in m && (m[id].parentID == f.parentID || f.parentID == "" || f.parentID in m)
    ensures var t := UpdatedMenus(m, id, f, now);
            && t.Keys == m.Keys && HasForm(t[id], f) && t[id].id == id
            && t[id].createdAt == m[id].createdAt && t[id].updatedAt == now
            && t[id].parentPath == (if m[id].parentID == f.parentID then m[id].parentPath
                                    else if f.parentID == "" then ""
                                    else m[f.parentID].parentPath + m[f.parentID].id + ".")
  {
    UpdateRelocates(m, id, f, now);
  }

  lemma FormReplaces(
      before: map<string, Resource>, s: Store, rs: seq<Resource>, menuID: string, gen: IdSource, now: int)
    requires AddFormResources(s, rs, menuID, gen, now).Success?
    requires forall k :: k in s.resources <==> k in before && before[k].menuID != menuID
    requires forall k :: k in s.resources ==> s.resources[k] == before[k]
    ensures ResourcesReplaced(before, AddFormResources(s, rs, menuID, gen, now).value.resources, rs, menuID)
  {
    AddFormResourcesEffect(s, rs, menuID, gen, now);
    FormResourcesCarryForm(s, rs, menuID, gen, now);
    ReplacedByForm(before, s.resources, AddFormResources(s, rs, menuID, gen, now).value.resources, rs, menuID);
  }

  /** The tables with the menu rows written and the menu's old resources taken out. */
  function BeforeResources(s: Store, id: string, f: MenuForm, now: int): Store
    requires UpdateRefusal(s, id, f).None?
  {
    s.(menus := UpdatedMenus(s.menus, id, f, now), resources := WithoutMenus(s.resources, MENU_OF_RESOURCE, {id}))
  }

  lemma UpdateIsTwoSteps(s: Store, id: string, f: MenuForm, gen: IdSource, now: int)
    requires UpdateMenu(s, id, f, gen, now).Success?
    ensures UpdateRefusal(s, id, f).None?
    ensures var middle := AddFormResources(BeforeResources(s, id, f, now), f.resources, id, gen, now);
            middle.Success? && UpdateMenu(s, id, f, gen, now).value == middle.value.(stamp := Some(now))
  {
  }

  lemma UpdatedResourcesSay(s: Store, id: string, f: MenuForm, gen: IdSource, now: int)
    requires UpdateMenu(s, id, f, gen, now).Success?
    ensures ResourcesReplaced(s.resources, UpdateMenu(s, id, f, gen, now).value.resources, f.resources, id)
    ensures UpdateRefusal(s, id, f).None?
    ensures var t := UpdateMenu(s, id, f, gen, now).value;
            && t == s.(menus := t.menus, resources := t.resources, stamp := Some(now))
            && t.menus == UpdatedMenus(s.menus, id, f, now)
  {
    UpdateIsTwoSteps(s, id, f, gen, now);
    var middle := BeforeResources(s, id, f, now);
    FormReplaces(s.resources, middle, f.resources, id, gen, now);
    AddFormResourcesEffect(middle, f.resources, id, gen, now);
  }

  /** A successful `Update`: the menu's own row, its resources, and everything that stays. */
  lemma UpdatedMenuSays(s: Store, id: string, f: MenuForm, gen: IdSource, now: int)
    requires UpdateMenu(s, id, f, gen, now).Success? && Keyed(s.menus)
    ensures id in s.menus && id in UpdateMenu(s, id, f, gen, now).value.menus
    ensures var t := UpdateMenu(s, id, f, gen, now).value;
            && HasForm(t.menus[id], f) && t.menus[id].id == id
            && t.menus[id].createdAt == s.menus[id].createdAt && t.menus[id].updatedAt == now
            && t.menus.Keys == s.menus.Keys
            && (s.menus[id].parentID == f.parentID || f.parentID == "" || f.parentID in s.menus)
            && t.menus[id].parentPath == (if s.menus[id].parentID == f.parentID then s.menus[id].parentPath
                                          else if f.parentID == "" then ""
                                          else s.menus[f.parentID].parentPath + s.menus[f.parentID].id + ".")
            && ResourcesReplaced(s.resources, t.resources, f.resources, id)
            && t.roleMenus == s.roleMenus && t.roles == s.roles && t.stamp == Some(now)
  {
    UpdatedResourcesSay(s, id, f, gen, now);
    UpdatedRowSays(s.menus, id, f, now);
  }

  // ----- rows of a file -----

  /** `found` is the first row in key order with this code under this parent, or none if there is no such row. */
  ghost predicate FirstByCode(m: MenuTable, found: Option<string>, code: string, parentID: string) {
    match found
    case None => forall k :: k in m ==> m[k].code != code || m[k].parentID != parentID
    case Some(id) =>
      && id in m && m[id].code == code && m[id].parentID == parentID
      && forall k :: k in m && m[k].code == code && m[k].parentID == parentID ==> Leq(id, k)
  }

  ghost predicate FirstByName(m: MenuTable, found: Option<string>, name: string, parentID: string) {
    match found
    case None => forall k :: k in m ==> m[k].name != name || m[k].parentID != parentID
    case Some(id) =>
      && id in m && m[id].name == name && m[id].parentID == parentID
      && forall k :: k in m && m[k].name == name && m[k].parentID == parentID ==> Leq(id, k)
  }

  /** Where an item is looked for: by id anywhere, else by code, else by name under the parent. */
  lemma FindSays(m: MenuTable, r: Menu, parentID: string)
    ensures r.id != "" ==> Find(m, r, parentID) == if r.id in m then Some(r.id) else None
    ensures r.id == "" && r.code != "" ==> FirstByCode(m, Find(m, r, parentID), r.code, parentID)
    ensures r.id == "" && r.code == "" && r.name != "" ==> FirstByName(m, Find(m, r, parentID), r.name, parentID)
    ensures r.id == "" && r.code == "" && r.name == "" ==> Find(m, r, parentID) == None
  {
    if r.id == "" && r.code != "" && Find(m, r, parentID).None? {
      forall k | k in m ensures m[k].code != r.code || m[k].parentID != parentID {
        assert k !in CodeMatches(m, r.code, parentID);
      }
    }
    if r.id == "" && r.code == "" && r.name != "" && Find(m, r, parentID).None? {
      forall k | k in m ensures m[k].name != r.name || m[k].parentID != parentID {
        assert k !in NameMatches(m, r.name, parentID);
      }
    }
  }

  /** A row found takes six fields from the file, with enabled for no status, and keeps the others. */
  lemma FoundRowSays(s: Store, r: Menu, remaining: nat, parent: Option<Menu>, gen: IdSource, now: int)
    requires Find(s.menus, r, ParentIDOf(parent)).Some?
    ensures var old_ := s.menus[Find(s.menus, r, ParentIDOf(parent)).value];
            var new_ := RowFor(s, r, remaining, parent, gen, now);
            && new_.name == r.name && new_.description == r.description && new_.path == r.path && new_.kind == r.kind
            && new_.sequence == r.sequence && new_.status == (if r.status == "" then "enabled" else r.status)
            && new_.id == old_.id && new_.code == old_.code && new_.properties == old_.properties
            && new_.parentID == old_.parentID && new_.parentPath == old_.parentPath && new_.createdAt == old_.createdAt
            && new_.updatedAt ==
                 if r.name == old_.name && r.description == old_.description && r.path == old_.path
                    && r.kind == old_.kind && r.sequence == old_.sequence && new_.status == old_.status
                 then old_.updatedAt else now
  {
  }

  /** A row created takes the file's fields, a new id and the items left as its sequence where the file has none. */
  lemma CreatedRowSays(s: Store, r: Menu, remaining: nat, parent: Option<Menu>, gen: IdSource, now: int)
    requires Find(s.menus, r, ParentIDOf(parent)).None?
    ensures var new_ := RowFor(s, r, remaining, parent, gen, now);
            && new_.id == (if r.id == "" then gen(s) else r.id)
            && new_.code == r.code && new_.name == r.name && new_.description == r.description && new_.kind == r.kind
            && new_.path == r.path && new_.properties == r.properties
            && new_.sequence == (if r.sequence == 0 then remaining else r.sequence)
            && new_.status == (if r.status == "" then "enabled" else r.status)
            && new_.parentID == (if parent.None? then "" else parent.value.id)
            && new_.parentPath ==
                 (if parent.None? then r.parentPath else parent.value.parentPath + parent.value.id + ".")
            && new_.createdAt == (if r.createdAt == 0 then now else r.createdAt)
            && new_.updatedAt == (if r.updatedAt == 0 then now else r.updatedAt)
  {
  }

  /**
   One resource of a file is passed over if its id or its verb and path at the menu are known, and stored otherwise.
   */
  lemma FileResourceSays(s: Store, r: Resource, menuID: string, gen: IdSource, now: int)
    ensures var t := ImportResource(s, r, menuID, gen, now);
            var known := || (r.id != "" && r.id in s.resources)
                         || (r.path != "" && HasResource(s.resources, r.verb, r.path, menuID));
            && (known ==> t == s)
            && (!known ==>
                  && (var id := if r.id == "" then gen(s) else r.id;
                      && id !in s.resources && id in t.resources && Carries(t.resources[id], r, menuID)
                      && t.resources[id].createdAt == (if r.createdAt == 0 then now else r.createdAt)
                      && t.resources[id].updatedAt == (if r.updatedAt == 0 then now else r.updatedAt)
                      && t == s.(resources := s.resources[id := t.resources[id]])))
  {
  }

  /** Some item of the file lists a resource with this verb and path. */
  predicate FileLists(items: seq<FileItem>, verb: string, path: string)
    decreases items
  {
    exists i :: 0 <= i < |items| &&
      ((exists j :: 0 <= j < |items[i].resources|
                    && items[i].resources[j].verb == verb && items[i].resources[j].path == path)
       || FileLists(items[i].children, verb, path))
  }

  /** The resources that are only in `t` are listed in the file. */
  ghost predicate AddsListed(s: Store, t: Store, items: seq<FileItem>) {
    forall k :: k in t.resources && k !in s.resources ==> FileLists(items, t.resources[k].verb, t.resources[k].path)
  }

  lemma {:induction false} ListedResources(s: Store, rs: seq<Resource>, menuID: string, gen: IdSource, now: int)
    ensures var t := ImportResources(s, rs, menuID, gen, now);
            forall k :: k in t.resources && k !in s.resources ==>
              exists j :: 0 <= j < |rs| && rs[j].verb == t.resources[k].verb && rs[j].path == t.resources[k].path
    decreases |rs|
  {
    if rs != [] {
      var s' := ImportResource(s, rs[0], menuID, gen, now);
      var t := ImportResources(s, rs, menuID, gen, now);
      ListedResources(s', rs[1..], menuID, gen, now);
      ResourcesOnly(s', rs[1..], menuID, gen, now);
      forall k | k in t.resources && k !in s.resources
        ensures exists j :: 0 <= j < |rs| && rs[j].verb == t.resources[k].verb && rs[j].path == t.resources[k].path
      {
        if k in s'.resources {
          assert rs[0].verb == t.resources[k].verb;
        } else {
          var j :| 0 <= j < |rs[1..]| && rs[1..][j].verb == t.resources[k].verb
                   && rs[1..][j].path == t.resources[k].path;
          assert rs[j + 1] == rs[1..][j];
        }
      }
    }
  }

  lemma ListedLater(items: seq<FileItem>, verb: string, path: string)
    requires items != []
    ensures FileLists(items[1..], verb, path) || FileLists(items[0].children, verb, path) ==>
              FileLists(items, verb, path)
  {
    if FileLists(items[1..], verb, path) {
      var i :| 0 <= i < |items[1..]| &&
        ((exists j :: 0 <= j < |items[1..][i].resources|
                      && items[1..][i].resources[j].verb == verb && items[1..][i].resources[j].path == path)
         || FileLists(items[1..][i].children, verb, path));
      assert items[i + 1] == items[1..][i];
    }
  }

  /** A file's import adds no resource that the file does not list. */
  lemma {:induction false} ImportAddsListed(
      s: Store, items: seq<FileItem>, parent: Option<Menu>, gen: IdSource, now: int)
    ensures AddsListed(s, ImportItems(s, items, parent, gen, now), items)
    decreases items
  {
    if items != [] {
      var row := RowFor(s, items[0].row, |items|, parent, gen, now);
      var s1 := ImportRow(s, items[0].row, |items|, parent, gen, now);
      var s2 := ImportResources(s1, items[0].resources, row.id, gen, now);
      var s3 := ImportItems(s2, items[0].children, Some(row), gen, now);
      var t := ImportItems(s3, items[1..], parent, gen, now);
      ListedResources(s1, items[0].resources, row.id, gen, now);
      ImportAddsListed(s2, items[0].children, Some(row), gen, now);
      ImportAddsListed(s3, items[1..], parent, gen, now);
      ImportOnlyAdds(s2, items[0].children, Some(row), gen, now);
      ImportOnlyAdds(s3, items[1..], parent, gen, now);
      forall k | k in t.resources && k !in s.resources
        ensures FileLists(items, t.resources[k].verb, t.resources[k].path)
      {
        ListedLater(items, t.resources[k].verb, t.resources[k].path);
        if k in s2.resources {
          var j :| 0 <= j < |items[0].resources| && items[0].resources[j].verb == t.resources[k].verb
                   && items[0].resources[j].path == t.resources[k].path;
        }
      }
    }
  }
}

/**
 When the import of a repeatable file leaves the policy alone, read off the file and the tables as they are
 before the import.
 */
module QuietImport {
  import opened Wrappers
  import opened Tables
  import opened MenuTree
  import opened MenuImport
  import opened ImportIdempotence
  import opened Policy
  import opened PolicyImport

  // ----- positions of stored rows -----

  /** Row `k` has the same positions in both tables. */
  ghost predicate SamePositions(m: MenuTable, m': MenuTable, k: string) {
    forall q: Position :: Resolve(m, q) == Some(k) <==> Resolve(m', q) == Some(k)
  }

  lemma GrowsSamePositions(m: MenuTable, m': MenuTable, p: Position, codes: set<string>, k: string)
    requires Grows(m, m', p, codes) && k in m
    ensures SamePositions(m, m', k)
  {
    forall q: Position | Resolve(m', q) == Some(k) ensures Resolve(m, q) == Some(k) {
      if Resolve(m, q).None? { NewlyResolved(m, m', p, codes, q); }
    }
  }

  // ----- the statuses that a file gives -----

  /** The status that the file has for row `k`, if one of its items stands for it. */
  ghost function FileSays(m: MenuTable, p: Position, items: seq<FileItem>, k: string): Option<string>
    decreases items
  {
    if items == [] then None
    else
      var q := p + [items[0].row.code];
      if Resolve(m, q) == Some(k) then Some(FileStatus(items[0].row))
      else if FileSays(m, q, items[0].children, k).Some? then FileSays(m, q, items[0].children, k)
      else FileSays(m, p, items[1..], k)
  }

  ghost function StatusAfter(m: MenuTable, p: Position, items: seq<FileItem>, k: string): string
    requires k in m
  {
    match FileSays(m, p, items, k) case None => m[k].status case Some(status) => status
  }

  lemma {:induction false} FileSaysStable(m: MenuTable, m': MenuTable, p: Position, items: seq<FileItem>, k: string)
    requires SamePositions(m, m', k)
    ensures FileSays(m', p, items, k) == FileSays(m, p, items, k)
    decreases items
  {
    if items != [] {
      var q := p + [items[0].row.code];
      assert Resolve(m, q) == Some(k) <==> Resolve(m', q) == Some(k);
      FileSaysStable(m, m', q, items[0].children, k);
      FileSaysStable(m, m', p, items[1..], k);
    }
  }

  /** What a file says about a row it says at one of its own positions. */
  lemma {:induction false} FileSaysWhere(m: MenuTable, p: Position, items: seq<FileItem>, k: string)
    returns (q: Position)
    requires FileSays(m, p, items, k).Some?
    ensures Resolve(m, q) == Some(k) && |p| < |q| && p <= q && q[|p|] in Codes(items)
    decreases items
  {
    var at := p + [items[0].row.code];
    assert items[0].row.code in Codes(items);
    if Resolve(m, at) == Some(k) {
      q := at;
    } else if FileSays(m, at, items[0].children, k).Some? {
      q := FileSaysWhere(m, at, items[0].children, k);
      assert q[|p|] == at[|p|];
    } else {
      q := FileSaysWhere(m, p, items[1..], k);
      var i :| 0 <= i < |items[1..]| && items[1..][i].row.code == q[|p|];
      assert items[i + 1].row.code == q[|p|];
    }
  }

  /** A row stands at one position, so of a first item, its children and the other items at most one speaks of it. */
  lemma OneSays(m: MenuTable, p: Position, items: seq<FileItem>, k: string)
    requires NoEmptyKey(m) && Repeatable(items) && items != []
    ensures var q := p + [items[0].row.code];
            && (Resolve(m, q) == Some(k) ==> FileSays(m, q, items[0].children, k).None?)
            && (Resolve(m, q) == Some(k) || FileSays(m, q, items[0].children, k).Some? ==>
                  FileSays(m, p, items[1..], k).None?)
  {
    RepeatableTail(items);
    var q := p + [items[0].row.code];
    if FileSays(m, q, items[0].children, k).Some? {
      var below := FileSaysWhere(m, q, items[0].children, k);
      if Resolve(m, q) == Some(k) { ResolveInjective(m, q, below); }
      if FileSays(m, p, items[1..], k).Some? {
        var beside := FileSaysWhere(m, p, items[1..], k);
        assert below[|p|] == q[|p|];
        ResolveInjective(m, below, beside);
      }
    } else if Resolve(m, q) == Some(k) && FileSays(m, p, items[1..], k).Some? {
      var beside := FileSaysWhere(m, p, items[1..], k);
      ResolveInjective(m, q, beside);
    }
  }

  lemma RowStatus(
      s: Store, r: Menu, remaining: nat, parent: Option<Menu>, p: Position, gen: IdSource, now: int, k: string)
    requires NoEmptyKey(s.menus) && r.id == "" && r.code != "" && k in s.menus
    requires Resolve(s.menus, p) == Some(ParentIDOf(parent))
    ensures var m1 := ImportRow(s, r, remaining, parent, gen, now).menus;
            && Grows(s.menus, m1, p, {r.code}) && k in m1
            && Resolve(m1, p + [r.code]) == Some(RowFor(s, r, remaining, parent, gen, now).id)
            && m1[k].status == if Resolve(s.menus, p + [r.code]) == Some(k) then FileStatus(r) else s.menus[k].status
  {
    RowStep(s, r, remaining, parent, p, gen, now);
    GrowsSamePositions(s.menus, ImportRow(s, r, remaining, parent, gen, now).menus, p, {r.code}, k);
  }

  lemma StatusesAdd(m: MenuTable, p: Position, items: seq<FileItem>, k: string, middle: string, last: string)
    requires NoEmptyKey(m) && Repeatable(items) && items != [] && k in m
    requires var q := p + [items[0].row.code];
             middle == match FileSays(m, q, items[0].children, k)
                       case Some(x) => x
                       case None => if Resolve(m, q) == Some(k) then FileStatus(items[0].row) else m[k].status
    requires last == match FileSays(m, p, items[1..], k) case Some(x) => x case None => middle
    ensures last == StatusAfter(m, p, items, k)
  {
    OneSays(m, p, items, k);
  }

  /** The status of a stored row after the import is the one that the file gives it, or the one it had. */
  lemma {:induction false} StatusAfterImport(
      s: Store, items: seq<FileItem>, parent: Option<Menu>, p: Position, gen: IdSource, now: int, k: string)
    requires NoEmptyKey(s.menus) && Repeatable(items) && k in s.menus
    requires Resolve(s.menus, p) == Some(ParentIDOf(parent))
    ensures k in ImportItems(s, items, parent, gen, now).menus
    ensures ImportItems(s, items, parent, gen, now).menus[k].status == StatusAfter(s.menus, p, items, k)
    decreases items
  {
    if items != [] {
      RepeatableTail(items);
      var s3 := AfterItem(s, items[0], |items|, parent, gen, now);
      ItemRun(s, items[0], |items|, parent, p, gen, now);
      ItemStatus(s, items[0], |items|, parent, p, gen, now, k);
      GrowsSamePositions(s.menus, s3.menus, p, {items[0].row.code}, k);
      StatusAfterImport(s3, items[1..], parent, p, gen, now, k);
      FileSaysStable(s.menus, s3.menus, p, items[1..], k);
      StatusesAdd(s.menus, p, items, k, s3.menus[k].status, ImportItems(s, items, parent, gen, now).menus[k].status);
    }
  }

  lemma {:induction false} ItemStatus(
      s: Store, item: FileItem, remaining: nat, parent: Option<Menu>, p: Position, gen: IdSource, now: int, k: string)
    requires NoEmptyKey(s.menus) && k in s.menus && item.row.id == "" && item.row.code != ""
        && Repeatable(item.children)
    requires Resolve(s.menus, p) == Some(ParentIDOf(parent))
    ensures k in AfterItem(s, item, remaining, parent, gen, now).menus
    ensures var q := p + [item.row.code];
            AfterItem(s, item, remaining, parent, gen, now).menus[k].status ==
              match FileSays(s.menus, q, item.children, k)
              case Some(x) => x
              case None => if Resolve(s.menus, q) == Some(k) then FileStatus(item.row) else s.menus[k].status
    decreases item
  {
    var q := p + [item.row.code];
    var row := RowFor(s, item.row, remaining, parent, gen, now);
    var s1 := ImportRow(s, item.row, remaining, parent, gen, now);
    var s2 := ImportResources(s1, item.resources, row.id, gen, now);
    RowStatus(s, item.row, remaining, parent, p, gen, now, k);
    ResourcesOnly(s1, item.resources, row.id, gen, now);
    GrowsSamePositions(s.menus, s1.menus, p, {item.row.code}, k);
    StatusAfterImport(s2, item.children, Some(row), q, gen, now, k);
    FileSaysStable(s.menus, s2.menus, q, item.children, k);
  }

  // ----- reach -----

  /** The rows that are only in `t` are held by no role. */
  ghost predicate NewRowsUnheld(s: Store, t: Store) {
    t.roleMenus == s.roleMenus && forall g :: g in t.menus && g !in s.menus ==> !Held(s, g)
  }

  lemma UnheldTwice(s: Store, m: Store, t: Store)
    requires NewRowsUnheld(s, m) && NewRowsUnheld(m, t)
    ensures NewRowsUnheld(s, t)
  {
    forall g | g in t.menus && g !in s.menus ensures !Held(s, g) {
      assert Held(m, g) <==> Held(s, g);
    }
  }

  lemma NewRowUnheld(s: Store, r: Menu, remaining: nat, parent: Option<Menu>, gen: IdSource, now: int)
    requires NoEmptyKey(s.menus) && r.id == ""
    ensures NewRowsUnheld(s, ImportRow(s, r, remaining, parent, gen, now))
  {
    if Find(s.menus, r, ParentIDOf(parent)).None? { assert Fresh(s, gen(s)); }
  }

  lemma {:induction false} ImportedRowsUnheld(
      s: Store, items: seq<FileItem>, parent: Option<Menu>, gen: IdSource, now: int)
    requires NoEmptyKey(s.menus) && Repeatable(items)
    ensures NewRowsUnheld(s, ImportItems(s, items, parent, gen, now))
    ensures NoEmptyKey(ImportItems(s, items, parent, gen, now).menus)
    decreases items
  {
    if items != [] {
      RepeatableTail(items);
      var row := RowFor(s, items[0].row, |items|, parent, gen, now);
      var s1 := ImportRow(s, items[0].row, |items|, parent, gen, now);
      var s2 := ImportResources(s1, items[0].resources, row.id, gen, now);
      var s3 := ImportItems(s2, items[0].children, Some(row), gen, now);
      NewRowUnheld(s, items[0].row, |items|, parent, gen, now);
      RowKeeps(s, items[0].row, |items|, parent, gen, now);
      ResourcesOnly(s1, items[0].resources, row.id, gen, now);
      ImportedRowsUnheld(s2, items[0].children, Some(row), gen, now);
      UnheldTwice(s, s2, s3);
      ImportedRowsUnheld(s3, items[1..], parent, gen, now);
      UnheldTwice(s, s3, ImportItems(s3, items[1..], parent, gen, now));
    }
  }

  /** Stored rows keep their parents, and a missing parent stays missing. */
  ghost predicate SameParents(m: MenuTable, m': MenuTable) {
    forall k :: k in m ==>
      k in m' && m'[k].parentID == m[k].parentID && (m[k].parentID in m' ==> m[k].parentID in m)
  }

  lemma {:induction false} GrownUp(m: MenuTable, m': MenuTable, id: string, n: nat)
    requires SameParents(m, m') && (id in m <==> id in m')
    ensures Up(m', id, n) == Up(m, id, n)
    decreases n
  {
    if n > 0 && id in m {
      GrownUp(m, m', m[id].parentID, n - 1);
    }
  }

  /** No stored row gets another ancestor. */
  lemma GrownAncestors(m: MenuTable, m': MenuTable, p: Position, codes: set<string>, a: string, id: string)
    requires Grows(m, m', p, codes) && id in m
    ensures IsAncestor(m', a, id) <==> IsAncestor(m, a, id)
  {
    assert SameParents(m, m');
    forall n: nat ensures Up(m', id, n) == Up(m, id, n) { GrownUp(m, m', id, n); }
  }

  /** Role `roleID` holds menu `g`, and the file leaves it enabled or makes it so. */
  ghost predicate GrantedAfter(s: Store, items: seq<FileItem>, roleID: string, g: string) {
    g in s.menus && StatusAfter(s.menus, [], items, g) == ENABLED && GrantedToRole(s.roleMenus, roleID, g)
  }

  /** The closure, along the parent links as they are, of what the role is granted under the file's statuses. */
  ghost predicate ReachesAfter(s: Store, items: seq<FileItem>, roleID: string, x: string) {
    exists g :: GrantedAfter(s, items, roleID, g) && (g == x || IsAncestor(s.menus, x, g))
  }

  lemma GrantedAfterImport(s: Store, items: seq<FileItem>, gen: IdSource, now: int, roleID: string, g: string)
    requires NoEmptyKey(s.menus) && Repeatable(items)
    ensures Granted(ImportItems(s, items, None, gen, now), roleID, g) <==> GrantedAfter(s, items, roleID, g)
  {
    var t := ImportItems(s, items, None, gen, now);
    ImportOnlyAdds(s, items, None, gen, now);
    if g in s.menus {
      StatusAfterImport(s, items, None, [], gen, now, g);
    } else if g in t.menus {
      ImportedRowsUnheld(s, items, None, gen, now);
      assert !Held(s, g);
    }
  }

  /** What a role reaches after the import, read off before it. */
  lemma ReachedAfterImport(s: Store, items: seq<FileItem>, gen: IdSource, now: int, roleID: string, x: string)
    requires NoEmptyKey(s.menus) && Repeatable(items)
    ensures Reaches(ImportItems(s, items, None, gen, now), roleID, x) <==> ReachesAfter(s, items, roleID, x)
  {
    var t := ImportItems(s, items, None, gen, now);
    ImportRun(s, items, None, [], gen, now);
    forall g ensures Granted(t, roleID, g) <==> GrantedAfter(s, items, roleID, g) {
      GrantedAfterImport(s, items, gen, now, roleID, g);
    }
    forall g | g in s.menus ensures IsAncestor(t.menus, x, g) <==> IsAncestor(s.menus, x, g) {
      GrownAncestors(s.menus, t.menus, [], Codes(items), x, g);
    }
    SameClosure(s, t, items, roleID, x);
  }

  lemma SameClosure(s: Store, t: Store, items: seq<FileItem>, roleID: string, x: string)
    requires forall g :: Granted(t, roleID, g) <==> GrantedAfter(s, items, roleID, g)
    requires forall g :: g in s.menus ==> (IsAncestor(t.menus, x, g) <==> IsAncestor(s.menus, x, g))
    ensures Reaches(t, roleID, x) <==> ReachesAfter(s, items, roleID, x)
  {
  }

  /** The file's statuses give every role the reach it has. */
  ghost predicate FileKeepsReach(s: Store, items: seq<FileItem>) {
    forall roleID, x :: ReachesAfter(s, items, roleID, x) <==> Reaches(s, roleID, x)
  }

  /** A file that neither enables nor disables a menu that some role holds does so. */
  lemma HeldStatusesKeepReach(s: Store, items: seq<FileItem>)
    requires forall g :: g in s.menus && Held(s, g) ==>
               (StatusAfter(s.menus, [], items, g) == ENABLED <==> s.menus[g].status == ENABLED)
    ensures FileKeepsReach(s, items)
  {
    forall roleID, x ensures ReachesAfter(s, items, roleID, x) <==> Reaches(s, roleID, x) {
      forall g ensures GrantedAfter(s, items, roleID, g) <==> Granted(s, roleID, g) {
        if GrantedToRole(s.roleMenus, roleID, g) { assert Held(s, g); }
      }
    }
  }

  // ----- resources within reach -----

  ghost predicate SomeReaches(s: Store, x: string) {
    exists roleID :: Reaches(s, roleID, x)
  }

  /** The menus that some role reaches. */
  ghost function Reached(s: Store): iset<string> {
    iset x | SomeReaches(s, x)
  }

  /** At every item of the file that stands for a row in `reach`, all its resources are there already. */
  ghost predicate ResourcesKnown(
      m: MenuTable, resources: map<string, Resource>, p: Position, items: seq<FileItem>, reach: iset<string>)
    decreases items
  {
    items == [] ||
    var q := p + [items[0].row.code];
    && (Resolve(m, q).Some? && Resolve(m, q).value in reach ==>
          forall i :: 0 <= i < |items[0].resources| ==>
            HasResource(resources, items[0].resources[i].verb, items[0].resources[i].path, Resolve(m, q).value))
    && ResourcesKnown(m, resources, q, items[0].children, reach)
    && ResourcesKnown(m, resources, p, items[1..], reach)
  }

  /** `reach` mentions only rows and their parents. */
  ghost predicate ReachIsOld(m: MenuTable, reach: iset<string>) {
    forall x :: x in reach ==> x in m || exists j :: j in m && m[j].parentID == x
  }

  lemma {:induction false} UpIsParent(m: MenuTable, id: string, n: nat) returns (j: string)
    requires n > 0 && Up(m, id, n) != ""
    ensures j in m && m[j].parentID == Up(m, id, n)
    decreases n
  {
    if n == 1 {
      j := id;
      assert Up(m, m[id].parentID, 0) == m[id].parentID;
    } else {
      j := UpIsParent(m, m[id].parentID, n - 1);
    }
  }

  lemma ReachedIsOld(s: Store)
    ensures ReachIsOld(s.menus, Reached(s))
  {
    forall x | x in Reached(s) && x !in s.menus ensures exists j :: j in s.menus && s.menus[j].parentID == x {
      var roleID :| Reaches(s, roleID, x);
      var g :| Granted(s, roleID, g) && (g == x || IsAncestor(s.menus, x, g));
      var n: nat :| n > 0 && Up(s.menus, g, n) == x;
      var j := UpIsParent(s.menus, g, n);
    }
  }

  lemma OldStaysOld(m: MenuTable, m': MenuTable, p: Position, codes: set<string>, reach: iset<string>)
    requires Grows(m, m', p, codes) && ReachIsOld(m, reach)
    ensures ReachIsOld(m', reach)
    ensures forall x :: x in reach && x in m' ==> x in m
  {
    forall x | x in reach && x !in m' ensures exists j :: j in m' && m'[j].parentID == x {
      var j :| j in m && m[j].parentID == x;
      assert m'[j].parentID == x;
    }
  }

  lemma {:induction false} KnownStable(
      s: Store, t: Store, pp: Position, codes: set<string>, p: Position, items: seq<FileItem>, reach: iset<string>)
    requires Grows(s.menus, t.menus, pp, codes) && KeepsResources(s, t) && ReachIsOld(s.menus, reach)
    requires ResourcesKnown(s.menus, s.resources, p, items, reach)
    requires "" !in reach
    ensures ResourcesKnown(t.menus, t.resources, p, items, reach)
    decreases items
  {
    if items != [] {
      var q := p + [items[0].row.code];
      KnownStable(s, t, pp, codes, q, items[0].children, reach);
      KnownStable(s, t, pp, codes, p, items[1..], reach);
      if Resolve(t.menus, q).Some? && Resolve(t.menus, q).value in reach {
        var k := Resolve(t.menus, q).value;
        ResolvedIsStored(t.menus, q);
        OldStaysOld(s.menus, t.menus, pp, codes, reach);
        GrowsSamePositions(s.menus, t.menus, pp, codes, k);
        assert Resolve(s.menus, q) == Some(k);
        ResourcesStay(s, t, items[0].resources, k);
      }
    }
  }

  lemma ResourcesStay(s: Store, t: Store, rs: seq<Resource>, k: string)
    requires KeepsResources(s, t)
    requires forall i :: 0 <= i < |rs| ==> HasResource(s.resources, rs[i].verb, rs[i].path, k)
    ensures forall i :: 0 <= i < |rs| ==> HasResource(t.resources, rs[i].verb, rs[i].path, k)
  {
    forall i | 0 <= i < |rs| ensures HasResource(t.resources, rs[i].verb, rs[i].path, k) {
      assert HasResource(s.resources, rs[i].verb, rs[i].path, k);
      var c :| c in s.resources && s.resources[c].verb == rs[i].verb && s.resources[c].path == rs[i].path
               && s.resources[c].menuID == k;
      assert t.resources[c] == s.resources[c];
    }
  }

  /** No resource that is only in `t` hangs on a menu in `reach`. */
  ghost predicate NothingNewAt(s: Store, t: Store, reach: iset<string>) {
    forall c :: c in t.resources && c !in s.resources ==> t.resources[c].menuID !in reach
  }

  lemma {:induction false} ResourcesGoTo(s: Store, rs: seq<Resource>, menuID: string, gen: IdSource, now: int)
    ensures var t := ImportResources(s, rs, menuID, gen, now);
            forall c :: c in t.resources && c !in s.resources ==> t.resources[c].menuID == menuID
    decreases |rs|
  {
    if rs != [] {
      var s' := ImportResource(s, rs[0], menuID, gen, now);
      ResourcesGoTo(s', rs[1..], menuID, gen, now);
      ResourcesOnly(s', rs[1..], menuID, gen, now);
    }
  }

  /** An item whose resources are known within reach adds none there. */
  lemma ItemAddsNothing(
      s: Store, item: FileItem, remaining: nat, parent: Option<Menu>, p: Position, reach: iset<string>,
      gen: IdSource, now: int)
    requires NoEmptyKey(s.menus) && item.row.id == "" && item.row.code != "" && ReachIsOld(s.menus, reach)
    requires forall j :: 0 <= j < |item.resources| ==> item.resources[j].id == "" && item.resources[j].path != ""
    requires Resolve(s.menus, p) == Some(ParentIDOf(parent))
    requires var at := Resolve(s.menus, p + [item.row.code]);
             at.Some? && at.value in reach ==>
               forall i :: 0 <= i < |item.resources| ==>
                 HasResource(s.resources, item.resources[i].verb, item.resources[i].path, at.value)
    ensures var row := RowFor(s, item.row, remaining, parent, gen, now);
            var s1 := ImportRow(s, item.row, remaining, parent, gen, now);
            NothingNewAt(s, ImportResources(s1, item.resources, row.id, gen, now), reach)
  {
    var q := p + [item.row.code];
    var row := RowFor(s, item.row, remaining, parent, gen, now);
    var s1 := ImportRow(s, item.row, remaining, parent, gen, now);
    RowStep(s, item.row, remaining, parent, p, gen, now);
    ResourcesGoTo(s1, item.resources, row.id, gen, now);
    if row.id in reach {
      OldStaysOld(s.menus, s1.menus, p, {item.row.code}, reach);
      GrowsSamePositions(s.menus, s1.menus, p, {item.row.code}, row.id);
      assert Resolve(s.menus, q) == Some(row.id);
      ResourcesFixed(s1, item.resources, row.id, gen, now);
    }
  }

  lemma NothingNewTwice(s: Store, m: Store, t: Store, reach: iset<string>)
    requires NothingNewAt(s, m, reach) && NothingNewAt(m, t, reach) && KeepsResources(m, t)
    ensures NothingNewAt(s, t, reach)
  {
  }

  lemma {:induction false} KnownMeansNothingNew(
      s: Store, items: seq<FileItem>, parent: Option<Menu>, p: Position, reach: iset<string>, gen: IdSource, now: int)
    requires NoEmptyKey(s.menus) && Repeatable(items) && ReachIsOld(s.menus, reach) && "" !in reach
    requires Resolve(s.menus, p) == Some(ParentIDOf(parent))
    requires ResourcesKnown(s.menus, s.resources, p, items, reach)
    ensures NothingNewAt(s, ImportItems(s, items, parent, gen, now), reach)
    decreases items
  {
    if items != [] {
      RepeatableTail(items);
      var item, q := items[0], p + [items[0].row.code];
      var row := RowFor(s, item.row, |items|, parent, gen, now);
      var s1 := ImportRow(s, item.row, |items|, parent, gen, now);
      var s2 := ImportResources(s1, item.resources, row.id, gen, now);
      var s3 := ImportItems(s2, item.children, Some(row), gen, now);
      ItemAddsNothing(s, item, |items|, parent, p, reach, gen, now);
      RowStep(s, item.row, |items|, parent, p, gen, now);
      ResourcesOnly(s1, item.resources, row.id, gen, now);
      OldStaysOld(s.menus, s2.menus, p, {item.row.code}, reach);
      KnownStable(s, s2, p, {item.row.code}, q, item.children, reach);
      KnownMeansNothingNew(s2, item.children, Some(row), q, reach, gen, now);
      ImportOnlyAdds(s2, item.children, Some(row), gen, now);
      NothingNewTwice(s, s2, s3, reach);
      ItemRun(s, item, |items|, parent, p, gen, now);
      OldStaysOld(s.menus, s3.menus, p, {item.row.code}, reach);
      KnownStable(s, s3, p, {item.row.code}, p, items[1..], reach);
      KnownMeansNothingNew(s3, items[1..], parent, p, reach, gen, now);
      ImportOnlyAdds(s3, items[1..], parent, gen, now);
      NothingNewTwice(s, s3, ImportItems(s3, items[1..], parent, gen, now), reach);
    }
  }

  lemma PresentWasThere(s: Store, t: Store, rs: seq<Resource>, k: string, reach: iset<string>)
    requires KeepsResources(s, t) && NothingNewAt(s, t, reach) && k in reach
    requires forall i :: 0 <= i < |rs| ==> HasResource(t.resources, rs[i].verb, rs[i].path, k)
    ensures forall i :: 0 <= i < |rs| ==> HasResource(s.resources, rs[i].verb, rs[i].path, k)
  {
    forall i | 0 <= i < |rs| ensures HasResource(s.resources, rs[i].verb, rs[i].path, k) {
      assert HasResource(t.resources, rs[i].verb, rs[i].path, k);
      var c :| c in t.resources && t.resources[c].verb == rs[i].verb && t.resources[c].path == rs[i].path
               && t.resources[c].menuID == k;
      assert c in s.resources;
    }
  }

  /** Conversely, where an import has added nothing within reach, everything it lists there was known. */
  lemma {:induction false} NothingNewMeansKnown(
      s: Store, t: Store, codes: set<string>, p: Position, items: seq<FileItem>, reach: iset<string>)
    requires Imported(s.menus, t, p, items) && Grows(s.menus, t.menus, [], codes) && KeepsResources(s, t)
    requires NothingNewAt(s, t, reach)
    ensures ResourcesKnown(s.menus, s.resources, p, items, reach)
    decreases items
  {
    if items != [] {
      var item, q := items[0], p + [items[0].row.code];
      assert ItemImported(s.menus, t, q, item, |items|);
      NothingNewMeansKnown(s, t, codes, q, item.children, reach);
      NothingNewMeansKnown(s, t, codes, p, items[1..], reach);
      if Resolve(s.menus, q).Some? && Resolve(s.menus, q).value in reach {
        assert Resolve(t.menus, q) == Resolve(s.menus, q);
        PresentWasThere(s, t, item.resources, Resolve(s.menus, q).value, reach);
      }
    }
  }

  // ----- both together -----

  /** The file keeps every role's reach, and adds no resource within it. */
  ghost predicate QuietFile(s: Store, items: seq<FileItem>) {
    FileKeepsReach(s, items) && ResourcesKnown(s.menus, s.resources, [], items, Reached(s))
  }

  lemma NothingNewExactly(s: Store, items: seq<FileItem>, gen: IdSource, now: int)
    requires NoEmptyKey(s.menus) && Repeatable(items)
    ensures NothingNewReached(s, ImportItems(s, items, None, gen, now))
       <==> ResourcesKnown(s.menus, s.resources, [], items, Reached(s))
  {
    var t := ImportItems(s, items, None, gen, now);
    ReachedIsOld(s);
    EmptyIsUnreached(s);
    ImportOnlyAdds(s, items, None, gen, now);
    if ResourcesKnown(s.menus, s.resources, [], items, Reached(s)) {
      KnownMeansNothingNew(s, items, None, [], Reached(s), gen, now);
    }
    if NothingNewReached(s, t) {
      ImportRun(s, items, None, [], gen, now);
      NothingNewMeansKnown(s, t, Codes(items), [], items, Reached(s));
    }
  }

  lemma EmptyIsUnreached(s: Store)
    requires "" !in s.menus
    ensures "" !in Reached(s)
  {
  }

  /**
   For every table state and repeatable file, the import leaves everything a load reads alone exactly when the file,
   compared with the tables before the import, keeps every role's reach and lists no new resource within it.
   */
  lemma QuietFileExactly(s: Store, items: seq<FileItem>, gen: IdSource, now: int)
    requires NoEmptyKey(s.menus) && Repeatable(items)
    ensures SamePolicy(s, ImportItems(s, items, None, gen, now)) <==> QuietFile(s, items)
  {
    var t := ImportItems(s, items, None, gen, now);
    ImportIsQuiet(s, items, gen, now);
    NothingNewExactly(s, items, gen, now);
    forall roleID, x ensures Reaches(t, roleID, x) <==> ReachesAfter(s, items, roleID, x) {
      ReachedAfterImport(s, items, gen, now, roleID, x);
    }
  }
}

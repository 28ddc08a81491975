/**
 Importing the same menu file twice: what the first run leaves behind, position
 by position, and when the second run finds nothing to do.
 */
module ImportIdempotence {
  import opened Wrappers
  import opened Identifiers
  import opened Tables
  import opened MenuTree
  import opened MenuImport

  /** A position in a menu file: the codes from a root item down. */
  type Position = seq<string>

  /** The row that a position stands for, looked up code by code from the top; `""` above the roots. */
  function Resolve(m: MenuTable, q: Position): Option<string>
    decreases |q|
  {
    if q == [] then Some("")
    else
      match Resolve(m, q[..|q| - 1])
      case None => None
      case Some(parentID) => FirstOf(CodeMatches(m, q[|q| - 1], parentID))
  }

  /**
   Files whose import is meant to be repeatable: no explicit ids, codes present and distinct
   among siblings, and every resource with a path.
   */
  ghost predicate Repeatable(items: seq<FileItem>)
    decreases items
  {
    && (forall i :: 0 <= i < |items| ==> items[i].row.id == "" && items[i].row.code != "")
    && (forall i, j :: 0 <= i < j < |items| ==> items[i].row.code != items[j].row.code)
    && (forall i, j :: 0 <= i < |items| && 0 <= j < |items[i].resources| ==>
          items[i].resources[j].id == "" && items[i].resources[j].path != "")
    && (forall i :: 0 <= i < |items| ==> Repeatable(items[i].children))
  }

  ghost predicate NoEmptyKey(m: MenuTable) {
    "" !in m && KeysMatch(m)
  }

  /** A row determines its position. */
  lemma {:induction false} ResolveInjective(m: MenuTable, p: Position, q: Position)
    requires NoEmptyKey(m)
    requires Resolve(m, p).Some? && Resolve(m, p) == Resolve(m, q)
    ensures p == q
    decreases |p|
  {
    if p != [] && q != [] {
      var p', q' := p[..|p| - 1], q[..|q| - 1];
      assert Resolve(m, p).value in CodeMatches(m, p[|p| - 1], Resolve(m, p').value);
      assert Resolve(m, q).value in CodeMatches(m, q[|q| - 1], Resolve(m, q').value);
      ResolveInjective(m, p', q');
      assert p == p' + [p[|p| - 1]] && q == q' + [q[|q| - 1]];
    }
  }

  lemma ResolveSnoc(m: MenuTable, q: Position, code: string)
    ensures Resolve(m, q + [code]) ==
            if Resolve(m, q).None? then None else FirstOf(CodeMatches(m, code, Resolve(m, q).value))
  {
    assert (q + [code])[..|q|] == q;
  }

  /** Row `k` sits at a position strictly below `p`, in the branch of one of `codes`. */
  ghost predicate SitsBelow(m: MenuTable, k: string, p: Position, codes: set<string>) {
    exists q: Position :: |p| < |q| && p <= q && q[|p|] in codes && Resolve(m, q) == Some(k)
  }

  /**
   How an import of items with `codes` under position `p` may change the menu table: positions
   keep their rows, new rows are nobody's parent yet, and only rows in those branches change.
   */
  ghost predicate Grows(m: MenuTable, m': MenuTable, p: Position, codes: set<string>) {
    && NoEmptyKey(m) && NoEmptyKey(m') && KeepsRows(m, m')
    && (forall q: Position :: Resolve(m, q).Some? ==> Resolve(m', q) == Resolve(m, q))
    && (forall k, j :: k in m' && k !in m && j in m ==> m[j].parentID != k)
    && (forall k :: k in m' && (k !in m || m'[k] != m[k]) ==> SitsBelow(m', k, p, codes))
  }

  lemma GrowsTransitive(m: MenuTable, m': MenuTable, m'': MenuTable, p: Position, a: set<string>, b: set<string>)
    requires Grows(m, m', p, a) && Grows(m', m'', p, b)
    ensures Grows(m, m'', p, a + b)
  {
    forall k | k in m'' && (k !in m || m''[k] != m[k]) ensures SitsBelow(m'', k, p, a + b) {
      if k in m' && (k !in m || m'[k] != m[k]) {
        var q: Position :| |p| < |q| && p <= q && q[|p|] in a && Resolve(m', q) == Some(k);
        assert Resolve(m'', q) == Some(k);
      } else {
        var q: Position :| |p| < |q| && p <= q && q[|p|] in b && Resolve(m'', q) == Some(k);
      }
    }
    forall k, j | k in m'' && k !in m && j in m ensures m[j].parentID != k {
      if k !in m' { assert j in m'; }
    }
  }

  /** Growth deeper down in the branch of `code` is growth in that branch. */
  lemma GrowsBelow(m: MenuTable, m': MenuTable, p: Position, code: string, codes: set<string>)
    requires Grows(m, m', p + [code], codes)
    ensures Grows(m, m', p, {code})
  {
    var pc := p + [code];
    forall k | k in m' && (k !in m || m'[k] != m[k]) ensures SitsBelow(m', k, p, {code}) {
      var q: Position :| |pc| < |q| && pc <= q && q[|pc|] in codes && Resolve(m', q) == Some(k);
      assert q[|p|] == pc[|p|] == code;
    }
  }

  lemma GrowsReflexive(m: MenuTable, p: Position)
    requires NoEmptyKey(m)
    ensures Grows(m, m, p, {})
  {
  }

  /** A position that starts to resolve during growth resolves to a new row of the growing branches. */
  lemma {:induction false} NewlyResolved(m: MenuTable, m': MenuTable, p: Position, codes: set<string>, q: Position)
    requires Grows(m, m', p, codes)
    requires Resolve(m, q).None? && Resolve(m', q).Some?
    ensures Resolve(m', q).value !in m
    ensures |p| < |q| && p <= q && q[|p|] in codes
    decreases |q|
  {
    var q', code, k := q[..|q| - 1], q[|q| - 1], Resolve(m', q).value;
    assert k in CodeMatches(m', code, Resolve(m', q').value);
    if Resolve(m, q').None? {
      NewlyResolved(m, m', p, codes, q');
    } else {
      assert k !in CodeMatches(m, code, Resolve(m, q').value);
    }
    assert k !in m;
    var r: Position :| |p| < |r| && p <= r && r[|p|] in codes && Resolve(m', r) == Some(k);
    ResolveInjective(m', q, r);
  }

  // ----- one row -----

  lemma MergeGrows(m: MenuTable, id: string, row: Menu, p: Position, code: string)
    requires NoEmptyKey(m) && id in m && Resolve(m, p + [code]) == Some(id)
    requires row.id == id && row.code == m[id].code && row.parentID == m[id].parentID
        && row.parentPath == m[id].parentPath
    ensures Grows(m, m[id := row], p, {code})
    ensures Resolve(m[id := row], p + [code]) == Some(id)
  {
    var m' := m[id := row];
    forall q: Position ensures Resolve(m', q) == Resolve(m, q) { SameCodesSameResolve(m, m', q); }
    assert |p| < |p + [code]| && p <= p + [code] && (p + [code])[|p|] in {code};
  }

  lemma {:induction false} SameCodesSameResolve(m: MenuTable, m': MenuTable, q: Position)
    requires m'.Keys == m.Keys
    requires forall k :: k in m ==> m'[k].code == m[k].code && m'[k].parentID == m[k].parentID
    ensures Resolve(m', q) == Resolve(m, q)
    decreases |q|
  {
    if q != [] {
      SameCodesSameResolve(m, m', q[..|q| - 1]);
      if Resolve(m, q[..|q| - 1]).Some? {
        var parentID := Resolve(m, q[..|q| - 1]).value;
        assert CodeMatches(m', q[|q| - 1], parentID) == CodeMatches(m, q[|q| - 1], parentID);
      }
    }
  }

  lemma CreateGrows(m: MenuTable, row: Menu, p: Position, code: string)
    requires NoEmptyKey(m) && row.id !in m && row.id != "" && row.code == code
    requires forall j :: j in m ==> m[j].parentID != row.id
    requires Resolve(m, p) == Some(row.parentID) && row.parentID != row.id
    requires CodeMatches(m, code, row.parentID) == {}
    ensures Grows(m, m[row.id := row], p, {code})
    ensures Resolve(m[row.id := row], p + [code]) == Some(row.id)
  {
    var m' := m[row.id := row];
    forall q: Position | Resolve(m, q).Some? ensures Resolve(m', q) == Resolve(m, q) {
      InsertKeepsResolve(m, row, q);
    }
    assert CodeMatches(m', code, row.parentID) == {row.id};
    assert Least({row.id}) == row.id;
    ResolveSnoc(m', p, code);
    assert |p| < |p + [code]| && p <= p + [code] && (p + [code])[|p|] in {code};
  }

  lemma {:induction false} InsertKeepsResolve(m: MenuTable, row: Menu, q: Position)
    requires row.id !in m && CodeMatches(m, row.code, row.parentID) == {}
    requires Resolve(m, q).Some?
    ensures Resolve(m[row.id := row], q) == Resolve(m, q)
    decreases |q|
  {
    if q != [] {
      var m', q' := m[row.id := row], q[..|q| - 1];
      InsertKeepsResolve(m, row, q');
      var c, parentID := q[|q| - 1], Resolve(m, q').value;
      assert CodeMatches(m, c, parentID) != {};
      assert CodeMatches(m', c, parentID) == CodeMatches(m, c, parentID);
    }
  }

  // ----- what a run leaves behind -----

  /** The file's fields, as a row carries them after an import that started from `m0`. */
  ghost predicate RowImported(m0: MenuTable, m1: MenuTable, q: Position, r: Menu, remaining: nat) {
    && Resolve(m1, q).Some? && Resolve(m1, q).value in m1
    && var row := m1[Resolve(m1, q).value];
    && row.name == r.name && row.description == r.description && row.path == r.path && row.kind == r.kind
    && row.status == FileStatus(r)
    && row.sequence == if r.sequence == 0 && Resolve(m0, q).None? then remaining else r.sequence
  }

  ghost predicate ResourcesImported(s: Store, q: Position, rs: seq<Resource>) {
    Resolve(s.menus, q).Some? &&
    forall i :: 0 <= i < |rs| ==> HasResource(s.resources, rs[i].verb, rs[i].path, Resolve(s.menus, q).value)
  }

  ghost predicate ItemImported(m0: MenuTable, s: Store, q: Position, item: FileItem, remaining: nat)
    decreases item
  {
    && RowImported(m0, s.menus, q, item.row, remaining)
    && ResourcesImported(s, q, item.resources)
    && Imported(m0, s, q, item.children)
  }

  ghost predicate Imported(m0: MenuTable, s: Store, p: Position, items: seq<FileItem>)
    decreases items
  {
    items == [] ||
    (ItemImported(m0, s, p + [items[0].row.code], items[0], |items|) && Imported(m0, s, p, items[1..]))
  }

  ghost function Codes(items: seq<FileItem>): set<string> {
    set i | 0 <= i < |items| :: items[i].row.code
  }

  lemma RepeatableTail(items: seq<FileItem>)
    requires Repeatable(items) && items != []
    ensures Repeatable(items[1..]) && Repeatable(items[0].children)
    ensures items[0].row.code !in Codes(items[1..])
    ensures Codes(items) == {items[0].row.code} + Codes(items[1..])
  {
    forall x | x in Codes(items) ensures x in {items[0].row.code} + Codes(items[1..]) {
      var i :| 0 <= i < |items| && items[i].row.code == x;
      if i > 0 { assert items[1..][i - 1] == items[i]; }
    }
    forall x | x in Codes(items[1..]) ensures x in Codes(items) {
      var i :| 0 <= i < |items[1..]| && items[1..][i].row.code == x;
      assert items[i + 1].row.code == x;
    }
  }

  /** `q` is neither at nor below a branch of `codes` under `p`. */
  ghost predicate Outside(q: Position, p: Position, codes: set<string>) {
    !(|p| < |q| && p <= q && q[|p|] in codes)
  }

  lemma UntouchedRow(m: MenuTable, m': MenuTable, p: Position, codes: set<string>, q: Position)
    requires Grows(m, m', p, codes) && Resolve(m, q).Some? && Resolve(m, q).value in m && Outside(q, p, codes)
    ensures m'[Resolve(m, q).value] == m[Resolve(m, q).value]
  {
    var k := Resolve(m, q).value;
    if m'[k] != m[k] {
      var r: Position :| |p| < |r| && p <= r && r[|p|] in codes && Resolve(m', r) == Some(k);
      assert Resolve(m', q) == Some(k);
      ResolveInjective(m', q, r);
    }
  }

  ghost predicate KeepsResources(s: Store, t: Store) {
    forall k :: k in s.resources ==> k in t.resources && t.resources[k] == s.resources[k]
  }

  /** Growth in other branches leaves an imported row and its resources as they are. */
  lemma RowFrame(
      m0: MenuTable, s: Store, t: Store, p: Position, codes: set<string>, q: Position, item: FileItem, remaining: nat)
    requires RowImported(m0, s.menus, q, item.row, remaining) && ResourcesImported(s, q, item.resources)
    requires Grows(s.menus, t.menus, p, codes) && KeepsResources(s, t) && Outside(q, p, codes)
    ensures RowImported(m0, t.menus, q, item.row, remaining) && ResourcesImported(t, q, item.resources)
  {
    var k := Resolve(s.menus, q).value;
    assert Resolve(t.menus, q) == Some(k);
    UntouchedRow(s.menus, t.menus, p, codes, q);
    forall i | 0 <= i < |item.resources|
      ensures HasResource(t.resources, item.resources[i].verb, item.resources[i].path, k)
    {
      var r := item.resources[i];
      assert HasResource(s.resources, r.verb, r.path, k);
    }
  }

  lemma {:induction false} ItemFrame(
      m0: MenuTable, s: Store, t: Store, p: Position, codes: set<string>, q: Position, item: FileItem, remaining: nat)
    requires ItemImported(m0, s, q, item, remaining)
    requires Grows(s.menus, t.menus, p, codes) && KeepsResources(s, t)
    requires |p| < |q| && p <= q && q[|p|] !in codes
    ensures ItemImported(m0, t, q, item, remaining)
    decreases item
  {
    RowFrame(m0, s, t, p, codes, q, item, remaining);
    ImportedFrame(m0, s, t, p, codes, q, item.children);
  }

  lemma {:induction false} ImportedFrame(
      m0: MenuTable, s: Store, t: Store, p: Position, codes: set<string>, at: Position, items: seq<FileItem>)
    requires Imported(m0, s, at, items)
    requires Grows(s.menus, t.menus, p, codes) && KeepsResources(s, t)
    requires |p| < |at| && p <= at && at[|p|] !in codes
    ensures Imported(m0, t, at, items)
    decreases items
  {
    if items != [] {
      ItemFrame(m0, s, t, p, codes, at + [items[0].row.code], items[0], |items|);
      ImportedFrame(m0, s, t, p, codes, at, items[1..]);
    }
  }

  /** Two tables agree on which positions in the branches of `codes` under `p` are taken. */
  ghost predicate SameAbsent(m: MenuTable, m': MenuTable, p: Position, codes: set<string>) {
    forall q: Position :: !Outside(q, p, codes) ==> (Resolve(m, q).None? <==> Resolve(m', q).None?)
  }

  lemma {:induction false} RebaseItem(
      m: MenuTable, m': MenuTable, s: Store, q: Position, item: FileItem, remaining: nat)
    requires ItemImported(m', s, q, item, remaining)
    requires Resolve(m, q).None? <==> Resolve(m', q).None?
    requires SameAbsent(m, m', q, Codes(item.children)) && Repeatable(item.children)
    ensures ItemImported(m, s, q, item, remaining)
    decreases item
  {
    Rebase(m, m', s, q, item.children);
  }

  lemma {:induction false} Rebase(m: MenuTable, m': MenuTable, s: Store, p: Position, items: seq<FileItem>)
    requires Imported(m', s, p, items) && Repeatable(items)
    requires SameAbsent(m, m', p, Codes(items))
    ensures Imported(m, s, p, items)
    decreases items
  {
    if items != [] {
      RepeatableTail(items);
      var q := p + [items[0].row.code];
      assert !Outside(q, p, Codes(items));
      forall r: Position | !Outside(r, q, Codes(items[0].children))
        ensures Resolve(m, r).None? <==> Resolve(m', r).None?
      {
        assert r[|p|] == q[|p|];
        assert !Outside(r, p, Codes(items));
      }
      RebaseItem(m, m', s, q, items[0], |items|);
      Rebase(m, m', s, p, items[1..]);
    }
  }

  // ----- the run -----

  lemma {:induction false} ResourcesPresent(s: Store, rs: seq<Resource>, menuID: string, gen: IdSource, now: int)
    requires forall i :: 0 <= i < |rs| ==> rs[i].id == "" && rs[i].path != ""
    ensures forall i :: 0 <= i < |rs| ==>
              HasResource(ImportResources(s, rs, menuID, gen, now).resources, rs[i].verb, rs[i].path, menuID)
    decreases |rs|
  {
    if rs != [] {
      var s' := ImportResource(s, rs[0], menuID, gen, now);
      var t := ImportResources(s, rs, menuID, gen, now);
      if !HasResource(s.resources, rs[0].verb, rs[0].path, menuID) {
        assert gen(s) in s'.resources && s'.resources[gen(s)].path == rs[0].path;
      }
      assert HasResource(s'.resources, rs[0].verb, rs[0].path, menuID);
      ResourcesOnly(s', rs[1..], menuID, gen, now);
      ResourcesPresent(s', rs[1..], menuID, gen, now);
      forall i | 0 <= i < |rs| ensures HasResource(t.resources, rs[i].verb, rs[i].path, menuID) {
        if i == 0 {
          var k :| k in s'.resources && s'.resources[k].verb == rs[0].verb && s'.resources[k].path == rs[0].path
                   && s'.resources[k].menuID == menuID;
          assert t.resources[k] == s'.resources[k];
        } else {
          assert rs[i] == rs[1..][i - 1];
        }
      }
    }
  }

  /** What the first step of an item leaves behind: its row, found or created at its position. */
  ghost predicate RowStepped(m: MenuTable, m1: MenuTable, row: Menu, p: Position, r: Menu, remaining: nat) {
    var q := p + [r.code];
    && Grows(m, m1, p, {r.code})
    && Resolve(m1, q) == Some(row.id)
    && RowImported(m, m1, q, r, remaining)
    && (Resolve(m, q).None? ==> row.id !in m && forall j :: j in m1 ==> m1[j].parentID != row.id)
    && (Resolve(m, q).Some? ==> m1.Keys == m.Keys)
  }

  lemma RowStepFound(m: MenuTable, r: Menu, remaining: nat, p: Position, now: int)
    requires NoEmptyKey(m) && Resolve(m, p + [r.code]).Some?
    ensures Resolve(m, p + [r.code]).value in m
    ensures var row := Merge(m[Resolve(m, p + [r.code]).value], r, now);
            RowStepped(m, m[row.id := row], row, p, r, remaining)
  {
    ResolvedIsStored(m, p + [r.code]);
    var id := Resolve(m, p + [r.code]).value;
    MergeGrows(m, id, Merge(m[id], r, now), p, r.code);
  }

  lemma RowStepCreated(s: Store, r: Menu, remaining: nat, parent: Option<Menu>, p: Position, gen: IdSource, now: int)
    requires NoEmptyKey(s.menus) && r.id == ""
    requires Resolve(s.menus, p) == Some(ParentIDOf(parent)) && Resolve(s.menus, p + [r.code]).None?
    ensures var row := Created(s, r, remaining, parent, gen, now);
            RowStepped(s.menus, s.menus[row.id := row], row, p, r, remaining)
  {
    var row := Created(s, r, remaining, parent, gen, now);
    CreateGrowsHere(s, r, remaining, parent, p, gen, now);
    assert RowImported(s.menus, s.menus[row.id := row], p + [r.code], r, remaining);
  }

  lemma CreateGrowsHere(s: Store, r: Menu, remaining: nat, parent: Option<Menu>, p: Position, gen: IdSource, now: int)
    requires NoEmptyKey(s.menus) && r.id == ""
    requires Resolve(s.menus, p) == Some(ParentIDOf(parent)) && Resolve(s.menus, p + [r.code]).None?
    ensures var row := Created(s, r, remaining, parent, gen, now);
            && row.id !in s.menus && Grows(s.menus, s.menus[row.id := row], p, {r.code})
            && Resolve(s.menus[row.id := row], p + [r.code]) == Some(row.id)
            && row.parentID != row.id && forall j :: j in s.menus ==> s.menus[j].parentID != row.id
  {
    ResolveSnoc(s.menus, p, r.code);
    ResolvedIsStored(s.menus, p);
    CreateGrows(s.menus, Created(s, r, remaining, parent, gen, now), p, r.code);
  }

  lemma RowStep(s: Store, r: Menu, remaining: nat, parent: Option<Menu>, p: Position, gen: IdSource, now: int)
    requires NoEmptyKey(s.menus) && r.id == "" && r.code != ""
    requires Resolve(s.menus, p) == Some(ParentIDOf(parent))
    ensures RowStepped(s.menus, ImportRow(s, r, remaining, parent, gen, now).menus,
                       RowFor(s, r, remaining, parent, gen, now), p, r, remaining)
  {
    ResolveSnoc(s.menus, p, r.code);
    assert Find(s.menus, r, ParentIDOf(parent)) == Resolve(s.menus, p + [r.code]);
    if Resolve(s.menus, p + [r.code]).Some? {
      RowStepFound(s.menus, r, remaining, p, now);
    } else {
      RowStepCreated(s, r, remaining, parent, p, gen, now);
    }
  }

  lemma ResolvedIsStored(m: MenuTable, q: Position)
    requires Resolve(m, q).Some?
    ensures q == [] ==> Resolve(m, q).value == ""
    ensures q != [] ==> Resolve(m, q).value in m
  {
    if q != [] {
      assert Resolve(m, q).value in CodeMatches(m, q[|q| - 1], Resolve(m, q[..|q| - 1]).value);
    }
  }

  /** Processing an item's own row takes no position below it. */
  lemma {:induction false} RowStepTakesNothingBelow(m: MenuTable, m': MenuTable, id: string, q: Position, r: Position)
    requires q != [] && NoEmptyKey(m) && Grows(m, m', q[..|q| - 1], {q[|q| - 1]})
    requires Resolve(m', q) == Some(id)
    requires Resolve(m, q).None? ==> forall j :: j in m' ==> m'[j].parentID != id
    requires Resolve(m, q).Some? ==> m'.Keys == m.Keys
    requires |q| < |r| && q <= r
    ensures Resolve(m, r).None? <==> Resolve(m', r).None?
    decreases |r|
  {
    var r' := r[..|r| - 1];
    if Resolve(m, r).None? && Resolve(m', r).Some? {
      assert |r'| == |q| ==> r' == q;
      var k := Resolve(m', r).value;
      assert k in CodeMatches(m', r[|r| - 1], Resolve(m', r').value);
      if Resolve(m, q).None? {
        if |r'| > |q| {
          RowStepTakesNothingBelow(m, m', id, q, r');
          PrefixAbsent(m, q, r');
        }
      } else {
        NewlyResolved(m, m', q[..|q| - 1], {q[|q| - 1]}, r);
      }
    }
  }

  lemma {:induction false} PrefixAbsent(m: MenuTable, q: Position, r: Position)
    requires Resolve(m, q).None? && q <= r
    ensures Resolve(m, r).None?
    decreases |r|
  {
    if |q| < |r| {
      PrefixAbsent(m, q, r[..|r| - 1]);
    } else {
      assert q == r;
    }
  }

  lemma RowStepSameAbsent(
      m: MenuTable, m1: MenuTable, row: Menu, p: Position, r: Menu, remaining: nat, codes: set<string>)
    requires RowStepped(m, m1, row, p, r, remaining)
    ensures SameAbsent(m, m1, p + [r.code], codes)
  {
    var q := p + [r.code];
    assert q[..|q| - 1] == p;
    forall x: Position | !Outside(x, q, codes) ensures Resolve(m, x).None? <==> Resolve(m1, x).None? {
      RowStepTakesNothingBelow(m, m1, row.id, q, x);
    }
  }

  lemma GrownElsewhere(m: MenuTable, m': MenuTable, p: Position, a: set<string>, b: set<string>)
    requires Grows(m, m', p, a) && a !! b
    ensures SameAbsent(m, m', p, b)
  {
    forall q: Position | !Outside(q, p, b) ensures Resolve(m, q).None? <==> Resolve(m', q).None? {
      if Resolve(m, q).None? && Resolve(m', q).Some? {
        NewlyResolved(m, m', p, a, q);
      }
    }
  }

  /** The first item is done once its row, its resources and its children have been processed. */
  lemma ItemDone(s: Store, s2: Store, s3: Store, row: Menu, item: FileItem, remaining: nat, p: Position)
    requires NoEmptyKey(s.menus) && Repeatable(item.children)
    requires RowStepped(s.menus, s2.menus, row, p, item.row, remaining)
    requires ResourcesImported(s2, p + [item.row.code], item.resources)
    requires Grows(s2.menus, s3.menus, p + [item.row.code], Codes(item.children)) && KeepsResources(s2, s3)
    requires Imported(s2.menus, s3, p + [item.row.code], item.children)
    ensures ItemImported(s.menus, s3, p + [item.row.code], item, remaining)
    ensures Grows(s.menus, s3.menus, p, {item.row.code})
  {
    var code, q := item.row.code, p + [item.row.code];
    RowFrame(s.menus, s2, s3, q, Codes(item.children), q, item, remaining);
    RowStepSameAbsent(s.menus, s2.menus, row, p, item.row, remaining, Codes(item.children));
    Rebase(s.menus, s2.menus, s3, q, item.children);
    GrowsBelow(s2.menus, s3.menus, p, code, Codes(item.children));
    GrowsTransitive(s.menus, s2.menus, s3.menus, p, {code}, {code});
    assert {code} + {code} == {code};
  }

  /** The remaining items leave the first one alone, and start from positions it has not taken. */
  lemma RestDone(s: Store, s3: Store, t: Store, items: seq<FileItem>, p: Position)
    requires Repeatable(items) && items != []
    requires ItemImported(s.menus, s3, p + [items[0].row.code], items[0], |items|)
    requires Grows(s.menus, s3.menus, p, {items[0].row.code})
    requires Grows(s3.menus, t.menus, p, Codes(items[1..])) && KeepsResources(s3, t)
    requires Imported(s3.menus, t, p, items[1..])
    ensures Grows(s.menus, t.menus, p, Codes(items))
    ensures Imported(s.menus, t, p, items)
  {
    RepeatableTail(items);
    var code, q := items[0].row.code, p + [items[0].row.code];
    GrowsTransitive(s.menus, s3.menus, t.menus, p, {code}, Codes(items[1..]));
    ItemFrame(s.menus, s3, t, p, Codes(items[1..]), q, items[0], |items|);
    GrownElsewhere(s.menus, s3.menus, p, {code}, Codes(items[1..]));
    Rebase(s.menus, s3.menus, t, p, items[1..]);
  }

  /** What one whole run leaves behind: growth in its own branches, and every item as the file says. */
  lemma {:induction false} ImportRun(
      s: Store, items: seq<FileItem>, parent: Option<Menu>, p: Position, gen: IdSource, now: int)
    requires NoEmptyKey(s.menus) && Repeatable(items)
    requires Resolve(s.menus, p) == Some(ParentIDOf(parent))
    ensures Grows(s.menus, ImportItems(s, items, parent, gen, now).menus, p, Codes(items))
    ensures Imported(s.menus, ImportItems(s, items, parent, gen, now), p, items)
    decreases items
  {
    if items == [] {
      GrowsReflexive(s.menus, p);
    } else {
      RepeatableTail(items);
      var s3 := AfterItem(s, items[0], |items|, parent, gen, now);
      ItemRun(s, items[0], |items|, parent, p, gen, now);
      ImportRun(s3, items[1..], parent, p, gen, now);
      ImportOnlyAdds(s3, items[1..], parent, gen, now);
      RestDone(s, s3, ImportItems(s3, items[1..], parent, gen, now), items, p);
    }
  }

  /** The same for one item with everything below it. */
  lemma {:induction false} ItemRun(
      s: Store, item: FileItem, remaining: nat, parent: Option<Menu>, p: Position, gen: IdSource, now: int)
    requires NoEmptyKey(s.menus) && item.row.id == "" && item.row.code != "" && Repeatable(item.children)
    requires forall j :: 0 <= j < |item.resources| ==> item.resources[j].id == "" && item.resources[j].path != ""
    requires Resolve(s.menus, p) == Some(ParentIDOf(parent))
    ensures var t := AfterItem(s, item, remaining, parent, gen, now);
            Grows(s.menus, t.menus, p, {item.row.code})
                && ItemImported(s.menus, t, p + [item.row.code], item, remaining)
    decreases item
  {
    var row := RowFor(s, item.row, remaining, parent, gen, now);
    var s1 := ImportRow(s, item.row, remaining, parent, gen, now);
    var s2 := ImportResources(s1, item.resources, row.id, gen, now);
    RowStep(s, item.row, remaining, parent, p, gen, now);
    ResourcesOnly(s1, item.resources, row.id, gen, now);
    ResourcesPresent(s1, item.resources, row.id, gen, now);
    ImportRun(s2, item.children, Some(row), p + [item.row.code], gen, now);
    ImportOnlyAdds(s2, item.children, Some(row), gen, now);
    ItemDone(s, s2, ImportItems(s2, item.children, Some(row), gen, now), row, item, remaining, p);
  }

  // ----- when a repeatable file keeps the paths -----

  /** Every root item that brings a path along is in the table already. */
  ghost predicate RootPathsKnown(m: MenuTable, items: seq<FileItem>) {
    forall i :: 0 <= i < |items| && items[i].row.parentPath != "" ==> Resolve(m, [items[i].row.code]).Some?
  }

  lemma {:induction false} RepeatableIsSafeBelow(items: seq<FileItem>)
    requires Repeatable(items)
    ensures SafeFile(items, false)
    decreases items
  {
    forall i | 0 <= i < |items| ensures SafeFile(items[i].children, false) {
      RepeatableIsSafeBelow(items[i].children);
    }
  }

  /** What the first item adds decides about no other one. */
  lemma RootPathsStay(m: MenuTable, m': MenuTable, items: seq<FileItem>)
    requires items != [] && Repeatable(items) && Grows(m, m', [], {items[0].row.code})
    ensures RootPathsKnown(m', items[1..]) <==> RootPathsKnown(m, items[1..])
  {
    RepeatableTail(items);
    var rest := items[1..];
    GrownElsewhere(m, m', [], {items[0].row.code}, Codes(rest));
    forall i | 0 <= i < |rest| ensures Resolve(m, [rest[i].row.code]).None? <==> Resolve(m', [rest[i].row.code]).None? {
      assert !Outside([rest[i].row.code], [], Codes(rest));
    }
  }

  lemma FirstRootIsFound(s: Store, r: Menu)
    requires NoEmptyKey(s.menus) && r.id == "" && r.code != ""
    ensures Find(s.menus, r, "") == Resolve(s.menus, [r.code])
  {
    ResolveSnoc(s.menus, [], r.code);
    assert [] + [r.code] == [r.code];
  }

  /** Safety of a repeatable file, read off the file and the table as they are before the import. */
  lemma {:induction false} RepeatableSafety(s: Store, items: seq<FileItem>, gen: IdSource, now: int)
    requires NoEmptyKey(s.menus) && Repeatable(items)
    ensures SafeItems(s, items, None, gen, now) <==> RootPathsKnown(s.menus, items)
    decreases |items|
  {
    if items != [] {
      RepeatableTail(items);
      var item := items[0];
      var row := RowFor(s, item.row, |items|, None, gen, now);
      var s1 := ImportRow(s, item.row, |items|, None, gen, now);
      var s2 := ImportResources(s1, item.resources, row.id, gen, now);
      var s3 := AfterItem(s, item, |items|, None, gen, now);
      FirstRootIsFound(s, item.row);
      RepeatableIsSafeBelow(item.children);
      SafeFileIsSafe(s2, item.children, Some(row), gen, now);
      ItemRun(s, item, |items|, None, [], gen, now);
      RepeatableSafety(s3, items[1..], gen, now);
      RootPathsStay(s.menus, s3.menus, items);
      FirstRoot(s.menus, items);
    }
  }

  lemma FirstRoot(m: MenuTable, items: seq<FileItem>)
    requires items != []
    ensures RootPathsKnown(m, items) <==>
              (items[0].row.parentPath != "" ==> Resolve(m, [items[0].row.code]).Some?) && RootPathsKnown(m, items[1..])
  {
    if RootPathsKnown(m, items[1..]) && (items[0].row.parentPath != "" ==> Resolve(m, [items[0].row.code]).Some?) {
      forall i | 0 <= i < |items| && items[i].row.parentPath != "" ensures Resolve(m, [items[i].row.code]).Some? {
        if i > 0 { assert items[1..][i - 1] == items[i]; }
      }
    }
  }

  /** Importing a repeatable file keeps the path invariant exactly when every root item with a path was there before. */
  lemma RepeatableKeepsPathInv(s: Store, items: seq<FileItem>, gen: IdSource, now: int)
    requires PathInv(s.menus) && Repeatable(items)
    ensures PathInv(ImportItems(s, items, None, gen, now).menus) <==> RootPathsKnown(s.menus, items)
  {
    ImportKeepsPathInv(s, items, None, gen, now);
    RepeatableSafety(s, items, gen, now);
  }

  // ----- the second run -----

  lemma {:induction false} ResourcesFixed(s: Store, rs: seq<Resource>, menuID: string, gen: IdSource, now: int)
    requires forall i :: 0 <= i < |rs| ==> rs[i].id == "" && rs[i].path != ""
    requires forall i :: 0 <= i < |rs| ==> HasResource(s.resources, rs[i].verb, rs[i].path, menuID)
    ensures ImportResources(s, rs, menuID, gen, now) == s
    decreases |rs|
  {
    if rs != [] {
      assert ImportResource(s, rs[0], menuID, gen, now) == s;
      ResourcesFixed(s, rs[1..], menuID, gen, now);
    }
  }

  lemma RowFixed(s: Store, r: Menu, remaining: nat, parent: Option<Menu>, p: Position, gen: IdSource, now: int)
    requires NoEmptyKey(s.menus) && r.id == "" && r.code != ""
    requires Resolve(s.menus, p) == Some(ParentIDOf(parent))
        && RowImported(s.menus, s.menus, p + [r.code], r, remaining)
    ensures RowFor(s, r, remaining, parent, gen, now) == s.menus[Resolve(s.menus, p + [r.code]).value]
    ensures ImportRow(s, r, remaining, parent, gen, now) == s
  {
    ResolveSnoc(s.menus, p, r.code);
    assert s.menus[Resolve(s.menus, p + [r.code]).value := s.menus[Resolve(s.menus, p + [r.code]).value]] == s.menus;
  }

  /** Where every item already is as the file says, an import changes nothing at all. */
  lemma {:induction false} ImportFixed(
      s: Store, items: seq<FileItem>, parent: Option<Menu>, p: Position, gen: IdSource, now: int)
    requires NoEmptyKey(s.menus) && Repeatable(items)
    requires Resolve(s.menus, p) == Some(ParentIDOf(parent))
    requires Imported(s.menus, s, p, items)
    ensures ImportItems(s, items, parent, gen, now) == s
    decreases items
  {
    if items != [] {
      RepeatableTail(items);
      var item, q := items[0], p + [items[0].row.code];
      assert ItemImported(s.menus, s, q, item, |items|);
      var row := RowFor(s, item.row, |items|, parent, gen, now);
      RowFixed(s, item.row, |items|, parent, p, gen, now);
      ResourcesFixed(s, item.resources, row.id, gen, now);
      ImportFixed(s, item.children, Some(row), q, gen, now);
      ImportFixed(s, items[1..], parent, p, gen, now);
    }
  }

  /** Every item that leaves its sequence to be filled in was already in the table. */
  ghost predicate ZeroSequencesFound(m: MenuTable, p: Position, items: seq<FileItem>)
    decreases items
  {
    items == [] ||
    var q := p + [items[0].row.code];
    && (items[0].row.sequence == 0 ==> Resolve(m, q).Some?)
    && ZeroSequencesFound(m, q, items[0].children)
    && ZeroSequencesFound(m, p, items[1..])
  }

  lemma {:induction false} SequencesAgree(m0: MenuTable, s: Store, p: Position, items: seq<FileItem>)
    requires Imported(m0, s, p, items)
    ensures Imported(s.menus, s, p, items) <==> ZeroSequencesFound(m0, p, items)
    decreases items
  {
    if items != [] {
      var item, q := items[0], p + [items[0].row.code];
      assert ItemImported(m0, s, q, item, |items|);
      SequencesAgree(m0, s, q, item.children);
      SequencesAgree(m0, s, p, items[1..]);
    }
  }

  /** A second run of the same file changes nothing, exactly when no item with sequence 0 had to be created. */
  lemma ImportIsIdempotent(s: Store, items: seq<FileItem>, gen: IdSource, now: int, gen': IdSource, now': int)
    requires NoEmptyKey(s.menus) && Repeatable(items)
    ensures var t := ImportItems(s, items, None, gen, now);
            ImportItems(t, items, None, gen', now') == t <==> ZeroSequencesFound(s.menus, [], items)
  {
    var t := ImportItems(s, items, None, gen, now);
    ImportRun(s, items, None, [], gen, now);
    SequencesAgree(s.menus, t, [], items);
    if Imported(t.menus, t, [], items) {
      ImportFixed(t, items, None, [], gen', now');
    }
    ImportRun(t, items, None, [], gen', now');
  }

  // ----- files that the import accepts although they break something -----

  /** For every table and every root item that is not in it, a path in the file is stored and breaks the invariant. */
  lemma RootPathIsAccepted(s: Store, r: Menu, gen: IdSource, now: int)
    requires PathInv(s.menus) && r.id == "" && r.code != "" && Resolve(s.menus, [r.code]).None? && r.parentPath != ""
    ensures Repeatable([FileItem(r, [], [])])
    ensures !PathInv(ImportItems(s, [FileItem(r, [], [])], None, gen, now).menus)
  {
    var items := [FileItem(r, [], [])];
    assert items[0].row == r;
    RepeatableKeepsPathInv(s, items, gen, now);
  }

  /** For every table and every root item that is not in it, a sequence left 0 makes a second run change the tables. */
  lemma SequenceZeroIsChangedTwice(s: Store, r: Menu, gen: IdSource, now: int, gen': IdSource, now': int)
    requires NoEmptyKey(s.menus) && r.id == "" && r.code != "" && Resolve(s.menus, [r.code]).None? && r.sequence == 0
    ensures Repeatable([FileItem(r, [], [])])
    ensures var t := ImportItems(s, [FileItem(r, [], [])], None, gen, now);
            ImportItems(t, [FileItem(r, [], [])], None, gen', now') != t
  {
    var items := [FileItem(r, [], [])];
    assert [] + [items[0].row.code] == [r.code];
    ImportIsIdempotent(s, items, gen, now, gen', now');
    assert !ZeroSequencesFound(s.menus, [], items);
  }
}

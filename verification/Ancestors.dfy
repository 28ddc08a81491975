/**
 Reading ancestors off the stored paths: the loop shared by `SplitParentIDs` and
 `queryRoleResources`, which skips the path of every item it has already seen.
 */
module Ancestors {
  import opened Paths
  import opened Tables
  import opened MenuTree

  /** Those of `ids` that are not yet in `seen`, in order, each once. */
  function Unseen(ids: seq<string>, seen: set<string>): seq<string>
    decreases |ids|
  {
    if ids == [] then []
    else if ids[0] in seen then Unseen(ids[1..], seen)
    else [ids[0]] + Unseen(ids[1..], seen + {ids[0]})
  }

  function Elements(ids: seq<string>): set<string> {
    set id | id in ids
  }

  /** `SplitParentIDs` on the items still to be visited. */
  function ParentIDs(rows: seq<Menu>, seen: set<string>): seq<string>
    decreases |rows|
  {
    if rows == [] then []
    else if rows[0].id in seen then ParentIDs(rows[1..], seen)
    else
      var path := Segments(rows[0].parentPath);
      Unseen(path, seen + {rows[0].id}) + ParentIDs(rows[1..], seen + {rows[0].id} + Elements(path))
  }

  /** The loop of `queryRoleResources`, which lists the visited items as well. */
  function MenuIDs(rows: seq<Menu>, seen: set<string>): seq<string>
    decreases |rows|
  {
    if rows == [] then []
    else if rows[0].id in seen then MenuIDs(rows[1..], seen)
    else
      var path := Segments(rows[0].parentPath);
      [rows[0].id] + Unseen(path, seen + {rows[0].id}) + MenuIDs(rows[1..], seen + {rows[0].id} + Elements(path))
  }

  ghost function IdsOf(rows: seq<Menu>): set<string> {
    set i | 0 <= i < |rows| :: rows[i].id
  }

  ghost predicate Stored(m: MenuTable, rows: seq<Menu>) {
    forall i :: 0 <= i < |rows| ==> rows[i].id in m && m[rows[i].id] == rows[i]
  }

  /** The ids of `rows` and all their proper ancestors. */
  ghost function Closure(m: MenuTable, rows: seq<Menu>): set<string>
    requires PathInv(m) && Stored(m, rows)
    decreases |rows|
  {
    if rows == [] then {}
    else {rows[0].id} + Elements(Chain(m, rows[0].id)) + Closure(m, rows[1..])
  }

  lemma {:induction false} InClosure(m: MenuTable, rows: seq<Menu>, x: string)
    requires PathInv(m) && Stored(m, rows)
    ensures x in Closure(m, rows) <==>
            exists i :: 0 <= i < |rows| && (rows[i].id == x || IsAncestor(m, x, rows[i].id))
    decreases |rows|
  {
    if rows != [] {
      ChainIsAncestors(m, x, rows[0].id);
      InClosure(m, rows[1..], x);
      if i :| 0 <= i < |rows| && (rows[i].id == x || IsAncestor(m, x, rows[i].id)) {
        if i > 0 { assert rows[1..][i - 1] == rows[i]; }
      }
      if i :| 0 <= i < |rows[1..]| && (rows[1..][i].id == x || IsAncestor(m, x, rows[1..][i].id)) {
        assert rows[i + 1] == rows[1..][i];
      }
    }
  }

  ghost predicate NoRepeats<T>(s: seq<T>) {
    forall i, j :: 0 <= i < j < |s| ==> s[i] != s[j]
  }

  /** A set of ids that contains all ancestors of its members. */
  ghost predicate AncestorClosed(m: MenuTable, ids: set<string>)
    requires PathInv(m)
  {
    forall k, a :: k in ids && k in m && a in Chain(m, k) ==> a in ids
  }

  lemma {:induction false} UnseenIsDifference(ids: seq<string>, seen: set<string>)
    ensures Elements(Unseen(ids, seen)) == Elements(ids) - seen
    ensures NoRepeats(Unseen(ids, seen))
    decreases |ids|
  {
    if ids != [] {
      var seen' := if ids[0] in seen then seen else seen + {ids[0]};
      UnseenIsDifference(ids[1..], seen');
      assert Elements(ids) == {ids[0]} + Elements(ids[1..]);
      if ids[0] !in seen {
        assert forall x :: x in Unseen(ids[1..], seen') ==> x in Elements(Unseen(ids[1..], seen'));
        assert Elements(Unseen(ids, seen)) == {ids[0]} + Elements(Unseen(ids[1..], seen'));
      }
    }
  }

  lemma ConcatElements(a: seq<string>, b: seq<string>)
    ensures Elements(a + b) == Elements(a) + Elements(b)
    ensures NoRepeats(a) && NoRepeats(b) && Elements(a) !! Elements(b) ==> NoRepeats(a + b)
  {
    if NoRepeats(a) && NoRepeats(b) && Elements(a) !! Elements(b) {
      forall i, j | 0 <= i < j < |a + b| ensures (a + b)[i] != (a + b)[j] {
        if i < |a| <= j { assert a[i] in Elements(a) && b[j - |a|] in Elements(b); }
      }
    }
  }

  /** The chain of a visited row completes a closed set. */
  lemma VisitKeepsClosed(m: MenuTable, r: Menu, seen: set<string>)
    requires PathInv(m) && r.id in m && m[r.id] == r && AncestorClosed(m, seen)
    ensures Elements(Segments(r.parentPath)) == Elements(Chain(m, r.id))
    ensures AncestorClosed(m, seen + {r.id} + Elements(Segments(r.parentPath)))
  {
    SplitUndoesJoin(Chain(m, r.id));
    var c := Chain(m, r.id);
    forall k, a | k in c && a in Chain(m, k) ensures a in c {
      var i :| 0 <= i < |c| && c[i] == k;
      ChainPrefix(m, r.id, i);
    }
  }

  lemma SkipAlgebra(id: string, chain: set<string>, rest: set<string>, seen: set<string>)
    requires id in seen && chain <= seen
    ensures {id} + chain + rest - seen == rest - seen
    ensures {id} + chain + rest + seen == rest + seen
  {
  }

  lemma VisitAlgebra(id: string, chain: set<string>, rest: set<string>, seen: set<string>)
    requires id !in seen
    ensures {id} + (chain - (seen + {id})) + (rest - (seen + {id} + chain)) == {id} + chain + rest - seen
  {
  }

  /** Skipping a seen item loses nothing, because what was seen is closed under ancestors. */
  lemma {:induction false} MenuIDsAreClosure(m: MenuTable, rows: seq<Menu>, seen: set<string>)
    requires PathInv(m) && Stored(m, rows) && AncestorClosed(m, seen)
    ensures Elements(MenuIDs(rows, seen)) == Closure(m, rows) - seen
    ensures NoRepeats(MenuIDs(rows, seen))
    decreases |rows|
  {
    if rows != [] {
      var r, tail := rows[0], rows[1..];
      var chain := Elements(Chain(m, r.id));
      if r.id in seen {
        MenuIDsAreClosure(m, tail, seen);
        SkipAlgebra(r.id, chain, Closure(m, tail), seen);
      } else {
        VisitKeepsClosed(m, r, seen);
        var path := Segments(r.parentPath);
        var own, rest := Unseen(path, seen + {r.id}), MenuIDs(tail, seen + {r.id} + chain);
        MenuIDsAreClosure(m, tail, seen + {r.id} + chain);
        UnseenIsDifference(path, seen + {r.id});
        VisitAlgebra(r.id, chain, Closure(m, tail), seen);
        assert Elements([r.id]) == {r.id};
        ConcatElements([r.id], own);
        ConcatElements([r.id] + own, rest);
      }
    }
  }

  lemma ParentAlgebra(
      id: string, chain: set<string>, parents: set<string>, ids: set<string>, rest: set<string>, seen: set<string>)
    requires parents + ids + (seen + {id} + chain) == rest + (seen + {id} + chain)
    ensures (chain - (seen + {id})) + parents + ({id} + ids) + seen == {id} + chain + rest + seen
  {
    var l, r := (chain - (seen + {id})) + parents + ({id} + ids) + seen, {id} + chain + rest + seen;
    assert forall x :: x in l <==> x in parents + ids + (seen + {id} + chain);
    assert forall x :: x in r <==> x in rest + (seen + {id} + chain);
  }

  lemma {:induction false} ParentIDsAreClosure(m: MenuTable, rows: seq<Menu>, seen: set<string>)
    requires PathInv(m) && Stored(m, rows) && AncestorClosed(m, seen)
    ensures Elements(ParentIDs(rows, seen)) + IdsOf(rows) + seen == Closure(m, rows) + seen
    ensures Elements(ParentIDs(rows, seen)) !! seen
    ensures NoRepeats(ParentIDs(rows, seen))
    decreases |rows|
  {
    if rows != [] {
      var r, tail := rows[0], rows[1..];
      var chain := Elements(Chain(m, r.id));
      IdsStep(rows);
      if r.id in seen {
        ParentIDsAreClosure(m, tail, seen);
        SkipAlgebra(r.id, chain, Closure(m, tail), seen);
      } else {
        VisitKeepsClosed(m, r, seen);
        var path := Segments(r.parentPath);
        var own, rest := Unseen(path, seen + {r.id}), ParentIDs(tail, seen + {r.id} + chain);
        ParentIDsAreClosure(m, tail, seen + {r.id} + chain);
        UnseenIsDifference(path, seen + {r.id});
        ConcatElements(own, rest);
        ParentAlgebra(r.id, chain, Elements(rest), IdsOf(tail), Closure(m, tail), seen);
      }
    }
  }

  lemma IdsStep(rows: seq<Menu>)
    requires rows != []
    ensures IdsOf(rows) == {rows[0].id} + IdsOf(rows[1..])
  {
    forall x | x in IdsOf(rows) ensures x in {rows[0].id} + IdsOf(rows[1..]) {
      var i :| 0 <= i < |rows| && rows[i].id == x;
      if i > 0 { assert rows[1..][i - 1].id == x; }
    }
    forall x | x in IdsOf(rows[1..]) ensures x in IdsOf(rows) {
      var i :| 0 <= i < |rows[1..]| && rows[1..][i].id == x;
      assert rows[i + 1].id == x;
    }
  }

  /** The parents returned, with the list's own ids, are the ids and all their proper ancestors; none is repeated. */
  lemma SplitParentIDsIsClosure(m: MenuTable, rows: seq<Menu>)
    requires PathInv(m) && Stored(m, rows)
    ensures forall x :: x in Elements(ParentIDs(rows, {})) + IdsOf(rows) <==>
              exists i :: 0 <= i < |rows| && (rows[i].id == x || IsAncestor(m, x, rows[i].id))
    ensures NoRepeats(ParentIDs(rows, {}))
  {
    ParentIDsAreClosure(m, rows, {});
    forall x
      ensures x in Elements(ParentIDs(rows, {})) + IdsOf(rows) <==>
              exists i :: 0 <= i < |rows| && (rows[i].id == x || IsAncestor(m, x, rows[i].id))
    {
      InClosure(m, rows, x);
      assert x in Elements(ParentIDs(rows, {})) + IdsOf(rows)
          <==> x in Elements(ParentIDs(rows, {})) + IdsOf(rows) + {};
    }
  }

  /** The collected ids are the granted menus and all their proper ancestors; none is repeated. */
  lemma CollectMenuIDsIsClosure(m: MenuTable, rows: seq<Menu>)
    requires PathInv(m) && Stored(m, rows)
    ensures forall x :: x in MenuIDs(rows, {}) <==>
              exists i :: 0 <= i < |rows| && (rows[i].id == x || IsAncestor(m, x, rows[i].id))
    ensures NoRepeats(MenuIDs(rows, {}))
  {
    MenuIDsAreClosure(m, rows, {});
    forall x
      ensures x in MenuIDs(rows, {}) <==>
              exists i :: 0 <= i < |rows| && (rows[i].id == x || IsAncestor(m, x, rows[i].id))
    {
      InClosure(m, rows, x);
      assert x in MenuIDs(rows, {}) <==> x in Elements(MenuIDs(rows, {}));
    }
  }

  /** For any table at all, a collected id is a row's own or a piece of its path. */
  lemma {:induction false} CollectedFromRows(rows: seq<Menu>, seen: set<string>, id: string)
    requires id in MenuIDs(rows, seen)
    ensures exists i :: 0 <= i < |rows| && (id == rows[i].id || id in Segments(rows[i].parentPath))
    decreases |rows|
  {
    var path := Segments(rows[0].parentPath);
    UnseenIsDifference(path, seen + {rows[0].id});
    if id != rows[0].id && id !in path {
      assert id !in Elements(Unseen(path, seen + {rows[0].id}));
      var seen' := if rows[0].id in seen then seen else seen + {rows[0].id} + Elements(path);
      CollectedFromRows(rows[1..], seen', id);
      var i :| 0 <= i < |rows[1..]| && (id == rows[1..][i].id || id in Segments(rows[1..][i].parentPath));
      assert rows[i + 1] == rows[1..][i];
    }
  }

  lemma UnseenCons(ids: seq<string>, id: string, more: seq<string>, seen: set<string>)
    ensures ids + Unseen([id] + more, seen)
         == if id in seen then ids + Unseen(more, seen) else (ids + [id]) + Unseen(more, seen + {id})
    ensures Elements([id] + more) == {id} + Elements(more)
  {
    assert ([id] + more)[1..] == more;
  }

  /** One row's path, read piece by piece: empty pieces and known ids are passed over. */
  method AppendPath(path: string, ids: seq<string>, mapper: set<string>)
    returns (ids': seq<string>, mapper': set<string>)
    ensures ids' == ids + Unseen(Segments(path), mapper)
    ensures mapper' == mapper + Elements(Segments(path))
  {
    ids', mapper' := ids, mapper;
    var pieces := Split(path);
    for i := 0 to |pieces|
      invariant ids' + Unseen(NonEmpty(pieces[i..]), mapper') == ids + Unseen(Segments(path), mapper)
      invariant mapper' + Elements(NonEmpty(pieces[i..])) == mapper + Elements(Segments(path))
    {
      var pid := pieces[i];
      assert pieces[i..][0] == pid && pieces[i..][1..] == pieces[i + 1..];
      if pid == "" {
        assert NonEmpty(pieces[i..]) == NonEmpty(pieces[i + 1..]);
        continue;
      }
      UnseenCons(ids', pid, NonEmpty(pieces[i + 1..]), mapper');
      assert NonEmpty(pieces[i..]) == [pid] + NonEmpty(pieces[i + 1..]);
      if pid in mapper' { continue; }
      ids' := ids' + [pid];
      mapper' := mapper' + {pid};
    }
  }

  lemma ParentIDsStep(ids: seq<string>, rows: seq<Menu>, seen: set<string>)
    requires rows != []
    ensures var path, seen' := Segments(rows[0].parentPath), seen + {rows[0].id};
            ids + ParentIDs(rows, seen) ==
            if rows[0].id in seen then ids + ParentIDs(rows[1..], seen)
            else ids + Unseen(path, seen') + ParentIDs(rows[1..], seen' + Elements(path))
  {
  }

  lemma MenuIDsStep(ids: seq<string>, rows: seq<Menu>, seen: set<string>)
    requires rows != []
    ensures var path, seen' := Segments(rows[0].parentPath), seen + {rows[0].id};
            ids + MenuIDs(rows, seen) ==
            if rows[0].id in seen then ids + MenuIDs(rows[1..], seen)
            else ids + [rows[0].id] + Unseen(path, seen') + MenuIDs(rows[1..], seen' + Elements(path))
  {
    var path, seen' := Segments(rows[0].parentPath), seen + {rows[0].id};
    ConcatThree(ids, [rows[0].id], Unseen(path, seen'), MenuIDs(rows[1..], seen' + Elements(path)));
  }

  lemma ConcatThree(ids: seq<string>, a: seq<string>, b: seq<string>, c: seq<string>)
    ensures ids + (a + b + c) == ids + a + b + c
  {
  }

  /** The path of an item, if it has one. */
  method AppendAncestors(item: Menu, ids: seq<string>, mapper: set<string>)
    returns (ids': seq<string>, mapper': set<string>)
    ensures ids' == ids + Unseen(Segments(item.parentPath), mapper)
    ensures mapper' == mapper + Elements(Segments(item.parentPath))
  {
    ids', mapper' := ids, mapper;
    if item.parentPath != "" {
      ids', mapper' := AppendPath(item.parentPath, ids, mapper);
    } else {
      EmptyPath();
    }
  }

  method SplitParentIDs(rows: seq<Menu>) returns (parentIDs: seq<string>)
    ensures parentIDs == ParentIDs(rows, {})
  {
    parentIDs := [];
    var mapper: set<string> := {};
    for i := 0 to |rows|
      invariant parentIDs + ParentIDs(rows[i..], mapper) == ParentIDs(rows, {})
    {
      assert rows[i..][0] == rows[i] && rows[i..][1..] == rows[i + 1..];
      ParentIDsStep(parentIDs, rows[i..], mapper);
      if rows[i].id in mapper { continue; }
      parentIDs, mapper := AppendAncestors(rows[i], parentIDs, mapper + {rows[i].id});
    }
  }

  method CollectMenuIDs(rows: seq<Menu>) returns (menuIDs: seq<string>)
    ensures menuIDs == MenuIDs(rows, {})
  {
    menuIDs := [];
    var mapper: set<string> := {};
    for i := 0 to |rows|
      invariant menuIDs + MenuIDs(rows[i..], mapper) == MenuIDs(rows, {})
    {
      assert rows[i..][0] == rows[i] && rows[i..][1..] == rows[i + 1..];
      MenuIDsStep(menuIDs, rows[i..], mapper);
      if rows[i].id in mapper { continue; }
      menuIDs, mapper := AppendAncestors(rows[i], menuIDs + [rows[i].id], mapper + {rows[i].id});
    }
  }

  lemma EmptyPath()
    ensures Segments("") == []
  {
    assert Join([]) == "";
    SplitUndoesJoin([]);
  }
}

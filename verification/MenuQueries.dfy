/**
 The two queries that feed the tree: the menu search, which adds descendants and ancestors to
 its hits, and a user's menus, which get the missing parents.
 */
module MenuQueries {
  import opened Tables
  import opened MenuTree
  import opened MenuDal
  import opened Ancestors
  import opened MenuForest

  /** `Less`: higher sequence first, then later creation. */
  predicate Less(a: Menu, b: Menu) {
    if a.sequence == b.sequence then a.createdAt > b.createdAt else a.sequence > b.sequence
  }

  /** Display order: descending sequence, and descending creation time where sequences are equal. */
  ghost predicate Sorted(rows: seq<Menu>) {
    forall i, j :: 0 <= i < j < |rows| ==> NotAfter(rows[i], rows[j])
  }

  predicate NotAfter(a: Menu, b: Menu) {
    a.sequence > b.sequence || (a.sequence == b.sequence && a.createdAt >= b.createdAt)
  }

  lemma LessIsDisplayOrder(a: Menu, b: Menu)
    ensures !Less(b, a) <==> NotAfter(a, b)
  {
  }

  function Insert(r: Menu, rows: seq<Menu>): seq<Menu> {
    if rows == [] || !Less(rows[0], r) then [r] + rows else [rows[0]] + Insert(r, rows[1..])
  }

  lemma {:induction false} InsertPermutes(r: Menu, rows: seq<Menu>)
    ensures multiset(Insert(r, rows)) == multiset(rows) + multiset{r}
  {
    if rows != [] && Less(rows[0], r) {
      InsertPermutes(r, rows[1..]);
      assert rows == [rows[0]] + rows[1..];
    }
  }

  lemma {:induction false} InsertSorted(r: Menu, rows: seq<Menu>)
    requires Sorted(rows)
    ensures Sorted(Insert(r, rows))
  {
    if rows == [] {
    } else if Less(rows[0], r) {
      InsertSorted(r, rows[1..]);
      InsertPermutes(r, rows[1..]);
      FirstIsFirst(r, rows);
      Prepend(rows[0], Insert(r, rows[1..]));
    } else {
      LessIsDisplayOrder(r, rows[0]);
      Prepend(r, rows);
    }
  }

  /** Nothing in the rest, the inserted row included, stands before the first row. */
  lemma FirstIsFirst(r: Menu, rows: seq<Menu>)
    requires rows != [] && Sorted(rows) && Less(rows[0], r)
    ensures forall x :: x in Insert(r, rows[1..]) ==> NotAfter(rows[0], x)
  {
    InsertPermutes(r, rows[1..]);
    forall x | x in Insert(r, rows[1..]) ensures NotAfter(rows[0], x) {
      assert x in multiset(Insert(r, rows[1..]));
      if x != r { assert x in rows[1..]; }
    }
  }

  lemma Prepend(r: Menu, rows: seq<Menu>)
    requires Sorted(rows) && (rows != [] ==> forall x :: x in rows ==> NotAfter(r, x) || NotAfter(r, rows[0]))
    ensures Sorted([r] + rows)
  {
    forall i, j | 0 <= i < j < |[r] + rows| ensures NotAfter(([r] + rows)[i], ([r] + rows)[j]) {
      assert ([r] + rows)[j] == rows[j - 1] && rows[j - 1] in rows;
      if i > 0 {
        assert ([r] + rows)[i] == rows[i - 1];
      } else if j > 1 {
        assert NotAfter(rows[0], rows[j - 1]);
      }
    }
  }

  /** `sort.Sort`: some sorted permutation. */
  method Sort(rows: seq<Menu>) returns (sorted: seq<Menu>)
    ensures Sorted(sorted) && multiset(sorted) == multiset(rows)
  {
    sorted := [];
    for i := 0 to |rows|
      invariant Sorted(sorted) && multiset(sorted) == multiset(rows[..i])
    {
      assert rows[..i + 1] == rows[..i] + [rows[i]];
      InsertSorted(rows[i], sorted);
      InsertPermutes(rows[i], sorted);
      sorted := Insert(rows[i], sorted);
    }
    assert rows[..|rows|] == rows;
  }

  /** Stored rows, each once. */
  ghost predicate Listing(m: MenuTable, rows: seq<Menu>) {
    Lists(rows, m, IdsOf(rows))
  }

  lemma ListsIsListing(rows: seq<Menu>, m: MenuTable, ids: set<string>)
    requires Lists(rows, m, ids)
    ensures IdsOf(rows) == ids && Listing(m, rows)
  {
  }

  lemma PermutedListing(m: MenuTable, rows: seq<Menu>, rows': seq<Menu>)
    requires Listing(m, rows) && multiset(rows') == multiset(rows)
    ensures Listing(m, rows') && IdsOf(rows') == IdsOf(rows)
  {
    SameMembers(rows, rows');
    SameIds(rows, rows');
    forall i, j | 0 <= i < j < |rows'| ensures rows'[i] != rows'[j] {
      ListedOnce(rows, rows'[i]);
      if rows'[i] == rows'[j] { TwiceInSequence(rows', i, j); }
    }
    forall i | 0 <= i < |rows'| ensures rows'[i].id in m && m[rows'[i].id] == rows'[i] {
      assert rows'[i] in rows';
    }
  }

  lemma SameMembers(rows: seq<Menu>, rows': seq<Menu>)
    requires multiset(rows') == multiset(rows)
    ensures forall r :: r in rows' <==> r in rows
  {
    forall r ensures r in rows' <==> r in rows {
      assert r in rows' <==> r in multiset(rows');
      assert r in rows <==> r in multiset(rows);
    }
  }

  lemma TwiceInSequence(rows: seq<Menu>, i: nat, j: nat)
    requires i < j < |rows| && rows[i] == rows[j]
    ensures multiset(rows)[rows[i]] >= 2
  {
    assert rows == rows[..j] + rows[j..];
    assert rows[..j][i] == rows[i] && rows[j..][0] == rows[i];
  }

  lemma SameIds(rows: seq<Menu>, rows': seq<Menu>)
    requires forall r :: r in rows' <==> r in rows
    ensures IdsOf(rows') == IdsOf(rows)
  {
    forall x | x in IdsOf(rows) ensures x in IdsOf(rows') {
      var i :| 0 <= i < |rows| && rows[i].id == x;
      assert rows[i] in rows';
    }
    forall x | x in IdsOf(rows') ensures x in IdsOf(rows) {
      var i :| 0 <= i < |rows'| && rows'[i].id == x;
      assert rows'[i] in rows;
    }
  }

  /** The rows of `more` that are not in `data` yet, appended one by one. */
  method AppendMissing(data: seq<Menu>, more: seq<Menu>, ghost m: MenuTable) returns (all: seq<Menu>)
    requires Listing(m, data) && Listing(m, more)
    ensures Listing(m, all) && IdsOf(all) == IdsOf(data) + IdsOf(more)
    ensures data <= all
  {
    all := data;
    for i := 0 to |more|
      invariant Listing(m, all) && IdsOf(all) == IdsOf(data) + IdsOf(more[..i]) && data <= all
    {
      IdsSnoc(more, i);
      if exists j :: 0 <= j < |all| && all[j].id == more[i].id { continue; }
      ListsSnoc(all, m, IdsOf(all), more[i].id);
      ghost var before := all;
      all := all + [more[i]];
      assert m[more[i].id] == more[i];
      ListsIsListing(all, m, IdsOf(before) + {more[i].id});
    }
    assert more[..|more|] == more;
  }

  lemma IdsSnoc(rows: seq<Menu>, i: nat)
    requires i < |rows|
    ensures IdsOf(rows[..i + 1]) == IdsOf(rows[..i]) + {rows[i].id}
  {
    forall x | x in IdsOf(rows[..i + 1]) ensures x in IdsOf(rows[..i]) + {rows[i].id} {
      var j :| 0 <= j < |rows[..i + 1]| && rows[..i + 1][j].id == x;
      if j < i { assert rows[..i][j].id == x; }
    }
    forall x | x in IdsOf(rows[..i]) + {rows[i].id} ensures x in IdsOf(rows[..i + 1]) {
      if x in IdsOf(rows[..i]) {
        var j :| 0 <= j < |rows[..i]| && rows[..i][j].id == x;
        assert rows[..i + 1][j].id == x;
      } else {
        assert rows[..i + 1][i].id == x;
      }
    }
  }

  ghost predicate BelowOneOf(m: MenuTable, rows: seq<Menu>, x: string) {
    exists i :: 0 <= i < |rows| && IsAncestor(m, rows[i].id, x)
  }

  function IdsBelow(m: MenuTable, rows: seq<Menu>): set<string> {
    if rows == [] then {}
    else IdsBelow(m, rows[..|rows| - 1]) + Below(m, SubtreePrefix(rows[|rows| - 1]))
  }

  lemma {:induction false} IdsBelowAreDescendants(m: MenuTable, rows: seq<Menu>, x: string)
    requires PathInv(m) && Stored(m, rows)
    ensures x in IdsBelow(m, rows) <==> x in m && BelowOneOf(m, rows, x)
  {
    if rows != [] {
      var last := |rows| - 1;
      IdsBelowAreDescendants(m, rows[..last], x);
      if x in m { PrefixSelectsDescendants(m, rows[last].id, x); }
      if BelowOneOf(m, rows[..last], x) {
        var i :| 0 <= i < |rows[..last]| && IsAncestor(m, rows[..last][i].id, x);
        assert IsAncestor(m, rows[i].id, x);
      }
      if BelowOneOf(m, rows, x) {
        var i :| 0 <= i < |rows| && IsAncestor(m, rows[i].id, x);
        if i < last { assert rows[..last][i] == rows[i]; }
      }
    }
  }

  /** `x` is one of `ids` or lies above one of them. */
  ghost predicate AtOrAbove(m: MenuTable, ids: set<string>, x: string) {
    exists y :: y in ids && (x == y || IsAncestor(m, x, y))
  }

  /** The descendants of every hit, added to the hits. */
  method AddDescendants(db: Database, hits: seq<Menu>) returns (data: seq<Menu>)
    requires db.Valid() && Listing(db.menus, hits)
    ensures Listing(db.menus, data) && IdsOf(data) == IdsOf(hits) + IdsBelow(db.menus, hits)
  {
    data := hits;
    for i := 0 to |hits|
      invariant Listing(db.menus, data) && IdsOf(data) == IdsOf(hits) + IdsBelow(db.menus, hits[..i])
    {
      IdsBelowSnoc(db.menus, hits, i);
      data := AddBelow(db, data, hits[i]);
    }
    assert hits[..|hits|] == hits;
  }

  lemma IdsBelowSnoc(m: MenuTable, rows: seq<Menu>, i: nat)
    requires i < |rows|
    ensures IdsBelow(m, rows[..i + 1]) == IdsBelow(m, rows[..i]) + Below(m, SubtreePrefix(rows[i]))
  {
    assert rows[..i + 1][..i] == rows[..i];
  }

  method AddBelow(db: Database, data: seq<Menu>, hit: Menu) returns (data': seq<Menu>)
    requires db.Valid() && Listing(db.menus, data)
    ensures Listing(db.menus, data') && IdsOf(data') == IdsOf(data) + Below(db.menus, SubtreePrefix(hit))
  {
    var children := QueryBelow(db, SubtreePrefix(hit));
    data' := AppendMissing(data, children, db.menus);
  }

  method QueryBelow(db: Database, prefix: string) returns (rows: seq<Menu>)
    requires db.Valid() && prefix != ""
    ensures Listing(db.menus, rows) && IdsOf(rows) == Below(db.menus, prefix)
  {
    var q := MenuQuery(parentPathPrefix := prefix);
    rows := db.QueryMenus(q);
    assert (set k | k in db.menus && Selects(q, db.roleMenus, db.userRoles, db.menus[k])) == Below(db.menus, prefix);
    ListsIsListing(rows, db.menus, Below(db.menus, prefix));
  }

  /**
   `appendChildren`: the hits, all their descendants and all ancestors of either - ancestor-closed and in display
   order.
   */
  method AppendChildren(db: Database, hits: seq<Menu>) returns (data: seq<Menu>)
    requires db.Valid() && PathInv(db.menus) && Listing(db.menus, hits)
    ensures ClosedListing(db.menus, data) && Sorted(data)
    ensures forall x :: x in IdsOf(data) <==> AtOrAbove(db.menus, IdsOf(hits) + IdsBelow(db.menus, hits), x)
    ensures forall x :: x in IdsBelow(db.menus, hits) <==> x in db.menus && BelowOneOf(db.menus, hits, x)
  {
    forall x ensures x in IdsBelow(db.menus, hits) <==> x in db.menus && BelowOneOf(db.menus, hits, x) {
      IdsBelowAreDescendants(db.menus, hits, x);
    }
    if |hits| == 0 {
      data := hits;
      return;
    }
    var lower := AddDescendants(db, hits);
    data := AddAncestors(db, lower);
    data := SortListing(data, db.menus);
    ClosedFromIds(db.menus, IdsOf(lower), data);
  }

  /** The second half: the rows of the parent ids that can be split off the paths. */
  method AddAncestors(db: Database, lower: seq<Menu>) returns (data: seq<Menu>)
    requires db.Valid() && PathInv(db.menus) && Listing(db.menus, lower)
    ensures Listing(db.menus, data)
    ensures forall x :: x in IdsOf(data) <==> AtOrAbove(db.menus, IdsOf(lower), x)
  {
    data := lower;
    var parentIDs := SplitParentIDs(lower);
    if |parentIDs| > 0 {
      var parents := QueryByIDs(db, parentIDs);
      data := AppendMissing(lower, parents, db.menus);
    }
    ParentsComplete(db.menus, lower, data);
  }

  method SortListing(rows: seq<Menu>, ghost m: MenuTable) returns (sorted: seq<Menu>)
    requires Listing(m, rows)
    ensures Listing(m, sorted) && Sorted(sorted) && IdsOf(sorted) == IdsOf(rows)
  {
    sorted := Sort(rows);
    PermutedListing(m, rows, sorted);
  }

  method QueryByIDs(db: Database, ids: seq<string>) returns (rows: seq<Menu>)
    requires db.Valid() && ids != []
    ensures Listing(db.menus, rows) && IdsOf(rows) == set x | x in db.menus && x in ids
  {
    var q := MenuQuery(inIDs := ids);
    rows := db.QueryMenus(q);
    assert (set k | k in db.menus && Selects(q, db.roleMenus, db.userRoles, db.menus[k]))
        == set x | x in db.menus && x in ids;
    ListsIsListing(rows, db.menus, set x | x in db.menus && x in ids);
  }

  /** Adding the rows of the split parent ids adds exactly the missing ancestors. */
  lemma ParentsComplete(m: MenuTable, lower: seq<Menu>, data: seq<Menu>)
    requires PathInv(m) && Listing(m, lower)
    requires IdsOf(data) == IdsOf(lower) + set x | x in m && x in ParentIDs(lower, {})
    ensures forall x :: x in IdsOf(data) <==> AtOrAbove(m, IdsOf(lower), x)
  {
    ParentIDsAreClosure(m, lower, {});
    forall x ensures x in IdsOf(data) <==> AtOrAbove(m, IdsOf(lower), x) {
      InClosure(m, lower, x);
      assert x in Elements(ParentIDs(lower, {})) <==> x in ParentIDs(lower, {});
      assert x in Elements(ParentIDs(lower, {})) + IdsOf(lower) + {} <==> x in Closure(m, lower) + {};
      AboveListing(m, lower, x);
      if x in Closure(m, lower) { ClosureStored(m, lower, x); }
    }
  }

  lemma AboveListing(m: MenuTable, rows: seq<Menu>, x: string)
    ensures AtOrAbove(m, IdsOf(rows), x) <==>
            exists i :: 0 <= i < |rows| && (rows[i].id == x || IsAncestor(m, x, rows[i].id))
  {
    if AtOrAbove(m, IdsOf(rows), x) {
      var y :| y in IdsOf(rows) && (x == y || IsAncestor(m, x, y));
      var i :| 0 <= i < |rows| && rows[i].id == y;
      assert rows[i].id == x || IsAncestor(m, x, rows[i].id);
    }
    if i :| 0 <= i < |rows| && (rows[i].id == x || IsAncestor(m, x, rows[i].id)) {
      assert rows[i].id in IdsOf(rows);
    }
  }

  lemma {:induction false} ClosureStored(m: MenuTable, rows: seq<Menu>, x: string)
    requires PathInv(m) && Stored(m, rows) && x in Closure(m, rows)
    ensures x in m
    decreases |rows|
  {
    if rows != [] && x != rows[0].id && x !in Chain(m, rows[0].id) { ClosureStored(m, rows[1..], x); }
  }

  lemma ClosedFromIds(m: MenuTable, lower: set<string>, data: seq<Menu>)
    requires PathInv(m) && lower <= m.Keys && Listing(m, data)
    requires forall x :: x in IdsOf(data) <==> AtOrAbove(m, lower, x)
    ensures ClosedListing(m, data)
  {
    forall i, a | 0 <= i < |data| && a in Chain(m, data[i].id) ensures m[a] in data {
      assert data[i].id in IdsOf(data);
      var y :| y in lower && (data[i].id == y || IsAncestor(m, data[i].id, y));
      AncestorOfAncestor(m, a, data[i].id, y);
      assert a in IdsOf(data);
      var j :| 0 <= j < |data| && data[j].id == a;
      assert data[j] == m[a];
    }
  }

  lemma AncestorOfAncestor(m: MenuTable, a: string, k: string, y: string)
    requires PathInv(m) && k in m && y in m && a in Chain(m, k) && (k == y || IsAncestor(m, k, y))
    ensures IsAncestor(m, a, y)
  {
    if k != y {
      ChainIsAncestors(m, k, y);
      var i :| 0 <= i < |Chain(m, y)| && Chain(m, y)[i] == k;
      ChainPrefix(m, y, i);
    }
    ChainIsAncestors(m, a, y);
  }

  ghost predicate GrantedTo(db: Database, userID: string, g: string)
    reads db
  {
    && g in db.menus && db.menus[g].status == "enabled"
    && exists u, r :: u in db.userRoles && db.userRoles[u].userID == userID
                      && r in db.roleMenus && db.roleMenus[r].roleID == db.userRoles[u].roleID
                      && db.roleMenus[r].menuID == g
  }

  /** The user's enabled menus. */
  method QueryGranted(db: Database, userID: string) returns (rows: seq<Menu>)
    requires db.Valid() && userID != ""
    ensures Listing(db.menus, rows) && Sorted(rows)
    ensures forall g :: g in IdsOf(rows) <==> GrantedTo(db, userID, g)
  {
    var q := MenuQuery(status := ENABLED, userID := userID);
    rows := db.QueryMenus(q);
    ListsIsListing(rows, db.menus, set k | k in db.menus && Selects(q, db.roleMenus, db.userRoles, db.menus[k]));
    rows := SortListing(rows, db.menus);
  }

  /**
   `Login.QueryMenus` for a user other than root: the user's enabled menus with all their ancestors,
   whatever the status of these - ancestor-closed and in display order.
   */
  method QueryUserMenus(db: Database, userID: string) returns (data: seq<Menu>, ghost granted: set<string>)
    requires db.Valid() && PathInv(db.menus) && userID != ""
    ensures ClosedListing(db.menus, data) && Sorted(data)
    ensures forall g :: g in granted <==> GrantedTo(db, userID, g)
    ensures forall x :: x in IdsOf(data) <==> AtOrAbove(db.menus, granted, x)
  {
    var lower := QueryGranted(db, userID);
    granted := IdsOf(lower);
    data := FillParents(db, lower);
    ParentsComplete(db.menus, lower, data);
    ClosedFromIds(db.menus, granted, data);
  }

  /** The missing parents, appended; the list is sorted again only if there are some. */
  method FillParents(db: Database, lower: seq<Menu>) returns (data: seq<Menu>)
    requires db.Valid() && Listing(db.menus, lower) && Sorted(lower)
    ensures Listing(db.menus, data) && Sorted(data)
    ensures IdsOf(data) == IdsOf(lower) + set x | x in db.menus && x in ParentIDs(lower, {})
  {
    data := lower;
    var parentIDs := SplitParentIDs(lower);
    if |parentIDs| > 0 {
      var missing := MissingIDs(parentIDs, lower);
      if |missing| > 0 {
        var parents := QueryByIDs(db, missing);
        DisjointConcat(db.menus, lower, parents);
        data := SortListing(lower + parents, db.menus);
      }
    }
  }

  /** The parent ids that the list does not hold. */
  method MissingIDs(parentIDs: seq<string>, data: seq<Menu>) returns (missing: seq<string>)
    ensures forall x :: x in missing <==> x in parentIDs && x !in IdsOf(data)
  {
    var mapper := set i | 0 <= i < |data| :: data[i].id;
    missing := [];
    for i := 0 to |parentIDs|
      invariant forall x :: x in missing <==> x in parentIDs[..i] && x !in mapper
    {
      assert parentIDs[..i + 1] == parentIDs[..i] + [parentIDs[i]];
      if parentIDs[i] !in mapper { missing := missing + [parentIDs[i]]; }
    }
    assert parentIDs[..|parentIDs|] == parentIDs;
  }

  lemma DisjointConcat(m: MenuTable, a: seq<Menu>, b: seq<Menu>)
    requires Listing(m, a) && Listing(m, b) && IdsOf(a) !! IdsOf(b)
    ensures Listing(m, a + b) && IdsOf(a + b) == IdsOf(a) + IdsOf(b)
  {
    forall x | x in IdsOf(a) + IdsOf(b) ensures x in IdsOf(a + b) {
      if i :| 0 <= i < |a| && a[i].id == x { assert (a + b)[i].id == x; }
      if i :| 0 <= i < |b| && b[i].id == x { assert (a + b)[|a| + i].id == x; }
    }
    forall i, j | 0 <= i < j < |a + b| ensures (a + b)[i].id != (a + b)[j].id {
      if i < |a| <= j { assert a[i].id in IdsOf(a) && b[j - |a|].id in IdsOf(b); }
    }
  }

  /** `Menu.Query` by name or code path, from the hits on: their forest, with nothing above or below them missing. */
  method SearchForest(db: Database, hits: seq<Menu>)
    returns (list: seq<MenuNode>, nodes: seq<MenuNode>, listed: seq<Menu>)
    requires db.Valid() && PathInv(db.menus) && Listing(db.menus, hits)
    ensures ClosedListing(db.menus, listed) && Sorted(listed)
    ensures forall x :: x in IdsOf(listed) <==> AtOrAbove(db.menus, IdsOf(hits) + IdsBelow(db.menus, hits), x)
    ensures Walkable(nodes, db.menus, listed, list, "", 0)
    ensures multiset(Walk(nodes, db.menus, listed, list, "", 0)) == multiset(listed)
  {
    var data := AppendChildren(db, hits);
    list, nodes := Forest(data, db.menus);
    listed := data;
  }

  /** `Login.QueryMenus` for a user other than root, down to the forest that is returned. */
  method UserForest(db: Database, userID: string)
    returns (list: seq<MenuNode>, nodes: seq<MenuNode>, listed: seq<Menu>, ghost granted: set<string>)
    requires db.Valid() && PathInv(db.menus) && userID != ""
    ensures ClosedListing(db.menus, listed) && Sorted(listed)
    ensures forall g :: g in granted <==> GrantedTo(db, userID, g)
    ensures forall x :: x in IdsOf(listed) <==> AtOrAbove(db.menus, granted, x)
    ensures Walkable(nodes, db.menus, listed, list, "", 0)
    ensures multiset(Walk(nodes, db.menus, listed, list, "", 0)) == multiset(listed)
  {
    var data;
    data, granted := QueryUserMenus(db, userID);
    list, nodes := Forest(data, db.menus);
    listed := data;
  }
}

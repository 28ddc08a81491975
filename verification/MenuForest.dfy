/**
 From a flat list of menus to a forest, built in place by appending each item to its parent's
 children, and why no item is lost on an ancestor-closed list.
 */
module MenuForest {
  import opened Tables
  import opened MenuTree
  import opened Ancestors

  class MenuNode {
    const row: Menu
    var children: seq<MenuNode>

    constructor (row: Menu)
      ensures this.row == row && children == []
    {
      this.row, children := row, [];
    }
  }

  function RowsOf(nodes: seq<MenuNode>): (rows: seq<Menu>)
    ensures |rows| == |nodes| && forall i :: 0 <= i < |nodes| ==> rows[i] == nodes[i].row
  {
    if nodes == [] then [] else [nodes[0].row] + RowsOf(nodes[1..])
  }

  /** The items under `parentID`, in list order. */
  function NodesUnder(nodes: seq<MenuNode>, parentID: string): seq<MenuNode> {
    if nodes == [] then []
    else
      var last := |nodes| - 1;
      NodesUnder(nodes[..last], parentID) + if nodes[last].row.parentID == parentID then [nodes[last]] else []
  }

  function RowsUnder(rows: seq<Menu>, parentID: string): seq<Menu> {
    if rows == [] then []
    else
      var last := |rows| - 1;
      RowsUnder(rows[..last], parentID) + if rows[last].parentID == parentID then [rows[last]] else []
  }

  /** `ToMap`: a later item with the same id replaces an earlier one. */
  function ToMap(nodes: seq<MenuNode>): (m: map<string, MenuNode>)
    ensures forall id :: id in m ==> m[id] in nodes && m[id].row.id == id
    ensures forall n :: n in nodes ==> n.row.id in m
  {
    if nodes == [] then map[]
    else ToMap(nodes[..|nodes| - 1])[nodes[|nodes| - 1].row.id := nodes[|nodes| - 1]]
  }

  /** What node `n` gains from the items of `nodes`, when `m` maps ids to nodes. */
  function Gains(nodes: seq<MenuNode>, m: map<string, MenuNode>, n: MenuNode): seq<MenuNode> {
    if n.row.id != "" && n.row.id in m && m[n.row.id] == n then NodesUnder(nodes, n.row.id) else []
  }

  /** What `n` gains from one item. */
  function OneGain(item: MenuNode, m: map<string, MenuNode>, n: MenuNode): seq<MenuNode> {
    if n.row.id != "" && n.row.id in m && m[n.row.id] == n && item.row.parentID == n.row.id then [item] else []
  }

  lemma GainStep(base: seq<MenuNode>, nodes: seq<MenuNode>, i: nat, m: map<string, MenuNode>, n: MenuNode)
    requires i < |nodes|
    ensures base + Gains(nodes[..i + 1], m, n) == base + Gains(nodes[..i], m, n) + OneGain(nodes[i], m, n)
  {
    UnderStep(nodes, i, n.row.id);
  }

  /**
   `ToTree`: the roots in list order; every other item is appended to the children of its parent, if that is listed.
   */
  method ToTree(nodes: seq<MenuNode>) returns (list: seq<MenuNode>)
    modifies set n | n in nodes
    ensures list == NodesUnder(nodes, "")
    ensures forall n :: n in nodes ==> n.children == old(n.children) + Gains(nodes, ToMap(nodes), n)
  {
    list := [];
    var m := ToMap(nodes);
    ghost var base := map n | n in nodes :: n.children;
    for i := 0 to |nodes|
      invariant list == NodesUnder(nodes[..i], "")
      invariant forall n :: n in nodes ==> n.children == base[n] + Gains(nodes[..i], m, n)
    {
      UnderStep(nodes, i, "");
      forall n | n in nodes { GainStep(base[n], nodes, i, m, n); }
      if nodes[i].row.parentID == "" { list := list + [nodes[i]]; }
      Place(nodes[i], m, nodes);
    }
    assert nodes[..|nodes|] == nodes;
  }

  method Place(item: MenuNode, m: map<string, MenuNode>, ghost nodes: seq<MenuNode>)
    requires forall id :: id in m ==> m[id] in nodes && m[id].row.id == id
    modifies set n | n in nodes
    ensures forall n :: n in nodes ==> n.children == old(n.children) + OneGain(item, m, n)
  {
    if item.row.parentID != "" && item.row.parentID in m {
      var parent := m[item.row.parentID];
      parent.children := parent.children + [item];
    }
  }

  lemma UnderStep(nodes: seq<MenuNode>, i: nat, parentID: string)
    requires i < |nodes|
    ensures NodesUnder(nodes[..i + 1], parentID)
         == NodesUnder(nodes[..i], parentID) + if nodes[i].row.parentID == parentID then [nodes[i]] else []
  {
    assert nodes[..i + 1][..i] == nodes[..i];
  }

  lemma RowsOfSnoc(nodes: seq<MenuNode>, n: MenuNode)
    ensures RowsOf(nodes + [n]) == RowsOf(nodes) + [n.row]
  {
  }

  lemma {:induction false} RowsOfUnder(nodes: seq<MenuNode>, parentID: string)
    ensures RowsOf(NodesUnder(nodes, parentID)) == RowsUnder(RowsOf(nodes), parentID)
  {
    if nodes != [] {
      var init, n := nodes[..|nodes| - 1], nodes[|nodes| - 1];
      RowsOfUnder(init, parentID);
      assert nodes == init + [n];
      OneMoreUnder(init, n, parentID);
    }
  }

  lemma OneMoreUnder(nodes: seq<MenuNode>, n: MenuNode, parentID: string)
    requires RowsOf(NodesUnder(nodes, parentID)) == RowsUnder(RowsOf(nodes), parentID)
    ensures RowsOf(NodesUnder(nodes + [n], parentID)) == RowsUnder(RowsOf(nodes + [n]), parentID)
  {
    RowsOfSnoc(nodes, n);
    RowsUnderSnoc(RowsOf(nodes), n.row, parentID);
    NodesUnderSnoc(nodes, n, parentID);
    if n.row.parentID == parentID { RowsOfSnoc(NodesUnder(nodes, parentID), n); }
  }

  lemma NodesUnderSnoc(nodes: seq<MenuNode>, n: MenuNode, parentID: string)
    ensures NodesUnder(nodes + [n], parentID)
         == NodesUnder(nodes, parentID) + if n.row.parentID == parentID then [n] else []
  {
    assert (nodes + [n])[..|nodes|] == nodes;
  }

  lemma RowsUnderSnoc(rows: seq<Menu>, r: Menu, parentID: string)
    ensures RowsUnder(rows + [r], parentID) == RowsUnder(rows, parentID) + if r.parentID == parentID then [r] else []
  {
    assert (rows + [r])[..|rows|] == rows;
  }

  method NewNodes(rows: seq<Menu>) returns (nodes: seq<MenuNode>)
    ensures RowsOf(nodes) == rows && forall n :: n in nodes ==> fresh(n) && n.children == []
  {
    nodes := [];
    for i := 0 to |rows|
      invariant |nodes| == i && forall j :: 0 <= j < i ==>
          fresh(nodes[j]) && nodes[j].row == rows[j] && nodes[j].children == []
    {
      var n := new MenuNode(rows[i]);
      nodes := nodes + [n];
    }
  }

  lemma AllGained(nodes: seq<MenuNode>, n: MenuNode)
    requires n in nodes && n.row.id != ""
    requires forall i, j :: 0 <= i < j < |nodes| ==> nodes[i].row.id != nodes[j].row.id
    ensures Gains(nodes, ToMap(nodes), n) == NodesUnder(nodes, n.row.id)
  {
    assert ToMap(nodes)[n.row.id] == n;
  }

  /** On nodes without children and without repeated ids every node ends up with the items under it. */
  method TreeOfNew(nodes: seq<MenuNode>) returns (list: seq<MenuNode>)
    requires forall n :: n in nodes ==> n.children == [] && n.row.id != ""
    requires forall i, j :: 0 <= i < j < |nodes| ==> nodes[i].row.id != nodes[j].row.id
    modifies set n | n in nodes
    ensures list == NodesUnder(nodes, "")
    ensures forall n :: n in nodes ==> n.children == NodesUnder(nodes, n.row.id)
  {
    list := ToTree(nodes);
    forall n | n in nodes ensures n.children == NodesUnder(nodes, n.row.id) {
      AllGained(nodes, n);
      assert n.children == [] + Gains(nodes, ToMap(nodes), n);
    }
  }

  /** A new node per row, then the tree: what the query result goes through. */
  method BuildForest(rows: seq<Menu>) returns (list: seq<MenuNode>, nodes: seq<MenuNode>)
    requires forall i, j :: 0 <= i < j < |rows| ==> rows[i].id != rows[j].id
    requires forall i :: 0 <= i < |rows| ==> rows[i].id != ""
    ensures RowsOf(nodes) == rows && RowsOf(list) == RowsUnder(rows, "")
    ensures forall n :: n in list ==> n in nodes
    ensures forall n :: n in nodes ==> fresh(n) && RowsOf(n.children) == RowsUnder(rows, n.row.id)
    ensures forall n, c :: n in nodes && c in n.children ==> c in nodes
  {
    nodes := NewNodes(rows);
    list := TreeOfNew(nodes);
    RowsOfUnder(nodes, "");
    UnderIn(nodes, "");
    forall n | n in nodes
      ensures RowsOf(n.children) == RowsUnder(rows, n.row.id) && forall c :: c in n.children ==> c in nodes
    {
      RowsOfUnder(nodes, n.row.id);
      UnderIn(nodes, n.row.id);
    }
  }

  lemma {:induction false} UnderIn(nodes: seq<MenuNode>, parentID: string)
    ensures forall n :: n in NodesUnder(nodes, parentID) ==> n in nodes
  {
    if nodes != [] { UnderIn(nodes[..|nodes| - 1], parentID); }
  }

  // ----- nothing is lost -----

  /** Ids listed once, rows as stored, and every ancestor of a listed row listed too. */
  ghost predicate ClosedListing(m: MenuTable, rows: seq<Menu>)
    requires PathInv(m)
  {
    && Stored(m, rows)
    && (forall i, j :: 0 <= i < j < |rows| ==> rows[i].id != rows[j].id)
    && (forall i, a :: 0 <= i < |rows| && a in Chain(m, rows[i].id) ==> m[a] in rows)
  }

  function Deepest(rows: seq<Menu>): (n: nat)
    ensures forall r :: r in rows ==> |r.parentPath| <= n
  {
    if rows == [] then 0
    else
      var n := Deepest(rows[1..]);
      if n < |rows[0].parentPath| then |rows[0].parentPath| else n
  }

  lemma {:induction false} UnderSelects(rows: seq<Menu>, parentID: string)
    ensures forall r :: r in RowsUnder(rows, parentID) <==> r in rows && r.parentID == parentID
    ensures (forall i, j :: 0 <= i < j < |rows| ==> rows[i].id != rows[j].id) ==>
              forall i, j :: 0 <= i < j < |RowsUnder(rows, parentID)| ==>
                RowsUnder(rows, parentID)[i].id != RowsUnder(rows, parentID)[j].id
  {
    if rows != [] {
      var last := |rows| - 1;
      UnderSelects(rows[..last], parentID);
      assert rows == rows[..last] + [rows[last]];
      var u := RowsUnder(rows[..last], parentID);
      assert forall i :: 0 <= i < |u| ==> u[i] in rows[..last];
    }
  }

  /** Children keep list order: later ones stand later in the list. */
  lemma {:induction false} UnderKeepsOrder(rows: seq<Menu>, parentID: string, i: nat, j: nat) returns (p: nat, q: nat)
    requires i < j < |RowsUnder(rows, parentID)|
    ensures p < q < |rows| && rows[p] == RowsUnder(rows, parentID)[i] && rows[q] == RowsUnder(rows, parentID)[j]
    ensures rows[p].parentID == parentID && rows[q].parentID == parentID
  {
    var init, last := rows[..|rows| - 1], |rows| - 1;
    if j < |RowsUnder(init, parentID)| {
      p, q := UnderKeepsOrder(init, parentID, i, j);
    } else {
      q := last;
      UnderSelects(init, parentID);
      assert RowsUnder(init, parentID)[i] in RowsUnder(init, parentID);
      p :| 0 <= p < last && init[p] == RowsUnder(init, parentID)[i];
    }
  }

  /** `ks` are siblings among `rows`, at path length `len`. */
  ghost predicate Siblings(rows: seq<Menu>, ks: seq<Menu>, parentID: string, len: nat) {
    && (forall i :: 0 <= i < |ks| ==> ks[i] in rows && ks[i].parentID == parentID && |ks[i].parentPath| == len)
    && (forall i, j :: 0 <= i < j < |ks| ==> ks[i].id != ks[j].id)
  }

  lemma KidsAreSiblings(m: MenuTable, rows: seq<Menu>, k: Menu)
    requires PathInv(m) && ClosedListing(m, rows) && k in rows
    ensures Siblings(rows, RowsUnder(rows, k.id), k.id, |SubtreePrefix(k)|)
  {
    UnderSelects(rows, k.id);
    var ks := RowsUnder(rows, k.id);
    forall i | 0 <= i < |ks| ensures |ks[i].parentPath| == |SubtreePrefix(k)| {
      assert ks[i] in ks;
      assert RowInv(m, ks[i].id);
    }
  }

  /** The forest below `ks`, read depth first. */
  ghost function Flatten(m: MenuTable, rows: seq<Menu>, ks: seq<Menu>, parentID: string, len: nat): seq<Menu>
    requires PathInv(m) && ClosedListing(m, rows) && Siblings(rows, ks, parentID, len)
    decreases Deepest(rows) - len, |ks|
  {
    if ks == [] then []
    else
      KidsAreSiblings(m, rows, ks[0]);
      [ks[0]] + Flatten(m, rows, RowsUnder(rows, ks[0].id), ks[0].id, |SubtreePrefix(ks[0])|)
      + Flatten(m, rows, ks[1..], parentID, len)
  }

  lemma FlattenStep(m: MenuTable, rows: seq<Menu>, ks: seq<Menu>, parentID: string, len: nat)
    requires PathInv(m) && ClosedListing(m, rows) && Siblings(rows, ks, parentID, len) && ks != []
    ensures Siblings(rows, RowsUnder(rows, ks[0].id), ks[0].id, |SubtreePrefix(ks[0])|)
        && Siblings(rows, ks[1..], parentID, len)
    ensures Flatten(m, rows, ks, parentID, len)
         == [ks[0]] + Flatten(m, rows, RowsUnder(rows, ks[0].id), ks[0].id, |SubtreePrefix(ks[0])|)
             + Flatten(m, rows, ks[1..], parentID, len)
  {
    KidsAreSiblings(m, rows, ks[0]);
  }

  /** `id` is `x` or one of its ancestors. */
  ghost predicate OnBranch(m: MenuTable, x: Menu, id: string)
    requires PathInv(m) && x.id in m
  {
    id == x.id || id in Chain(m, x.id)
  }

  /** Two siblings are never on the same branch. */
  lemma OneSiblingPerBranch(m: MenuTable, x: Menu, k: string, k': string)
    requires PathInv(m) && x.id in m && k in m && k' in m && m[k].parentID == m[k'].parentID
    requires OnBranch(m, x, k) && OnBranch(m, x, k')
    ensures k == k'
  {
    var i := BranchParent(m, x, k);
    var i' := BranchParent(m, x, k');
    ChainDistinct(m, x.id);
    assert "" !in m;
    assert i == i';
  }

  /** Where a row on the branch of `x` sits in the chain, and what is just above it. */
  lemma BranchParent(m: MenuTable, x: Menu, k: string) returns (i: nat)
    requires PathInv(m) && x.id in m && k in m && OnBranch(m, x, k)
    ensures i <= |Chain(m, x.id)| && k == if i < |Chain(m, x.id)| then Chain(m, x.id)[i] else x.id
    ensures m[k].parentID == if i == 0 then "" else Chain(m, x.id)[i - 1]
  {
    var c := Chain(m, x.id);
    if k == x.id {
      assert RowInv(m, k);
      i := |c|;
    } else {
      i :| i < |c| && c[i] == k;
      ChainPrefix(m, x.id, i);
    }
  }

  /** A listed proper ancestor of `x` has exactly the next row of the branch among its listed children. */
  lemma BranchGoesOn(m: MenuTable, rows: seq<Menu>, x: Menu, k: string)
    requires PathInv(m) && ClosedListing(m, rows) && x in rows && (k == "" || k in m)
    ensures (k == "" || k in Chain(m, x.id)) <==> exists c :: c in RowsUnder(rows, k) && OnBranch(m, x, c.id)
  {
    UnderSelects(rows, k);
    if k == "" || k in Chain(m, x.id) {
      var c := NextOnBranch(m, rows, x, k);
      assert c in RowsUnder(rows, k);
    }
    if c :| c in RowsUnder(rows, k) && OnBranch(m, x, c.id) {
      var i := BranchParent(m, x, c.id);
    }
  }

  lemma NextOnBranch(m: MenuTable, rows: seq<Menu>, x: Menu, k: string) returns (c: Menu)
    requires PathInv(m) && ClosedListing(m, rows) && x in rows && (k == "" || k in Chain(m, x.id))
    ensures c in rows && c.parentID == k && OnBranch(m, x, c.id)
  {
    var chain := Chain(m, x.id);
    var i := if k == "" then 0 else var j :| 0 <= j < |chain| && chain[j] == k; j + 1;
    if i < |chain| {
      ChainPrefix(m, x.id, i);
      c := m[chain[i]];
    } else {
      assert RowInv(m, x.id);
      c := x;
    }
  }

  ghost predicate SomeOnBranch(m: MenuTable, ks: seq<Menu>, x: Menu)
    requires PathInv(m) && x.id in m
  {
    exists k :: k in ks && OnBranch(m, x, k.id)
  }

  /** Among siblings, the branch of `x` passes through the first or through the others, not both. */
  lemma FirstOrOthers(m: MenuTable, rows: seq<Menu>, ks: seq<Menu>, parentID: string, len: nat, x: Menu)
    requires PathInv(m) && ClosedListing(m, rows) && Siblings(rows, ks, parentID, len) && x in rows && ks != []
    ensures SomeOnBranch(m, ks, x) <==> OnBranch(m, x, ks[0].id) || SomeOnBranch(m, ks[1..], x)
    ensures !(OnBranch(m, x, ks[0].id) && SomeOnBranch(m, ks[1..], x))
  {
    assert ks == [ks[0]] + ks[1..];
    if k :| k in ks[1..] && OnBranch(m, x, k.id) && OnBranch(m, x, ks[0].id) {
      OneSiblingPerBranch(m, x, ks[0].id, k.id);
    }
  }

  /** The branch of `x` passes through `k` if it ends there or goes on below it, not both. */
  lemma EndsOrGoesOn(m: MenuTable, rows: seq<Menu>, x: Menu, k: Menu)
    requires PathInv(m) && ClosedListing(m, rows) && x in rows && k in rows
    ensures OnBranch(m, x, k.id) <==> k == x || SomeOnBranch(m, RowsUnder(rows, k.id), x)
    ensures !(k == x && SomeOnBranch(m, RowsUnder(rows, k.id), x))
  {
    BranchGoesOn(m, rows, x, k.id);
    ChainDistinct(m, x.id);
    assert k.id != "";
  }

  /** Below siblings, `x` is met exactly once if one of them is on its branch, and never otherwise. */
  lemma {:induction false} MetOnce(m: MenuTable, rows: seq<Menu>, ks: seq<Menu>, parentID: string, len: nat, x: Menu)
    requires PathInv(m) && ClosedListing(m, rows) && Siblings(rows, ks, parentID, len) && x in rows
    ensures multiset(Flatten(m, rows, ks, parentID, len))[x] == if SomeOnBranch(m, ks, x) then 1 else 0
    decreases Deepest(rows) - len, |ks|
  {
    if ks != [] {
      var k, below := ks[0], RowsUnder(rows, ks[0].id);
      FlattenStep(m, rows, ks, parentID, len);
      MetOnce(m, rows, below, k.id, |SubtreePrefix(k)|, x);
      MetOnce(m, rows, ks[1..], parentID, len, x);
      FirstOrOthers(m, rows, ks, parentID, len, x);
      EndsOrGoesOn(m, rows, x, k);
      CountThree(k, Flatten(m, rows, below, k.id, |SubtreePrefix(k)|), Flatten(m, rows, ks[1..], parentID, len), x);
    }
  }

  lemma CountThree(k: Menu, a: seq<Menu>, b: seq<Menu>, x: Menu)
    ensures multiset([k] + a + b)[x] == (if k == x then 1 else 0) + multiset(a)[x] + multiset(b)[x]
  {
  }

  lemma {:induction false} FlattenFromRows(m: MenuTable, rows: seq<Menu>, ks: seq<Menu>, parentID: string, len: nat)
    requires PathInv(m) && ClosedListing(m, rows) && Siblings(rows, ks, parentID, len)
    ensures forall x :: x in Flatten(m, rows, ks, parentID, len) ==> x in rows
    decreases Deepest(rows) - len, |ks|
  {
    if ks != [] {
      KidsAreSiblings(m, rows, ks[0]);
      FlattenFromRows(m, rows, RowsUnder(rows, ks[0].id), ks[0].id, |SubtreePrefix(ks[0])|);
      FlattenFromRows(m, rows, ks[1..], parentID, len);
    }
  }

  lemma RootsAreSiblings(m: MenuTable, rows: seq<Menu>)
    requires PathInv(m) && ClosedListing(m, rows)
    ensures Siblings(rows, RowsUnder(rows, ""), "", 0)
  {
    UnderSelects(rows, "");
    var ks := RowsUnder(rows, "");
    forall i | 0 <= i < |ks| ensures |ks[i].parentPath| == 0 {
      assert ks[i] in ks;
      assert RowInv(m, ks[i].id);
    }
  }

  lemma {:induction false} ListedOnce(rows: seq<Menu>, x: Menu)
    requires forall i, j :: 0 <= i < j < |rows| ==> rows[i].id != rows[j].id
    ensures multiset(rows)[x] == if x in rows then 1 else 0
  {
    if rows != [] {
      ListedOnce(rows[1..], x);
      assert rows == [rows[0]] + rows[1..];
    }
  }

  /** On an ancestor-closed list without repeats, the forest read depth first is a permutation of the list. */
  lemma ForestLosesNothing(m: MenuTable, rows: seq<Menu>)
    requires PathInv(m) && ClosedListing(m, rows)
    ensures Siblings(rows, RowsUnder(rows, ""), "", 0)
    ensures multiset(Flatten(m, rows, RowsUnder(rows, ""), "", 0)) == multiset(rows)
  {
    RootsAreSiblings(m, rows);
    var roots := RowsUnder(rows, "");
    var flat := Flatten(m, rows, roots, "", 0);
    FlattenFromRows(m, rows, roots, "", 0);
    forall x ensures multiset(flat)[x] == multiset(rows)[x] {
      ListedOnce(rows, x);
      if x in rows {
        MetOnce(m, rows, roots, "", 0, x);
        BranchGoesOn(m, rows, x, "");
      } else {
        assert x !in flat;
      }
    }
  }

  // ----- the same, read off the nodes themselves -----

  /** One node per row, each with the nodes of the rows under it as children, in list order. */
  ghost predicate Linked(nodes: seq<MenuNode>, rows: seq<Menu>)
    reads set n | n in nodes
  {
    RowsOf(nodes) == rows
    && forall n :: n in nodes ==>
         RowsOf(n.children) == RowsUnder(rows, n.row.id) && forall c :: c in n.children ==> c in nodes
  }

  /** `ks` are nodes of siblings. */
  ghost predicate Walkable(
      nodes: seq<MenuNode>, m: MenuTable, rows: seq<Menu>, ks: seq<MenuNode>, parentID: string, len: nat)
    reads set n | n in nodes
  {
    && PathInv(m) && ClosedListing(m, rows) && Linked(nodes, rows)
    && (forall k :: k in ks ==> k in nodes) && Siblings(rows, RowsOf(ks), parentID, len)
  }

  lemma NodeIsListed(nodes: seq<MenuNode>, rows: seq<Menu>, n: MenuNode)
    requires RowsOf(nodes) == rows && n in nodes
    ensures n.row in rows
  {
  }

  lemma WalkDown(nodes: seq<MenuNode>, m: MenuTable, rows: seq<Menu>, ks: seq<MenuNode>, parentID: string, len: nat)
    requires Walkable(nodes, m, rows, ks, parentID, len) && ks != []
    ensures Walkable(nodes, m, rows, ks[0].children, ks[0].row.id, |SubtreePrefix(ks[0].row)|)
    ensures len <= Deepest(rows) && len < |SubtreePrefix(ks[0].row)|
  {
    NodeIsListed(nodes, rows, ks[0]);
    KidsAreSiblings(m, rows, ks[0].row);
    assert RowsOf(ks)[0] == ks[0].row;
  }

  lemma WalkOn(nodes: seq<MenuNode>, m: MenuTable, rows: seq<Menu>, ks: seq<MenuNode>, parentID: string, len: nat)
    requires Walkable(nodes, m, rows, ks, parentID, len) && ks != []
    ensures Walkable(nodes, m, rows, ks[1..], parentID, len)
    ensures RowsOf(ks) == [ks[0].row] + RowsOf(ks[1..])
  {
    assert RowsOf(ks)[1..] == RowsOf(ks[1..]);
  }

  /** The rows of the nodes `ks` and of everything below them, read depth first along `children`. */
  ghost function Walk(
      nodes: seq<MenuNode>, m: MenuTable, rows: seq<Menu>, ks: seq<MenuNode>, parentID: string, len: nat): seq<Menu>
    requires Walkable(nodes, m, rows, ks, parentID, len)
    reads set n | n in nodes
    decreases Deepest(rows) - len, |ks|
  {
    if ks == [] then []
    else
      var k := ks[0];
      WalkDown(nodes, m, rows, ks, parentID, len);
      WalkOn(nodes, m, rows, ks, parentID, len);
      [k.row] + Walk(nodes, m, rows, k.children, k.row.id, |SubtreePrefix(k.row)|)
      + Walk(nodes, m, rows, ks[1..], parentID, len)
  }

  lemma {:induction false} WalkIsFlatten(
      nodes: seq<MenuNode>, m: MenuTable, rows: seq<Menu>, ks: seq<MenuNode>, parentID: string, len: nat)
    requires Walkable(nodes, m, rows, ks, parentID, len)
    ensures Walk(nodes, m, rows, ks, parentID, len) == Flatten(m, rows, RowsOf(ks), parentID, len)
    decreases Deepest(rows) - len, |ks|
  {
    if ks != [] {
      var k := ks[0];
      WalkDown(nodes, m, rows, ks, parentID, len);
      WalkOn(nodes, m, rows, ks, parentID, len);
      WalkIsFlatten(nodes, m, rows, k.children, k.row.id, |SubtreePrefix(k.row)|);
      WalkIsFlatten(nodes, m, rows, ks[1..], parentID, len);
      FlattenStep(m, rows, RowsOf(ks), parentID, len);
    }
  }

  /**
   The forest of an ancestor-closed list: walking it meets every row of the list exactly as often as the list does.
   */
  method Forest(rows: seq<Menu>, ghost m: MenuTable) returns (list: seq<MenuNode>, nodes: seq<MenuNode>)
    requires PathInv(m) && ClosedListing(m, rows)
    ensures fresh(set n | n in nodes) && Walkable(nodes, m, rows, list, "", 0)
    ensures multiset(Walk(nodes, m, rows, list, "", 0)) == multiset(rows)
  {
    assert "" !in m;
    list, nodes := BuildForest(rows);
    ForestLosesNothing(m, rows);
    WalkIsFlatten(nodes, m, rows, list, "", 0);
  }
}

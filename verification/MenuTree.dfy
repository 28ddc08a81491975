/**
 The path index over the parent relation, and what it means: each stored path
 is the root-to-parent chain, so a string prefix test finds a subtree.
 */
module MenuTree {
  import opened Paths
  import opened Tables

  type MenuTable = map<string, Menu>

  /** The prefix shared by the stored paths of everything below `r`. */
  function SubtreePrefix(r: Menu): string {
    r.parentPath + r.id + [DELIMITER]
  }

  /** Rows are keyed by their own valid id. */
  ghost predicate Keyed(m: MenuTable) {
    forall k :: k in m ==> m[k].id == k && IsId(k)
  }

  /** The stored path of row `k` is the one its parent link calls for. */
  predicate RowInv(m: MenuTable, k: string)
    requires k in m
  {
    var r := m[k];
    if r.parentID == "" then r.parentPath == ""
    else r.parentID in m && r.parentPath == SubtreePrefix(m[r.parentID])
  }

  /** The path invariant: the index agrees with the parent links. */
  ghost predicate PathInv(m: MenuTable) {
    Keyed(m) && forall k {:trigger RowInv(m, k)} :: k in m ==> RowInv(m, k)
  }

  /** Following `n` parent links, with "" as the place above every root. */
  function Up(m: MenuTable, id: string, n: nat): string
    decreases n
  {
    if n == 0 then id
    else if id in m then Up(m, m[id].parentID, n - 1)
    else ""
  }

  /** `a` is a proper ancestor of `id` along the parent links, whatever the stored paths say. */
  ghost predicate IsAncestor(m: MenuTable, a: string, id: string) {
    a != "" && exists n: nat :: n > 0 && Up(m, id, n) == a
  }

  /** The ids of the proper ancestors of `id`, root first. */
  ghost function Chain(m: MenuTable, id: string): (c: seq<string>)
    requires PathInv(m) && id in m
    ensures forall i :: 0 <= i < |c| ==> c[i] in m
    ensures AllIds(c)
    ensures Join(c) == m[id].parentPath
    decreases |m[id].parentPath|
  {
    assert RowInv(m, id);
    var p := m[id].parentID;
    if p == "" then []
    else
      JoinSnoc(Chain(m, p), p);
      Chain(m, p) + [p]
  }

  /** What lies above the `i`-th ancestor is the chain up to it. */
  lemma {:induction false} ChainPrefix(m: MenuTable, id: string, i: nat)
    requires PathInv(m) && id in m && i < |Chain(m, id)|
    ensures Chain(m, Chain(m, id)[i]) == Chain(m, id)[..i]
    ensures m[Chain(m, id)[i]].parentID == if i == 0 then "" else Chain(m, id)[i - 1]
    decreases |m[id].parentPath|
  {
    assert RowInv(m, id);
    var p := m[id].parentID;
    if i < |Chain(m, p)| {
      ChainPrefix(m, p, i);
    }
  }

  /** No id occurs twice in a chain, and no row is its own ancestor. */
  lemma ChainDistinct(m: MenuTable, id: string)
    requires PathInv(m) && id in m
    ensures forall i, j :: 0 <= i < j < |Chain(m, id)| ==> Chain(m, id)[i] != Chain(m, id)[j]
    ensures id !in Chain(m, id)
  {
    var c := Chain(m, id);
    forall i, j | 0 <= i < j < |c| ensures c[i] != c[j] {
      ChainPrefix(m, id, i);
      ChainPrefix(m, id, j);
    }
    forall i | 0 <= i < |c| ensures c[i] != id {
      ChainPrefix(m, id, i);
    }
  }

  lemma {:induction false} UpIsChain(m: MenuTable, id: string, n: nat)
    requires PathInv(m) && id in m && n > 0
    ensures Up(m, id, n) == if n <= |Chain(m, id)| then Chain(m, id)[|Chain(m, id)| - n] else ""
    decreases n
  {
    assert RowInv(m, id);
    var p := m[id].parentID;
    if p == "" {
      assert "" !in m;
      UpAboveRoot(m, n - 1);
    } else if n > 1 {
      UpIsChain(m, p, n - 1);
    }
  }

  lemma {:induction false} UpAboveRoot(m: MenuTable, n: nat)
    requires "" !in m
    ensures Up(m, "", n) == ""
  {
  }

  /** The chain lists exactly the proper ancestors. */
  lemma ChainIsAncestors(m: MenuTable, a: string, id: string)
    requires PathInv(m) && id in m
    ensures a in Chain(m, id) <==> IsAncestor(m, a, id)
  {
    var c := Chain(m, id);
    if a in c {
      var i :| 0 <= i < |c| && c[i] == a;
      UpIsChain(m, id, |c| - i);
    }
    if IsAncestor(m, a, id) {
      var n: nat :| n > 0 && Up(m, id, n) == a;
      UpIsChain(m, id, n);
    }
  }

  /** The invariant gives what the index is for: no cycle, no dangling parent, and paths that spell the chains. */
  lemma InvariantMeaning(m: MenuTable)
    requires PathInv(m)
    ensures forall k :: k in m ==> !IsAncestor(m, k, k)
    ensures forall k :: k in m ==> m[k].parentID == "" || m[k].parentID in m
    ensures forall k :: k in m ==> m[k].parentPath == Join(Chain(m, k))
    ensures forall k :: k in m ==> Segments(m[k].parentPath) == Chain(m, k)
    ensures forall k, a :: k in m ==> (a in Chain(m, k) <==> IsAncestor(m, a, k))
  {
    forall k | k in m ensures m[k].parentID == "" || m[k].parentID in m {
      assert RowInv(m, k);
    }
    forall k | k in m
      ensures !IsAncestor(m, k, k) && Segments(m[k].parentPath) == Chain(m, k)
    {
      ChainDistinct(m, k);
      ChainIsAncestors(m, k, k);
      SplitUndoesJoin(Chain(m, k));
    }
    forall k, a | k in m ensures a in Chain(m, k) <==> IsAncestor(m, a, k) {
      ChainIsAncestors(m, a, k);
    }
  }

  /** The prefix test of `LIKE` on stored paths is the sequence-prefix test on chains. */
  lemma PrefixTestIsChainPrefix(m: MenuTable, a: string, id: string)
    requires PathInv(m) && a in m && id in m
    ensures SubtreePrefix(m[a]) <= m[id].parentPath <==> Chain(m, a) + [a] <= Chain(m, id)
  {
    JoinSnoc(Chain(m, a), a);
    PrefixIsSequencePrefix(Chain(m, a) + [a], Chain(m, id));
  }

  lemma ChainPrefixAt(m: MenuTable, id: string, i: nat)
    requires PathInv(m) && id in m && i < |Chain(m, id)|
    ensures Chain(m, Chain(m, id)[i]) + [Chain(m, id)[i]] == Chain(m, id)[..i + 1]
  {
    ChainPrefix(m, id, i);
    TakeSnoc(Chain(m, id), i);
  }

  lemma InChainIsChainPrefix(m: MenuTable, a: string, id: string)
    requires PathInv(m) && a in m && id in m
    ensures a in Chain(m, id) <==> Chain(m, a) + [a] <= Chain(m, id)
  {
    var ca, c := Chain(m, a) + [a], Chain(m, id);
    assert ca[|ca| - 1] == a;
    if i: nat :| i < |c| && c[i] == a {
      ChainPrefixAt(m, id, i);
    }
  }

  /** The prefix test selects exactly the proper descendants. */
  lemma PrefixSelectsDescendants(m: MenuTable, a: string, id: string)
    requires PathInv(m) && a in m && id in m
    ensures SubtreePrefix(m[a]) <= m[id].parentPath <==> IsAncestor(m, a, id)
  {
    PrefixTestIsChainPrefix(m, a, id);
    InChainIsChainPrefix(m, a, id);
    ChainIsAncestors(m, a, id);
  }

  /** The ids that the prefix test selects. */
  function Below(m: MenuTable, prefix: string): set<string> {
    set k | k in m && prefix <= m[k].parentPath
  }
}

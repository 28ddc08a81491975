/**
 The path invariant over whole runs: which operations keep it, and therefore in
 exactly which runs every reachable state has it.
 */
module MenuRuns {
  import opened Wrappers
  import opened Tables
  import opened MenuTree
  import opened MenuOps
  import opened MenuImport

  datatype Operation =
    | Create(form: MenuForm, now: int)
    | Update(id: string, form: MenuForm, now: int)
    | Delete(id: string, now: int)
    | Import(items: seq<FileItem>, now: int)

  /** One operation; a failed one leaves the tables as they were. */
  function Apply(s: Store, op: Operation, gen: IdSource): Store {
    match op
    case Create(f, now) => (match CreateMenu(s, f, gen, now) case Success(r) => r.0 case Failure(_) => s)
    case Update(id, f, now) => (match UpdateMenu(s, id, f, gen, now) case Success(t) => t case Failure(_) => s)
    case Delete(id, now) => (match DeleteMenu(s, id, now) case Success(t) => t case Failure(_) => s)
    case Import(items, now) => ImportItems(s, items, None, gen, now)
  }

  /** The two demands the code does not check: no move into the own subtree, no import of unsafe items. */
  ghost predicate Safe(s: Store, op: Operation, gen: IdSource) {
    match op
    case Update(id, f, now) =>
      UpdateMenu(s, id, f, gen, now).Success? ==>
        id in s.menus && (s.menus[id].parentID == f.parentID || !InOwnSubtree(s.menus, id, f.parentID))
    case Import(items, now) => SafeItems(s, items, None, gen, now)
    case _ => true
  }

  lemma StepIsExact(s: Store, op: Operation, gen: IdSource)
    requires PathInv(s.menus)
    ensures PathInv(Apply(s, op, gen).menus) <==> Safe(s, op, gen)
  {
    match op
    case Create(f, now) =>
      if CreateMenu(s, f, gen, now).Success? { CreateKeepsPathInv(s, f, gen, now); }
    case Update(id, f, now) =>
      if UpdateMenu(s, id, f, gen, now).Success? { UpdateKeepsPathInv(s, id, f, gen, now); }
    case Delete(id, now) =>
      if id in s.menus { DeleteIsExact(s, id, now); }
    case Import(items, now) =>
      ImportKeepsPathInv(s, items, None, gen, now);
  }

  /** What a caller can check before the call: where a menu is moved to, and what a file says. */
  ghost predicate Checked(s: Store, op: Operation) {
    match op
    case Update(id, f, now) =>
      id in s.menus ==> s.menus[id].parentID == f.parentID || !InOwnSubtree(s.menus, id, f.parentID)
    case Import(items, now) => SafeFile(items, true)
    case _ => true
  }

  lemma CheckedIsSafe(s: Store, op: Operation, gen: IdSource)
    requires Checked(s, op)
    ensures Safe(s, op, gen)
  {
    if op.Import? { SafeFileIsSafe(s, op.items, None, gen, op.now); }
  }

  /** The state after the first `i` operations of a run from an empty table; each one has its own source of ids. */
  function StateAt(ops: seq<Operation>, gens: nat -> IdSource, i: nat): Store
    requires i <= |ops|
  {
    if i == 0 then EMPTY_STORE else Apply(StateAt(ops, gens, i - 1), ops[i - 1], gens(i - 1))
  }

  ghost predicate InvAt(ops: seq<Operation>, gens: nat -> IdSource, i: nat) {
    i <= |ops| && PathInv(StateAt(ops, gens, i).menus)
  }

  ghost predicate SafeAt(ops: seq<Operation>, gens: nat -> IdSource, i: nat) {
    i < |ops| && Safe(StateAt(ops, gens, i), ops[i], gens(i))
  }

  lemma StepAt(ops: seq<Operation>, gens: nat -> IdSource, i: nat)
    requires i < |ops| && InvAt(ops, gens, i)
    ensures InvAt(ops, gens, i + 1) <==> SafeAt(ops, gens, i)
  {
    StepIsExact(StateAt(ops, gens, i), ops[i], gens(i));
  }

  /** If each step keeps `inv` exactly when `safe` holds of it, so do whole runs. */
  lemma {:induction false} Stepwise(inv: nat -> bool, safe: nat -> bool, n: nat)
    requires inv(0)
    requires forall i: nat :: i < n && inv(i) ==> (inv(i + 1) <==> safe(i))
    ensures (forall i: nat :: i <= n ==> inv(i)) <==> (forall i: nat :: i < n ==> safe(i))
  {
    if n > 0 {
      Stepwise(inv, safe, n - 1);
      assert (forall i: nat :: i <= n ==> inv(i)) ==> inv(n - 1) && inv(n - 1 + 1);
      assert (forall i: nat :: i < n ==> safe(i)) ==> safe(n - 1);
    }
  }

  /** From an empty table, all states of a run have the invariant exactly when all its operations are safe. */
  lemma ReachableStates(ops: seq<Operation>, gens: nat -> IdSource)
    ensures (forall i: nat :: i <= |ops| ==> InvAt(ops, gens, i))
       <==> (forall i: nat :: i < |ops| ==> SafeAt(ops, gens, i))
  {
    forall i: nat | i < |ops| && InvAt(ops, gens, i) ensures InvAt(ops, gens, i + 1) <==> SafeAt(ops, gens, i) {
      StepAt(ops, gens, i);
    }
    var inv := (i: nat) => InvAt(ops, gens, i);
    var safe := (i: nat) => SafeAt(ops, gens, i);
    assert inv(0);
    Stepwise(inv, safe, |ops|);
    assert forall i: nat :: inv(i) == InvAt(ops, gens, i) && safe(i) == SafeAt(ops, gens, i);
  }

  ghost predicate CheckedAt(ops: seq<Operation>, gens: nat -> IdSource, i: nat) {
    i < |ops| && Checked(StateAt(ops, gens, i), ops[i])
  }

  lemma CheckedIsSafeAt(ops: seq<Operation>, gens: nat -> IdSource, i: nat)
    requires CheckedAt(ops, gens, i)
    ensures SafeAt(ops, gens, i)
  {
    CheckedIsSafe(StateAt(ops, gens, i), ops[i], gens(i));
  }

  /** So a caller that checks every move and every file never meets a wrong path. */
  lemma CheckedRunsKeepPaths(ops: seq<Operation>, gens: nat -> IdSource)
    requires forall i: nat :: i < |ops| ==> CheckedAt(ops, gens, i)
    ensures forall i: nat :: i <= |ops| ==> InvAt(ops, gens, i)
  {
    forall i: nat | i < |ops| ensures SafeAt(ops, gens, i) {
      CheckedIsSafeAt(ops, gens, i);
    }
    ReachableStates(ops, gens);
  }
}

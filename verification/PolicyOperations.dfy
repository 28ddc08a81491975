/**
 The operations on menus, roles and users as changes seen by the polling protocol: which of them are
 harmless, what their runs guarantee, and the runs that end with a stale policy.
 */
module PolicyOperations {
  import opened Wrappers
  import opened Tables
  import opened MenuTree
  import opened MenuOps
  import opened MenuImport
  import opened Policy
  import opened PolicyImport
  import opened ImportIdempotence
  import opened QuietImport
  import opened PolicyRefresh
  import Access
  import MenuRuns

  datatype Operation = OnMenus(menuOp: MenuRuns.Operation) | OnAccounts(accountOp: Access.Operation)

  datatype Sources = Sources(menus: IdSource, accounts: Access.AccountIdSource)

  function After(a: Access.Accounts, op: Operation, gens: Sources): Access.Accounts {
    match op
    case OnMenus(o) => a.(store := MenuRuns.Apply(a.store, o, gens.menus))
    case OnAccounts(o) => Access.Apply(a, o, gens.accounts)
  }

  /** The time that a successful operation stamps. */
  function StampedAt(op: Operation): Option<int> {
    match op
    case OnMenus(Update(_, _, now)) => Some(now)
    case OnMenus(Delete(_, now)) => Some(now)
    case OnAccounts(OpCreateRole(_, now)) => Some(now)
    case OnAccounts(OpUpdateRole(_, _, now)) => Some(now)
    case OnAccounts(OpDeleteRole(_, now)) => Some(now)
    case _ => None
  }

  predicate IsImport(op: Operation) {
    op.OnMenus? && op.menuOp.Import?
  }

  /** Menu operations are safe, and the clock, which counts seconds, does not go backwards. */
  ghost predicate Allowed(a: Access.Accounts, op: Operation, gens: Sources) {
    && (op.OnMenus? ==> MenuRuns.Safe(a.store, op.menuOp, gens.menus))
    && (StampedAt(op).Some? ==> StampedAt(op).value > 0 && StampedAt(op).value >= StampOf(a.store))
  }

  lemma SamePolicyReflexive(s: Store)
    ensures SamePolicy(s, s)
  {
  }

  /** What an operation on menus other than the import does to the stamp and to what a load reads. */
  lemma MenuOperationStamps(s: Store, op: MenuRuns.Operation, gen: IdSource)
    requires PathInv(s.menus) && !op.Import?
    ensures var t := MenuRuns.Apply(s, op, gen);
            || (StampedAt(OnMenus(op)).Some? && t.stamp == StampedAt(OnMenus(op)))
            || (t.stamp == s.stamp && SamePolicy(s, t))
  {
    SamePolicyReflexive(s);
    match op
    case Create(f, now) =>
      if CreateMenu(s, f, gen, now).Success? { CreateNeedsNoStamp(s, f, gen, now); }
    case Update(id, f, now) =>
      assert UpdateMenu(s, id, f, gen, now).Success? ==> UpdateMenu(s, id, f, gen, now).value.stamp == Some(now);
    case Delete(id, now) =>
      assert DeleteMenu(s, id, now).Success? ==> DeleteMenu(s, id, now).value.stamp == Some(now);
  }

  /** The same for operations on users, roles and logins; they leave the menus alone. */
  lemma AccessOperationStamps(a: Access.Accounts, op: Access.Operation, gen: Access.AccountIdSource)
    ensures var t := Access.Apply(a, op, gen).store;
            && t.menus == a.store.menus
            && (|| (StampedAt(OnAccounts(op)).Some? && t.stamp == StampedAt(OnAccounts(op)))
                || (t.stamp == a.store.stamp && SamePolicy(a.store, t)))
  {
    if StampedAt(OnAccounts(op)).Some? {
      RoleOperationStamps(a, op, gen);
    } else {
      SamePolicyReflexive(a.store);
      UserOperationKeepsStore(a, op, gen);
    }
  }

  lemma UserOperationKeepsStore(a: Access.Accounts, op: Access.Operation, gen: Access.AccountIdSource)
    requires StampedAt(OnAccounts(op)).None?
    ensures Access.Apply(a, op, gen).store == a.store
  {
    match op
    case OpCreateUser(f, hashed, now) =>
      if Access.CreateUser(a, f, hashed, gen, now).Success? { CreateUserKeepsStore(a, f, hashed, gen, now); }
    case OpUpdateUser(id, f, hashed, now) =>
      if Access.UpdateUser(a, id, f, hashed, gen, now).Success? { UpdateUserKeepsStore(a, id, f, hashed, gen, now); }
    case _ =>
  }

  lemma RoleOperationStamps(a: Access.Accounts, op: Access.Operation, gen: Access.AccountIdSource)
    requires StampedAt(OnAccounts(op)).Some?
    ensures var t := Access.Apply(a, op, gen).store;
            t.menus == a.store.menus && (t.stamp == StampedAt(OnAccounts(op)) || t == a.store)
    ensures SamePolicy(a.store, a.store)
  {
    SamePolicyReflexive(a.store);
    match op
    case OpCreateRole(f, now) =>
      if Access.CreateRole(a, f, gen, now).Success? { CreateRoleStamps(a, f, gen, now); }
    case OpUpdateRole(id, f, now) =>
      if Access.UpdateRole(a, id, f, gen, now).Success? { UpdateRoleStamps(a, id, f, gen, now); }
    case OpDeleteRole(id, now) =>
  }

  lemma CreateUserKeepsStore(
      a: Access.Accounts, f: Access.UserForm, hashed: string, gen: Access.AccountIdSource, now: int)
    requires Access.CreateUser(a, f, hashed, gen, now).Success?
    ensures Access.CreateUser(a, f, hashed, gen, now).value.store == a.store
  {
    var id := gen(a);
    var user := Access.FillUser(f, Access.User(id, "", "", hashed, "", "", "", "", now, now), hashed);
    Access.AddUserRolesEffect(a.(users := a.users[id := user]), f.roles, id, false, gen);
  }

  lemma UpdateUserKeepsStore(
      a: Access.Accounts, id: string, f: Access.UserForm, hashed: string, gen: Access.AccountIdSource, now: int)
    requires Access.UpdateUser(a, id, f, hashed, gen, now).Success?
    ensures Access.UpdateUser(a, id, f, hashed, gen, now).value.store == a.store
  {
    var a1 := a.(users := a.users[id := Access.FillUser(f, a.users[id], hashed).(updatedAt := now)],
                 userRoles := map k | k in a.userRoles && a.userRoles[k].userID != id :: a.userRoles[k]);
    Access.AddUserRolesEffect(a1, f.roles, id, true, gen);
  }

  lemma CreateRoleStamps(a: Access.Accounts, f: Access.RoleForm, gen: Access.AccountIdSource, now: int)
    requires Access.CreateRole(a, f, gen, now).Success?
    ensures var t := Access.CreateRole(a, f, gen, now).value.store;
            t.menus == a.store.menus && t.stamp == Some(now)
  {
    var s := a.store.(roles := a.store.roles[gen(a) := Access.FillRole(f, Role(gen(a), "", "", "", 0, ""))]);
    Access.AddRoleMenusEffect(a.(store := s), f.menus, gen(a), false, gen);
  }

  lemma UpdateRoleStamps(a: Access.Accounts, id: string, f: Access.RoleForm, gen: Access.AccountIdSource, now: int)
    requires Access.UpdateRole(a, id, f, gen, now).Success?
    ensures var t := Access.UpdateRole(a, id, f, gen, now).value.store;
            t.menus == a.store.menus && t.stamp == Some(now)
  {
    var s := a.store.(roles := a.store.roles[id := Access.FillRole(f, a.store.roles[id])],
                      roleMenus := Access.WithoutRole(a.store.roleMenus, id));
    Access.AddRoleMenusEffect(a.(store := s), f.menus, id, true, gen);
  }

  /** Every allowed operation, successful or not, is a change that the protocol admits. */
  lemma OperationIsChange(s: System, a: Access.Accounts, op: Operation, gens: Sources)
    requires Sound(s.tables) && a.store == s.tables && Allowed(a, op, gens)
    ensures Enabled(s, Change(After(a, op, gens).store))
  {
    match op
    case OnMenus(o) => MenuOperationIsChange(a.store, o, gens.menus);
    case OnAccounts(o) => AccessOperationStamps(a, o, gens.accounts);
  }

  lemma MenuOperationIsChange(s: Store, op: MenuRuns.Operation, gen: IdSource)
    requires Sound(s) && MenuRuns.Safe(s, op, gen)
    requires var at := StampedAt(OnMenus(op)); at.Some? ==> at.value > 0 && at.value >= StampOf(s)
    ensures Sound(MenuRuns.Apply(s, op, gen)) && StampOf(MenuRuns.Apply(s, op, gen)) >= StampOf(s)
  {
    MenuRuns.StepIsExact(s, op, gen);
    if op.Import? {
      ImportOnlyAdds(s, op.items, None, gen, op.now);
    } else {
      MenuOperationStamps(s, op, gen);
    }
  }

  /** Other than the import, an operation is harmless in every state if its second is later than the stamp's. */
  lemma LaterOperationIsHarmless(s: System, a: Access.Accounts, op: Operation, gens: Sources)
    requires Sound(s.tables) && a.store == s.tables && !IsImport(op)
    requires StampedAt(op).Some? ==> StampedAt(op).value > StampOf(a.store)
    ensures Harmless(s, Change(After(a, op, gens).store))
  {
    match op
    case OnMenus(o) => MenuOperationStamps(a.store, o, gens.menus);
    case OnAccounts(o) => AccessOperationStamps(a, o, gens.accounts);
  }

  // ----- runs -----

  /** An operation, or a step of the loader. */
  datatype Event = Do(op: Operation, gens: Sources) | Load(step: Step)

  datatype Live = Live(accounts: Access.Accounts, sys: System)

  function Start(a: Access.Accounts): Live {
    Live(a, Boot(a.store))
  }

  ghost predicate CanHappen(l: Live, e: Event) {
    match e
    case Do(op, gens) => Allowed(l.accounts, op, gens)
    case Load(step) => !step.Change? && Enabled(l.sys, step)
  }

  /** What the loader sees of an event. */
  function StepOf(l: Live, e: Event): Step {
    match e
    case Do(op, gens) => Change(After(l.accounts, op, gens).store)
    case Load(step) => step
  }

  ghost function Happen(l: Live, e: Event): Live
    requires CanHappen(l, e)
  {
    match e
    case Do(op, gens) =>
      var a := After(l.accounts, op, gens);
      Live(a, l.sys.(tables := a.store))
    case Load(step) => l.(sys := Next(l.sys, step))
  }

  ghost function Perform(l: Live, events: seq<Event>): Option<Live>
    decreases |events|
  {
    if events == [] then Some(l)
    else if CanHappen(l, events[0]) then Perform(Happen(l, events[0]), events[1..])
    else None
  }

  ghost function StepsOf(l: Live, events: seq<Event>): seq<Step>
    requires Perform(l, events).Some?
    decreases |events|
  {
    if events == [] then []
    else [StepOf(l, events[0])] + StepsOf(Happen(l, events[0]), events[1..])
  }

  lemma EventIsStep(l: Live, e: Event)
    requires Ordered(l.sys) && l.accounts.store == l.sys.tables && CanHappen(l, e)
    ensures Enabled(l.sys, StepOf(l, e))
    ensures Happen(l, e).sys == Next(l.sys, StepOf(l, e))
    ensures Ordered(Happen(l, e).sys) && Happen(l, e).accounts.store == Happen(l, e).sys.tables
  {
    if e.Do? { OperationIsChange(l.sys, l.accounts, e.op, e.gens); }
    StepKeepsOrder(l.sys, StepOf(l, e));
  }

  /** Every run of operations and loader steps is a run of the protocol. */
  lemma {:induction false} RunIsExec(l: Live, events: seq<Event>)
    requires Ordered(l.sys) && l.accounts.store == l.sys.tables && Perform(l, events).Some?
    ensures Exec(l.sys, StepsOf(l, events)) == Some(Perform(l, events).value.sys)
    ensures Ordered(Perform(l, events).value.sys)
    ensures Perform(l, events).value.accounts.store == Perform(l, events).value.sys.tables
    decreases |events|
  {
    if events != [] {
      EventIsStep(l, events[0]);
      var next := Happen(l, events[0]);
      RunIsExec(next, events[1..]);
      var steps := StepsOf(l, events);
      assert steps[0] == StepOf(l, events[0]) && steps[1..] == StepsOf(next, events[1..]);
    }
  }

  /** No load has begun to read the stamp in place. */
  predicate Unread(s: System) {
    NotYetRead(s, s.tables)
  }

  /**
   What can be checked before an operation: a stamp will be later than the one it replaces; a file is imported while
   the stamp in place is unread, or is a quiet one.
   */
  ghost predicate Timely(l: Live, op: Operation) {
    if IsImport(op) then
      Unread(l.sys) || (Repeatable(op.menuOp.items) && QuietFile(l.accounts.store, op.menuOp.items))
    else
      StampedAt(op).Some? ==> StampedAt(op).value > StampOf(l.accounts.store)
  }

  ghost predicate Rising(l: Live, events: seq<Event>)
    requires Perform(l, events).Some?
    decreases |events|
  {
    events == [] ||
    ((events[0].Do? ==> Timely(l, events[0].op)) && Rising(Happen(l, events[0]), events[1..]))
  }

  lemma TimelyIsHarmless(l: Live, op: Operation, gens: Sources)
    requires Sound(l.sys.tables) && l.accounts.store == l.sys.tables && Timely(l, op)
    ensures Harmless(l.sys, Change(After(l.accounts, op, gens).store))
  {
    if IsImport(op) {
      var o := op.menuOp;
      ImportKeepsStamp(l.accounts, o.items, o.now, gens);
      if Repeatable(o.items) { QuietFileExactly(l.accounts.store, o.items, gens.menus, o.now); }
    } else {
      LaterOperationIsHarmless(l.sys, l.accounts, op, gens);
    }
  }

  lemma {:induction false} RisingIsHarmless(l: Live, events: seq<Event>)
    requires Ordered(l.sys) && l.accounts.store == l.sys.tables
    requires Perform(l, events).Some? && Rising(l, events)
    requires Exec(l.sys, StepsOf(l, events)).Some?
    ensures AllHarmless(l.sys, StepsOf(l, events))
    decreases |events|
  {
    if events != [] {
      EventIsStep(l, events[0]);
      var next := Happen(l, events[0]);
      var steps := StepsOf(l, events);
      assert steps[0] == StepOf(l, events[0]) && steps[1..] == StepsOf(next, events[1..]);
      if events[0].Do? { TimelyIsHarmless(l, events[0].op, events[0].gens); }
      RisingIsHarmless(next, events[1..]);
    }
  }

  /**
   In runs from start-up with rising stamps, and with imports only where the stamp is unread or the file is quiet, a
   loader that has caught up has the current policy.
   */
  lemma OperationsStayFresh(a: Access.Accounts, events: seq<Event>)
    requires Sound(a.store) && Perform(Start(a), events).Some? && Rising(Start(a), events)
    ensures var s := Perform(Start(a), events).value.sys;
            CaughtUp(s) ==> (Current(s) <==> PolicyOf(s.tables) != {})
  {
    RunIsExec(Start(a), events);
    RisingIsHarmless(Start(a), events);
    CaughtUpMeansFresh(a.store, StepsOf(Start(a), events));
  }

  /** The loader waits for a tick, has caught up, and has the current policy. */
  ghost predicate Rested(l: Live) {
    Ordered(l.sys) && l.accounts.store == l.sys.tables && l.sys.loader.Idle? && CaughtUp(l.sys) && Current(l.sys)
  }

  // ----- imports -----

  lemma ImportKeepsStamp(a: Access.Accounts, items: seq<FileItem>, now: int, gens: Sources)
    ensures After(a, OnMenus(MenuRuns.Import(items, now)), gens).store
        == ImportItems(a.store, items, None, gens.menus, now)
    ensures ImportItems(a.store, items, None, gens.menus, now).stamp == a.store.stamp
  {
    ImportOnlyAdds(a.store, items, None, gens.menus, now);
  }

  /** The import of a repeatable file is harmless exactly if the stamp in place is unread, or the file is quiet. */
  lemma ImportIsHarmless(s: System, a: Access.Accounts, items: seq<FileItem>, now: int, gens: Sources)
    requires Sound(s.tables) && a.store == s.tables && Repeatable(items)
    ensures Harmless(s, Change(ImportItems(a.store, items, None, gens.menus, now))) <==>
              Unread(s) || QuietFile(s.tables, items)
  {
    ImportKeepsStamp(a, items, now, gens);
    QuietFileExactly(a.store, items, gens.menus, now);
  }

  /**
   At start-up the import follows the first load. Without a stamp in the cache no tick reacts to it, and the
   policy is stale exactly if the import changed it; with a stamp the next tick loads again.
   */
  lemma StartUpImport(l: Live, items: seq<FileItem>, now: int, gens: Sources)
    requires Inv(l.sys) && l.accounts.store == l.sys.tables && l.sys.loader.Idle? && l.sys.lastUpdated == 0
    requires SafeItems(l.accounts.store, items, None, gens.menus, now)
    requires l.accounts.store.stamp.None? ==> Current(l.sys)
    ensures var e := Do(OnMenus(MenuRuns.Import(items, now)), gens);
            var t := ImportItems(l.accounts.store, items, None, gens.menus, now);
            && CanHappen(l, e)
            && (Enabled(Happen(l, e).sys, Poll) <==> l.accounts.store.stamp.Some?)
            && (l.accounts.store.stamp.Some? ==> Inv(Happen(l, e).sys))
            && (l.accounts.store.stamp.None? ==>
                  (Current(Happen(l, e).sys) <==> PolicyOf(t) == PolicyOf(l.accounts.store)))
  {
    var op := OnMenus(MenuRuns.Import(items, now));
    OperationIsChange(l.sys, l.accounts, op, gens);
    ImportKeepsStamp(l.accounts, items, now, gens);
    var t := After(l.accounts, op, gens).store;
    if l.accounts.store.stamp.Some? {
      StepKeepsInv(l.sys, Change(t));
    } else {
      UnnoticedExactly(l.sys, t);
    }
  }

  /**
   For every caught-up state in which an enabled role holds an enabled menu, a safe file that adds a missing rule
   leaves a policy that is stale until a later stamp is written.
   */
  lemma ImportCanStayUnnoticed(
      l: Live, roleID: string, g: string, verb: string, path: string, now: int, gens: Sources, later: seq<Step>)
    requires Rested(l)
    requires roleID in EnabledRoles(l.sys.tables) && Granted(l.sys.tables, roleID, g)
    requires Rule(roleID, path, verb) !in PolicyOf(l.sys.tables)
    ensures var e := Do(OnMenus(MenuRuns.Import(OneResource(l.sys.tables, g, verb, path), now)), gens);
            && CanHappen(l, e)
            && var n := Happen(l, e).sys;
               && CaughtUp(n) && !Current(n)
               && (Exec(n, later).Some? && NoLaterStamp(n, later) ==> Exec(n, later).value.loaded == l.sys.loaded)
  {
    var items := OneResource(l.sys.tables, g, verb, path);
    var op := OnMenus(MenuRuns.Import(items, now));
    ImportChangesPolicyUnstamped(l.sys.tables, roleID, g, verb, path, gens.menus, now);
    SafeFileIsSafe(l.sys.tables, items, None, gens.menus, now);
    OperationIsChange(l.sys, l.accounts, op, gens);
    ImportKeepsStamp(l.accounts, items, now, gens);
    var n := Happen(l, Do(op, gens)).sys;
    UnnoticedExactly(l.sys, n.tables);
    StepKeepsOrder(l.sys, Change(n.tables));
    if Exec(n, later).Some? && NoLaterStamp(n, later) { StaysUnnoticed(n, later); }
  }

  // ----- two operations in one second -----

  /** A new enabled role that holds an enabled menu with a resource changes the policy. */
  lemma NewRoleChangesPolicy(
      a: Access.Accounts, t: Access.Accounts, id: string, f: Access.RoleForm, now: int, i: nat, k: string)
    requires Access.RoleAdded(a, t, id, f, now) && f.status == ENABLED && i < |f.menus|
    requires f.menus[i].menuID in a.store.menus && a.store.menus[f.menus[i].menuID].status == ENABLED
    requires k in a.store.resources && a.store.resources[k].menuID == f.menus[i].menuID
    ensures PolicyOf(t.store) != PolicyOf(a.store) && PolicyOf(t.store) != {}
  {
    var g, r := f.menus[i].menuID, a.store.resources[k];
    assert GrantedToRole(t.store.roleMenus, id, g) && Granted(t.store, id, g);
    AttachedIsRule(t.store, id, g, r.verb, r.path);
    assert Rule(id, r.path, r.verb) !in PolicyOf(a.store);
  }

  /**
   In every caught-up state, an operation that changes the policy in the very second of the stamp goes unnoticed:
   the policy stays stale through everything that happens before a later stamp.
   */
  lemma SameSecondStaysUnnoticed(l: Live, op: Operation, gens: Sources, later: seq<Step>)
    requires Rested(l)
    requires Allowed(l.accounts, op, gens) && StampOf(After(l.accounts, op, gens).store) == StampOf(l.sys.tables)
    ensures var n := Happen(l, Do(op, gens)).sys;
            && !Enabled(n, Poll) && CaughtUp(n)
            && (Current(n) <==> PolicyOf(n.tables) == PolicyOf(l.sys.tables))
            && (Exec(n, later).Some? && NoLaterStamp(n, later) ==> Exec(n, later).value.loaded == l.sys.loaded)
  {
    OperationIsChange(l.sys, l.accounts, op, gens);
    var n := Happen(l, Do(op, gens)).sys;
    UnnoticedExactly(l.sys, n.tables);
    StepKeepsOrder(l.sys, Change(n.tables));
    if Exec(n, later).Some? && NoLaterStamp(n, later) { StaysUnnoticed(n, later); }
  }

  // ----- a run from empty tables that ends stale -----

  const NO_ACCOUNTS := Access.Accounts(EMPTY_STORE, map[], map[], map[])

  ghost predicate Leads(l: Live, m: Live) {
    exists events :: Perform(l, events) == Some(m)
  }

  lemma LeadsByEvent(l: Live, e: Event, m: Live)
    requires CanHappen(l, e) && Leads(Happen(l, e), m)
    ensures Leads(l, m)
  {
    var rest :| Perform(Happen(l, e), rest) == Some(m);
    var events := [e] + rest;
    assert events[1..] == rest;
    assert Perform(l, events) == Some(m);
  }

  lemma {:induction false} LeadsByLoading(l: Live, steps: seq<Step>, e: System, m: Live)
    requires Exec(l.sys, steps) == Some(e) && LoaderOnly(steps) && Leads(l.(sys := e), m)
    ensures Leads(l, m)
    decreases |steps|
  {
    if steps != [] {
      var next := Happen(l, Load(steps[0]));
      LeadsByLoading(next, steps[1..], e, m);
      LeadsByEvent(l, Load(steps[0]), m);
    }
  }

  /** From every live state whose loader can catch up, everything that can follow the catching up can follow. */
  lemma LeadsByCatchingUp(l: Live, e: System, m: Live)
    requires LoadsTo(l.sys, e) && Leads(l.(sys := e), m)
    ensures Leads(l, m)
  {
    var steps: seq<Step> :| Exec(l.sys, steps) == Some(e) && LoaderOnly(steps);
    LeadsByLoading(l, steps, e, m);
  }

  const PAGE := MenuForm("c", "n", "", 1, "page", "", "", ENABLED, "", [Resource("", "", "GET", "/x", 0, 0)])

  function HolderForm(code: string, menuID: string): Access.RoleForm {
    Access.RoleForm(code, code, "", 1, ENABLED, [RoleMenu("", "", menuID)])
  }

  lemma PageCreated(gens: Sources)
    ensures var a := After(NO_ACCOUNTS, OnMenus(MenuRuns.Create(PAGE, 1)), gens);
            var id := gens.menus(EMPTY_STORE);
            && id in a.store.menus && a.store.menus[id].status == ENABLED
            && a.store.roles == map[] && a.store.stamp == None && PathInv(a.store.menus)
            && exists k :: k in a.store.resources && a.store.resources[k].menuID == id
  {
    CreateKeepsPathInv(EMPTY_STORE, PAGE, gens.menus, 1);
    var t := After(NO_ACCOUNTS, OnMenus(MenuRuns.Create(PAGE, 1)), gens).store;
    assert |t.resources| == 1;
    var k :| k in t.resources;
    assert t.resources[k].menuID == gens.menus(EMPTY_STORE);
  }

  /** `op` creates a role that holds the menu, in second 1. */
  ghost predicate AddsHolder(op: Operation, code: string, menuID: string) {
    op == OnAccounts(Access.OpCreateRole(HolderForm(code, menuID), 1))
  }

  /** Menu `id` is enabled and has resource `k`. */
  ghost predicate IsPage(a: Access.Accounts, id: string, k: string) {
    && id in a.store.menus && a.store.menus[id].status == ENABLED
    && k in a.store.resources && a.store.resources[k].menuID == id
  }

  lemma HolderAdded(a: Access.Accounts, op: Operation, code: string, id: string, k: string, gens: Sources)
    requires AddsHolder(op, code, id) && IsPage(a, id, k) && !Access.ExistsRoleCode(a.store.roles, code)
    ensures var t := After(a, op, gens);
            && Access.RoleAdded(a, t, gens.accounts(a), HolderForm(code, id), 1)
            && PolicyOf(t.store) != PolicyOf(a.store) && PolicyOf(t.store) != {}
  {
    HolderApplied(a, op, code, id, gens);
    HolderGains(a, After(a, op, gens), gens.accounts(a), code, id, k);
  }

  lemma HolderApplied(a: Access.Accounts, op: Operation, code: string, id: string, gens: Sources)
    requires AddsHolder(op, code, id) && !Access.ExistsRoleCode(a.store.roles, code)
    ensures Access.RoleAdded(a, After(a, op, gens), gens.accounts(a), HolderForm(code, id), 1)
  {
    Access.CreateRoleEffect(a, HolderForm(code, id), gens.accounts, 1);
  }

  lemma HolderGains(a: Access.Accounts, t: Access.Accounts, roleID: string, code: string, id: string, k: string)
    requires Access.RoleAdded(a, t, roleID, HolderForm(code, id), 1) && IsPage(a, id, k)
    ensures PolicyOf(t.store) != PolicyOf(a.store) && PolicyOf(t.store) != {}
  {
    NewRoleChangesPolicy(a, t, roleID, HolderForm(code, id), 1, 0, k);
  }

  /** An operation in the second of the stamp that changes the policy ends the run. */
  lemma EndsStale(l: Live, op: Operation, gens: Sources) returns (m: Live)
    requires Rested(l)
    requires Allowed(l.accounts, op, gens) && StampOf(After(l.accounts, op, gens).store) == StampOf(l.sys.tables)
    requires PolicyOf(After(l.accounts, op, gens).store) != PolicyOf(l.sys.tables)
    requires PolicyOf(After(l.accounts, op, gens).store) != {}
    ensures Leads(l, m)
    ensures CaughtUp(m.sys) && PolicyOf(m.sys.tables) != {} && !Current(m.sys) && !Enabled(m.sys, Poll)
  {
    SameSecondStaysUnnoticed(l, op, gens, []);
    m := Happen(l, Do(op, gens));
    assert Perform(m, []) == Some(m);
    LeadsByEvent(l, Do(op, gens), m);
  }

  lemma HolderCodes(a: Access.Accounts, t: Access.Accounts, id: string, f: Access.RoleForm, code: string)
    requires Access.RoleAdded(a, t, id, f, 1) && a.store.roles == map[] && f.code != code
    ensures !Access.ExistsRoleCode(t.store.roles, code)
    ensures StampOf(t.store) == 1 && t.store.menus == a.store.menus && t.store.resources == a.store.resources
  {
  }

  /** One holder of a page is added and loaded, then another one is added. */
  lemma TwoHolders(l: Live, first: Operation, second: Operation, id: string, k: string, gens: Sources) returns (m: Live)
    requires Inv(l.sys) && l.accounts.store == l.sys.tables && IsPage(l.accounts, id, k)
    requires l.accounts.store.stamp == None && l.accounts.store.roles == map[]
    requires AddsHolder(first, "a", id) && AddsHolder(second, "b", id)
    ensures Leads(l, m)
    ensures CaughtUp(m.sys) && PolicyOf(m.sys.tables) != {} && !Current(m.sys) && !Enabled(m.sys, Poll)
  {
    var added := LiveAfter(l, first, gens);
    HolderAdded(l.accounts, first, "a", id, k, gens);
    HolderCodes(l.accounts, added.accounts, gens.accounts(l.accounts), HolderForm("a", id), "b");
    var e := CanCatchUp(added.sys);
    var loaded := added.(sys := e);
    HolderAdded(loaded.accounts, second, "b", id, k, gens);
    m := EndsStale(loaded, second, gens);
    LeadsByCatchingUp(added, e, m);
    LeadsByEvent(l, Do(first, gens), m);
  }

  /**
   Load; create a page; create a role that holds it; load; create a second such role in the same second: the
   loader has caught up with the stamp, and the policy lacks the second role.
   */
  lemma SomeRunEndsStale(gens: Sources)
    ensures exists m ::
              && Leads(Start(NO_ACCOUNTS), m)
              && CaughtUp(m.sys) && PolicyOf(m.sys.tables) != {} && !Current(m.sys) && !Enabled(m.sys, Poll)
  {
    var start := Start(NO_ACCOUNTS);
    var e := CanCatchUp(start.sys);
    var loaded := start.(sys := e);
    var op := OnMenus(MenuRuns.Create(PAGE, 1));
    PageCreated(gens);
    var paged := LiveAfter(loaded, op, gens);
    var id := gens.menus(EMPTY_STORE);
    var k :| k in paged.accounts.store.resources && paged.accounts.store.resources[k].menuID == id;
    var first := OnAccounts(Access.OpCreateRole(HolderForm("a", id), 1));
    var second := OnAccounts(Access.OpCreateRole(HolderForm("b", id), 1));
    var m := TwoHolders(paged, first, second, id, k, gens);
    LeadsByEvent(loaded, Do(op, gens), m);
    LeadsByCatchingUp(start, e, m);
  }

  /** An operation that the protocol finds harmless, done. */
  lemma LiveAfter(l: Live, op: Operation, gens: Sources) returns (m: Live)
    requires Inv(l.sys) && l.accounts.store == l.sys.tables && Allowed(l.accounts, op, gens) && !IsImport(op)
    requires StampedAt(op).Some? ==> StampedAt(op).value > StampOf(l.accounts.store)
    ensures m == Happen(l, Do(op, gens)) && Inv(m.sys) && m.accounts.store == m.sys.tables
  {
    m := Happen(l, Do(op, gens));
    OperationIsChange(l.sys, l.accounts, op, gens);
    LaterOperationIsHarmless(l.sys, l.accounts, op, gens);
    StepKeepsInv(l.sys, Change(m.sys.tables));
  }
}

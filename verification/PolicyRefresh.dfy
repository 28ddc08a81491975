/**
 The polling protocol that keeps the loaded policy up to date: tables change while the loader
 compares stamps and reads query by query. The clock behind the stamps gives whole seconds, so
 successive stamps may be equal.
 */
module PolicyRefresh {
  import opened Wrappers
  import opened Tables
  import opened MenuTree
  import opened MenuDal
  import opened Ancestors
  import opened Policy

  /** The role being read, between the query for its menus and the one for their resources. */
  datatype Visit = Visit(roleID: string, menuIDs: seq<string>)

  /**
   Where the loader is: waiting for a tick, started for the stamp value it read, or reading the
   roles it listed (`pending` are still to be read, `got` are the rules collected so far).
   */
  datatype Loader =
    | Idle
    | Started(updated: int)
    | Reading(updated: int, pending: set<string>, got: set<Rule>, visit: Option<Visit>)

  /**
   `tables.stamp` is the cached stamp; `loaded` is the enforcer's policy, if one was ever stored.
   The code's `lastUpdated` starts at 0 once the first load is done; `NOTHING_LOADED` stands for the time before.
   */
  datatype System = System(tables: Store, loader: Loader, loaded: Option<set<Rule>>, lastUpdated: int)

  const NOTHING_LOADED := -1

  datatype Step =
    | Change(t: Store)
    | Poll
    | ListRoles
    | ReadMenus(roleID: string, granted: seq<Menu>)   // `granted` in whatever order the query returns them
    | ReadResources
    | Finish
    | Fail

  function StampOf(s: Store): int {
    match s.stamp case None => 0 case Some(v) => v
  }

  /** Tables as the protocol needs them: paths agree with parent links, and a stamp is a positive number of seconds. */
  ghost predicate Sound(t: Store) {
    PathInv(t.menus) && (t.stamp.Some? ==> t.stamp.value > 0)
  }

  ghost function RoleRules(s: Store, roleID: string): set<Rule> {
    set k | k in RoleResources(s, roleID) :: Rule(roleID, s.resources[k].path, s.resources[k].verb)
  }

  /** The second query: the resources that the tables now attach to the menus found before. */
  function VisitRules(s: Store, v: Visit): set<Rule> {
    set k | k in AttachedTo(s.resources, v.menuIDs) :: Rule(v.roleID, s.resources[k].path, s.resources[k].verb)
  }

  /** A change of the tables may leave the stamp as it is; it never turns it back. */
  ghost predicate Enabled(s: System, step: Step) {
    match step
    case Change(t) => Sound(t) && StampOf(t) >= StampOf(s.tables)
    case Poll => s.loader.Idle? && s.tables.stamp.Some? && s.lastUpdated < s.tables.stamp.value
    case ListRoles => s.loader.Started?
    case ReadMenus(r, granted) =>
      && s.loader.Reading? && s.loader.visit.None? && r in s.loader.pending
      && Lists(granted, s.tables.menus, GrantedIds(s.tables, r))
    case ReadResources => s.loader.Reading? && s.loader.visit.Some?
    case Finish => s.loader.Reading? && s.loader.visit.None? && s.loader.pending == {}
    case Fail => !s.loader.Idle? && s.lastUpdated != NOTHING_LOADED  // a failing first load ends the program
  }

  function Next(s: System, step: Step): System
    requires Enabled(s, step)
  {
    match step
    case Change(t) => s.(tables := t)
    case Poll => s.(loader := Started(s.tables.stamp.value))
    case ListRoles => s.(loader := Reading(s.loader.updated, EnabledRoles(s.tables), {}, None))
    case ReadMenus(r, granted) => s.(loader := s.loader.(visit := Some(Visit(r, MenuIDs(granted, {})))))
    case ReadResources =>
      var v := s.loader.visit.value;
      s.(loader := s.loader.(
           pending := s.loader.pending - {v.roleID}, got := s.loader.got + VisitRules(s.tables, v), visit := None))
    case Finish =>
      s.(loader := Idle, lastUpdated := s.loader.updated,
         loaded := if s.loader.got != {} then Some(s.loader.got) else s.loaded)
    case Fail => s.(loader := Idle)
  }

  /** At start-up the first load runs before any stamp has been looked at. */
  function Boot(tables: Store): System {
    System(tables, Started(0), None, NOTHING_LOADED)
  }

  ghost function Exec(s: System, steps: seq<Step>): Option<System>
    decreases |steps|
  {
    if steps == [] then Some(s)
    else if Enabled(s, steps[0]) then Exec(Next(s, steps[0]), steps[1..])
    else None
  }

  /** The loader's last finished load was for the stamp that the tables have. */
  predicate CaughtUp(s: System) {
    s.lastUpdated == StampOf(s.tables)
  }

  // ----- what holds in every run, and what holds as long as changes are harmless -----

  ghost predicate Ordered(s: System) {
    && Sound(s.tables)
    && s.loaded != Some({})
    && NOTHING_LOADED <= s.lastUpdated <= StampOf(s.tables)
    && (s.loader.Idle? ==> s.lastUpdated >= 0)
    && (!s.loader.Idle? ==> s.lastUpdated < s.loader.updated <= StampOf(s.tables))
    && (s.loader.Reading? && s.loader.visit.Some? ==> s.loader.visit.value.roleID in s.loader.pending)
  }

  /** The rules of those enabled roles that have been read. */
  ghost predicate GotExactly(s: Store, pending: set<string>, got: set<Rule>) {
    && pending <= EnabledRoles(s)
    && (forall rule :: rule in got <==> rule.roleID in EnabledRoles(s) - pending && rule in RoleRules(s, rule.roleID))
  }

  ghost predicate VisitExact(s: Store, v: Visit) {
    forall x :: x in v.menuIDs <==> Reaches(s, v.roleID, x)
  }

  /** A load for the current stamp has read the current tables so far. */
  ghost predicate ReadCurrent(s: System) {
    s.loader.Reading? && s.loader.updated == StampOf(s.tables) ==>
      && GotExactly(s.tables, s.loader.pending, s.loader.got)
      && (s.loader.visit.Some? ==> VisitExact(s.tables, s.loader.visit.value))
  }

  ghost predicate Current(s: System) {
    s.loaded == Some(PolicyOf(s.tables))
  }

  ghost predicate Inv(s: System) {
    && Ordered(s)
    && ReadCurrent(s)
    && (CaughtUp(s) && PolicyOf(s.tables) != {} ==> Current(s))
  }

  /** The stamp that a change leaves behind is new, or no load for it has read anything yet. */
  predicate NotYetRead(s: System, t: Store) {
    || StampOf(t) > StampOf(s.tables)
    || (s.lastUpdated < StampOf(t) && !(s.loader.Reading? && s.loader.updated == StampOf(t)))
  }

  ghost predicate Harmless(s: System, step: Step) {
    step.Change? ==> NotYetRead(s, step.t) || SamePolicy(s.tables, step.t)
  }

  lemma PolicyIsAllRoleRules(s: Store, got: set<Rule>)
    requires GotExactly(s, {}, got)
    ensures got == PolicyOf(s)
  {
    forall rule ensures rule in got <==> rule in PolicyOf(s) {
      if rule in PolicyOf(s) {
        var r, k :| r in EnabledRoles(s) && k in RoleResources(s, r)
                    && rule == Rule(r, s.resources[k].path, s.resources[k].verb);
        assert rule in RoleRules(s, r);
      }
      if rule in got {
        assert rule in RoleRules(s, rule.roleID);
      }
    }
  }

  lemma SameRules(s: Store, t: Store, r: string)
    requires SamePolicy(s, t)
    ensures RoleRules(t, r) == RoleRules(s, r)
    ensures forall x :: Reaches(t, r, x) <==> Reaches(s, r, x)
  {
    assert SameShare(s, t, r);
  }

  lemma SamePolicySamePolicyOf(s: Store, t: Store)
    requires SamePolicy(s, t)
    ensures PolicyOf(t) == PolicyOf(s)
  {
    forall rule ensures rule in PolicyOf(t) <==> rule in PolicyOf(s) {
      InPolicy(s, rule);
      InPolicy(t, rule);
      SameRules(s, t, rule.roleID);
    }
  }

  lemma InPolicy(s: Store, rule: Rule)
    ensures rule in PolicyOf(s) <==> rule.roleID in EnabledRoles(s) && rule in RoleRules(s, rule.roleID)
  {
    if rule in RoleRules(s, rule.roleID) {
      var k :| k in RoleResources(s, rule.roleID)
          && rule == Rule(rule.roleID, s.resources[k].path, s.resources[k].verb);
    }
  }

  lemma SamePolicyReadCurrent(s: System, t: Store)
    requires SamePolicy(s.tables, t) && StampOf(t) == StampOf(s.tables) && ReadCurrent(s)
    ensures ReadCurrent(s.(tables := t))
  {
    forall r ensures RoleRules(t, r) == RoleRules(s.tables, r) { SameRules(s.tables, t, r); }
    if s.loader.Reading? && s.loader.updated == StampOf(t) && s.loader.visit.Some? {
      SameRules(s.tables, t, s.loader.visit.value.roleID);
      assert VisitExact(s.tables, s.loader.visit.value);
    }
  }

  lemma ReadKeepsExact(s: Store, pending: set<string>, got: set<Rule>, v: Visit)
    requires GotExactly(s, pending, got) && v.roleID in pending && VisitExact(s, v)
    ensures GotExactly(s, pending - {v.roleID}, got + VisitRules(s, v))
  {
    assert VisitRules(s, v) == RoleRules(s, v.roleID);
  }

  /** Whatever changes, stamps and phases stay in order, and only a finished load touches the policy. */
  lemma StepKeepsOrder(s: System, step: Step)
    requires Ordered(s) && Enabled(s, step)
    ensures Ordered(Next(s, step))
    ensures Next(s, step).lastUpdated >= s.lastUpdated
    ensures !step.Finish? ==> Next(s, step).lastUpdated == s.lastUpdated && Next(s, step).loaded == s.loaded
  {
  }

  lemma StepKeepsInv(s: System, step: Step)
    requires Inv(s) && Enabled(s, step) && Harmless(s, step)
    ensures Inv(Next(s, step))
  {
    StepKeepsOrder(s, step);
    match step
    case Change(t) =>
      if SamePolicy(s.tables, t) {
        SamePolicySamePolicyOf(s.tables, t);
        if StampOf(t) == StampOf(s.tables) { SamePolicyReadCurrent(s, t); }
      }
    case Poll =>
    case ListRoles =>
    case ReadMenus(r, granted) => CollectedAreReached(s.tables, r, granted);
    case ReadResources =>
      if s.loader.updated == StampOf(s.tables) {
        ReadKeepsExact(s.tables, s.loader.pending, s.loader.got, s.loader.visit.value);
      }
    case Finish =>
      if s.loader.updated == StampOf(s.tables) {
        PolicyIsAllRoleRules(s.tables, s.loader.got);
      }
    case Fail =>
  }

  /** Every change of the run is harmless where it happens. */
  ghost predicate AllHarmless(s: System, steps: seq<Step>)
    requires Exec(s, steps).Some?
    decreases |steps|
  {
    steps == [] || (Harmless(s, steps[0]) && AllHarmless(Next(s, steps[0]), steps[1..]))
  }

  lemma {:induction false} ExecKeepsInv(s: System, steps: seq<Step>)
    requires Inv(s) && Exec(s, steps).Some? && AllHarmless(s, steps)
    ensures Inv(Exec(s, steps).value)
    decreases |steps|
  {
    if steps != [] {
      StepKeepsInv(s, steps[0]);
      ExecKeepsInv(Next(s, steps[0]), steps[1..]);
    }
  }

  /**
   If no change happens under a stamp that a load has already begun to read, then whenever the loader has
   caught up the loaded policy is the one of the current tables - unless that one is empty, which is never
   stored. Two changes in one second are no trouble as such, and before the first stamp the same holds.
   */
  lemma CaughtUpMeansFresh(tables: Store, steps: seq<Step>)
    requires Sound(tables) && Exec(Boot(tables), steps).Some? && AllHarmless(Boot(tables), steps)
    ensures var s := Exec(Boot(tables), steps).value;
            CaughtUp(s) ==> (Current(s) <==> PolicyOf(s.tables) != {})
  {
    ExecKeepsInv(Boot(tables), steps);
  }

  /** A load that read the current stamp, and meets no further change, catches up when it finishes. */
  lemma UndisturbedLoadCatchesUp(s: System)
    requires Inv(s) && Enabled(s, Finish) && s.loader.updated == StampOf(s.tables)
    ensures CaughtUp(Next(s, Finish))
    ensures PolicyOf(s.tables) != {} ==> Current(Next(s, Finish))
  {
    StepKeepsInv(s, Finish);
  }

  lemma {:induction false} ExecKeepsOrder(s: System, steps: seq<Step>)
    requires Ordered(s) && Exec(s, steps).Some?
    ensures Ordered(Exec(s, steps).value) && Exec(s, steps).value.lastUpdated >= s.lastUpdated
    decreases |steps|
  {
    if steps != [] {
      StepKeepsOrder(s, steps[0]);
      ExecKeepsOrder(Next(s, steps[0]), steps[1..]);
    }
  }

  // ----- exactly when a change goes unnoticed -----

  /**
   In a state that has caught up with a fresh policy, a change leaves it in such a state or is noticed by the
   next tick, if and only if it brings a later stamp or does not change the policy.
   */
  lemma UnnoticedExactly(s: System, t: Store)
    requires Ordered(s) && s.loader.Idle? && CaughtUp(s) && Current(s) && Enabled(s, Change(t))
    ensures var n := Next(s, Change(t));
            && (Enabled(n, Poll) <==> StampOf(t) > StampOf(s.tables))
            && (CaughtUp(n) <==> StampOf(t) == StampOf(s.tables))
            && (Current(n) || Enabled(n, Poll) <==> NotYetRead(s, t) || PolicyOf(t) == PolicyOf(s.tables))
            && (Current(n) <==> PolicyOf(t) == PolicyOf(s.tables))
  {
  }

  /** No change of the run brings a later stamp. */
  ghost predicate NoLaterStamp(s: System, steps: seq<Step>)
    requires Exec(s, steps).Some?
    decreases |steps|
  {
    steps == [] ||
    ((steps[0].Change? ==> StampOf(steps[0].t) == StampOf(s.tables)) && NoLaterStamp(Next(s, steps[0]), steps[1..]))
  }

  /** Until a later stamp is written, a loader that has caught up does nothing at all. */
  lemma {:induction false} StaysUnnoticed(s: System, steps: seq<Step>)
    requires Ordered(s) && s.loader.Idle? && CaughtUp(s) && Exec(s, steps).Some? && NoLaterStamp(s, steps)
    ensures var e := Exec(s, steps).value;
            e.loader.Idle? && CaughtUp(e) && e.loaded == s.loaded && forall i :: 0 <= i < |steps| ==> steps[i].Change?
    decreases |steps|
  {
    if steps != [] {
      StepKeepsOrder(s, steps[0]);
      StaysUnnoticed(Next(s, steps[0]), steps[1..]);
    }
  }

  /** A later stamp makes up for whatever went unnoticed before it. */
  lemma LaterStampHeals(s: System, t: Store)
    requires Ordered(s) && Enabled(s, Change(t)) && StampOf(t) > StampOf(s.tables)
    ensures Inv(Next(s, Change(t)))
    ensures s.loader.Idle? ==> Enabled(Next(s, Change(t)), Poll)
  {
  }

  // ----- exactly what a load under way will store -----

  ghost function PendingRules(s: Store, pending: set<string>): set<Rule> {
    set r, k | r in pending && k in RoleResources(s, r) :: Rule(r, s.resources[k].path, s.resources[k].verb)
  }

  /** What has been read, and what is still to be read as the tables are now. */
  ghost function WillLoad(s: System): set<Rule>
    requires s.loader.Reading?
  {
    match s.loader.visit
    case None => s.loader.got + PendingRules(s.tables, s.loader.pending)
    case Some(v) => s.loader.got + VisitRules(s.tables, v) + PendingRules(s.tables, s.loader.pending - {v.roleID})
  }

  lemma PendingRulesOf(s: Store, pending: set<string>, r: string)
    requires r in pending
    ensures PendingRules(s, pending) == RoleRules(s, r) + PendingRules(s, pending - {r})
  {
  }

  lemma ReadKeepsWillLoad(s: System, step: Step)
    requires Ordered(s) && s.loader.Reading? && Enabled(s, step) && (step.ReadMenus? || step.ReadResources?)
    ensures WillLoad(Next(s, step)) == WillLoad(s)
  {
    match step
    case ReadMenus(r, granted) =>
      CollectedAreReached(s.tables, r, granted);
      PendingRulesOf(s.tables, s.loader.pending, r);
      assert VisitRules(s.tables, Visit(r, MenuIDs(granted, {}))) == RoleRules(s.tables, r);
    case ReadResources =>
  }

  /** The rest of a load: queries, in any order of roles, and the end. */
  predicate RestOfLoad(steps: seq<Step>) {
    steps != [] && steps[|steps| - 1] == Finish
    && forall i :: 0 <= i < |steps| - 1 ==> steps[i].ReadMenus? || steps[i].ReadResources?
  }

  lemma {:induction false} LoadStores(s: System, steps: seq<Step>)
    requires Ordered(s) && s.loader.Reading? && Exec(s, steps).Some? && RestOfLoad(steps)
    ensures var e := Exec(s, steps).value;
            e.tables == s.tables && e.loaded == if WillLoad(s) == {} then s.loaded else Some(WillLoad(s))
    decreases |steps|
  {
    if |steps| > 1 {
      StepKeepsOrder(s, steps[0]);
      ReadKeepsWillLoad(s, steps[0]);
      LoadStores(Next(s, steps[0]), steps[1..]);
    } else {
      assert steps[0] == Finish && steps[1..] == [];
      assert PendingRules(s.tables, s.loader.pending) == {};
      assert WillLoad(s) == s.loader.got;
      assert Exec(s, steps) == Some(Next(s, Finish));
    }
  }

  /**
   Whatever changed before or during a load, with whatever stamps: if nothing changes any more, the load ends with
   the current policy exactly if what it has read and will read makes up a policy that is current and not empty, or
   nothing at all while the policy stored before is current.
   */
  lemma DisturbedLoadExactly(s: System, t: Store, steps: seq<Step>)
    requires Ordered(s) && s.loader.Reading? && Enabled(s, Change(t))
    requires Exec(Next(s, Change(t)), steps).Some? && RestOfLoad(steps)
    ensures var n := Next(s, Change(t));
            Current(Exec(n, steps).value) <==>
              if WillLoad(n) == {} then s.loaded == Some(PolicyOf(t)) else WillLoad(n) == PolicyOf(t)
  {
    StepKeepsOrder(s, Change(t));
    LoadStores(Next(s, Change(t)), steps);
  }

  // ----- the loader can always catch up -----

  predicate LoaderOnly(steps: seq<Step>) {
    forall i :: 0 <= i < |steps| ==> !steps[i].Change?
  }

  /** `s` can become `e` by steps of the loader alone. */
  ghost predicate LoadsTo(s: System, e: System) {
    exists steps: seq<Step> :: Exec(s, steps) == Some(e) && LoaderOnly(steps)
  }

  lemma LoadStep(s: System, step: Step, e: System)
    requires Enabled(s, step) && !step.Change? && LoadsTo(Next(s, step), e)
    ensures LoadsTo(s, e)
  {
    var rest: seq<Step> :| Exec(Next(s, step), rest) == Some(e) && LoaderOnly(rest);
    var steps := [step] + rest;
    assert steps[1..] == rest;
    assert Exec(s, steps) == Some(e);
  }

  lemma LoadsToItself(s: System)
    ensures LoadsTo(s, s)
  {
    assert Exec(s, []) == Some(s);
  }

  /** A load under way, left alone, ends with its stamp as the last one. */
  lemma {:induction false} ReadingEnds(s: System) returns (e: System)
    requires Inv(s) && s.loader.Reading?
    ensures LoadsTo(s, e) && Inv(e) && e.tables == s.tables && e.loader.Idle? && e.lastUpdated == s.loader.updated
    decreases |s.loader.pending|, if s.loader.visit.None? then 1 else 0
  {
    if s.loader.visit.Some? {
      StepKeepsInv(s, ReadResources);
      var v := s.loader.visit.value;
      assert |s.loader.pending - {v.roleID}| < |s.loader.pending|;
      e := ReadingEnds(Next(s, ReadResources));
      LoadStep(s, ReadResources, e);
    } else if s.loader.pending == {} {
      StepKeepsInv(s, Finish);
      e := Next(s, Finish);
      LoadsToItself(e);
      LoadStep(s, Finish, e);
    } else {
      var r :| r in s.loader.pending;
      var granted := SomeListing(s.tables.menus, GrantedIds(s.tables, r));
      var step := ReadMenus(r, granted);
      StepKeepsInv(s, step);
      e := ReadingEnds(Next(s, step));
      LoadStep(s, step, e);
    }
  }

  lemma StartedEnds(s: System) returns (e: System)
    requires Inv(s) && s.loader.Started?
    ensures LoadsTo(s, e) && Inv(e) && e.tables == s.tables && e.loader.Idle? && e.lastUpdated == s.loader.updated
  {
    StepKeepsInv(s, ListRoles);
    e := ReadingEnds(Next(s, ListRoles));
    LoadStep(s, ListRoles, e);
  }

  lemma {:induction false} LoadsToTransitive(s: System, m: System, e: System)
    requires LoadsTo(s, m) && LoadsTo(m, e)
    ensures LoadsTo(s, e)
  {
    var steps: seq<Step> :| Exec(s, steps) == Some(m) && LoaderOnly(steps);
    LoadRun(s, steps, m, e);
  }

  lemma {:induction false} LoadRun(s: System, steps: seq<Step>, m: System, e: System)
    requires Exec(s, steps) == Some(m) && LoadsTo(m, e) && LoaderOnly(steps)
    ensures LoadsTo(s, e)
    decreases |steps|
  {
    if steps != [] {
      LoadRun(Next(s, steps[0]), steps[1..], m, e);
      LoadStep(s, steps[0], e);
    }
  }

  /** From wherever the loader is, and left alone, it can catch up, and then it has the current policy. */
  lemma CanCatchUp(s: System) returns (e: System)
    requires Inv(s)
    ensures LoadsTo(s, e) && Inv(e) && e.tables == s.tables && e.loader.Idle? && CaughtUp(e)
    ensures PolicyOf(e.tables) != {} ==> Current(e)
  {
    if s.loader.Idle? {
      e := s;
      LoadsToItself(s);
    } else if s.loader.Started? {
      e := StartedEnds(s);
    } else {
      e := ReadingEnds(s);
    }
    if !CaughtUp(e) {
      var idle := e;
      StepKeepsInv(idle, Poll);
      e := StartedEnds(Next(idle, Poll));
      LoadStep(idle, Poll, e);
      LoadsToTransitive(s, idle, e);
    }
  }
}

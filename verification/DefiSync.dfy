/**
 The life of a sync run under the try-lock, with any number of concurrent callers, failing
 sources, transactions and status writes.
 */
module DefiSync {
  import opened Wrappers
  import opened DefiDataset
  import Repo = DefiRepository

  datatype Status = Running | Succeeded | Failed

  datatype SyncRun = SyncRun(status: Status, readCount: nat, writtenCount: nat, finishedAt: Option<int>)

  type Caller = nat

  /**
   Where a caller is in `Sync`: outside; past the lock; with the source's answer (a dataset, or none on
   failure); with the protocol row; with its run row inserted; or with the final values of its run in
   memory, about to be written.
   */
  datatype Phase =
    | Outside
    | Locked
    | Loaded(source: Option<Dataset>)
    | Ensured(source: Option<Dataset>, protocolID: string)
    | Created(id: string, source: Option<Dataset>, protocolID: string)
    | Closing(id: string, final: SyncRun)

  /** A transaction that was begun, for the run with the given id. */
  datatype Attempt = Attempt(id: string, run: Repo.Run)

  /**
   `lost` collects the runs whose final status write failed, `log` the transactions in the order in which they were
   begun under the lock.
   */
  datatype System = System(
    lock: Option<Caller>, phases: map<Caller, Phase>, runs: map<string, SyncRun>, lost: set<string>,
    tables: Repo.Tables, log: seq<Attempt>)

  datatype Step =
    | TryLock(c: Caller)
    | Load(c: Caller, source: Option<Dataset>)
    | Ensure(c: Caller, ok: bool, gen: Repo.IdSource)
    | CreateRun(c: Caller, id: string, ok: bool)
    | ApplyDataset(c: Caller, fails: nat -> bool, gen: Repo.IdSource, now: int)   // `fails`: the statements rejected
    | UpdateRun(c: Caller, ok: bool)

  function PhaseOf(s: System, c: Caller): Phase {
    if c in s.phases then s.phases[c] else Outside
  }

  const INIT := System(None, map[], map[], {}, Repo.EMPTY, [])

  predicate Enabled(s: System, step: Step) {
    match step
    case TryLock(c) => PhaseOf(s, c).Outside?
    case Load(c, source) => PhaseOf(s, c).Locked?
    case Ensure(c, ok, gen) => PhaseOf(s, c).Loaded?
    case CreateRun(c, id, ok) => PhaseOf(s, c).Ensured? && id !in s.runs
    case ApplyDataset(c, fails, gen, now) => PhaseOf(s, c).Created?
    case UpdateRun(c, ok) => PhaseOf(s, c).Closing?
  }

  /**
   The values a run ends with. Without a dataset the transaction is not even begun and the run fails; a run that
   succeeds takes over the count that the transaction returned, one that fails does not.
   */
  ghost function FinalRun(source: Option<Dataset>, fails: nat -> bool, now: int): SyncRun {
    if source.None? then SyncRun(Failed, 0, 0, Some(now))
    else
      var read := |source.value.reserves|;
      if Repo.Accepted(source.value, fails) then SyncRun(Succeeded, read, Repo.BeforeFault(fails, read), Some(now))
      else SyncRun(Failed, read, 0, Some(now))
  }

  /** The protocol row that a call works under, inserted if it is missing. */
  function ProtocolFor(t: Repo.Tables, source: Option<Dataset>, gen: Repo.IdSource): (Repo.Tables, Repo.Protocol) {
    Repo.EnsureProtocol(t, "", source.Some? && source.value.source == "demo", gen)
  }

  /** The transaction, if there is a dataset: begun, and committed if the database accepts it. */
  ghost function Transact(
      s: System, id: string, source: Option<Dataset>, protocolID: string, fails: nat -> bool, gen: Repo.IdSource,
      now: int)
    : System
  {
    if source.None? then s
    else
      var run := Repo.Run(protocolID, source.value, Repo.Accepted(source.value, fails), gen, now);
      s.(log := s.log + [Attempt(id, run)],
         tables := if run.committed then Repo.ApplyDataset(s.tables, protocolID, source.value, gen, now) else s.tables)
  }

  function Leave(s: System, c: Caller): System {
    s.(lock := None, phases := s.phases[c := Outside])
  }

  ghost function Next(s: System, step: Step): System
    requires Enabled(s, step)
  {
    match step
    case TryLock(c) =>
      // a caller that finds the lock taken returns a conflict and changes nothing
      if s.lock.None? then s.(lock := Some(c), phases := s.phases[c := Locked]) else s
    case Load(c, source) => s.(phases := s.phases[c := Loaded(source)])
    case Ensure(c, ok, gen) =>
      var source := PhaseOf(s, c).source;
      var (t, p) := ProtocolFor(s.tables, source, gen);
      if ok then s.(tables := t, phases := s.phases[c := Ensured(source, p.id)]) else Leave(s, c)
    case CreateRun(c, id, ok) =>
      if ok then
        s.(runs := s.runs[id := SyncRun(Running, 0, 0, None)],
           phases := s.phases[c := Created(id, PhaseOf(s, c).source, PhaseOf(s, c).protocolID)])
      else Leave(s, c)
    case ApplyDataset(c, fails, gen, now) =>
      var Created(id, source, protocolID) := PhaseOf(s, c);
      Transact(s, id, source, protocolID, fails, gen, now).(
        phases := s.phases[c := Closing(id, FinalRun(source, fails, now))])
    case UpdateRun(c, ok) =>
      var Closing(id, final) := PhaseOf(s, c);
      if ok then Leave(s.(runs := s.runs[id := final]), c) else Leave(s.(lost := s.lost + {id}), c)
  }

  ghost function Exec(s: System, steps: seq<Step>): Option<System>
    decreases |steps|
  {
    if |steps| == 0 then Some(s)
    else if Enabled(s, steps[0]) then Exec(Next(s, steps[0]), steps[1..])
    else None
  }

  /** The run that caller `c` has open. */
  function Open(s: System, c: Caller): set<string> {
    match PhaseOf(s, c)
    case Created(id, _, _) => {id}
    case Closing(id, _) => {id}
    case _ => {}
  }

  function OpenRuns(s: System): set<string> {
    if s.lock.None? then {} else Open(s, s.lock.value)
  }

  function RunningRuns(s: System): set<string> {
    set id | id in s.runs && s.runs[id].status == Running
  }

  predicate RunOk(r: SyncRun) {
    match r.status
    case Running => r.writtenCount == 0 && r.finishedAt.None?
    case Succeeded => r.writtenCount == r.readCount && r.finishedAt.Some?
    case Failed => r.writtenCount == 0 && r.finishedAt.Some?
  }

  ghost predicate Inv(s: System) {
    && (forall c: Caller :: PhaseOf(s, c) != Outside ==> s.lock == Some(c))
    && (forall id :: id in s.runs ==> RunOk(s.runs[id]))
    && (forall c: Caller :: PhaseOf(s, c).Closing? ==>
        RunOk(PhaseOf(s, c).final) && PhaseOf(s, c).final.status != Running)
    && RunningRuns(s) == OpenRuns(s) + s.lost
    && OpenRuns(s) !! s.lost
  }

  /** An accepted transaction has counted every reserve. */
  lemma FinalIsOk(source: Option<Dataset>, fails: nat -> bool, now: int)
    ensures RunOk(FinalRun(source, fails, now)) && FinalRun(source, fails, now).status != Running
    ensures FinalRun(source, fails, now) ==
              if source.None? then SyncRun(Failed, 0, 0, Some(now))
              else if Repo.Accepted(source.value, fails) then
                SyncRun(Succeeded, |source.value.reserves|, |source.value.reserves|, Some(now))
              else SyncRun(Failed, |source.value.reserves|, 0, Some(now))
  {
  }

  lemma StepKeepsInv(s: System, step: Step)
    requires Inv(s) && Enabled(s, step)
    ensures Inv(Next(s, step))
  {
    var t := Next(s, step);
    match step
    case TryLock(c) =>
    case Load(c, source) =>
    case Ensure(c, ok, gen) =>
    case CreateRun(c, id, ok) =>
      assert id !in RunningRuns(s);
    case ApplyDataset(c, fails, gen, now) => FinalIsOk(PhaseOf(s, c).source, fails, now);
    case UpdateRun(c, ok) =>
      assert PhaseOf(s, c).id in OpenRuns(s);
  }

  lemma {:induction false} ExecKeepsInv(s: System, steps: seq<Step>)
    requires Inv(s) && Exec(s, steps).Some?
    ensures Inv(Exec(s, steps).value)
    decreases |steps|
  {
    if |steps| != 0 {
      StepKeepsInv(s, steps[0]);
      ExecKeepsInv(Next(s, steps[0]), steps[1..]);
    }
  }

  /** However callers interleave, at most one of them is past the try-lock. */
  lemma AtMostOneInside(steps: seq<Step>, c: Caller, d: Caller)
    requires Exec(INIT, steps).Some?
    requires PhaseOf(Exec(INIT, steps).value, c) != Outside && PhaseOf(Exec(INIT, steps).value, d) != Outside
    ensures c == d
  {
    InitInv();
    ExecKeepsInv(INIT, steps);
  }

  lemma InitInv()
    ensures Inv(INIT)
  {
    assert RunningRuns(INIT) == {};
  }

  /** The rows in status running are the lock holder's, if it has one open, and those whose final write failed. */
  lemma RunningRowsAreAccountedFor(steps: seq<Step>)
    requires Exec(INIT, steps).Some?
    ensures var s := Exec(INIT, steps).value;
            && RunningRuns(s) == OpenRuns(s) + s.lost
            && |RunningRuns(s)| == |OpenRuns(s)| + |s.lost|
            && |OpenRuns(s)| <= 1
  {
    InitInv();
    ExecKeepsInv(INIT, steps);
    var s := Exec(INIT, steps).value;
    DisjointCards(OpenRuns(s), s.lost);
    if s.lock.Some? {
      match PhaseOf(s, s.lock.value)
      case Created(id, _, _) => assert OpenRuns(s) == {id};
      case Closing(id, _) => assert OpenRuns(s) == {id};
      case _ => assert OpenRuns(s) == {};
    }
  }

  lemma DisjointCards(a: set<string>, b: set<string>)
    requires a !! b
    ensures |a + b| == |a| + |b|
  {
  }

  /** Rows say what happened: all written and finished, or nothing written and finished, or still open. */
  lemma RunsTellTheTruth(steps: seq<Step>, id: string)
    requires Exec(INIT, steps).Some? && id in Exec(INIT, steps).value.runs
    ensures RunOk(Exec(INIT, steps).value.runs[id])
  {
    InitInv();
    ExecKeepsInv(INIT, steps);
  }

  /** A row starts running, leaves that status at most once, and is final from then on. */
  lemma {:induction false} RunsLeaveRunningOnce(s: System, steps: seq<Step>, id: string)
    requires Inv(s) && Exec(s, steps).Some?
    ensures id in s.runs ==> id in Exec(s, steps).value.runs
    ensures id in s.runs && s.runs[id].status != Running ==> Exec(s, steps).value.runs[id] == s.runs[id]
    ensures id in s.lost ==> id in Exec(s, steps).value.lost && id in RunningRuns(Exec(s, steps).value)
    decreases |steps|
  {
    if |steps| != 0 {
      var t := Next(s, steps[0]);
      StepKeepsInv(s, steps[0]);
      if steps[0].UpdateRun? {
        assert PhaseOf(s, steps[0].c).id in OpenRuns(s);
        assert PhaseOf(s, steps[0].c).id in RunningRuns(s);
      }
      RunsLeaveRunningOnce(t, steps[1..], id);
    } else {
      assert id in s.lost ==> id in RunningRuns(s);
    }
  }

  /** A row that a step creates is running, and only its creation adds a row. */
  lemma NewRowsRun(s: System, step: Step, id: string)
    requires Inv(s) && Enabled(s, step) && id !in s.runs && id in Next(s, step).runs
    ensures step.CreateRun? && step.id == id && Next(s, step).runs[id] == SyncRun(Running, 0, 0, None)
  {
    assert OpenRuns(s) <= RunningRuns(s) <= s.runs.Keys;
  }

  /** The lock is never left behind: a caller that is inside can always go on, and it leaves within five steps. */
  function StepsLeft(p: Phase): nat {
    match p
    case Outside => 0
    case Locked => 5
    case Loaded(_) => 4
    case Ensured(_, _) => 3
    case Created(_, _, _) => 2
    case Closing(_, _) => 1
  }

  lemma LockIsReleased(s: System, step: Step)
    requires Inv(s) && s.lock.Some? && Enabled(s, step)
    ensures step.TryLock? ==> Next(s, step) == s
    ensures !step.TryLock? ==>
              var holder := s.lock.value;
              && step.c == holder
              && StepsLeft(PhaseOf(Next(s, step), holder)) < StepsLeft(PhaseOf(s, holder))
              && (StepsLeft(PhaseOf(Next(s, step), holder)) == 0 <==> Next(s, step).lock.None?)
  {
    if !step.TryLock? { assert PhaseOf(s, step.c) != Outside; }
  }

  // ----- the tables are the fold of what was committed -----

  function RunsOf(log: seq<Attempt>): (runs: seq<Repo.Run>)
    ensures |runs| == |log| && forall i :: 0 <= i < |log| ==> runs[i] == log[i].run
  {
    seq(|log|, i requires 0 <= i < |log| => log[i].run)
  }

  predicate Logged(s: System, id: string) {
    exists i :: 0 <= i < |s.log| && s.log[i].id == id
  }

  predicate Committed(s: System, id: string) {
    exists i :: 0 <= i < |s.log| && s.log[i].id == id && s.log[i].run.committed
  }

  predicate UnderProtocol(s: System, protocolID: string) {
    Repo.SLUG in s.tables.protocols && s.tables.protocols[Repo.SLUG].id == protocolID
  }

  /** What the tables hold, and under which protocol row. */
  ghost predicate IsFold(s: System) {
    && s.tables == Repo.Replay(RunsOf(s.log), s.tables.protocols)
    && (forall i :: 0 <= i < |s.log| ==> UnderProtocol(s, s.log[i].run.protocolID))
    && (forall c: Caller :: CallerUnderProtocol(s, c))
  }

  predicate CallerUnderProtocol(s: System, c: Caller) {
    match PhaseOf(s, c)
    case Ensured(_, protocolID) => UnderProtocol(s, protocolID)
    case Created(_, _, protocolID) => UnderProtocol(s, protocolID)
    case _ => true
  }

  lemma ReplaySnoc(log: seq<Attempt>, a: Attempt, ps: Repo.Protocols)
    ensures var t := Repo.Replay(RunsOf(log), ps);
            Repo.Replay(RunsOf(log + [a]), ps) ==
              if a.run.committed then Repo.ApplyDataset(t, a.run.protocolID, a.run.dataset, a.run.gen, a.run.now) else t
  {
    var runs := RunsOf(log + [a]);
    assert runs[..|runs| - 1] == RunsOf(log);
  }

  lemma ProtocolsStay(t: Repo.Tables, protocolID: string, d: Dataset, gen: Repo.IdSource, now: int)
    requires Repo.Inv(t)
    ensures Repo.ApplyDataset(t, protocolID, d, gen, now).protocols == t.protocols
  {
    Repo.DatasetAt(t, protocolID, d, gen, now, ("", ""), 0);
  }

  lemma TransactKeepsFold(
      s: System, id: string, source: Option<Dataset>, protocolID: string, fails: nat -> bool, gen: Repo.IdSource,
      now: int)
    requires s.tables == Repo.Replay(RunsOf(s.log), s.tables.protocols)
    ensures var t := Transact(s, id, source, protocolID, fails, gen, now);
            t.tables == Repo.Replay(RunsOf(t.log), t.tables.protocols) && t.tables.protocols == s.tables.protocols
  {
    if source.Some? {
      var t := Transact(s, id, source, protocolID, fails, gen, now);
      ReplaySnoc(s.log, t.log[|s.log|], s.tables.protocols);
      Repo.NoOrphans(RunsOf(s.log), s.tables.protocols);
      ProtocolsStay(s.tables, protocolID, source.value, gen, now);
    }
  }

  lemma EnsureKeepsFold(s: System, source: Option<Dataset>, gen: Repo.IdSource)
    requires s.tables == Repo.Replay(RunsOf(s.log), s.tables.protocols)
    requires forall i :: 0 <= i < |s.log| ==> UnderProtocol(s, s.log[i].run.protocolID)
    ensures var t := ProtocolFor(s.tables, source, gen).0;
            t == Repo.Replay(RunsOf(s.log), t.protocols) && (Repo.SLUG in s.tables.protocols ==> t == s.tables)
  {
    if |s.log| > 0 { assert UnderProtocol(s, s.log[0].run.protocolID); }
  }

  /** The tables of the next state are the fold of its log, and a protocol row once there stays. */
  lemma StepKeepsTables(s: System, step: Step)
    requires IsFold(s) && Enabled(s, step)
    ensures var t := Next(s, step);
            t.tables == Repo.Replay(RunsOf(t.log), t.tables.protocols)
    ensures forall protocolID :: UnderProtocol(s, protocolID) ==> UnderProtocol(Next(s, step), protocolID)
  {
    match step
    case Ensure(c, ok, gen) => EnsureKeepsFold(s, PhaseOf(s, c).source, gen);
    case ApplyDataset(c, fails, gen, now) =>
      var Created(id, source, protocolID) := PhaseOf(s, c);
      TransactKeepsFold(s, id, source, protocolID, fails, gen, now);
    case _ =>
  }

  lemma EnsuredUnderProtocol(s: System, step: Step)
    requires step.Ensure? && Enabled(s, step) && step.ok
    ensures CallerUnderProtocol(Next(s, step), step.c)
  {
  }

  lemma StepKeepsFold(s: System, step: Step)
    requires IsFold(s) && Enabled(s, step)
    ensures IsFold(Next(s, step))
  {
    StepKeepsTables(s, step);
    LogStaysUnderProtocol(s, step);
    forall c: Caller ensures CallerUnderProtocol(Next(s, step), c) {
      CallerStaysUnderProtocol(s, step, c);
    }
  }

  lemma LogStaysUnderProtocol(s: System, step: Step)
    requires IsFold(s) && Enabled(s, step)
    ensures var t := Next(s, step);
            forall i :: 0 <= i < |t.log| ==> UnderProtocol(t, t.log[i].run.protocolID)
  {
    var t := Next(s, step);
    StepKeepsTables(s, step);
    assert CallerUnderProtocol(s, step.c);
    forall i | 0 <= i < |t.log| ensures UnderProtocol(t, t.log[i].run.protocolID) {
      if i < |s.log| { assert t.log[i] == s.log[i]; }
    }
  }

  lemma CallerStaysUnderProtocol(s: System, step: Step, c: Caller)
    requires IsFold(s) && Enabled(s, step)
    ensures CallerUnderProtocol(Next(s, step), c)
  {
    StepKeepsTables(s, step);
    assert CallerUnderProtocol(s, c);
    if c == step.c && step.Ensure? && step.ok { EnsuredUnderProtocol(s, step); }
  }

  /** Which runs committed is what their rows say, or will say, unless that write is lost. */
  ghost predicate RowsMatchLog(s: System) {
    && (forall i, j :: 0 <= i < j < |s.log| ==> s.log[i].id != s.log[j].id)
    && (forall i :: 0 <= i < |s.log| ==> s.log[i].id in s.runs)
    && (forall id :: id in s.runs && s.runs[id].status != Running ==> RowMatches(s, id, s.runs[id]))
    && (forall c: Caller :: CallerMatchesLog(s, c))
  }

  /** The values of a finished run are those of its transaction, if it began one. */
  ghost predicate RowMatches(s: System, id: string, r: SyncRun) {
    && (r.status == Succeeded <==> Committed(s, id))
    && (forall i :: 0 <= i < |s.log| && s.log[i].id == id ==>
          && r.readCount == |s.log[i].run.dataset.reserves|
          && r.writtenCount == if s.log[i].run.committed then |s.log[i].run.dataset.reserves| else 0)
    && (!Logged(s, id) ==> r.readCount == 0 && r.writtenCount == 0)
  }

  ghost predicate CallerMatchesLog(s: System, c: Caller) {
    match PhaseOf(s, c)
    case Created(id, _, _) => !Logged(s, id) && id in s.runs
    case Closing(id, final) => id in s.runs && RowMatches(s, id, final)
    case _ => true
  }

  lemma CommittedIsLogged(s: System, id: string)
    ensures Committed(s, id) ==> Logged(s, id)
  {
  }

  /** What one more transaction does to the log. */
  lemma LogGrows(s: System, t: System, a: Attempt)
    requires t.log == s.log + [a]
    ensures forall id :: Logged(t, id) <==> Logged(s, id) || id == a.id
    ensures forall id :: Committed(t, id) <==> Committed(s, id) || (id == a.id && a.run.committed)
  {
    assert t.log[|s.log|] == a;
    forall id | Logged(s, id) ensures Logged(t, id) {
      var i :| 0 <= i < |s.log| && s.log[i].id == id;
      assert t.log[i].id == id;
    }
    forall id | Committed(s, id) ensures Committed(t, id) {
      var i :| 0 <= i < |s.log| && s.log[i].id == id && s.log[i].run.committed;
      assert t.log[i].id == id;
    }
  }

  lemma StepKeepsRowsMatchLog(s: System, step: Step)
    requires Inv(s) && RowsMatchLog(s) && Enabled(s, step)
    ensures RowsMatchLog(Next(s, step))
  {
    if step.ApplyDataset? {
      ApplyKeepsRowsMatchLog(s, step);
    } else {
      OtherStepKeepsRows(s, step);
    }
  }

  lemma OtherStepKeepsRows(s: System, step: Step)
    requires RowsMatchLog(s) && !step.ApplyDataset? && Enabled(s, step)
    ensures RowsMatchLog(Next(s, step))
  {
    var t := Next(s, step);
    SameLog(s, t);
    forall id | id in t.runs && t.runs[id].status != Running ensures RowMatches(t, id, t.runs[id]) {
      assert CallerMatchesLog(s, step.c);
    }
    forall c: Caller ensures CallerMatchesLog(t, c) { OtherStepKeepsCaller(s, step, c); }
  }

  lemma OtherStepKeepsCaller(s: System, step: Step, c: Caller)
    requires RowsMatchLog(s) && !step.ApplyDataset? && Enabled(s, step)
    ensures CallerMatchesLog(Next(s, step), c)
  {
    SameLog(s, Next(s, step));
    assert CallerMatchesLog(s, c);
    if step.CreateRun? { assert !Logged(s, step.id); }
  }

  lemma SameLog(s: System, t: System)
    requires t.log == s.log
    ensures forall id :: Committed(t, id) == Committed(s, id) && Logged(t, id) == Logged(s, id)
  {
  }

  lemma ApplyKeepsRowsMatchLog(s: System, step: Step)
    requires Inv(s) && RowsMatchLog(s) && step.ApplyDataset? && Enabled(s, step)
    ensures RowsMatchLog(Next(s, step))
  {
    var t, id := Next(s, step), PhaseOf(s, step.c).id;
    assert CallerMatchesLog(s, step.c);
    assert id in OpenRuns(s);
    assert id in RunningRuns(s);
    forall k | k in t.runs && t.runs[k].status != Running ensures RowMatches(t, k, t.runs[k]) {
      OtherEntriesStay(s, t, id, k);
    }
    forall c: Caller ensures CallerMatchesLog(t, c) {
      if c == step.c { AppliedCallerMatches(s, step); } else { assert PhaseOf(s, c).Outside?; }
    }
    NewEntryIsDistinct(s, t, id);
  }

  /** A transaction for run `id` says nothing about another run. */
  lemma OtherEntriesStay(s: System, t: System, id: string, k: string)
    requires t.log == s.log || (|t.log| == |s.log| + 1 && t.log[..|s.log|] == s.log && t.log[|s.log|].id == id)
    requires k != id
    ensures Committed(t, k) == Committed(s, k) && Logged(t, k) == Logged(s, k)
    ensures forall r :: RowMatches(s, k, r) ==> RowMatches(t, k, r)
  {
    assert forall i :: 0 <= i < |s.log| ==> t.log[i] == s.log[i];
    if i :| 0 <= i < |s.log| && s.log[i].id == k { assert t.log[i].id == k; }
  }

  lemma AppliedCallerMatches(s: System, step: Step)
    requires CallerMatchesLog(s, step.c) && step.ApplyDataset? && Enabled(s, step)
    ensures CallerMatchesLog(Next(s, step), step.c)
  {
    var t, id := Next(s, step), PhaseOf(s, step.c).id;
    CommittedIsLogged(s, id);
    if PhaseOf(s, step.c).source.Some? { LogGrows(s, t, t.log[|s.log|]); }
  }

  lemma NewEntryIsDistinct(s: System, t: System, id: string)
    requires t.log == s.log || (|t.log| == |s.log| + 1 && t.log[..|s.log|] == s.log && t.log[|s.log|].id == id)
    requires !Logged(s, id) && forall i, j :: 0 <= i < j < |s.log| ==> s.log[i].id != s.log[j].id
    ensures forall i, j :: 0 <= i < j < |t.log| ==> t.log[i].id != t.log[j].id
  {
    forall i, j | 0 <= i < j < |t.log| ensures t.log[i].id != t.log[j].id {
      assert i < |s.log| ==> t.log[i] == s.log[i];
      assert j < |s.log| ==> t.log[j] == s.log[j];
    }
  }

  lemma {:induction false} ExecKeepsFold(s: System, steps: seq<Step>)
    requires Inv(s) && IsFold(s) && RowsMatchLog(s) && Exec(s, steps).Some?
    ensures IsFold(Exec(s, steps).value) && RowsMatchLog(Exec(s, steps).value)
    decreases |steps|
  {
    if |steps| > 0 {
      StepKeepsInv(s, steps[0]);
      StepKeepsFold(s, steps[0]);
      StepKeepsRowsMatchLog(s, steps[0]);
      ExecKeepsFold(Next(s, steps[0]), steps[1..]);
    }
  }

  /**
   However callers interleave, the tables are the fold, in lock order, of the transactions that committed, and these
   are the transactions of the runs whose rows say succeeded, of the run about to be closed as such, and of some runs
   whose status write was lost.
   */
  lemma TablesAreTheFold(steps: seq<Step>)
    requires Exec(INIT, steps).Some?
    ensures var s := Exec(INIT, steps).value;
            && s.tables == Repo.Replay(RunsOf(s.log), s.tables.protocols)
            && (forall i, j :: 0 <= i < j < |s.log| ==> s.log[i].id != s.log[j].id)
            && (forall id :: id in s.runs && s.runs[id].status == Succeeded ==> Committed(s, id))
            && (forall i :: 0 <= i < |s.log| && s.log[i].id in s.runs && s.runs[s.log[i].id].status != Running ==>
                  var r := s.runs[s.log[i].id];
                  && r.readCount == |s.log[i].run.dataset.reserves|
                  && r.writtenCount == if r.status == Succeeded then r.readCount else 0)
            && (forall id :: id in s.runs && s.runs[id].status != Running && !Logged(s, id) ==>
                  s.runs[id].status == Failed && s.runs[id].readCount == 0 && s.runs[id].writtenCount == 0)
            && (forall id :: Committed(s, id) ==>
                  id in s.runs && (s.runs[id].status == Succeeded || id in OpenRuns(s) + s.lost))
  {
    InitInv();
    ExecKeepsInv(INIT, steps);
    ExecKeepsFold(INIT, steps);
    var s := Exec(INIT, steps).value;
    forall id | id in s.runs && s.runs[id].status != Running
      ensures RowMatches(s, id, s.runs[id]) && (!Logged(s, id) ==> s.runs[id].status == Failed)
    {
      CommittedIsLogged(s, id);
    }
    forall id | Committed(s, id) ensures id in s.runs
        && (s.runs[id].status == Succeeded || id in OpenRuns(s) + s.lost) {
      if s.runs[id].status == Running { assert id in RunningRuns(s); }
    }
  }

  /** So each row of a market holds the last metric that was committed for it, whoever committed it. */
  lemma MarketsHoldTheLastCommit(steps: seq<Step>, r: Repo.ReserveKey)
    requires Exec(INIT, steps).Some?
    ensures var s := Exec(INIT, steps).value;
            && Repo.Inv(s.tables)
            && (r in s.tables.reserves <==> Repo.LastMetric(RunsOf(s.log), r).Some?)
            && (r in s.tables.reserves ==> s.tables.reserves[r].metric == Repo.LastMetric(RunsOf(s.log), r).value)
  {
    TablesAreTheFold(steps);
    var s := Exec(INIT, steps).value;
    Repo.ReservesAreLast(RunsOf(s.log), s.tables.protocols, r);
  }

  // ----- one call, start to finish -----

  datatype SyncError = Conflict | StoreFailed | SourceFailed | TransactionFailed

  /** Which store operations fail during a call. */
  datatype Faults = Faults(ensure: bool, create: bool, update: bool, statement: nat -> bool)

  class Service {
    const repository: Repo.Repository
    var locked: bool
    var runs: map<string, SyncRun>

    constructor (repository: Repo.Repository)
      ensures this.repository == repository && !locked && runs == map[]
    {
      this.repository, locked, runs := repository, false, map[];
    }

    /**
     `Sync` with the source's answer `source`: the data is committed and the run row says so exactly when the
     database accepts the transaction, except that a failed status write leaves the run open.
     */
    method Sync(source: Option<Dataset>, faults: Faults, gen: Repo.IdSource, id: string, now: int)
      returns (r: Result<SyncRun, SyncError>)
      requires id !in runs
      modifies this, repository
      ensures locked == old(locked)
      ensures old(locked) ==> r == Failure(Conflict) && runs == old(runs) && repository.tables == old(repository.tables)
      ensures !old(locked) && (faults.ensure || faults.create) ==>
                && r == Failure(StoreFailed) && runs == old(runs)
                && repository.tables == if faults.ensure then old(repository.tables)
                                        else ProtocolFor(old(repository.tables), source, gen).0
      ensures !old(locked) && !faults.ensure && !faults.create ==>
                var (t, p) := ProtocolFor(old(repository.tables), source, gen);
                var committed := source.Some? && Repo.Accepted(source.value, faults.statement);
                var final := if source.None? then SyncRun(Failed, 0, 0, Some(now))
                             else if committed then
                               SyncRun(Succeeded, |source.value.reserves|, |source.value.reserves|, Some(now))
                             else SyncRun(Failed, |source.value.reserves|, 0, Some(now));
                && repository.tables == (if committed then Repo.ApplyDataset(t, p.id, source.value, gen, now) else t)
                && runs == old(runs)[id := if faults.update then SyncRun(Running, 0, 0, None) else final]
                && r == if faults.update then Failure(StoreFailed)
                        else if source.None? then Failure(SourceFailed)
                        else if committed then Success(final) else Failure(TransactionFailed)
    {
      if locked { return Failure(Conflict); }
      locked := true;
      var demo := source.Some? && source.value.source == "demo";
      if faults.ensure {
        locked := false;
        return Failure(StoreFailed);
      }
      var protocol := repository.EnsureProtocolRow("", demo, gen);
      if faults.create {
        locked := false;
        return Failure(StoreFailed);
      }
      var run := SyncRun(Running, 0, 0, None);
      runs := runs[id := run];
      run, r := TryApply(protocol.id, source, faults.statement, run, gen, now);
      if faults.update {
        r := Failure(StoreFailed);
      } else {
        runs := runs[id := run];
      }
      locked := false;
    }

    /** The call's transaction, if there is a dataset, and the values that the run gets in memory. */
    method TryApply(
        protocolID: string, source: Option<Dataset>, fails: nat -> bool, open: SyncRun, gen: Repo.IdSource, now: int)
      returns (run: SyncRun, r: Result<SyncRun, SyncError>)
      requires open == SyncRun(Running, 0, 0, None)
      modifies repository
      ensures run == if source.None? then SyncRun(Failed, 0, 0, Some(now))
                     else if Repo.Accepted(source.value, fails) then
                       SyncRun(Succeeded, |source.value.reserves|, |source.value.reserves|, Some(now))
                     else SyncRun(Failed, |source.value.reserves|, 0, Some(now))
      ensures var committed := source.Some? && Repo.Accepted(source.value, fails);
              && repository.tables ==
                   (if committed then Repo.ApplyDataset(old(repository.tables), protocolID, source.value, gen, now)
                    else old(repository.tables))
              && r == if source.None? then Failure(SourceFailed)
                      else if committed then Success(run) else Failure(TransactionFailed)
    {
      run := open;
      if source.None? {
        run := run.(status := Failed, finishedAt := Some(now));
        r := Failure(SourceFailed);
      } else {
        run := run.(readCount := |source.value.reserves|);
        var written, ok := repository.Apply(protocolID, source.value, gen, now, fails);
        if ok {
          run := run.(writtenCount := written, status := Succeeded, finishedAt := Some(now));
          r := Success(run);
        } else {
          run := run.(status := Failed, finishedAt := Some(now));
          r := Failure(TransactionFailed);
        }
      }
    }
  }
}

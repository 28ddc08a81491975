/**
 The asynchronous log hook: writers hand copies of their buffers to a bounded queue, workers
 execute them, and one flush closes the queue and waits for the workers.
 */
module LogHook {
  import opened Wrappers

  type Bytes = seq<int>
  type Writer = nat

  /** Queued bytes, with the contents that the caller's buffer had when `Write` was called. */
  datatype Entry = Entry(data: Bytes, written: Bytes)

  /** A writer: outside `Write`; past the closed check; past the room check; or with its copy made. */
  datatype WritePhase =
    | Outside
    | Entered(written: Bytes)
    | HasRoom(written: Bytes)
    | Copied(entry: Entry)

  datatype Worker = Idle | Busy(entry: Entry) | Stopped

  datatype FlushPhase = NotFlushed | Flagged | Waiting | Drained | Returned

  /** `buffers` is the callers' own memory; `sent`, `executed` and `closes` record what has happened. */
  datatype System = System(
    buffers: map<Writer, Bytes>,
    writers: map<Writer, WritePhase>,
    closed: bool,
    queue: seq<Entry>,
    queueClosed: bool,
    workers: seq<Worker>,
    flush: FlushPhase,
    sent: seq<Entry>,
    executed: seq<Entry>,
    closes: nat,
    executedAtClose: nat)

  datatype Step =
    | Reuse(w: Writer, data: Bytes)   // a caller changes its buffer outside `Write`
    | Write(w: Writer)
    | CheckRoom(w: Writer)
    | Copy(w: Writer)
    | Send(w: Writer)
    | Take(i: nat)
    | Execute(i: nat)
    | Stop(i: nat)
    | FlagClosed
    | CloseQueue
    | WaitDone
    | CloseExecuter

  function Init(workers: nat): System {
    System(map[], map[], false, [], false, seq(workers, _ => Idle), NotFlushed, [], [], 0, 0)
  }

  function PhaseOf(s: System, w: Writer): WritePhase {
    if w in s.writers then s.writers[w] else Outside
  }

  function BufferOf(s: System, w: Writer): Bytes {
    if w in s.buffers then s.buffers[w] else []
  }

  /** Nobody is between its closed check and its send; the code relies on it when the queue closes. */
  ghost predicate NoWriterInside(s: System) {
    forall w :: w in s.writers ==> s.writers[w] == Outside
  }

  ghost predicate Enabled(s: System, step: Step, maxJobs: nat) {
    match step
    case Reuse(w, data) => PhaseOf(s, w).Outside?
    case Write(w) => PhaseOf(s, w).Outside?
    case CheckRoom(w) => PhaseOf(s, w).Entered?
    case Copy(w) => PhaseOf(s, w).HasRoom?
    case Send(w) => PhaseOf(s, w).Copied? && |s.queue| < maxJobs
    case Take(i) => i < |s.workers| && s.workers[i].Idle? && s.queue != []
    case Execute(i) => i < |s.workers| && s.workers[i].Busy?
    case Stop(i) => i < |s.workers| && s.workers[i].Idle? && s.queue == [] && s.queueClosed
    case FlagClosed => s.flush.NotFlushed?
    case CloseQueue => s.flush.Flagged? && NoWriterInside(s)
    case WaitDone => s.flush.Waiting? && forall i :: 0 <= i < |s.workers| ==> s.workers[i].Stopped?
    case CloseExecuter => s.flush.Drained?
  }

  function Next(s: System, step: Step, maxJobs: nat): System {
    match step
    case Reuse(w, data) => s.(buffers := s.buffers[w := data])
    case Write(w) => if s.closed then s else s.(writers := s.writers[w := Entered(BufferOf(s, w))])
    case CheckRoom(w) =>
      var p := PhaseOf(s, w);
      if |s.queue| == maxJobs || !p.Entered? then s.(writers := s.writers[w := Outside])
      else s.(writers := s.writers[w := HasRoom(p.written)])
    case Copy(w) =>
      var p := PhaseOf(s, w);
      if p.HasRoom? then s.(writers := s.writers[w := Copied(Entry(BufferOf(s, w), p.written))]) else s
    case Send(w) =>
      var p := PhaseOf(s, w);
      if p.Copied?
      then s.(writers := s.writers[w := Outside], queue := s.queue + [p.entry], sent := s.sent + [p.entry]) else s
    case Take(i) =>
      if i < |s.workers| && s.queue != []
      then s.(workers := s.workers[i := Busy(s.queue[0])], queue := s.queue[1..]) else s
    case Execute(i) =>
      if i < |s.workers| && s.workers[i].Busy?
      then s.(workers := s.workers[i := Idle], executed := s.executed + [s.workers[i].entry]) else s
    case Stop(i) => if i < |s.workers| then s.(workers := s.workers[i := Stopped]) else s
    case FlagClosed => s.(closed := true, flush := Flagged)
    case CloseQueue => s.(queueClosed := true, flush := Waiting)
    case WaitDone => s.(flush := Drained)
    case CloseExecuter => s.(closes := s.closes + 1, executedAtClose := |s.executed|, flush := Returned)
  }

  ghost function Exec(s: System, steps: seq<Step>, maxJobs: nat): Option<System>
    decreases |steps|
  {
    if steps == [] then Some(s)
    else if Enabled(s, steps[0], maxJobs) then Exec(Next(s, steps[0], maxJobs), steps[1..], maxJobs)
    else None
  }

  // ----- conservation -----

  function Count(entries: seq<Entry>, e: Entry): nat {
    multiset(entries)[e]
  }

  function InFlight(workers: seq<Worker>, e: Entry): nat {
    if workers == [] then 0
    else (if workers[0] == Busy(e) then 1 else 0) + InFlight(workers[1..], e)
  }

  lemma {:induction false} InFlightUpdate(workers: seq<Worker>, i: nat, x: Worker, e: Entry)
    requires i < |workers|
    ensures InFlight(workers[i := x], e) + (if workers[i] == Busy(e) then 1 else 0)
         == InFlight(workers, e) + (if x == Busy(e) then 1 else 0)
  {
    if i == 0 {
      assert workers[0 := x][1..] == workers[1..];
    } else {
      assert workers[i := x][1..] == workers[1..][i - 1 := x];
      InFlightUpdate(workers[1..], i - 1, x, e);
    }
  }

  lemma {:induction false} NoneInFlight(workers: seq<Worker>, e: Entry)
    requires forall i :: 0 <= i < |workers| ==> !workers[i].Busy?
    ensures InFlight(workers, e) == 0
  {
    if workers != [] { NoneInFlight(workers[1..], e); }
  }

  /** Every sent entry is queued, with a worker, or executed - each copy exactly once. */
  ghost predicate Conserved(s: System) {
    forall e :: Count(s.sent, e) == Count(s.queue, e) + InFlight(s.workers, e) + Count(s.executed, e)
  }

  ghost predicate PhaseFaithful(s: System, w: Writer) {
    match PhaseOf(s, w)
    case Outside => true
    case Entered(written) => written == BufferOf(s, w)
    case HasRoom(written) => written == BufferOf(s, w)
    case Copied(entry) => entry.data == entry.written
  }

  /** What a writer, the queue or a worker holds is what the caller's buffer held at the call. */
  ghost predicate Faithful(s: System) {
    && (forall w: Writer :: PhaseFaithful(s, w))
    && (forall e :: e in s.sent ==> e.data == e.written)
  }

  ghost predicate FlushInOrder(s: System) {
    && (s.closed <==> !s.flush.NotFlushed?)
    && (s.queueClosed <==> s.flush.Waiting? || s.flush.Drained? || s.flush.Returned?)
    && (s.queueClosed ==> NoWriterInside(s))
    && ((exists i :: 0 <= i < |s.workers| && s.workers[i].Stopped?) ==> s.queueClosed && s.queue == [])
    && (s.flush.Drained? || s.flush.Returned? ==> forall i :: 0 <= i < |s.workers| ==> s.workers[i].Stopped?)
    && s.closes == (if s.flush.Returned? then 1 else 0)
    && (s.flush.Returned? ==> s.executedAtClose == |s.executed|)
  }

  ghost predicate Inv(s: System, maxJobs: nat) {
    Conserved(s) && Faithful(s) && FlushInOrder(s) && |s.queue| <= maxJobs
  }

  lemma StepConserves(s: System, step: Step, maxJobs: nat, e: Entry)
    requires Conserved(s) && Enabled(s, step, maxJobs)
    ensures var t := Next(s, step, maxJobs);
            Count(t.sent, e) == Count(t.queue, e) + InFlight(t.workers, e) + Count(t.executed, e)
  {
    match step
    case Take(i) =>
      assert s.queue == [s.queue[0]] + s.queue[1..];
      InFlightUpdate(s.workers, i, Busy(s.queue[0]), e);
    case Execute(i) => InFlightUpdate(s.workers, i, Idle, e);
    case Stop(i) => InFlightUpdate(s.workers, i, Stopped, e);
    case _ =>
  }

  lemma StepFaithful(s: System, step: Step, maxJobs: nat)
    requires Faithful(s) && Enabled(s, step, maxJobs)
    ensures Faithful(Next(s, step, maxJobs))
  {
    var t := Next(s, step, maxJobs);
    forall w: Writer ensures PhaseFaithful(t, w) {
      assert PhaseFaithful(s, w);
    }
    if step.Send? { assert PhaseFaithful(s, step.w); }
  }

  lemma StepInOrder(s: System, step: Step, maxJobs: nat)
    requires FlushInOrder(s) && Enabled(s, step, maxJobs)
    ensures FlushInOrder(Next(s, step, maxJobs))
  {
    var t := Next(s, step, maxJobs);
    if i :| 0 <= i < |t.workers| && t.workers[i].Stopped? && !(step.Stop? && step.i == i) {
      assert s.workers[i].Stopped?;
    }
  }

  lemma StepKeepsInv(s: System, step: Step, maxJobs: nat)
    requires Inv(s, maxJobs) && Enabled(s, step, maxJobs)
    ensures Inv(Next(s, step, maxJobs), maxJobs)
  {
    var t := Next(s, step, maxJobs);
    forall e ensures Count(t.sent, e) == Count(t.queue, e) + InFlight(t.workers, e) + Count(t.executed, e) {
      StepConserves(s, step, maxJobs, e);
    }
    StepFaithful(s, step, maxJobs);
    StepInOrder(s, step, maxJobs);
  }

  lemma InitInv(workers: nat, maxJobs: nat)
    ensures Inv(Init(workers), maxJobs)
  {
    forall e ensures InFlight(Init(workers).workers, e) == 0 { NoneInFlight(Init(workers).workers, e); }
  }

  lemma {:induction false} ExecKeepsInv(s: System, steps: seq<Step>, maxJobs: nat)
    requires Inv(s, maxJobs) && Exec(s, steps, maxJobs).Some?
    ensures Inv(Exec(s, steps, maxJobs).value, maxJobs)
    ensures |Exec(s, steps, maxJobs).value.workers| == |s.workers|
    decreases |steps|
  {
    if steps != [] {
      StepKeepsInv(s, steps[0], maxJobs);
      ExecKeepsInv(Next(s, steps[0], maxJobs), steps[1..], maxJobs);
    }
  }

  /** In every reachable state what was sent is queued, in flight or executed, and the queue is within its bound. */
  lemma AlwaysConserved(workers: nat, maxJobs: nat, steps: seq<Step>)
    requires Exec(Init(workers), steps, maxJobs).Some?
    ensures var s := Exec(Init(workers), steps, maxJobs).value;
            Conserved(s) && |s.queue| <= maxJobs && Faithful(s) && s.closes <= 1
  {
    InitInv(workers, maxJobs);
    ExecKeepsInv(Init(workers), steps, maxJobs);
  }

  /**
   When `Flush` returns, the executer was closed once, after the last execution, and everything sent has
   been executed exactly once, as it was when it was written - unless there was no worker to do it.
   */
  lemma FlushExecutesEverything(workers: nat, maxJobs: nat, steps: seq<Step>)
    requires Exec(Init(workers), steps, maxJobs).Some?
    requires Exec(Init(workers), steps, maxJobs).value.flush.Returned?
    ensures var s := Exec(Init(workers), steps, maxJobs).value;
            && s.closes == 1 && s.executedAtClose == |s.executed|
            && (multiset(s.executed) == multiset(s.sent) <==> workers > 0 || s.sent == [])
            && (forall e :: e in s.executed ==> e.data == e.written)
  {
    InitInv(workers, maxJobs);
    ExecKeepsInv(Init(workers), steps, maxJobs);
    var s := Exec(Init(workers), steps, maxJobs).value;
    forall e ensures Count(s.sent, e) == Count(s.queue, e) + Count(s.executed, e) { NoneInFlight(s.workers, e); }
    forall e | e in s.executed ensures e in s.sent {
      assert Count(s.executed, e) > 0;
      assert Count(s.sent, e) > 0;
    }
    if workers > 0 {
      assert s.workers[0].Stopped?;
      assert s.queue == [];
      forall e: Entry ensures multiset(s.executed)[e] == multiset(s.sent)[e] {
        assert Count(s.sent, e) == Count(s.queue, e) + Count(s.executed, e);
      }
    } else {
      NothingExecuted(Init(0), steps, maxJobs);
      if s.sent != [] { assert s.sent[0] in multiset(s.sent); }
    }
  }

  lemma {:induction false} NothingExecuted(s: System, steps: seq<Step>, maxJobs: nat)
    requires s.workers == [] && s.executed == [] && Exec(s, steps, maxJobs).Some?
    ensures Exec(s, steps, maxJobs).value.executed == []
    decreases |steps|
  {
    if steps != [] {
      StepExecutesNothing(s, steps[0], maxJobs);
      NothingExecuted(Next(s, steps[0], maxJobs), steps[1..], maxJobs);
    }
  }

  lemma StepExecutesNothing(s: System, step: Step, maxJobs: nat)
    requires s.workers == [] && s.executed == [] && Enabled(s, step, maxJobs)
    ensures Next(s, step, maxJobs).workers == [] && Next(s, step, maxJobs).executed == []
  {
  }

  // ----- the flush comes to an end -----

  function WorkerSteps(workers: seq<Worker>): nat {
    if workers == [] then 0
    else (match workers[0] case Idle => 1 case Busy(_) => 2 case Stopped => 0) + WorkerSteps(workers[1..])
  }

  /** An upper bound on the worker and flush steps that are left once the queue is closed. */
  function StepsLeft(s: System): nat {
    2 * |s.queue| + WorkerSteps(s.workers)
    + (match s.flush case NotFlushed => 4 case Flagged => 3 case Waiting => 2 case Drained => 1 case Returned => 0)
  }

  lemma {:induction false} WorkerStepsUpdate(workers: seq<Worker>, i: nat, x: Worker)
    requires i < |workers|
    ensures WorkerSteps(workers[i := x]) + WorkerSteps([workers[i]]) == WorkerSteps(workers) + WorkerSteps([x])
  {
    assert [workers[i]][1..] == [] && [x][1..] == [];
    if i == 0 {
      assert workers[0 := x][1..] == workers[1..];
    } else {
      assert workers[i := x][1..] == workers[1..][i - 1 := x];
      WorkerStepsUpdate(workers[1..], i - 1, x);
    }
  }

  /** Once the queue is closed, some worker or the flush can go on until the flush returns; callers cannot add work. */
  lemma FlushNeverStuck(s: System, maxJobs: nat)
    requires Inv(s, maxJobs) && s.queueClosed && !s.flush.Returned?
    ensures exists step :: Enabled(s, step, maxJobs) && !step.Reuse? && !step.Write?
  {
    if s.flush.Drained? {
      assert Enabled(s, CloseExecuter, maxJobs);
    } else if i :| 0 <= i < |s.workers| && !s.workers[i].Stopped? {
      assert Enabled(s, if s.workers[i].Busy? then Execute(i) else if s.queue != [] then Take(i) else Stop(i), maxJobs);
    } else {
      assert Enabled(s, WaitDone, maxJobs);
    }
  }

  lemma ClosedStepsCount(s: System, step: Step, maxJobs: nat)
    requires Inv(s, maxJobs) && s.queueClosed && Enabled(s, step, maxJobs)
    ensures StepsLeft(Next(s, step, maxJobs)) == StepsLeft(s) - if step.Reuse? || step.Write? then 0 else 1
  {
    match step
    case Take(i) =>
      WorkerStepsUpdate(s.workers, i, Busy(s.queue[0]));
      assert [Idle][1..] == [] && [Busy(s.queue[0])][1..] == [];
    case Execute(i) =>
      WorkerStepsUpdate(s.workers, i, Idle);
      assert [Idle][1..] == [] && [s.workers[i]][1..] == [];
    case Stop(i) =>
      WorkerStepsUpdate(s.workers, i, Stopped);
      assert [Idle][1..] == [] && [Stopped][1..] == [];
    case _ =>
  }

  /** The steps of the workers and the flush; callers that reuse a buffer or find the hook closed do not count. */
  function WorkIn(steps: seq<Step>): nat {
    if steps == [] then 0
    else (if steps[0].Reuse? || steps[0].Write? then 0 else 1) + WorkIn(steps[1..])
  }

  /** However the rest is scheduled, a closed queue is worked off in a number of steps fixed when it closed. */
  lemma {:induction false} FlushEnds(s: System, steps: seq<Step>, maxJobs: nat)
    requires Inv(s, maxJobs) && s.queueClosed && Exec(s, steps, maxJobs).Some?
    ensures WorkIn(steps) + StepsLeft(Exec(s, steps, maxJobs).value) == StepsLeft(s)
    ensures WorkIn(steps) == StepsLeft(s) ==> Exec(s, steps, maxJobs).value.flush.Returned?
    decreases |steps|
  {
    if steps != [] {
      ClosedStepsCount(s, steps[0], maxJobs);
      StepKeepsInv(s, steps[0], maxJobs);
      FlushEnds(Next(s, steps[0], maxJobs), steps[1..], maxJobs);
    }
  }

  // ----- what becomes of a call of `Write` -----

  /** With the hook open and room in the queue, a writer that is not disturbed gets its bytes into the queue. */
  lemma WriteReachesQueue(s: System, w: Writer, maxJobs: nat)
    requires PhaseOf(s, w).Outside? && !s.closed && |s.queue| < maxJobs
    ensures var e := Exec(s, [Write(w), CheckRoom(w), Copy(w), Send(w)], maxJobs);
            && e.Some?
            && e.value.sent == s.sent + [Entry(BufferOf(s, w), BufferOf(s, w))]
            && e.value.queue == s.queue + [Entry(BufferOf(s, w), BufferOf(s, w))]
            && PhaseOf(e.value, w).Outside?
  {
    var s1 := Next(s, Write(w), maxJobs);
    var s2 := Next(s1, CheckRoom(w), maxJobs);
    var s3 := Next(s2, Copy(w), maxJobs);
    var s4 := Next(s3, Send(w), maxJobs);
    assert PhaseOf(s1, w) == Entered(BufferOf(s, w));
    assert PhaseOf(s2, w) == HasRoom(BufferOf(s, w));
    assert PhaseOf(s3, w) == Copied(Entry(BufferOf(s, w), BufferOf(s, w)));
    assert Exec(s4, [], maxJobs) == Some(s4);
    assert [Send(w)][1..] == [];
    assert Exec(s3, [Send(w)], maxJobs) == Some(s4);
    assert [Copy(w), Send(w)][1..] == [Send(w)];
    assert Exec(s2, [Copy(w), Send(w)], maxJobs) == Some(s4);
    assert [CheckRoom(w), Copy(w), Send(w)][1..] == [Copy(w), Send(w)];
    assert Exec(s1, [CheckRoom(w), Copy(w), Send(w)], maxJobs) == Some(s4);
    assert [Write(w), CheckRoom(w), Copy(w), Send(w)][1..] == [CheckRoom(w), Copy(w), Send(w)];
  }

  /** In every state: a call is turned away only by a closed hook, and given up only at a full queue. */
  lemma WriterLeaves(s: System, step: Step, maxJobs: nat, w: Writer)
    requires Enabled(s, step, maxJobs)
    ensures step == Write(w) ==> (PhaseOf(Next(s, step, maxJobs), w).Outside? <==> s.closed)
    ensures !PhaseOf(s, w).Outside? && PhaseOf(Next(s, step, maxJobs), w).Outside? ==>
              || (step == CheckRoom(w) && |s.queue| == maxJobs)
              || (step == Send(w) && Next(s, step, maxJobs).sent == s.sent + [PhaseOf(s, w).entry])
  {
  }

  /** The calls that are inside `Write`. */
  function Inside(s: System): set<Writer> {
    set w | w in s.writers && s.writers[w] != Outside
  }

  ghost function Calls(steps: seq<Step>): nat {
    if steps == [] then 0 else (if steps[0].Write? then 1 else 0) + Calls(steps[1..])
  }

  /** The calls of a run that find the hook closed. */
  ghost function TurnedAway(s: System, steps: seq<Step>, maxJobs: nat): nat
    requires Exec(s, steps, maxJobs).Some?
    decreases |steps|
  {
    if steps == [] then 0
    else (if steps[0].Write? && s.closed then 1 else 0) + TurnedAway(Next(s, steps[0], maxJobs), steps[1..], maxJobs)
  }

  /** The calls of a run that find the queue full. */
  ghost function GivenUp(s: System, steps: seq<Step>, maxJobs: nat): nat
    requires Exec(s, steps, maxJobs).Some?
    decreases |steps|
  {
    if steps == [] then 0
    else (if steps[0].CheckRoom? && |s.queue| == maxJobs then 1 else 0)
         + GivenUp(Next(s, steps[0], maxJobs), steps[1..], maxJobs)
  }

  /** The calls that have sent, or still may. */
  function Served(s: System): nat {
    |s.sent| + |Inside(s)|
  }

  lemma InsideUpdate(s: System, t: System, w: Writer, p: WritePhase)
    requires t.writers == s.writers[w := p]
    ensures |Inside(t)| + (if PhaseOf(s, w).Outside? then 0 else 1) == |Inside(s)| + if p.Outside? then 0 else 1
  {
    var others := Inside(s) - {w};
    assert Inside(s) == if PhaseOf(s, w).Outside? then others else others + {w};
    assert Inside(t) == if p.Outside? then others else others + {w};
  }

  lemma StepAccounts(s: System, step: Step, maxJobs: nat)
    requires Enabled(s, step, maxJobs)
    ensures Served(Next(s, step, maxJobs))
            + (if step.Write? && s.closed then 1 else 0) + (if step.CheckRoom? && |s.queue| == maxJobs then 1 else 0)
         == Served(s) + (if step.Write? then 1 else 0)
  {
    var t := Next(s, step, maxJobs);
    if (step.Write? && !s.closed) || step.CheckRoom? || step.Copy? || step.Send? {
      InsideUpdate(s, t, step.w, PhaseOf(t, step.w));
    } else {
      assert t.writers == s.writers && t.sent == s.sent;
      assert Inside(t) == Inside(s);
    }
  }

  /** Over every run each call is sent, still inside, turned away by a closed hook, or given up at a full queue. */
  lemma {:induction false} CallsAreAccountedFor(s: System, steps: seq<Step>, maxJobs: nat)
    requires Exec(s, steps, maxJobs).Some?
    ensures Served(Exec(s, steps, maxJobs).value) + TurnedAway(s, steps, maxJobs) + GivenUp(s, steps, maxJobs)
         == Served(s) + Calls(steps)
    decreases |steps|
  {
    if steps != [] {
      StepAccounts(s, steps[0], maxJobs);
      CallsAreAccountedFor(Next(s, steps[0], maxJobs), steps[1..], maxJobs);
    }
  }

  // ----- order -----

  function Held(workers: seq<Worker>): seq<Entry> {
    if |workers| == 1 && workers[0].Busy? then [workers[0].entry] else []
  }

  /** With one worker, what is executed, in its hands and queued is what was sent, in that order. */
  ghost predicate InOrder(s: System) {
    |s.workers| == 1 && s.executed + Held(s.workers) + s.queue == s.sent
  }

  lemma StepKeepsOrder(s: System, step: Step, maxJobs: nat)
    requires InOrder(s) && Enabled(s, step, maxJobs)
    ensures InOrder(Next(s, step, maxJobs))
  {
    match step
    case Send(w) => Append(s.executed + Held(s.workers), s.queue, PhaseOf(s, w).entry);
    case Take(i) => TakeKeepsOrder(s, maxJobs);
    case Execute(i) => ExecuteKeepsOrder(s, maxJobs);
    case _ =>
  }

  lemma Append(a: seq<Entry>, b: seq<Entry>, e: Entry)
    ensures a + (b + [e]) == a + b + [e]
  {
  }

  lemma TakeKeepsOrder(s: System, maxJobs: nat)
    requires InOrder(s) && s.workers[0].Idle? && s.queue != []
    ensures InOrder(Next(s, Take(0), maxJobs))
  {
    var t := Next(s, Take(0), maxJobs);
    assert s.queue == [s.queue[0]] + s.queue[1..];
    assert t.executed + Held(t.workers) + t.queue == s.executed + ([s.queue[0]] + s.queue[1..]);
  }

  lemma ExecuteKeepsOrder(s: System, maxJobs: nat)
    requires InOrder(s) && s.workers[0].Busy?
    ensures InOrder(Next(s, Execute(0), maxJobs))
  {
    var t := Next(s, Execute(0), maxJobs);
    assert t.executed + Held(t.workers) == s.executed + Held(s.workers);
  }

  lemma {:induction false} ExecKeepsOrder(s: System, steps: seq<Step>, maxJobs: nat)
    requires InOrder(s) && Exec(s, steps, maxJobs).Some?
    ensures InOrder(Exec(s, steps, maxJobs).value)
    decreases |steps|
  {
    if steps != [] {
      StepKeepsOrder(s, steps[0], maxJobs);
      ExecKeepsOrder(Next(s, steps[0], maxJobs), steps[1..], maxJobs);
    }
  }

  /** One worker executes entries in the order in which they were sent. */
  lemma OneWorkerKeepsOrder(maxJobs: nat, steps: seq<Step>)
    requires Exec(Init(1), steps, maxJobs).Some?
    ensures Exec(Init(1), steps, maxJobs).value.executed <= Exec(Init(1), steps, maxJobs).value.sent
  {
    ExecKeepsOrder(Init(1), steps, maxJobs);
  }
}

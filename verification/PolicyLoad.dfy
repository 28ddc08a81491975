/**
 The concurrent compilation of the policy: one producer queries role after role into
 a queue, any number of workers drain it into private buffers and merge these under a lock.
 */
module PolicyLoad {
  import opened Wrappers
  import opened Tables
  import opened MenuDal
  import opened Policy

  /** One line of the policy file, with the resource it was written for. */
  datatype Line = Line(roleID: string, resource: Resource)

  datatype QueueItem = QueueItem(roleID: string, resources: seq<Resource>)

  /** A worker between two steps: the lines of the item in hand still to write, and its own buffer. */
  datatype Worker = Working(todo: seq<Line>, out: seq<Line>) | Merged

  datatype Load = Load(
    pending: seq<string>, queue: seq<QueueItem>, closed: bool, workers: seq<Worker>, buf: seq<Line>)

  datatype Step = Produce | Close | Take(w: nat) | Emit(w: nat) | Merge(w: nat)

  type Query = string -> seq<Resource>

  function Lines(roleID: string, rs: seq<Resource>): (lines: seq<Line>)
    ensures |lines| == |rs|
  {
    if rs == [] then [] else [Line(roleID, rs[0])] + Lines(roleID, rs[1..])
  }

  function Init(roles: seq<string>, workers: nat): Load {
    Load(roles, [], false, seq(workers, _ => Working([], [])), [])
  }

  /** `capacity` is the size of the queue; sending blocks while it is full. */
  predicate Enabled(s: Load, step: Step, capacity: nat) {
    match step
    case Produce => s.pending != [] && |s.queue| < capacity
    case Close => s.pending == [] && !s.closed
    case Take(w) => w < |s.workers| && s.workers[w].Working? && s.workers[w].todo == [] && s.queue != []
    case Emit(w) => w < |s.workers| && s.workers[w].Working? && s.workers[w].todo != []
    case Merge(w) => w < |s.workers| && s.workers[w].Working? && s.workers[w].todo == [] && s.queue == [] && s.closed
  }

  function Next(s: Load, step: Step, query: Query, capacity: nat): Load
    requires Enabled(s, step, capacity)
  {
    match step
    case Produce =>
      s.(queue := s.queue + [QueueItem(s.pending[0], query(s.pending[0]))], pending := s.pending[1..])
    case Close => s.(closed := true)
    case Take(w) =>
      s.(queue := s.queue[1..],
         workers := s.workers[w := s.workers[w].(todo := Lines(s.queue[0].roleID, s.queue[0].resources))])
    case Emit(w) =>
      var wk := s.workers[w];
      s.(workers := s.workers[w := Working(wk.todo[1..], wk.out + [wk.todo[0]])])
    case Merge(w) => s.(workers := s.workers[w := Merged], buf := s.buf + s.workers[w].out)
  }

  /** `wg.Wait()` has returned: the queue is closed and every worker has merged. */
  predicate Finished(s: Load) {
    s.pending == [] && s.closed && forall w :: 0 <= w < |s.workers| ==> s.workers[w].Merged?
  }

  /** The state after `steps`, if each was possible when it was taken. */
  function Exec(s: Load, steps: seq<Step>, query: Query, capacity: nat): Option<Load>
    decreases |steps|
  {
    if steps == [] then Some(s)
    else if Enabled(s, steps[0], capacity) then Exec(Next(s, steps[0], query, capacity), steps[1..], query, capacity)
    else None
  }

  // ----- conservation -----

  /** All lines that the given roles call for. */
  function AllLines(roles: seq<string>, query: Query): seq<Line> {
    if roles == [] then [] else Lines(roles[0], query(roles[0])) + AllLines(roles[1..], query)
  }

  function QueueLines(queue: seq<QueueItem>): seq<Line> {
    if queue == [] then [] else Lines(queue[0].roleID, queue[0].resources) + QueueLines(queue[1..])
  }

  /** How often `l` occurs in `lines`. */
  function Count(lines: seq<Line>, l: Line): nat {
    multiset(lines)[l]
  }

  function Held(w: Worker, l: Line): nat {
    if w.Merged? then 0 else Count(w.out, l) + Count(w.todo, l)
  }

  function AllHeld(workers: seq<Worker>, l: Line): nat {
    if workers == [] then 0 else Held(workers[0], l) + AllHeld(workers[1..], l)
  }

  /** Every copy of a line is in one place: not yet queried, queued, with a worker, or merged. */
  function Everywhere(s: Load, query: Query, l: Line): nat {
    Count(AllLines(s.pending, query), l) + Count(QueueLines(s.queue), l) + AllHeld(s.workers, l) + Count(s.buf, l)
  }

  ghost predicate Inv(s: Load, roles: seq<string>, query: Query) {
    && (forall l :: Everywhere(s, query, l) == Count(AllLines(roles, query), l))
    && |s.pending| + |s.queue| <= |roles|
    && (s.closed ==> s.pending == [])
    && ((exists w :: 0 <= w < |s.workers| && s.workers[w].Merged?) ==> s.closed && s.queue == [])
  }

  lemma CountConcat(a: seq<Line>, b: seq<Line>, l: Line)
    ensures Count(a + b, l) == Count(a, l) + Count(b, l)
  {
  }

  lemma {:induction false} QueueSnoc(queue: seq<QueueItem>, item: QueueItem)
    ensures QueueLines(queue + [item]) == QueueLines(queue) + Lines(item.roleID, item.resources)
  {
    if queue == [] {
      assert QueueLines([item]) == Lines(item.roleID, item.resources) + QueueLines([item][1..]);
    } else {
      assert (queue + [item])[1..] == queue[1..] + [item];
      QueueSnoc(queue[1..], item);
    }
  }

  lemma {:induction false} HeldUpdate(workers: seq<Worker>, w: nat, x: Worker, l: Line)
    requires w < |workers|
    ensures AllHeld(workers[w := x], l) + Held(workers[w], l) == AllHeld(workers, l) + Held(x, l)
  {
    if w == 0 {
      assert workers[0 := x][1..] == workers[1..];
    } else {
      assert workers[w := x][1..] == workers[1..][w - 1 := x];
      HeldUpdate(workers[1..], w - 1, x, l);
    }
  }

  lemma EmitHolds(w: Worker, l: Line)
    requires w.Working? && w.todo != []
    ensures Held(Working(w.todo[1..], w.out + [w.todo[0]]), l) == Held(w, l)
  {
    CountConcat(w.out, [w.todo[0]], l);
    CountConcat([w.todo[0]], w.todo[1..], l);
    assert w.todo == [w.todo[0]] + w.todo[1..];
  }

  lemma ProduceMoves(pending: seq<string>, queue: seq<QueueItem>, query: Query, l: Line)
    requires pending != []
    ensures Count(AllLines(pending[1..], query), l)
            + Count(QueueLines(queue + [QueueItem(pending[0], query(pending[0]))]), l)
         == Count(AllLines(pending, query), l) + Count(QueueLines(queue), l)
  {
    var item := QueueItem(pending[0], query(pending[0]));
    QueueSnoc(queue, item);
    CountConcat(QueueLines(queue), Lines(item.roleID, item.resources), l);
    CountConcat(Lines(item.roleID, item.resources), AllLines(pending[1..], query), l);
  }

  lemma TakeHolds(queue: seq<QueueItem>, w: Worker, l: Line)
    requires queue != [] && w.Working? && w.todo == []
    ensures Count(QueueLines(queue[1..]), l) + Held(w.(todo := Lines(queue[0].roleID, queue[0].resources)), l)
         == Count(QueueLines(queue), l) + Held(w, l)
  {
    CountConcat(Lines(queue[0].roleID, queue[0].resources), QueueLines(queue[1..]), l);
  }

  lemma StepConserves(s: Load, step: Step, query: Query, capacity: nat, l: Line)
    requires Enabled(s, step, capacity)
    ensures Everywhere(Next(s, step, query, capacity), query, l) == Everywhere(s, query, l)
  {
    var t := Next(s, step, query, capacity);
    match step
    case Produce => ProduceMoves(s.pending, s.queue, query, l);
    case Close =>
    case Take(w) =>
      HeldUpdate(s.workers, w, t.workers[w], l);
      TakeHolds(s.queue, s.workers[w], l);
    case Emit(w) =>
      HeldUpdate(s.workers, w, t.workers[w], l);
      EmitHolds(s.workers[w], l);
    case Merge(w) =>
      HeldUpdate(s.workers, w, Merged, l);
      CountConcat(s.buf, s.workers[w].out, l);
  }

  lemma StepKeepsInv(s: Load, step: Step, roles: seq<string>, query: Query, capacity: nat)
    requires Inv(s, roles, query) && Enabled(s, step, capacity)
    ensures Inv(Next(s, step, query, capacity), roles, query)
  {
    var t := Next(s, step, query, capacity);
    forall l ensures Everywhere(t, query, l) == Count(AllLines(roles, query), l) {
      StepConserves(s, step, query, capacity, l);
    }
    if w :| 0 <= w < |t.workers| && t.workers[w].Merged? && !(step.Merge? && w == step.w) {
      assert s.workers[w].Merged?;
    }
  }

  lemma {:induction false} NothingHeld(workers: seq<Worker>, l: Line)
    requires forall w :: 0 <= w < |workers| ==> workers[w] == Working([], []) || workers[w].Merged?
    ensures AllHeld(workers, l) == 0
  {
    if workers != [] { NothingHeld(workers[1..], l); }
  }

  lemma InitInv(roles: seq<string>, workers: nat, query: Query)
    ensures Inv(Init(roles, workers), roles, query)
  {
    forall l ensures Everywhere(Init(roles, workers), query, l) == Count(AllLines(roles, query), l) {
      NothingHeld(Init(roles, workers).workers, l);
    }
  }

  lemma {:induction false} ExecKeepsInv(s: Load, steps: seq<Step>, roles: seq<string>, query: Query, capacity: nat)
    requires Inv(s, roles, query) && Exec(s, steps, query, capacity).Some?
    ensures Inv(Exec(s, steps, query, capacity).value, roles, query)
    ensures |Exec(s, steps, query, capacity).value.workers| == |s.workers|
    decreases |steps|
  {
    if steps != [] {
      var t := Next(s, steps[0], query, capacity);
      assert |t.workers| == |s.workers|;
      StepKeepsInv(s, steps[0], roles, query, capacity);
      assert Exec(s, steps, query, capacity) == Exec(t, steps[1..], query, capacity);
      ExecKeepsInv(t, steps[1..], roles, query, capacity);
    }
  }

  /** However the steps interleave, the finished buffer holds all lines, each as often as called for. */
  lemma EveryInterleaving(roles: seq<string>, workers: nat, query: Query, steps: seq<Step>)
    requires Exec(Init(roles, workers), steps, query, |roles|).Some?
    requires Finished(Exec(Init(roles, workers), steps, query, |roles|).value)
    ensures var buf := Exec(Init(roles, workers), steps, query, |roles|).value.buf;
            multiset(buf) == multiset(AllLines(roles, query)) <==> workers > 0 || AllLines(roles, query) == []
  {
    InitInv(roles, workers, query);
    ExecKeepsInv(Init(roles, workers), steps, roles, query, |roles|);
    var t := Exec(Init(roles, workers), steps, query, |roles|).value;
    if workers > 0 {
      assert t.workers[0].Merged?;
      forall l ensures multiset(t.buf)[l] == multiset(AllLines(roles, query))[l] {
        NothingHeld(t.workers, l);
        assert Everywhere(t, query, l) == Count(AllLines(roles, query), l);
      }
    } else {
      NoWorkersNoBuffer(Init(roles, 0), steps, query, |roles|);
      if AllLines(roles, query) != [] {
        assert AllLines(roles, query)[0] in multiset(AllLines(roles, query));
      }
    }
  }

  lemma {:induction false} NoWorkersNoBuffer(s: Load, steps: seq<Step>, query: Query, capacity: nat)
    requires s.workers == [] && s.buf == [] && Exec(s, steps, query, capacity).Some?
    ensures Exec(s, steps, query, capacity).value.buf == []
    decreases |steps|
  {
    if steps != [] { NoWorkersNoBuffer(Next(s, steps[0], query, capacity), steps[1..], query, capacity); }
  }

  // ----- progress -----

  /** The producer never waits for room: the queue holds as many items as there are roles. */
  lemma ProducerNeverBlocks(s: Load, roles: seq<string>, query: Query)
    requires Inv(s, roles, query) && s.pending != []
    ensures Enabled(s, Produce, |roles|)
  {
  }

  /** No reachable state is stuck before it is finished. */
  lemma NoDeadlock(s: Load, roles: seq<string>, query: Query)
    requires Inv(s, roles, query) && !Finished(s)
    ensures exists step :: Enabled(s, step, |roles|)
  {
    if s.pending != [] {
      assert Enabled(s, Produce, |roles|);
    } else if !s.closed {
      assert Enabled(s, Close, |roles|);
    } else {
      var w :| 0 <= w < |s.workers| && s.workers[w].Working?;
      var wk := s.workers[w];
      assert Enabled(s, if wk.todo != [] then Emit(w) else if s.queue != [] then Take(w) else Merge(w), |roles|);
    }
  }

  function PendingWork(pending: seq<string>, query: Query): nat {
    if pending == [] then 0 else 2 + |query(pending[0])| + PendingWork(pending[1..], query)
  }

  function QueueWork(queue: seq<QueueItem>): nat {
    if queue == [] then 0 else 1 + |queue[0].resources| + QueueWork(queue[1..])
  }

  function WorkerWork(workers: seq<Worker>): nat {
    if workers == [] then 0
    else (if workers[0].Merged? then 0 else 1 + |workers[0].todo|) + WorkerWork(workers[1..])
  }

  /** The number of steps that can still be taken. */
  function Work(s: Load, query: Query): nat {
    PendingWork(s.pending, query) + QueueWork(s.queue) + WorkerWork(s.workers) + if s.closed then 0 else 1
  }

  lemma {:induction false} QueueWorkSnoc(queue: seq<QueueItem>, item: QueueItem)
    ensures QueueWork(queue + [item]) == QueueWork(queue) + 1 + |item.resources|
  {
    if queue == [] {
      assert QueueWork([item]) == 1 + |item.resources| + QueueWork([item][1..]);
    } else {
      assert (queue + [item])[1..] == queue[1..] + [item];
      QueueWorkSnoc(queue[1..], item);
    }
  }

  lemma {:induction false} WorkerWorkUpdate(workers: seq<Worker>, w: nat, x: Worker)
    requires w < |workers|
    ensures WorkerWork(workers[w := x]) + (if workers[w].Merged? then 0 else 1 + |workers[w].todo|)
         == WorkerWork(workers) + (if x.Merged? then 0 else 1 + |x.todo|)
  {
    if w == 0 {
      assert workers[0 := x][1..] == workers[1..];
    } else {
      assert workers[w := x][1..] == workers[1..][w - 1 := x];
      WorkerWorkUpdate(workers[1..], w - 1, x);
    }
  }

  /** Every step uses up exactly one unit of work, so every run ends. */
  lemma StepUsesWork(s: Load, step: Step, query: Query, capacity: nat)
    requires Enabled(s, step, capacity)
    ensures Work(Next(s, step, query, capacity), query) == Work(s, query) - 1
  {
    var t := Next(s, step, query, capacity);
    match step
    case Produce => QueueWorkSnoc(s.queue, QueueItem(s.pending[0], query(s.pending[0])));
    case Close =>
    case Take(w) => WorkerWorkUpdate(s.workers, w, t.workers[w]);
    case Emit(w) => WorkerWorkUpdate(s.workers, w, t.workers[w]);
    case Merge(w) => WorkerWorkUpdate(s.workers, w, Merged);
  }

  /** A run is never longer than the work it started with, and a run of that length is finished. */
  lemma {:induction false} RunsEnd(s: Load, steps: seq<Step>, roles: seq<string>, query: Query)
    requires Inv(s, roles, query) && Exec(s, steps, query, |roles|).Some?
    ensures |steps| <= Work(s, query)
    ensures |steps| == Work(s, query) ==> Finished(Exec(s, steps, query, |roles|).value)
    decreases |steps|
  {
    if steps == [] {
      if Work(s, query) == 0 && !Finished(s) {
        NoDeadlock(s, roles, query);
        var step :| Enabled(s, step, |roles|);
        StepUsesWork(s, step, query, |roles|);
      }
    } else {
      StepUsesWork(s, steps[0], query, |roles|);
      StepKeepsInv(s, steps[0], roles, query, |roles|);
      RunsEnd(Next(s, steps[0], query, |roles|), steps[1..], roles, query);
    }
  }

  // ----- the lines are the policy -----

  lemma {:induction false} LinesAt(roleID: string, rs: seq<Resource>, l: Line)
    requires forall i, j :: 0 <= i < j < |rs| ==> rs[i].id != rs[j].id
    ensures multiset(Lines(roleID, rs))[l] == if l.roleID == roleID && l.resource in rs then 1 else 0
  {
    if rs != [] {
      LinesAt(roleID, rs[1..], l);
      assert rs == [rs[0]] + rs[1..];
      assert Lines(roleID, rs) == [Line(roleID, rs[0])] + Lines(roleID, rs[1..]);
    }
  }

  lemma {:induction false} AllLinesAt(roles: seq<string>, query: Query, l: Line)
    requires forall i, j :: 0 <= i < j < |roles| ==> roles[i] != roles[j]
    requires forall r :: r in roles ==> forall i, j :: 0 <= i < j < |query(r)| ==> query(r)[i].id != query(r)[j].id
    ensures multiset(AllLines(roles, query))[l] == if l.roleID in roles && l.resource in query(l.roleID) then 1 else 0
  {
    if roles != [] {
      LinesAt(roles[0], query(roles[0]), l);
      AllLinesAt(roles[1..], query, l);
      assert roles == [roles[0]] + roles[1..];
      assert AllLines(roles, query) == Lines(roles[0], query(roles[0])) + AllLines(roles[1..], query);
    }
  }

  /**
   With at least one worker, and roles and resources listed from the tables, the finished buffer holds
   exactly one line per enabled role and resource that the role reaches.
   */
  lemma CompiledPolicyIsExact(s: Store, roles: seq<string>, query: Query, workers: nat, steps: seq<Step>, l: Line)
    requires forall i, j :: 0 <= i < j < |roles| ==> roles[i] != roles[j]
    requires forall r :: r in roles <==> r in EnabledRoles(s)
    requires forall r :: r in roles ==> ListsResources(query(r), s.resources, RoleResources(s, r))
    requires workers > 0
    requires Exec(Init(roles, workers), steps, query, |roles|).Some?
    requires Finished(Exec(Init(roles, workers), steps, query, |roles|).value)
    ensures multiset(Exec(Init(roles, workers), steps, query, |roles|).value.buf)[l] ==
            if l.roleID in EnabledRoles(s) && l.resource.id in RoleResources(s, l.roleID)
               && s.resources[l.resource.id] == l.resource then 1 else 0
  {
    EveryInterleaving(roles, workers, query, steps);
    AllLinesAt(roles, query, l);
    if l.roleID in roles {
      assert ListsResources(query(l.roleID), s.resources, RoleResources(s, l.roleID));
      var rs := query(l.roleID);
      if l.resource.id in RoleResources(s, l.roleID) && s.resources[l.resource.id] == l.resource {
        var i :| 0 <= i < |rs| && rs[i].id == l.resource.id;
        assert rs[i] == l.resource;
      }
    }
  }

  /** Read as rules, the finished buffer is the policy that the tables call for. */
  lemma BufferIsPolicy(s: Store, roles: seq<string>, query: Query, workers: nat, steps: seq<Step>, rule: Rule)
    requires forall i, j :: 0 <= i < j < |roles| ==> roles[i] != roles[j]
    requires forall r :: r in roles <==> r in EnabledRoles(s)
    requires forall r :: r in roles ==> ListsResources(query(r), s.resources, RoleResources(s, r))
    requires workers > 0
    requires Exec(Init(roles, workers), steps, query, |roles|).Some?
    requires Finished(Exec(Init(roles, workers), steps, query, |roles|).value)
    ensures rule in PolicyOf(s) <==>
              exists l :: l in Exec(Init(roles, workers), steps, query, |roles|).value.buf
                          && rule == Rule(l.roleID, l.resource.path, l.resource.verb)
  {
    var buf := Exec(Init(roles, workers), steps, query, |roles|).value.buf;
    forall l ensures l in buf <==> l.roleID in EnabledRoles(s) && l.resource.id in RoleResources(s, l.roleID)
                                   && s.resources[l.resource.id] == l.resource
    {
      CompiledPolicyIsExact(s, roles, query, workers, steps, l);
      assert l in buf <==> l in multiset(buf);
    }
    if rule in PolicyOf(s) {
      var r, k :| r in EnabledRoles(s) && k in RoleResources(s, r)
                  && rule == Rule(r, s.resources[k].path, s.resources[k].verb);
      var i :| 0 <= i < |query(r)| && query(r)[i].id == k;
      assert Line(r, s.resources[k]) in buf;
    }
    if l :| l in buf && rule == Rule(l.roleID, l.resource.path, l.resource.verb) {
      assert l.resource.id in RoleResources(s, l.roleID);
    }
  }
}

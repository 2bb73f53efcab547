/** The task queue and worker pool of src/client_handler.cpp as a step machine.

    Any number of client threads receive buffers and run `enqueueTask`; any number of
    workers run `worker_thread`.  A worker keeps `mtx` from the moment it finds a task
    until the task is done.  `cv.wait` with a predicate is its loop: test the predicate,
    release and sleep in one step, and test again once woken and relocked.  Wake-ups may
    be spurious.  Sending to clients and running a task are not modelled here. */
module WorkerPool {
  import opened Prelude

  type Wid = nat
  type Cid = nat

  datatype Task = Task(client: Cid, input: string)

  datatype Agent = Worker(w: Wid) | Client(c: Cid)

  datatype WorkerPc =
    | Start                  // line 96, before the lock
    | Checking               // line 98, `mtx` held
    | Asleep                 // line 98, inside the wait
    | Woken                  // line 98, must relock
    | Running(task: Task)    // line 103, `mtx` held

  datatype ClientPc =
    | Receiving              // line 17
    | Locking(task: Task)    // line 112, before the lock
    | Pushing(task: Task)    // line 113, `mtx` held
    | Unlocking              // line 114, `mtx` held
    | Notifying              // line 115

  /** The last three fields are histories: what each client received, what was pushed and
      what finished, each in order. */
  datatype State = State(
    owner: Option<Agent>, queue: seq<Task>, workers: map<Wid, WorkerPc>, clients: map<Cid, ClientPc>,
    received: map<Cid, seq<string>>, submitted: seq<Task>, completed: seq<Task>)

  datatype Step =
    | Receive(c: Cid, input: string)
    | ClientLock(c: Cid)
    | Push(c: Cid)
    | ClientUnlock(c: Cid)
    | Notify(c: Cid, wakes: Option<Wid>)
    | WorkerLock(w: Wid)
    | Check(w: Wid)
    | Finish(w: Wid)
    | SpuriousWake(w: Wid)

  function Init(workers: set<Wid>, clients: set<Cid>): State {
    State(None, [], map w | w in workers :: Start, map c | c in clients :: Receiving,
          map c | c in clients :: [], [], [])
  }

  predicate Enabled(s: State, step: Step) {
    match step
    case Receive(c, _) => c in s.clients && c in s.received && s.clients[c].Receiving?
    case ClientLock(c) => c in s.clients && s.clients[c].Locking? && s.owner == None
    case Push(c) => c in s.clients && s.clients[c].Pushing?
    case ClientUnlock(c) => c in s.clients && s.clients[c].Unlocking?
    case Notify(c, wakes) =>
      && c in s.clients && s.clients[c].Notifying?
      && (match wakes
          case Some(w) => w in s.workers && s.workers[w].Asleep?
          case None => forall w :: w in s.workers ==> !s.workers[w].Asleep?)
    case WorkerLock(w) => w in s.workers && (s.workers[w].Start? || s.workers[w].Woken?) && s.owner == None
    case Check(w) => w in s.workers && s.workers[w].Checking?
    case Finish(w) => w in s.workers && s.workers[w].Running?
    case SpuriousWake(w) => w in s.workers && s.workers[w].Asleep?
  }

  function Apply(s: State, step: Step): State
    requires Enabled(s, step)
  {
    match step
    case Receive(c, input) =>
      s.(received := s.received[c := s.received[c] + [input]], clients := s.clients[c := Locking(Task(c, input))])
    case ClientLock(c) => s.(owner := Some(Client(c)), clients := s.clients[c := Pushing(s.clients[c].task)])
    case Push(c) =>
      s.(queue := s.queue + [s.clients[c].task], submitted := s.submitted + [s.clients[c].task],
         clients := s.clients[c := Unlocking])
    case ClientUnlock(c) => s.(owner := None, clients := s.clients[c := Notifying])
    case Notify(c, wakes) =>
      var s' := s.(clients := s.clients[c := Receiving]);
      if wakes.Some? then s'.(workers := s.workers[wakes.value := Woken]) else s'
    case WorkerLock(w) => s.(owner := Some(Worker(w)), workers := s.workers[w := Checking])
    case Check(w) =>
      if s.queue == [] then s.(owner := None, workers := s.workers[w := Asleep])
      else s.(queue := s.queue[1..], workers := s.workers[w := Running(s.queue[0])])
    case Finish(w) =>
      s.(owner := None, completed := s.completed + [s.workers[w].task], workers := s.workers[w := Start])
    case SpuriousWake(w) => s.(workers := s.workers[w := Woken])
  }

  predicate Valid(s: State, steps: seq<Step>)
    decreases |steps|
  {
    steps == [] || (Enabled(s, steps[0]) && Valid(Apply(s, steps[0]), steps[1..]))
  }

  function Exec(s: State, steps: seq<Step>): State
    requires Valid(s, steps)
    decreases |steps|
  {
    if steps == [] then s else Exec(Apply(s, steps[0]), steps[1..])
  }

  // ---------------------------------------------------------------------------
  // The specification: one thread that runs the tasks in the order they came.

  datatype Executor = Executor(completed: seq<Task>, current: Option<Task>, pending: seq<Task>)

  ghost predicate ExecutorNext(a: Executor, b: Executor) {
    || b == a
    || (exists t :: b == a.(pending := a.pending + [t]))
    || (a.current == None && a.pending != [] && b == a.(current := Some(a.pending[0]), pending := a.pending[1..]))
    || (a.current.Some? && b == a.(completed := a.completed + [a.current.value], current := None))
  }

  function Current(s: State): Option<Task> {
    if s.owner.Some? && s.owner.value.Worker? && s.owner.value.w in s.workers && s.workers[s.owner.value.w].Running?
    then Some(s.workers[s.owner.value.w].task) else None
  }

  function InHand(t: Option<Task>): seq<Task> { if t.Some? then [t.value] else [] }

  function Abs(s: State): Executor { Executor(s.completed, Current(s), s.queue) }

  // ---------------------------------------------------------------------------
  // The invariant.

  predicate HoldsLock(s: State, a: Agent) {
    match a
    case Worker(w) => w in s.workers && (s.workers[w].Checking? || s.workers[w].Running?)
    case Client(c) => c in s.clients && (s.clients[c].Pushing? || s.clients[c].Unlocking?)
  }

  predicate Awake(s: State, w: Wid) { w in s.workers && !s.workers[w].Asleep? }

  predicate OwesNotify(s: State, c: Cid) { c in s.clients && (s.clients[c].Unlocking? || s.clients[c].Notifying?) }

  /** The buffers of one client, in the order they appear in a task list. */
  function InputsOf(tasks: seq<Task>, c: Cid): seq<string> {
    if tasks == [] then [] else
    InputsOf(tasks[..|tasks| - 1], c) + (if tasks[|tasks| - 1].client == c then [tasks[|tasks| - 1].input] else [])
  }

  function Unsubmitted(pc: ClientPc): seq<string> {
    if pc.Locking? || pc.Pushing? then [pc.task.input] else []
  }

  ghost predicate Mutex(s: State) {
    forall a :: HoldsLock(s, a) <==> s.owner == Some(a)
  }

  ghost predicate Served(s: State) {
    s.queue != [] ==> (exists w :: Awake(s, w)) || (exists c :: OwesNotify(s, c))
  }

  ghost predicate ClientInOrder(s: State, c: Cid)
    requires c in s.clients
  {
    && c in s.received
    && InputsOf(s.submitted, c) + Unsubmitted(s.clients[c]) == s.received[c]
    && (s.clients[c].Locking? || s.clients[c].Pushing? ==> s.clients[c].task.client == c)
  }

  ghost predicate InOrder(s: State) { forall c :: c in s.clients ==> ClientInOrder(s, c) }

  ghost predicate Conserved(s: State) { s.completed + InHand(Current(s)) + s.queue == s.submitted }

  ghost predicate Inv(s: State) {
    && s.workers != map[]
    && Mutex(s)
    && Conserved(s)
    && Served(s)
    && InOrder(s)
  }

  lemma InputsOfAppend(tasks: seq<Task>, t: Task, c: Cid)
    ensures InputsOf(tasks + [t], c) == InputsOf(tasks, c) + (if t.client == c then [t.input] else [])
  {
    assert (tasks + [t])[..|tasks|] == tasks;
  }

  lemma StepKeepsMutex(s: State, step: Step)
    requires Mutex(s) && Enabled(s, step)
    ensures Mutex(Apply(s, step))
  {
    var s' := Apply(s, step);
    OwnerOf(s, step);
    forall a
      ensures HoldsLock(s', a) <==> s'.owner == Some(a)
    {
      assert HoldsLock(s, a) <==> s.owner == Some(a);
    }
  }

  /** No lost wake-up: a worker goes to sleep only on an empty queue, and whoever fills
      the queue still owes a notify. */
  lemma StepKeepsServed(s: State, step: Step)
    requires Mutex(s) && s.workers != map[] && Served(s) && Enabled(s, step)
    ensures Served(Apply(s, step))
  {
    var s' := Apply(s, step);
    if s'.queue != [] {
      match step
      case Push(c) => assert OwesNotify(s', c);
      case ClientUnlock(c) => assert OwesNotify(s', c);
      case Notify(c, wakes) =>
        var w :| w in s.workers;
        assert Awake(s', if wakes.Some? then wakes.value else w);
      case WorkerLock(w) => assert Awake(s', w);
      case Check(w) => assert Awake(s', w);
      case Finish(w) => assert Awake(s', w);
      case SpuriousWake(w) => assert Awake(s', w);
      case _ =>
        if w :| Awake(s, w) {
          assert Awake(s', w);
        } else {
          var c :| OwesNotify(s, c);
          assert OwesNotify(s', c);
        }
    }
  }

  lemma PushedInOrder(before: seq<string>, pending: seq<string>, received: seq<string>)
    requires before + pending == received
    ensures (before + pending) + [] == received && (before + []) + pending == received
  {
  }

  lemma StepKeepsClientOrder(s: State, step: Step, c: Cid)
    requires InOrder(s) && Enabled(s, step) && c in s.clients
    ensures ClientInOrder(Apply(s, step), c)
  {
    var s' := Apply(s, step);
    assert ClientInOrder(s, c);
    if step.Push? {
      assert ClientInOrder(s, step.c);
      InputsOfAppend(s.submitted, s.clients[step.c].task, c);
      PushedInOrder(InputsOf(s.submitted, c), Unsubmitted(s.clients[c]), s.received[c]);
    } else {
      assert s'.submitted == s.submitted;
      if !step.Receive? {
        assert s'.received == s.received && Unsubmitted(s'.clients[c]) == Unsubmitted(s.clients[c]);
      }
    }
  }

  lemma StepKeepsOrder(s: State, step: Step)
    requires InOrder(s) && Enabled(s, step)
    ensures InOrder(Apply(s, step))
  {
    var s' := Apply(s, step);
    forall c | c in s'.clients
      ensures ClientInOrder(s', c)
    {
      StepKeepsClientOrder(s, step, c);
    }
  }

  lemma OwnerOf(s: State, step: Step)
    requires Mutex(s) && Enabled(s, step)
    ensures step.Push? || step.ClientUnlock? ==> s.owner == Some(Client(step.c))
    ensures step.Check? || step.Finish? ==> s.owner == Some(Worker(step.w))
  {
    assert step.Push? || step.ClientUnlock? ==> HoldsLock(s, Client(step.c));
    assert step.Check? || step.Finish? ==> HoldsLock(s, Worker(step.w));
  }

  lemma StepKeepsTasks(s: State, step: Step)
    requires Mutex(s) && Conserved(s) && Enabled(s, step)
    ensures Conserved(Apply(s, step))
  {
    OwnerOf(s, step);
    if step.Check? && s.queue != [] {
      assert s.queue == [s.queue[0]] + s.queue[1..];
    }
  }

  lemma StepKeepsInv(s: State, step: Step)
    requires Inv(s) && Enabled(s, step)
    ensures Inv(Apply(s, step))
  {
    StepKeepsMutex(s, step);
    StepKeepsServed(s, step);
    StepKeepsOrder(s, step);
    StepKeepsTasks(s, step);
    var w :| w in s.workers;
    assert w in Apply(s, step).workers;
  }

  /** Refinement, one step: the pool does what one sequential executor does. */
  lemma StepRefines(s: State, step: Step)
    requires Inv(s) && Enabled(s, step)
    ensures ExecutorNext(Abs(s), Abs(Apply(s, step)))
  {
    OwnerOf(s, step);
  }

  // ---------------------------------------------------------------------------
  // Whole runs.

  lemma InitInv(workers: set<Wid>, clients: set<Cid>)
    requires workers != {}
    ensures Inv(Init(workers, clients))
    ensures Abs(Init(workers, clients)) == Executor([], None, [])
  {
    var w :| w in workers;
    assert w in Init(workers, clients).workers;
  }

  ghost predicate RefinesExecutor(s: State, steps: seq<Step>)
    requires Valid(s, steps)
    decreases |steps|
  {
    steps == [] ||
    (ExecutorNext(Abs(s), Abs(Apply(s, steps[0]))) && RefinesExecutor(Apply(s, steps[0]), steps[1..]))
  }

  lemma {:induction false} RunKeepsInv(s: State, steps: seq<Step>)
    requires Inv(s) && Valid(s, steps)
    ensures Inv(Exec(s, steps))
    ensures RefinesExecutor(s, steps)
    decreases |steps|
  {
    if steps != [] {
      StepKeepsInv(s, steps[0]);
      StepRefines(s, steps[0]);
      RunKeepsInv(Apply(s, steps[0]), steps[1..]);
    }
  }

  /** Every run of any pool with at least one worker is a run of the sequential executor:
      tasks start one at a time in the order they were pushed, and each runs once. */
  lemma PoolIsSequential(workers: set<Wid>, clients: set<Cid>, steps: seq<Step>)
    requires workers != {} && Valid(Init(workers, clients), steps)
    ensures RefinesExecutor(Init(workers, clients), steps)
    ensures var s := Exec(Init(workers, clients), steps);
            s.completed + InHand(Current(s)) + s.queue == s.submitted
  {
    InitInv(workers, clients);
    RunKeepsInv(Init(workers, clients), steps);
  }

  lemma AtMostOneRunning(workers: set<Wid>, clients: set<Cid>, steps: seq<Step>, v: Wid, w: Wid)
    requires workers != {} && Valid(Init(workers, clients), steps)
    requires var s := Exec(Init(workers, clients), steps);
             v in s.workers && w in s.workers && s.workers[v].Running? && s.workers[w].Running?
    ensures v == w
  {
    InitInv(workers, clients);
    RunKeepsInv(Init(workers, clients), steps);
    var s := Exec(Init(workers, clients), steps);
    assert HoldsLock(s, Worker(v)) && HoldsLock(s, Worker(w));
  }

  /** No lost wake-up, over whole runs: all workers are never asleep with work waiting
      and no notify owed. */
  lemma NoLostWakeup(workers: set<Wid>, clients: set<Cid>, steps: seq<Step>)
    requires workers != {} && Valid(Init(workers, clients), steps)
    ensures var s := Exec(Init(workers, clients), steps);
            s.queue != [] ==> (exists w :: Awake(s, w)) || (exists c :: OwesNotify(s, c))
  {
    InitInv(workers, clients);
    RunKeepsInv(Init(workers, clients), steps);
  }

  /** The buffers of each client are pushed in the order its thread received them. */
  lemma ClientOrderKept(workers: set<Wid>, clients: set<Cid>, steps: seq<Step>, c: Cid)
    requires workers != {} && Valid(Init(workers, clients), steps)
    requires c in Exec(Init(workers, clients), steps).clients
    ensures var s := Exec(Init(workers, clients), steps);
            && c in s.received
            && InputsOf(s.submitted, c) <= s.received[c]
            && |s.received[c]| <= |InputsOf(s.submitted, c)| + 1
  {
    InitInv(workers, clients);
    RunKeepsInv(Init(workers, clients), steps);
    assert ClientInOrder(Exec(Init(workers, clients), steps), c);
  }

  // ---------------------------------------------------------------------------
  // Progress.  Whether a task ever returns is up to the task: `Finish` is the return of
  // `task()` on line 103.  So progress is stated for steps other than `Finish`, and for
  // states in which no task runs; while one runs, nothing else can.

  predicate Helpful(step: Step) {
    step.Push? || step.ClientUnlock? || step.Notify? || step.WorkerLock? || step.Check?
  }

  predicate AllHelpful(steps: seq<Step>) { forall i :: 0 <= i < |steps| ==> Helpful(steps[i]) }

  predicate NoFinish(steps: seq<Step>) { forall i :: 0 <= i < |steps| ==> !steps[i].Finish? }

  ghost predicate Busy(s: State) { exists w :: w in s.workers && s.workers[w].Running? }

  /** Running `first` and then what follows. */
  lemma Then(s: State, first: Step, rest: seq<Step>)
    requires Enabled(s, first) && Valid(Apply(s, first), rest)
    ensures Valid(s, [first] + rest) && Exec(s, [first] + rest) == Exec(Apply(s, first), rest)
  {
    assert ([first] + rest)[1..] == rest;
  }

  lemma StartWithAwake(s: State, w: Wid) returns (steps: seq<Step>)
    requires Inv(s) && s.queue != [] && s.owner == None && Awake(s, w)
    ensures Valid(s, steps) && AllHelpful(steps) && |steps| == 2
    ensures Current(Exec(s, steps)) == Some(s.queue[0])
  {
    assert !HoldsLock(s, Worker(w));
    var s1 := Apply(s, WorkerLock(w));
    Then(s1, Check(w), []);
    Then(s, WorkerLock(w), [Check(w)]);
    steps := [WorkerLock(w)] + [Check(w)];
  }

  lemma StartUnlocked(s: State) returns (steps: seq<Step>)
    requires Inv(s) && s.queue != [] && s.owner == None
    ensures Valid(s, steps) && AllHelpful(steps) && |steps| <= 3
    ensures Current(Exec(s, steps)) == Some(s.queue[0])
  {
    if w :| Awake(s, w) {
      steps := StartWithAwake(s, w);
    } else {
      var c :| OwesNotify(s, c);
      assert !HoldsLock(s, Client(c));
      var w :| w in s.workers;
      assert !Awake(s, w);
      var wake := Notify(c, Some(w));
      StepKeepsInv(s, wake);
      var rest := StartWithAwake(Apply(s, wake), w);
      Then(s, wake, rest);
      steps := [wake] + rest;
    }
  }

  /** Whenever a task waits and none runs, at most five steps, each of them the next one of
      a thread that is already under way or sleeping, start the first waiting task. */
  lemma FrontTaskCanStart(s: State) returns (steps: seq<Step>)
    requires Inv(s) && s.queue != [] && !Busy(s)
    ensures Valid(s, steps) && AllHelpful(steps) && |steps| <= 5
    ensures Current(Exec(s, steps)) == Some(s.queue[0])
  {
    if s.owner == None {
      steps := StartUnlocked(s);
      return;
    }
    var a := s.owner.value;
    assert HoldsLock(s, a);
    if a.Worker? {
      Then(s, Check(a.w), []);
      steps := [Check(a.w)] + [];
    } else if s.clients[a.c].Unlocking? {
      StepKeepsInv(s, ClientUnlock(a.c));
      var rest := StartUnlocked(Apply(s, ClientUnlock(a.c)));
      Then(s, ClientUnlock(a.c), rest);
      steps := [ClientUnlock(a.c)] + rest;
    } else {
      var s1 := Apply(s, Push(a.c));
      StepKeepsInv(s, Push(a.c));
      StepKeepsInv(s1, ClientUnlock(a.c));
      var rest := StartUnlocked(Apply(s1, ClientUnlock(a.c)));
      Then(s1, ClientUnlock(a.c), rest);
      Then(s, Push(a.c), [ClientUnlock(a.c)] + rest);
      steps := [Push(a.c)] + ([ClientUnlock(a.c)] + rest);
    }
  }

  /** The same from every reachable state of the pool. */
  lemma WaitingWorkStarts(workers: set<Wid>, clients: set<Cid>, steps: seq<Step>) returns (more: seq<Step>)
    requires workers != {} && Valid(Init(workers, clients), steps)
    requires var s := Exec(Init(workers, clients), steps); s.queue != [] && !Busy(s)
    ensures var s := Exec(Init(workers, clients), steps);
            Valid(s, more) && AllHelpful(more) && |more| <= 5 && Current(Exec(s, more)) == Some(s.queue[0])
  {
    InitInv(workers, clients);
    RunKeepsInv(Init(workers, clients), steps);
    more := FrontTaskCanStart(Exec(Init(workers, clients), steps));
  }

  /** The converse: while worker `w` runs its task, nothing is pushed, started or completed,
      whatever the other threads do, until that task returns. */
  lemma {:induction false} FrozenWhileRunning(s: State, w: Wid, steps: seq<Step>)
    requires Inv(s) && w in s.workers && s.workers[w].Running? && Valid(s, steps)
    requires forall i :: 0 <= i < |steps| ==> steps[i] != Finish(w)
    ensures Frozen(s, w, Exec(s, steps))
    decreases |steps|
  {
    if steps != [] {
      FrozenStep(s, w, steps[0]);
      StepKeepsInv(s, steps[0]);
      FrozenWhileRunning(Apply(s, steps[0]), w, steps[1..]);
    }
  }

  ghost predicate Frozen(s: State, w: Wid, e: State)
    requires w in s.workers
  {
    && w in e.workers && e.workers[w] == s.workers[w] && e.owner == s.owner
    && e.queue == s.queue && e.submitted == s.submitted && e.completed == s.completed
  }

  lemma FrozenStep(s: State, w: Wid, step: Step)
    requires Inv(s) && w in s.workers && s.workers[w].Running? && Enabled(s, step) && step != Finish(w)
    ensures Frozen(s, w, Apply(s, step))
  {
    assert HoldsLock(s, Worker(w));
    OwnerOf(s, step);
  }

  /** More tasks have been started in `e` than in `s`. */
  ghost predicate StartedMore(s: State, e: State) {
    |e.completed| + |InHand(Current(e))| > |s.completed| + |InHand(Current(s))|
  }

  lemma {:induction false} NoFinishKeepsCompleted(s: State, steps: seq<Step>)
    requires Valid(s, steps) && NoFinish(steps)
    ensures Exec(s, steps).completed == s.completed
    decreases |steps|
  {
    if steps != [] {
      assert !steps[0].Finish?;
      NoFinishKeepsCompleted(Apply(s, steps[0]), steps[1..]);
    }
  }

  ghost predicate CanStart(s: State) {
    exists steps :: Valid(s, steps) && NoFinish(steps) && StartedMore(s, Exec(s, steps))
  }

  /** Exactly when the pool makes progress on its own: a waiting task can be started before
      any running task returns if and only if no task is running. */
  lemma StartsExactly(s: State)
    requires Inv(s) && s.queue != []
    ensures CanStart(s) <==> !Busy(s)
  {
    if !Busy(s) {
      var steps := FrontTaskCanStart(s);
      assert NoFinish(steps);
      NoFinishKeepsCompleted(s, steps);
      assert Current(s) == None;
    } else {
      var w :| w in s.workers && s.workers[w].Running?;
      assert HoldsLock(s, Worker(w));
      forall steps | Valid(s, steps) && NoFinish(steps)
        ensures !StartedMore(s, Exec(s, steps))
      {
        FrozenWhileRunning(s, w, steps);
      }
    }
  }
}

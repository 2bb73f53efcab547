/** The pool, the reply hand-over and the parser threads in one machine.  Every running worker
    has a task of its own: a buffer, a parser thread that reads and writes the shared world in
    steps, and a hand-over of replies.  A task returns when both its threads are through.
    Nothing but the pool's mutex keeps two tasks apart.  `envs(n)` is what the n-th task to
    start cannot compute. */
module Server {
  import opened Prelude
  import opened RedisParser
  import opened Pipeline
  import opened Serial
  import opened ParserThread
  import E = EndToEnd
  import S = Store
  import P = WorkerPool
  import H = ResponseHandoff

  type Envs = nat -> Env

  datatype Task = Task(receive: Receive, cont: Cont, hand: H.State)

  /** `sends` is what has gone to the replicas' sockets, `archive` the final hand-over of each
      task that has returned.  An exception ends the process. */
  datatype State = State(pool: P.State, world: World, running: map<P.Wid, Task>,
                         sends: seq<(int, string)>, archive: seq<H.State>, alive: bool)

  datatype Step = Pool(step: P.Step) | Hand(w: P.Wid, move: H.Step) | Parser(w: P.Wid)

  function Init(w0: World, workers: set<P.Wid>, clients: set<P.Cid>): State {
    State(P.Init(workers, clients), w0, map[], [], [], true)
  }

  /** The parser thread has done all it had to do before its next access to the world. */
  predicate CanAdvance(t: Task) { t.cont != Unwind(0) && t.hand.p == H.Parser(|t.hand.program|, H.Ready) }

  /** Both threads of the task are through: `t.join()` on line 84 returns. */
  predicate Returned(t: Task) { t.cont == Unwind(0) && t.hand.h.at.Exited? && t.hand.p.pc == |t.hand.program| }

  predicate Enabled(s: State, step: Step) {
    s.alive &&
    match step
    case Pool(p) => P.Enabled(s.pool, p) && (p.Finish? ==> p.w in s.running && Returned(s.running[p.w]))
    case Hand(w, h) => w in s.running && H.Enabled(s.running[w].hand, h)
    case Parser(w) => w in s.running && CanAdvance(s.running[w])
  }

  function ReceiveOf(envs: Envs, task: P.Task, n: nat): Receive { Receive(envs(n), task.client, task.input) }

  predicate Starts(s: P.State, p: P.Step) { p.Check? && s.queue != [] }

  function Fresh(r: Receive): Task { Task(r, Call(0, 0), H.Init([])) }

  function Apply(envs: Envs, s: State, step: Step): State
    requires Enabled(s, step)
  {
    match step
    case Hand(w, h) => s.(running := s.running[w := s.running[w].(hand := H.Apply(s.running[w].hand, h))])
    case Parser(w) => ApplyParser(s, w)
    case Pool(p) => ApplyPool(envs, s, p)
  }

  /** One access of worker `w`'s parser thread to the shared world. */
  function ApplyParser(s: State, w: P.Wid): State
    requires w in s.running
  {
    var t := s.running[w];
    match Advance(t.receive, s.world, t.cont)
    case Err(_) => s.(alive := false)
    case Ok(st) =>
      s.(world := st.world, sends := s.sends + st.sends,
         running := s.running[w := t.(cont := st.next, hand := H.Longer(t.hand, st.actions))])
  }

  function ApplyPool(envs: Envs, s: State, p: P.Step): State
    requires Enabled(s, Pool(p))
  {
    var s' := s.(pool := P.Apply(s.pool, p));
    if Starts(s.pool, p) then
      var r := ReceiveOf(envs, s.pool.queue[0], |s.pool.completed| + |s.running|);
      s'.(running := s.running[p.w := Fresh(r)])
    else if p.Finish? then s'.(running := s.running - {p.w}, archive := s.archive + [s.running[p.w].hand])
    else s'
  }

  predicate Valid(envs: Envs, s: State, steps: seq<Step>)
    decreases |steps|
  {
    steps == [] || (Enabled(s, steps[0]) && Valid(envs, Apply(envs, s, steps[0]), steps[1..]))
  }

  function Exec(envs: Envs, s: State, steps: seq<Step>): State
    requires Valid(envs, s, steps)
    decreases |steps|
  {
    if steps == [] then s else Exec(envs, Apply(envs, s, steps[0]), steps[1..])
  }

  // ---------------------------------------------------------------------------
  // The invariant.

  /** The receives of the tasks in start order. */
  function Receives(envs: Envs, tasks: seq<P.Task>): seq<Receive> {
    seq(|tasks|, i requires 0 <= i < |tasks| => ReceiveOf(envs, tasks[i], i))
  }

  ghost predicate Reached(h: H.State) {
    exists steps :: H.Valid(H.Init(h.program), steps) && H.Exec(H.Init(h.program), steps) == h
  }

  /** Half-way through a task: what it has done so far, together with the rest of it from the
      world as it is now, is the whole task from the world the earlier ones left. */
  ghost predicate Underway(w0: World, past: seq<Receive>, t: Task, world: World, sends: seq<(int, string)>) {
    && Serve(w0, past).Ok?
    && Sends(w0, past) <= sends
    && ShapedSoFar(t.hand.program, t.cont) && Reached(t.hand)
    && Same(Handle(Serve(w0, past).value, t.receive),
            Prepend(t.hand.program, sends[|Sends(w0, past)|..], Rest(t.receive, world, t.cont)))
  }

  /** The same outcome, or an exception both times. */
  predicate Same(a: Result<Outcome>, b: Result<Outcome>) { if a.Ok? then a == b else b.Err? }

  /** The hand-over of a task that has returned: a finished run of exactly what the
      interpreter makes of the buffer in the world the earlier ones left. */
  ghost predicate Archived(w0: World, receives: seq<Receive>, i: nat, h: H.State)
    requires i < |receives|
  {
    && Serve(w0, receives[..i]).Ok?
    && Handle(Serve(w0, receives[..i]).value, receives[i]).Ok?
    && h.program == Handle(Serve(w0, receives[..i]).value, receives[i]).value.actions
    && H.RepliesFirst(h.program) && Reached(h) && h.h.at.Exited? && h.p.pc == |h.program|
  }

  ghost predicate AllArchived(envs: Envs, w0: World, s: State) {
    && |s.archive| == |s.pool.completed|
    && forall i :: 0 <= i < |s.archive| ==> Archived(w0, Receives(envs, s.pool.completed), i, s.archive[i])
  }

  /** The tasks are those of the workers that run one. */
  ghost predicate TasksOfWorkers(s: State) {
    forall w :: w in s.running <==> w in s.pool.workers && s.pool.workers[w].Running?
  }

  ghost predicate InStep(envs: Envs, w0: World, s: State) {
    var past := Receives(envs, s.pool.completed);
    match P.Current(s.pool)
    case None => Serve(w0, past) == Ok(s.world) && Sends(w0, past) == s.sends
    case Some(task) =>
      forall w :: w in s.running ==>
        && s.running[w].receive == ReceiveOf(envs, task, |s.pool.completed|)
        && Underway(w0, past, s.running[w], s.world, s.sends)
  }

  ghost predicate Inv(envs: Envs, w0: World, s: State) {
    && P.Inv(s.pool)
    && (s.alive ==> TasksOfWorkers(s) && AllArchived(envs, w0, s) && InStep(envs, w0, s))
  }

  /** The mutex at work: at most one task is there, its worker owns the mutex. */
  lemma OnlyOne(s: State, w: P.Wid)
    requires P.Inv(s.pool) && TasksOfWorkers(s) && w in s.running
    ensures P.Current(s.pool) == Some(s.pool.workers[w].task)
    ensures forall u :: u in s.running ==> u == w
  {
    assert P.HoldsLock(s.pool, P.Worker(w));
    forall u | u in s.running
      ensures u == w
    {
      assert P.HoldsLock(s.pool, P.Worker(u));
    }
  }

  lemma NoneRunning(s: State)
    requires P.Inv(s.pool) && TasksOfWorkers(s) && P.Current(s.pool) == None
    ensures s.running == map[]
  {
    if w :| w in s.running {
      OnlyOne(s, w);
    }
  }

  /** A task starts only when none runs, and ends only as the running one. */
  lemma CurrentAt(s: P.State, p: P.Step)
    requires P.Inv(s) && P.Enabled(s, p)
    ensures p.Check? ==> P.Current(s) == None
    ensures Starts(s, p) ==> P.Current(P.Apply(s, p)) == Some(s.queue[0])
    ensures p.Finish? ==> P.Current(s) == Some(s.workers[p.w].task) && P.Current(P.Apply(s, p)) == None
    ensures !p.Finish? && !Starts(s, p) ==> P.Current(P.Apply(s, p)) == P.Current(s)
    ensures !p.Finish? ==> P.Apply(s, p).completed == s.completed
  {
    P.OwnerOf(s, p);
    P.StepKeepsInv(s, p);
    if P.Current(s).Some? {
      assert P.HoldsLock(s, s.owner.value);
    }
    if p.WorkerLock? || p.ClientLock? {
      assert P.Current(s) == None;
    }
  }

  /** Which workers run a task changes with starts and returns only. */
  lemma RunningAt(s: P.State, p: P.Step, w: P.Wid)
    requires P.Enabled(s, p)
    ensures (w in P.Apply(s, p).workers && P.Apply(s, p).workers[w].Running?) <==>
              if Starts(s, p) && w == p.w then true
              else if p.Finish? && w == p.w then false
              else w in s.workers && s.workers[w].Running?
  {
  }

  lemma TasksKept(envs: Envs, s: State, p: P.Step)
    requires TasksOfWorkers(s) && Enabled(s, Pool(p))
    ensures TasksOfWorkers(ApplyPool(envs, s, p))
  {
    var s' := ApplyPool(envs, s, p);
    forall w
      ensures w in s'.running <==> w in s'.pool.workers && s'.pool.workers[w].Running?
    {
      RunningAt(s.pool, p, w);
    }
  }

  // ---------------------------------------------------------------------------
  // Steps of the running task.

  lemma ReachedStep(h: H.State, step: H.Step)
    requires Reached(h) && H.Enabled(h, step)
    ensures Reached(H.Apply(h, step)) && H.Apply(h, step).program == h.program
  {
    var steps :| H.Valid(H.Init(h.program), steps) && H.Exec(H.Init(h.program), steps) == h;
    H.Then(h, step, []);
    H.Append(H.Init(h.program), steps, [step] + []);
  }

  lemma ReachedLonger(h: H.State, actions: seq<H.Action>)
    requires Reached(h)
    ensures Reached(H.Longer(h, actions))
  {
    var steps :| H.Valid(H.Init(h.program), steps) && H.Exec(H.Init(h.program), steps) == h;
    H.LongerRun(H.Init(h.program), actions, steps);
    assert H.Longer(H.Init(h.program), actions) == H.Init(H.Longer(h, actions).program);
  }

  lemma HandUnderway(w0: World, past: seq<Receive>, t: Task, world: World, sends: seq<(int, string)>, step: H.Step)
    requires Underway(w0, past, t, world, sends) && H.Enabled(t.hand, step)
    ensures Underway(w0, past, t.(hand := H.Apply(t.hand, step)), world, sends)
  {
    ReachedStep(t.hand, step);
  }

  /** An access to the world is one step of the serial run in progress. */
  lemma ParserUnderway(w0: World, past: seq<Receive>, t: Task, world: World, sends: seq<(int, string)>, st: Stage)
    requires Underway(w0, past, t, world, sends) && t.cont != Unwind(0)
    requires Advance(t.receive, world, t.cont) == Ok(st)
    ensures Underway(w0, past, t.(cont := st.next, hand := H.Longer(t.hand, st.actions)), st.world, sends + st.sends)
  {
    var before := |Sends(w0, past)|;
    AdvanceRefines(t.receive, world, t.cont);
    AdvanceShape(t.receive, world, t.cont);
    ShapeGrows(t.hand.program, t.cont, st);
    ReachedLonger(t.hand, st.actions);
    assert (sends + st.sends)[before..] == sends[before..] + st.sends;
    PrependTwice(t.hand.program, sends[before..], st.actions, st.sends, Rest(t.receive, st.world, st.next));
  }

  lemma FreshUnderway(w0: World, past: seq<Receive>, r: Receive, world: World, sends: seq<(int, string)>)
    requires Serve(w0, past) == Ok(world) && Sends(w0, past) == sends
    ensures Underway(w0, past, Fresh(r), world, sends)
  {
    RestAtEnds(r, world);
    PrependNothing(Handle(world, r));
    assert sends[|sends|..] == [];
    assert H.Valid(H.Init([]), []) && H.Exec(H.Init([]), []) == H.Init([]);
  }

  lemma PrependToNothing(actions: seq<H.Action>, sends: seq<(int, string)>, world: World)
    ensures Prepend(actions, sends, Ok(Outcome(world, [], []))) == Ok(Outcome(world, actions, sends))
  {
    assert actions + [] == actions && sends + [] == sends;
  }

  lemma PrependNothing(r: Result<Outcome>)
    ensures Prepend([], [], r) == r
  {
    if r.Ok? {
      assert [] + r.value.actions == r.value.actions && [] + r.value.sends == r.value.sends;
    }
  }

  /** A returned task has done the whole of it. */
  lemma ReturnedDone(w0: World, past: seq<Receive>, t: Task, world: World, sends: seq<(int, string)>)
    requires Underway(w0, past, t, world, sends) && Returned(t)
    ensures Serve(w0, past + [t.receive]) == Ok(world) && Sends(w0, past + [t.receive]) == sends
    ensures Archived(w0, past + [t.receive], |past|, t.hand)
  {
    var start, done := Serve(w0, past).value, sends[|Sends(w0, past)|..];
    RestAtEnds(t.receive, world);
    PrependToNothing(t.hand.program, done, world);
    ServeOneMore(w0, past, start, t.receive, Outcome(world, t.hand.program, done));
    assert (past + [t.receive])[..|past|] == past;
  }

  // ---------------------------------------------------------------------------
  // Every step keeps the invariant.

  lemma HandKeepsInv(envs: Envs, w0: World, s: State, step: Step)
    requires Inv(envs, w0, s) && Enabled(s, step) && step.Hand?
    ensures Inv(envs, w0, Apply(envs, s, step))
  {
    OnlyOne(s, step.w);
    HandUnderway(w0, Receives(envs, s.pool.completed), s.running[step.w], s.world, s.sends, step.move);
  }

  lemma ParserKeepsInv(envs: Envs, w0: World, s: State, w: P.Wid)
    requires Inv(envs, w0, s) && Enabled(s, Parser(w))
    ensures Inv(envs, w0, ApplyParser(s, w))
  {
    var t := s.running[w];
    OnlyOne(s, w);
    if Advance(t.receive, s.world, t.cont).Ok? {
      ParserUnderway(w0, Receives(envs, s.pool.completed), t, s.world, s.sends,
                     Advance(t.receive, s.world, t.cont).value);
    }
  }

  /** The new task is at the start of the next buffer of the serial run. */
  lemma StartInStep(envs: Envs, w0: World, s: State, p: P.Step)
    requires P.Inv(s.pool) && s.alive && TasksOfWorkers(s) && InStep(envs, w0, s)
    requires P.Enabled(s.pool, p) && Starts(s.pool, p)
    ensures s.running == map[]
    ensures var past := Receives(envs, s.pool.completed);
            Underway(w0, past, Fresh(ReceiveOf(envs, s.pool.queue[0], |past|)), s.world, s.sends)
  {
    CurrentAt(s.pool, p);
    NoneRunning(s);
    var past := Receives(envs, s.pool.completed);
    FreshUnderway(w0, past, ReceiveOf(envs, s.pool.queue[0], |past|), s.world, s.sends);
  }

  lemma StartedInStep(envs: Envs, w0: World, s: State, w: P.Wid, pool: P.State)
    requires s.pool.queue != [] && P.Current(pool) == Some(s.pool.queue[0]) && pool.completed == s.pool.completed
    requires var past := Receives(envs, s.pool.completed);
             Underway(w0, past, Fresh(ReceiveOf(envs, s.pool.queue[0], |past|)), s.world, s.sends)
    ensures var r := ReceiveOf(envs, s.pool.queue[0], |s.pool.completed|);
            InStep(envs, w0, s.(pool := pool, running := map[w := Fresh(r)]))
  {
  }

  lemma StartEffect(envs: Envs, s: State, p: P.Step)
    requires Enabled(s, Pool(p)) && Starts(s.pool, p) && s.running == map[]
    ensures var r := ReceiveOf(envs, s.pool.queue[0], |s.pool.completed|);
            ApplyPool(envs, s, p) == s.(pool := P.Apply(s.pool, p), running := map[p.w := Fresh(r)])
  {
  }

  lemma StartKeepsInv(envs: Envs, w0: World, s: State, p: P.Step)
    requires Inv(envs, w0, s) && Enabled(s, Pool(p)) && Starts(s.pool, p)
    ensures Inv(envs, w0, ApplyPool(envs, s, p))
  {
    var s' := ApplyPool(envs, s, p);
    CurrentAt(s.pool, p);
    P.StepKeepsInv(s.pool, p);
    StartInStep(envs, w0, s, p);
    TasksKept(envs, s, p);
    StartEffect(envs, s, p);
    StartedInStep(envs, w0, s, p.w, s'.pool);
    assert AllArchived(envs, w0, s');
  }

  lemma ReceivesSnoc(envs: Envs, tasks: seq<P.Task>, t: P.Task)
    ensures Receives(envs, tasks + [t]) == Receives(envs, tasks) + [ReceiveOf(envs, t, |tasks|)]
  {
  }

  lemma ArchivedEarlier(w0: World, past: seq<Receive>, r: Receive, i: nat, h: H.State)
    requires i < |past| && Archived(w0, past, i, h)
    ensures Archived(w0, past + [r], i, h)
  {
    assert (past + [r])[..i] == past[..i];
  }

  lemma FinishArchives(envs: Envs, w0: World, s: State, w: P.Wid, task: P.Task)
    requires P.Inv(s.pool) && s.alive && TasksOfWorkers(s) && AllArchived(envs, w0, s) && InStep(envs, w0, s)
    requires w in s.running && Returned(s.running[w]) && P.Current(s.pool) == Some(task)
    ensures var all := Receives(envs, s.pool.completed + [task]);
            && Serve(w0, all) == Ok(s.world) && Sends(w0, all) == s.sends
            && forall i :: 0 <= i <= |s.archive| ==> Archived(w0, all, i, (s.archive + [s.running[w].hand])[i])
  {
    var past, t := Receives(envs, s.pool.completed), s.running[w];
    ReceivesSnoc(envs, s.pool.completed, task);
    ReturnedDone(w0, past, t, s.world, s.sends);
    forall i | 0 <= i < |s.archive|
      ensures Archived(w0, past + [t.receive], i, s.archive[i])
    {
      ArchivedEarlier(w0, past, t.receive, i, s.archive[i]);
    }
  }

  lemma FinishKeepsInv(envs: Envs, w0: World, s: State, p: P.Step)
    requires Inv(envs, w0, s) && Enabled(s, Pool(p)) && p.Finish?
    ensures Inv(envs, w0, ApplyPool(envs, s, p))
  {
    var s', task := ApplyPool(envs, s, p), s.pool.workers[p.w].task;
    CurrentAt(s.pool, p);
    P.StepKeepsInv(s.pool, p);
    OnlyOne(s, p.w);
    FinishArchives(envs, w0, s, p.w, task);
    assert s'.pool.completed == s.pool.completed + [task];
    TasksKept(envs, s, p);
  }

  lemma OtherKeepsInv(envs: Envs, w0: World, s: State, p: P.Step)
    requires Inv(envs, w0, s) && Enabled(s, Pool(p)) && !p.Finish? && !Starts(s.pool, p)
    ensures Inv(envs, w0, ApplyPool(envs, s, p))
  {
    var s' := ApplyPool(envs, s, p);
    CurrentAt(s.pool, p);
    P.StepKeepsInv(s.pool, p);
    TasksKept(envs, s, p);
  }

  lemma StepKeepsInv(envs: Envs, w0: World, s: State, step: Step)
    requires Inv(envs, w0, s) && Enabled(s, step)
    ensures Inv(envs, w0, Apply(envs, s, step))
  {
    match step
    case Hand(_, _) => HandKeepsInv(envs, w0, s, step);
    case Parser(w) => ParserKeepsInv(envs, w0, s, w);
    case Pool(p) =>
      if Starts(s.pool, p) {
        StartKeepsInv(envs, w0, s, p);
      } else if p.Finish? {
        FinishKeepsInv(envs, w0, s, p);
      } else {
        OtherKeepsInv(envs, w0, s, p);
      }
  }

  lemma {:induction false} RunKeepsInv(envs: Envs, w0: World, s: State, steps: seq<Step>)
    requires Inv(envs, w0, s) && Valid(envs, s, steps)
    ensures Inv(envs, w0, Exec(envs, s, steps))
    decreases |steps|
  {
    if steps != [] {
      StepKeepsInv(envs, w0, s, steps[0]);
      RunKeepsInv(envs, w0, Apply(envs, s, steps[0]), steps[1..]);
    }
  }

  lemma InitInv(envs: Envs, w0: World, workers: set<P.Wid>, clients: set<P.Cid>)
    requires workers != {}
    ensures Inv(envs, w0, Init(w0, workers, clients))
  {
    P.InitInv(workers, clients);
  }

  // ---------------------------------------------------------------------------
  // The whole server is serial.

  /** In every run, with any number of clients and workers, although every parser thread reads
      and writes the shared world on its own: while no task runs, the world and everything sent
      to the replicas are those of serving the completed buffers one after the other in the
      order they were pushed; while one runs, it is half-way through the next buffer of that
      serial run; and every completed task was a hand-over of exactly its buffer's actions. */
  lemma ServerIsSerial(envs: Envs, w0: World, workers: set<P.Wid>, clients: set<P.Cid>, steps: seq<Step>)
    requires workers != {} && Valid(envs, Init(w0, workers, clients), steps)
    ensures var s := Exec(envs, Init(w0, workers, clients), steps);
            && s.pool.completed + P.InHand(P.Current(s.pool)) + s.pool.queue == s.pool.submitted
            && (s.alive ==> InStep(envs, w0, s) && AllArchived(envs, w0, s))
            && (s.alive && s.running == map[] ==>
                  && Serve(w0, Receives(envs, s.pool.completed)) == Ok(s.world)
                  && s.sends == Sends(w0, Receives(envs, s.pool.completed)))
  {
    InitInv(envs, w0, workers, clients);
    RunKeepsInv(envs, w0, Init(w0, workers, clients), steps);
    var s := Exec(envs, Init(w0, workers, clients), steps);
    if s.alive && P.Current(s.pool).Some? {
      assert P.HoldsLock(s.pool, s.pool.owner.value);
      assert s.pool.owner.value.w in s.running;
    }
  }

  lemma HandEnqueues(h: H.State)
    requires H.RepliesFirst(h.program) && Reached(h)
    ensures h.log.enqueued <= H.Replies(h.program)
  {
    var steps :| H.Valid(H.Init(h.program), steps) && H.Exec(H.Init(h.program), steps) == h;
    H.RepliesConserved(h.program, steps);
  }

  /** What a finished hand-over put on the wire, when no wait returned spuriously, no `send`
      failed and there were at most two replies: exactly the bytes of all of them. */
  lemma HandDelivers(h: H.State)
    requires H.RepliesFirst(h.program) && Reached(h) && h.h.at.Exited?
    requires !h.tally.spurious && !h.tally.sendFailed && |H.Replies(h.program)| <= 2
    ensures h.log.wire == H.Concat(H.Replies(h.program))
  {
    var steps :| H.Valid(H.Init(h.program), steps) && H.Exec(H.Init(h.program), steps) == h;
    H.ExitMeansAnswered(h.program, steps);
    H.RepliesConserved(h.program, steps);
    H.ReachableInv(h.program, steps);
    assert h.h.hand == "" && H.Concat(H.Replies(h.program)) + ""[..h.h.sent] == H.Concat(H.Replies(h.program));
  }

  // ---------------------------------------------------------------------------
  // Runs without spurious wake-ups and failing sends.

  predicate NoSpurious(steps: seq<Step>) {
    forall i :: 0 <= i < |steps| && steps[i].Hand? ==> !steps[i].move.GateSpurious? && !steps[i].move.SentSpurious?
  }

  predicate NoFailure(steps: seq<Step>) { forall i :: 0 <= i < |steps| && steps[i].Hand? ==> !steps[i].move.SendFails? }

  predicate CleanHand(h: H.State) { !h.tally.spurious && !h.tally.sendFailed }

  ghost predicate Clean(s: State) {
    && (forall w :: w in s.running ==> CleanHand(s.running[w].hand))
    && (forall i :: 0 <= i < |s.archive| ==> CleanHand(s.archive[i]))
  }

  lemma StepKeepsClean(envs: Envs, s: State, step: Step)
    requires Clean(s) && Enabled(s, step) && NoSpurious([step]) && NoFailure([step])
    ensures Clean(Apply(envs, s, step))
  {
    assert [step][0] == step;
  }

  lemma {:induction false} RunKeepsClean(envs: Envs, s: State, steps: seq<Step>)
    requires Clean(s) && Valid(envs, s, steps) && NoSpurious(steps) && NoFailure(steps)
    ensures Clean(Exec(envs, s, steps))
    decreases |steps|
  {
    if steps != [] {
      assert NoSpurious([steps[0]]) && NoFailure([steps[0]]) && NoSpurious(steps[1..]) && NoFailure(steps[1..]);
      StepKeepsClean(envs, s, steps[0]);
      RunKeepsClean(envs, Apply(envs, s, steps[0]), steps[1..]);
    }
  }

  /** The replies of the i-th buffer of a serial run. */
  function RepliesAt(w0: World, receives: seq<Receive>, i: nat): seq<string>
    requires i < |receives| && Serve(w0, receives[..i]).Ok?
    requires Handle(Serve(w0, receives[..i]).value, receives[i]).Ok?
  {
    H.Replies(Handle(Serve(w0, receives[..i]).value, receives[i]).value.actions)
  }

  /** In runs without spurious wake-ups and failing sends every completed task with at most two
      replies has put exactly their bytes on the wire, those of the serial run. */
  lemma CompletedDelivered(envs: Envs, w0: World, workers: set<P.Wid>, clients: set<P.Cid>, steps: seq<Step>, i: nat)
    requires workers != {} && Valid(envs, Init(w0, workers, clients), steps) && NoSpurious(steps) && NoFailure(steps)
    requires var s := Exec(envs, Init(w0, workers, clients), steps); s.alive && i < |s.pool.completed|
    ensures var s := Exec(envs, Init(w0, workers, clients), steps);
            var receives := Receives(envs, s.pool.completed);
            && |s.archive| == |s.pool.completed| && Archived(w0, receives, i, s.archive[i])
            && (|RepliesAt(w0, receives, i)| <= 2 ==>
                  s.archive[i].log.wire == H.Concat(RepliesAt(w0, receives, i)))
  {
    InitInv(envs, w0, workers, clients);
    RunKeepsInv(envs, w0, Init(w0, workers, clients), steps);
    RunKeepsClean(envs, Init(w0, workers, clients), steps);
    var s := Exec(envs, Init(w0, workers, clients), steps);
    assert Archived(w0, Receives(envs, s.pool.completed), i, s.archive[i]);
    if |H.Replies(s.archive[i].program)| <= 2 {
      HandDelivers(s.archive[i]);
    }
  }

  /** What the history of writes gives to a buffer of SETs that ends in a GET. */
  function HistoryReplies(w0: World, past: seq<E.Task>, t: E.Task): seq<string>
    requires E.AllSetGet(past) && E.SetGet(t) && E.EndsInGet(t)
  {
    var history := E.AllOps(past) + E.WritesOf(t.env, t.frames, 0);
    Repeat(Leading(t.frames), [OK_RESPONSE])
    + [GetReply(S.Answer(S.LastWrite(w0.db, history, E.GetKey(t)), E.GetTime(t)))]
  }

  // ---------------------------------------------------------------------------
  // In terms of the pool's own tasks: each is its client's descriptor and its bytes.

  /** The frames a client sent in one buffer. */
  predicate Sent(task: P.Task, frames: seq<Frame>) { Whole(frames) && Encode(frames) == task.input }

  /** The same with the descriptor, and with the clock and the rest of the n-th task's inputs. */
  ghost predicate Matches(envs: Envs, task: P.Task, n: nat, t: E.Task) {
    t.env == envs(n) && t.fd == task.client && Sent(task, t.frames)
  }

  ghost predicate AllMatch(envs: Envs, tasks: seq<P.Task>, ts: seq<E.Task>) {
    |tasks| == |ts| && forall i :: 0 <= i < |ts| ==> Matches(envs, tasks[i], i, ts[i])
  }

  lemma MatchesReceived(envs: Envs, tasks: seq<P.Task>, ts: seq<E.Task>)
    requires AllMatch(envs, tasks, ts)
    ensures Receives(envs, tasks) == E.AllReceived(ts) && E.AllWhole(ts)
  {
    forall i | 0 <= i < |ts|
      ensures ReceiveOf(envs, tasks[i], i) == E.Received(ts[i]) && Whole(ts[i].frames)
    {
      assert Matches(envs, tasks[i], i, ts[i]);
    }
  }

  predicate EndsInPsync(frames: seq<Frame>) {
    LeadingBound(frames);
    Leading(frames) < |frames| && Name(frames[Leading(frames)]) == "PSYNC"
  }

  /** The clients whose buffer ends in a PSYNC, in order, on a master. */
  function PsyncClients(role: string, tasks: seq<P.Task>, frames: seq<seq<Frame>>): seq<int>
    requires |frames| == |tasks|
    decreases |tasks|
  {
    if tasks == [] then [] else PsyncClient(role, tasks[0], frames[0]) + PsyncClients(role, tasks[1..], frames[1..])
  }

  function PsyncClient(role: string, task: P.Task, frames: seq<Frame>): seq<int> {
    if role == "master" && EndsInPsync(frames) then [task.client] else []
  }

  /** What a master sends: each buffer once per leading SET to every client registered by
      then, in order of registration. */
  function Propagated(role: string, fds: seq<int>, tasks: seq<P.Task>, frames: seq<seq<Frame>>): seq<(int, string)>
    requires |frames| == |tasks|
    decreases |tasks|
  {
    if tasks == [] || role != "master" then [] else
    var all := fds + PsyncClient(role, tasks[0], frames[0]);
    Repeat(Leading(frames[0]), Round(all, tasks[0].input)) + Propagated(role, all, tasks[1..], frames[1..])
  }

  lemma {:induction false} TasksEffect(w: World, tasks: seq<P.Task>, ts: seq<E.Task>, frames: seq<seq<Frame>>)
    returns (w1: World)
    requires |tasks| == |ts| == |frames| && Registered(w)
    requires forall i :: 0 <= i < |ts| ==> ts[i].fd == tasks[i].client && ts[i].frames == frames[i]
    requires forall i :: 0 <= i < |ts| ==> Sent(tasks[i], frames[i])
    ensures Serve(w, E.AllReceived(ts)) == Ok(w1) && Registered(w1)
    ensures w1.slaveFds == w.slaveFds + PsyncClients(w.role, tasks, frames)
    ensures Sends(w, E.AllReceived(ts)) == Propagated(w.role, w.slaveFds, tasks, frames)
    decreases |ts|
  {
    if ts == [] {
      w1 := w;
    } else {
      assert Sent(tasks[0], frames[0]);
      assert forall i :: 0 <= i < |ts| - 1 ==> ts[1..][i] == ts[i + 1] && tasks[1..][i] == tasks[i + 1]
                                               && frames[1..][i] == frames[i + 1];
      var o := TaskEffect(w, tasks[0], ts[0]);
      w1 := TasksEffect(o.world, tasks[1..], ts[1..], frames[1..]);
      E.FirstReceived(ts);
      ServeFirst(w, E.Received(ts[0]), E.AllReceived(ts[1..]), o);
      E.Grown(w.slaveFds, PsyncClient(w.role, tasks[0], frames[0]), PsyncClients(w.role, tasks[1..], frames[1..]));
    }
  }

  lemma TaskEffect(w: World, task: P.Task, t: E.Task) returns (o: Outcome)
    requires Registered(w) && t.fd == task.client && Sent(task, t.frames)
    ensures Handle(w, E.Received(t)) == Ok(o) && Registered(o.world) && o.world.role == w.role
    ensures o.world.slaveFds == w.slaveFds + PsyncClient(w.role, task, t.frames)
    ensures o.sends == if w.role == "master" then Repeat(Leading(t.frames), Round(o.world.slaveFds, task.input)) else []
  {
    o := E.TaskRegisters(w, t);
    RepeatNothing<(int, string)>(Leading(t.frames));
  }

  /** Over every run from a consistent registry: while no task runs, the registry holds the
      descriptors of exactly those clients whose completed buffer ended in a PSYNC on a
      master, and what went to the replicas is each client's own bytes, as often and to whom
      `Propagated` says. */
  lemma RegistryOfClients(envs: Envs, w0: World, workers: set<P.Wid>, clients: set<P.Cid>, steps: seq<Step>,
                          frames: seq<seq<Frame>>)
    requires workers != {} && Valid(envs, Init(w0, workers, clients), steps) && Registered(w0)
    requires var s := Exec(envs, Init(w0, workers, clients), steps);
             && s.alive && s.running == map[] && |frames| == |s.pool.completed|
             && forall i :: 0 <= i < |frames| ==> Sent(s.pool.completed[i], frames[i])
    ensures var s := Exec(envs, Init(w0, workers, clients), steps);
            && s.world.slaveFds == w0.slaveFds + PsyncClients(w0.role, s.pool.completed, frames)
            && s.world.connectedSlaves == |s.world.slaveFds|
            && s.sends == Propagated(w0.role, w0.slaveFds, s.pool.completed, frames)
  {
    var s := Exec(envs, Init(w0, workers, clients), steps);
    var ts := seq(|frames|, i requires 0 <= i < |frames| => E.Task(envs(i), s.pool.completed[i].client, frames[i]));
    ServerIsSerial(envs, w0, workers, clients, steps);
    MatchesReceived(envs, s.pool.completed, ts);
    var w1 := TasksEffect(w0, s.pool.completed, ts, frames);
  }

  /** And the database is the one of the clients' own SETs and GETs, in push order. */
  lemma DatabaseOfClients(envs: Envs, w0: World, workers: set<P.Wid>, clients: set<P.Cid>, steps: seq<Step>,
                          ts: seq<E.Task>)
    requires workers != {} && Valid(envs, Init(w0, workers, clients), steps) && E.AllSetGet(ts)
    requires var s := Exec(envs, Init(w0, workers, clients), steps);
             s.alive && s.running == map[] && AllMatch(envs, s.pool.completed, ts)
    ensures Exec(envs, Init(w0, workers, clients), steps).world == w0.(db := S.After(w0.db, E.AllOps(ts)))
  {
    ServerIsSerial(envs, w0, workers, clients, steps);
    MatchesReceived(envs, Exec(envs, Init(w0, workers, clients), steps).pool.completed, ts);
    E.RunActs(w0, ts);
  }

  lemma ReceivesPrefix(envs: Envs, tasks: seq<P.Task>, i: nat)
    requires i <= |tasks|
    ensures Receives(envs, tasks)[..i] == Receives(envs, tasks[..i])
  {
  }

  /** Each client's GETs are answered from the history: when the completed buffers up to the
      i-th hold SETs and GETs and the clock does not step back, the i-th task, if its wire is
      clean and it has at most one SET in front of its GET, has sent its client exactly one
      +OK per SET and the answer the history of writes gives. */
  lemma GetDelivered(envs: Envs, w0: World, s: State, i: nat, past: seq<E.Task>, t: E.Task)
    requires Inv(envs, w0, s) && s.alive && i < |s.pool.completed| && i < |s.archive| && CleanHand(s.archive[i])
    requires E.AllSetGet(past) && E.SetGet(t) && E.EndsInGet(t) && Leading(t.frames) <= 1
    requires AllMatch(envs, s.pool.completed[..i], past) && Matches(envs, s.pool.completed[i], i, t)
    requires S.ClockSteady(E.AllOps(past) + E.WritesOf(t.env, t.frames, 0), E.GetTime(t))
    ensures s.archive[i].log.wire == H.Concat(HistoryReplies(w0, past, t))
  {
    var before, o := E.GetAnswersHistory(w0, past, t);
    ReceivesPrefix(envs, s.pool.completed, i);
    MatchesReceived(envs, s.pool.completed[..i], past);
    assert Archived(w0, Receives(envs, s.pool.completed), i, s.archive[i]);
    RepeatLength(Leading(t.frames), OK_RESPONSE);
    HandDelivers(s.archive[i]);
  }

  /** And the running one has enqueued a prefix of its answers. */
  lemma GetUnderway(envs: Envs, w0: World, s: State, w: P.Wid, past: seq<E.Task>, t: E.Task)
    requires Inv(envs, w0, s) && s.alive && w in s.running && w in s.pool.workers && s.pool.workers[w].Running?
    requires E.AllSetGet(past) && E.SetGet(t) && E.EndsInGet(t)
    requires AllMatch(envs, s.pool.completed, past)
    requires Matches(envs, s.pool.workers[w].task, |s.pool.completed|, t)
    requires S.ClockSteady(E.AllOps(past) + E.WritesOf(t.env, t.frames, 0), E.GetTime(t))
    ensures s.running[w].hand.log.enqueued <= HistoryReplies(w0, past, t)
  {
    OnlyOne(s, w);
    var before, o := E.GetAnswersHistory(w0, past, t);
    MatchesReceived(envs, s.pool.completed, past);
    var task := s.running[w];
    var rest := Rest(task.receive, s.world, task.cont);
    assert rest.Ok? && o.actions == task.hand.program + rest.value.actions;
    H.RepliesConcat(task.hand.program, rest.value.actions);
    HandEnqueues(task.hand);
  }

  // ---------------------------------------------------------------------------
  // A task that never returns stops the server.

  ghost predicate Unchanged(s: State, e: State) {
    && e.pool.completed == s.pool.completed && e.pool.queue == s.pool.queue
    && e.pool.submitted == s.pool.submitted && e.world == s.world && e.sends == s.sends
  }

  /** Without spurious wake-ups nothing is pushed, started, completed, written or propagated
      any more. */
  ghost predicate FrozenForever(envs: Envs, s: State) {
    forall steps :: Valid(envs, s, steps) && NoSpurious(steps) ==> Unchanged(s, Exec(envs, s, steps))
  }

  lemma StuckStep(h: H.State, step: H.Step)
    requires H.StuckForever(h) && H.Enabled(h, step) && !step.GateSpurious? && !step.SentSpurious?
    ensures H.StuckForever(H.Apply(h, step))
  {
    var h' := H.Apply(h, step);
    H.Then(h, step, []);
    assert H.NoSpurious([step] + []) && H.Exec(h, [step] + []) == h';
    forall more | H.Valid(h', more) && H.NoSpurious(more)
      ensures H.Exec(h', more).p == h'.p
    {
      H.Then(h, step, more);
      assert H.NoSpurious([step] + more);
    }
  }

  ghost predicate Stopped(s: State, w: P.Wid) {
    s.alive && w in s.running && H.StuckForever(s.running[w].hand)
  }

  lemma StoppedStep(envs: Envs, w0: World, s: State, w: P.Wid, step: Step)
    requires Inv(envs, w0, s) && Stopped(s, w) && Enabled(s, step) && NoSpurious([step])
    ensures Stopped(Apply(envs, s, step), w) && Unchanged(s, Apply(envs, s, step))
  {
    OnlyOne(s, w);
    match step
    case Hand(u, h) =>
      assert [step][0].Hand?;
      StuckStep(s.running[w].hand, h);
    case Parser(_) => assert false;
    case Pool(p) =>
      CurrentAt(s.pool, p);
      if p.Finish? { assert false; }
      P.FrozenStep(s.pool, w, p);
  }

  /** The composition: once the hand-over of the running task is stuck, the whole server is,
      whatever the other workers and the clients do. */
  lemma {:induction false} StoppedFreezes(envs: Envs, w0: World, s: State, w: P.Wid, steps: seq<Step>)
    requires Inv(envs, w0, s) && Stopped(s, w) && Valid(envs, s, steps) && NoSpurious(steps)
    ensures Unchanged(s, Exec(envs, s, steps))
    decreases |steps|
  {
    if steps != [] {
      assert NoSpurious([steps[0]]) && NoSpurious(steps[1..]);
      StoppedStep(envs, w0, s, w, steps[0]);
      StepKeepsInv(envs, w0, s, steps[0]);
      StoppedFreezes(envs, w0, Apply(envs, s, steps[0]), w, steps[1..]);
    }
  }

  // ---------------------------------------------------------------------------
  // And every buffer can be such a task.

  lemma Then(envs: Envs, s: State, first: Step, rest: seq<Step>)
    requires Enabled(s, first) && Valid(envs, Apply(envs, s, first), rest)
    ensures Valid(envs, s, [first] + rest) && Exec(envs, s, [first] + rest) == Exec(envs, Apply(envs, s, first), rest)
  {
    assert ([first] + rest)[1..] == rest;
  }

  function Hands(w: P.Wid, moves: seq<H.Step>): seq<Step> {
    seq(|moves|, i requires 0 <= i < |moves| => Hand(w, moves[i]))
  }

  lemma {:induction false} HandsRun(envs: Envs, s: State, w: P.Wid, moves: seq<H.Step>)
    requires s.alive && w in s.running && H.Valid(s.running[w].hand, moves)
    ensures Valid(envs, s, Hands(w, moves)) && Exec(envs, s, Hands(w, moves)) == AfterHands(s, w, moves)
    decreases |moves|
  {
    HandsThen(envs, s, w, moves, []);
    assert Hands(w, moves) + [] == Hands(w, moves);
  }

  /** The server after moves of one hand-over. */
  function AfterHands(s: State, w: P.Wid, moves: seq<H.Step>): State
    requires w in s.running && H.Valid(s.running[w].hand, moves)
  {
    s.(running := s.running[w := s.running[w].(hand := H.Exec(s.running[w].hand, moves))])
  }

  lemma AfterNothing(s: State, w: P.Wid)
    requires w in s.running
    ensures AfterHands(s, w, []) == s
  {
    assert s.running[w := s.running[w]] == s.running;
  }

  lemma AfterFirst(envs: Envs, s: State, w: P.Wid, moves: seq<H.Step>) returns (s1: State)
    requires s.alive && w in s.running && moves != [] && H.Valid(s.running[w].hand, moves)
    ensures Enabled(s, Hand(w, moves[0])) && s1 == Apply(envs, s, Hand(w, moves[0])) && s1.alive
    ensures w in s1.running && H.Valid(s1.running[w].hand, moves[1..])
    ensures AfterHands(s1, w, moves[1..]) == AfterHands(s, w, moves)
  {
    s1 := Apply(envs, s, Hand(w, moves[0]));
    Overwritten(s.running, w, s1.running[w], AfterHands(s, w, moves).running[w]);
  }

  lemma Overwritten(m: map<P.Wid, Task>, w: P.Wid, a: Task, b: Task)
    ensures m[w := a][w := b] == m[w := b]
  {
  }

  /** Moves of one hand-over, and then other steps. */
  lemma {:induction false} HandsThen(envs: Envs, s: State, w: P.Wid, moves: seq<H.Step>, rest: seq<Step>)
    requires s.alive && w in s.running && H.Valid(s.running[w].hand, moves)
    requires Valid(envs, AfterHands(s, w, moves), rest)
    ensures Valid(envs, s, Hands(w, moves) + rest)
    ensures Exec(envs, s, Hands(w, moves) + rest) == Exec(envs, AfterHands(s, w, moves), rest)
    decreases |moves|
  {
    if moves == [] {
      AfterNothing(s, w);
      assert Hands(w, moves) + rest == rest;
    } else {
      var s1 := AfterFirst(envs, s, w, moves);
      HandsThen(envs, s1, w, moves[1..], rest);
      Then(envs, s, Hand(w, moves[0]), Hands(w, moves[1..]) + rest);
      assert Hands(w, moves) + rest == [Hand(w, moves[0])] + (Hands(w, moves[1..]) + rest);
    }
  }

  /** A task that runs has not done anything yet. */
  ghost predicate JustStarted(s: State) {
    s.alive && forall w :: w in s.running ==> s.running[w] == Fresh(s.running[w].receive)
  }

  lemma JustStartedStep(envs: Envs, s: State, p: P.Step)
    requires JustStarted(s) && P.Helpful(p) && P.Enabled(s.pool, p)
    ensures Enabled(s, Pool(p))
    ensures JustStarted(Apply(envs, s, Pool(p))) && Apply(envs, s, Pool(p)).pool == P.Apply(s.pool, p)
    ensures Apply(envs, s, Pool(p)).world == s.world && P.Apply(s.pool, p).completed == s.pool.completed
  {
  }

  /** A task that has just started can strand at its gate. */
  lemma FreshStrands(envs: Envs, s: State, w: P.Wid) returns (steps: seq<Step>)
    requires JustStarted(s) && w in s.running
    ensures Valid(envs, s, steps) && NoSpurious(steps) && Stopped(Exec(envs, s, steps), w)
  {
    var s1 := Apply(envs, s, Parser(w));
    assert s1.running[w].hand == H.Init([H.Gate]);
    assert [H.Gate][0].Gate?;
    H.StrandsExactly([H.Gate]);
    var moves :| H.Valid(H.Init([H.Gate]), moves) && H.NoSpurious(moves)
                 && H.StuckForever(H.Exec(H.Init([H.Gate]), moves));
    HandsRun(envs, s1, w, moves);
    Then(envs, s, Parser(w), Hands(w, moves));
    steps := [Parser(w)] + Hands(w, moves);
  }

  lemma NotBusy(s: State)
    requires TasksOfWorkers(s) && !P.Busy(s.pool)
    ensures s.running == map[]
  {
  }

  lemma StoppedIsFrozen(envs: Envs, w0: World, s: State, w: P.Wid)
    requires Inv(envs, w0, s) && Stopped(s, w)
    ensures FrozenForever(envs, s)
  {
    forall more | Valid(envs, s, more) && NoSpurious(more)
      ensures Unchanged(s, Exec(envs, s, more))
    {
      StoppedFreezes(envs, w0, s, w, more);
    }
  }

  /** First the steps of the pool that start the task, then those that strand it. */
  lemma {:induction false} FreezeAfter(envs: Envs, w0: World, s: State, start: seq<P.Step>) returns (steps: seq<Step>)
    requires Inv(envs, w0, s) && JustStarted(s) && P.AllHelpful(start) && P.Valid(s.pool, start)
    requires P.Current(P.Exec(s.pool, start)).Some?
    ensures Valid(envs, s, steps) && NoSpurious(steps) && FrozenForever(envs, Exec(envs, s, steps))
    decreases |start|
  {
    if start == [] {
      var w := s.pool.owner.value.w;
      steps := FreshStrands(envs, s, w);
      RunKeepsInv(envs, w0, s, steps);
      StoppedIsFrozen(envs, w0, Exec(envs, s, steps), w);
    } else {
      assert P.Helpful(start[0]) && P.AllHelpful(start[1..]);
      JustStartedStep(envs, s, start[0]);
      StepKeepsInv(envs, w0, s, Pool(start[0]));
      var rest := FreezeAfter(envs, w0, Apply(envs, s, Pool(start[0])), start[1..]);
      Then(envs, s, Pool(start[0]), rest);
      steps := [Pool(start[0])] + rest;
    }
  }

  /** From every state with the invariant: when a buffer is waiting and no task runs, some
      continuation without any spurious wake-up leaves the server frozen for good, whatever
      the buffer holds. */
  lemma AnyBufferCanFreeze(envs: Envs, w0: World, s: State) returns (steps: seq<Step>)
    requires Inv(envs, w0, s) && s.alive && s.pool.queue != [] && !P.Busy(s.pool)
    ensures Valid(envs, s, steps) && NoSpurious(steps) && FrozenForever(envs, Exec(envs, s, steps))
  {
    var start := P.FrontTaskCanStart(s.pool);
    NotBusy(s);
    steps := FreezeAfter(envs, w0, s, start);
  }

  /** The same from every reachable state. */
  lemma ServerCanFreeze(envs: Envs, w0: World, workers: set<P.Wid>, clients: set<P.Cid>, steps: seq<Step>)
    returns (more: seq<Step>)
    requires workers != {} && Valid(envs, Init(w0, workers, clients), steps)
    requires var s := Exec(envs, Init(w0, workers, clients), steps);
             s.alive && s.pool.queue != [] && !P.Busy(s.pool)
    ensures var s := Exec(envs, Init(w0, workers, clients), steps);
            Valid(envs, s, more) && NoSpurious(more) && FrozenForever(envs, Exec(envs, s, more))
  {
    InitInv(envs, w0, workers, clients);
    RunKeepsInv(envs, w0, Init(w0, workers, clients), steps);
    more := AnyBufferCanFreeze(envs, w0, Exec(envs, Init(w0, workers, clients), steps));
  }
}

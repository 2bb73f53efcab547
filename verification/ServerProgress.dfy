/** What the server can always do: finish the buffer that waits first, answer it in full and go
    on.  Together with the freezing runs of Server it says that nothing but a lost wake-up, or
    an exception, stands in the way. */
module ServerProgress {
  import opened Prelude
  import opened Resp
  import opened RedisParser
  import opened Pipeline
  import opened Serial
  import opened ParserThread
  import opened Server
  import P = WorkerPool
  import H = ResponseHandoff

  // ---------------------------------------------------------------------------
  // The parser thread comes to its end.

  function Ahead(input: string, pos: nat): nat { if pos <= |input| then 3 * (|input| + 1 - pos) else 0 }

  /** How much is left of a parser thread. */
  function Left(input: string, k: Cont): nat {
    match k
    case Call(pos, open) => Ahead(input, pos) + open + 2
    case Parse(pos, open) => Ahead(input, pos) + open + 1
    case Unwind(open) => open
  }

  lemma CommandShrinks(r: Receive, w: World, pos: nat, open: nat)
    requires pos <= |r.input| && Command(r, w, pos, open).Ok?
    ensures Left(r.input, Command(r, w, pos, open).value.next) < Left(r.input, Parse(pos, open))
  {
    if StartsWith(r.input, pos, '*') {
      var header := ReadNumber(r.input, pos + 1);
      var name := ParseBulk(r.input, header.next);
      var next := Command(r, w, pos, open).value.next;
      if next.Call? {
        var args := ReadSet(r.input, name.next, header.value);
        assert next.pos == args.next > pos;
      }
    }
  }

  lemma AdvanceShrinks(r: Receive, w: World, k: Cont)
    requires Advance(r, w, k).Ok?
    ensures Left(r.input, Advance(r, w, k).value.next) < Left(r.input, k)
  {
    if k.Parse? {
      CommandShrinks(r, w, k.pos, k.open);
    }
  }

  // ---------------------------------------------------------------------------
  // One task in the ordinary order.

  /** The parser thread is ready for its next access to the world, everything it has said so
      far is sent, and no exception lies ahead. */
  ghost predicate Serving(s: State, w: P.Wid) {
    && s.alive && w in s.running
    && var t := s.running[w];
       && H.Calm(t.hand) && t.hand.p.pc == |t.hand.program|
       && ShapedSoFar(t.hand.program, t.cont)
       && H.Messages(t.hand.log.processed) == H.Replies(t.hand.program)
       && (t.hand.m.isCommunicating <==> !H.Ends(t.hand.program))
       && (t.cont == Unwind(0) ==> H.Ends(t.hand.program))
       && Rest(t.receive, s.world, t.cont).Ok?
  }

  lemma CalmGrows(h: H.State, k: Cont, st: Stage)
    requires H.Calm(h) && h.p.pc == |h.program| && ShapedSoFar(h.program, k) && StageShape(st)
    requires k.Unwind? ==> st.next.Unwind? && st.actions == [H.Over]
    requires h.m.isCommunicating <==> !H.Ends(h.program)
    ensures H.Calm(H.Longer(h, st.actions))
  {
    if !h.m.isCommunicating {
      assert k.Unwind?;
    }
  }

  lemma AnsweredGrows(h: H.State, actions: seq<H.Action>, e: H.State)
    requires h.p.pc == |h.program| && H.AllAnswered(H.Longer(h, actions), e)
    requires H.Messages(h.log.processed) == H.Replies(h.program)
    requires h.m.isCommunicating <==> !H.Ends(h.program)
    ensures e.program == h.program + actions && H.Messages(e.log.processed) == H.Replies(e.program)
    ensures e.m.isCommunicating <==> !H.Ends(e.program)
  {
    assert (h.program + actions)[|h.program|..] == actions;
    H.RepliesConcat(h.program, actions);
    EndsSum(h.program, actions);
    assert forall i :: 0 <= i < |actions| ==> (h.program + actions)[|h.program| + i] == actions[i];
  }

  lemma EndsSum(a: seq<H.Action>, b: seq<H.Action>)
    ensures H.Ends(a + b) <==> H.Ends(a) || H.Ends(b)
  {
    if H.Ends(a) {
      var i :| 0 <= i < |a| && a[i].Over?;
      assert (a + b)[i].Over?;
    }
    if H.Ends(b) {
      var i :| 0 <= i < |b| && b[i].Over?;
      assert (a + b)[|a| + i].Over?;
    }
    if H.Ends(a + b) {
      var i :| 0 <= i < |a + b| && (a + b)[i].Over?;
      assert if i < |a| then a[i].Over? else b[i - |a|].Over?;
    }
  }

  /** The unwinding ends with a flag update. */
  lemma LastIsOver(r: Receive, w: World, k: Cont, program: seq<H.Action>)
    requires Advance(r, w, k).Ok? && Advance(r, w, k).value.next == Unwind(0)
    ensures H.Ends(program + Advance(r, w, k).value.actions)
  {
    var actions := Advance(r, w, k).value.actions;
    assert actions != [] && actions[|actions| - 1].Over?;
    EndsSum(program, actions);
  }

  lemma HandsOrdinary(w: P.Wid, moves: seq<H.Step>)
    requires H.NoSpurious(moves)
    ensures NoSpurious(Hands(w, moves))
  {
  }

  lemma NoSpuriousSum(a: seq<Step>, b: seq<Step>)
    requires NoSpurious(a) && NoSpurious(b)
    ensures NoSpurious(a + b)
  {
  }

  /** One access to the world, and moves that answer everything the parser says before the
      next one. */
  lemma ServeStage(envs: Envs, s: State, w: P.Wid) returns (s1: State, moves: seq<H.Step>)
    requires Serving(s, w) && s.running[w].cont != Unwind(0)
    ensures Enabled(s, Parser(w)) && s1 == Apply(envs, s, Parser(w)) && s1.alive && w in s1.running
    ensures H.Valid(s1.running[w].hand, moves) && H.NoSpurious(moves)
    ensures var e := AfterHands(s1, w, moves);
            && Serving(e, w) && e.pool == s.pool && e.archive == s.archive
            && Left(e.running[w].receive.input, e.running[w].cont) < Left(s.running[w].receive.input, s.running[w].cont)
  {
    var t := s.running[w];
    AdvanceRefines(t.receive, s.world, t.cont);
    var st := Advance(t.receive, s.world, t.cont).value;
    AdvanceShape(t.receive, s.world, t.cont);
    AdvanceShrinks(t.receive, s.world, t.cont);
    ShapeGrows(t.hand.program, t.cont, st);
    CalmGrows(t.hand, t.cont, st);
    if st.next == Unwind(0) {
      LastIsOver(t.receive, s.world, t.cont, t.hand.program);
    }
    s1 := Apply(envs, s, Parser(w));
    moves := H.AnswerAll(H.Longer(t.hand, st.actions));
    AnsweredGrows(t.hand, st.actions, H.Exec(H.Longer(t.hand, st.actions), moves));
  }

  /** The task has returned, its replies all sent. */
  ghost predicate Finished(s: State, e: State, w: P.Wid) {
    && P.Enabled(s.pool, P.Finish(w)) && e.pool == P.Apply(s.pool, P.Finish(w)) && e.alive
    && |e.archive| == |s.archive| + 1
    && var h := e.archive[|s.archive|];
       CleanHand(h) && H.Messages(h.log.processed) == H.Replies(h.program)
  }

  lemma FinishTask(envs: Envs, s: State, w: P.Wid) returns (steps: seq<Step>)
    requires Serving(s, w) && s.running[w].cont == Unwind(0) && P.Enabled(s.pool, P.Finish(w))
    ensures Valid(envs, s, steps) && NoSpurious(steps) && Finished(s, Exec(envs, s, steps), w)
  {
    var moves := H.LeaveIdle(s.running[w].hand);
    var s1, finish := AfterHands(s, w, moves), Pool(P.Finish(w));
    Then(envs, s1, finish, []);
    HandsThen(envs, s, w, moves, [finish] + []);
    HandsOrdinary(w, moves);
    NoSpuriousSum(Hands(w, moves), [finish] + []);
    steps := Hands(w, moves) + ([finish] + []);
  }

  lemma {:induction false} ServeTask(envs: Envs, s: State, w: P.Wid) returns (steps: seq<Step>)
    requires Serving(s, w) && P.Enabled(s.pool, P.Finish(w))
    ensures Valid(envs, s, steps) && NoSpurious(steps) && Finished(s, Exec(envs, s, steps), w)
    decreases Left(s.running[w].receive.input, s.running[w].cont)
  {
    if s.running[w].cont == Unwind(0) {
      steps := FinishTask(envs, s, w);
    } else {
      var s1, moves := ServeStage(envs, s, w);
      var rest := ServeTask(envs, AfterHands(s1, w, moves), w);
      HandsThen(envs, s1, w, moves, rest);
      Then(envs, s, Parser(w), Hands(w, moves) + rest);
      HandsOrdinary(w, moves);
      NoSpuriousSum(Hands(w, moves), rest);
      NoSpuriousSum([Parser(w)], Hands(w, moves) + rest);
      steps := [Parser(w)] + (Hands(w, moves) + rest);
    }
  }

  /** A task that has just started, when its handler has entered its loop. */
  lemma ServeFresh(envs: Envs, s: State, w: P.Wid) returns (steps: seq<Step>)
    requires s.alive && w in s.running && s.running[w] == Fresh(s.running[w].receive)
    requires P.Enabled(s.pool, P.Finish(w)) && Handle(s.world, s.running[w].receive).Ok?
    ensures Valid(envs, s, steps) && NoSpurious(steps) && Finished(s, Exec(envs, s, steps), w)
  {
    var enter := H.EnterLoop(H.Init([]));
    var s1 := AfterHands(s, w, enter);
    RestAtEnds(s.running[w].receive, s.world);
    assert Serving(s1, w);
    var rest := ServeTask(envs, s1, w);
    HandsThen(envs, s, w, enter, rest);
    HandsOrdinary(w, enter);
    NoSpuriousSum(Hands(w, enter), rest);
    steps := Hands(w, enter) + rest;
  }

  // ---------------------------------------------------------------------------
  // The server.

  /** `task` is completed next, its final hand-over clean and answered in full. */
  ghost predicate Served(s: State, e: State, task: P.Task) {
    && e.alive && e.pool.completed == s.pool.completed + [task]
    && |e.archive| == |s.archive| + 1
    && var h := e.archive[|s.archive|];
       CleanHand(h) && H.Messages(h.log.processed) == H.Replies(h.program)
  }

  lemma StartStep(envs: Envs, w0: World, s: State, step: P.Step) returns (s1: State)
    requires Inv(envs, w0, s) && JustStarted(s) && P.Helpful(step) && P.Enabled(s.pool, step)
    ensures Enabled(s, Pool(step)) && s1 == Apply(envs, s, Pool(step)) && s1.pool == P.Apply(s.pool, step)
    ensures Inv(envs, w0, s1) && JustStarted(s1) && s1.archive == s.archive && s1.world == s.world
    ensures s1.pool.completed == s.pool.completed
  {
    JustStartedStep(envs, s, step);
    StepKeepsInv(envs, w0, s, Pool(step));
    s1 := Apply(envs, s, Pool(step));
  }

  /** First the steps of the pool that start the task, then the task itself. */
  lemma {:induction false} ServeAfter(envs: Envs, w0: World, s: State, start: seq<P.Step>, task: P.Task)
    returns (steps: seq<Step>)
    requires Inv(envs, w0, s) && JustStarted(s) && P.AllHelpful(start) && P.Valid(s.pool, start)
    requires P.Current(P.Exec(s.pool, start)) == Some(task)
    requires Handle(s.world, ReceiveOf(envs, task, |s.pool.completed|)).Ok?
    ensures Valid(envs, s, steps) && NoSpurious(steps) && Served(s, Exec(envs, s, steps), task)
    decreases |start|
  {
    if start == [] {
      var w := s.pool.owner.value.w;
      steps := ServeFresh(envs, s, w);
    } else {
      assert P.Helpful(start[0]) && P.AllHelpful(start[1..]);
      var s1 := StartStep(envs, w0, s, start[0]);
      var rest := ServeAfter(envs, w0, s1, start[1..], task);
      Then(envs, s, Pool(start[0]), rest);
      steps := [Pool(start[0])] + rest;
    }
  }

  lemma HandSent(h: H.State)
    requires H.RepliesFirst(h.program) && Reached(h) && h.h.at.Exited? && CleanHand(h)
    requires H.Messages(h.log.processed) == H.Replies(h.program)
    ensures h.log.wire == H.Concat(H.Replies(h.program))
  {
    var steps :| H.Valid(H.Init(h.program), steps) && H.Exec(H.Init(h.program), steps) == h;
    H.RepliesConserved(h.program, steps);
    H.ReachableInv(h.program, steps);
    H.WholeWire(H.Concat(H.Replies(h.program)));
  }

  /** From every state with the invariant: when a buffer is waiting, no task runs and the
      buffer raises no exception, some continuation without a spurious wake-up completes it
      next and puts exactly the bytes of all its replies, those of the serial run, on the
      wire, however many they are. */
  lemma ServerCanServe(envs: Envs, w0: World, s: State) returns (steps: seq<Step>)
    requires Inv(envs, w0, s) && s.alive && s.pool.queue != [] && !P.Busy(s.pool)
    requires Handle(s.world, ReceiveOf(envs, s.pool.queue[0], |s.pool.completed|)).Ok?
    ensures Valid(envs, s, steps) && NoSpurious(steps)
    ensures var e, n := Exec(envs, s, steps), |s.pool.completed|;
            var o := Handle(s.world, ReceiveOf(envs, s.pool.queue[0], n)).value;
            && e.alive && e.pool.completed == s.pool.completed + [s.pool.queue[0]] && |e.archive| == n + 1
            && e.archive[n].log.wire == H.Concat(H.Replies(o.actions))
  {
    var start := P.FrontTaskCanStart(s.pool);
    var task := s.pool.queue[0];
    NotBusy(s);
    steps := ServeAfter(envs, w0, s, start, task);
    RunKeepsInv(envs, w0, s, steps);
    ServedWire(envs, w0, s, Exec(envs, s, steps), task);
  }

  lemma ServedWire(envs: Envs, w0: World, s: State, e: State, task: P.Task)
    requires Inv(envs, w0, s) && s.alive && s.running == map[] && Inv(envs, w0, e) && Served(s, e, task)
    requires Handle(s.world, ReceiveOf(envs, task, |s.pool.completed|)).Ok?
    ensures |s.archive| == |s.pool.completed|
    ensures var o := Handle(s.world, ReceiveOf(envs, task, |s.pool.completed|)).value;
            e.archive[|s.archive|].log.wire == H.Concat(H.Replies(o.actions))
  {
    var n, past := |s.pool.completed|, Receives(envs, s.pool.completed);
    NoTaskNoCurrent(s);
    ReceivesSnoc(envs, s.pool.completed, task);
    assert Archived(w0, Receives(envs, e.pool.completed), n, e.archive[n]);
    assert (past + [ReceiveOf(envs, task, n)])[..n] == past;
    HandSent(e.archive[n]);
  }

  lemma NoTaskNoCurrent(s: State)
    requires P.Inv(s.pool) && TasksOfWorkers(s) && s.running == map[]
    ensures P.Current(s.pool) == None
  {
  }
}

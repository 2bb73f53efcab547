/** Serial runs of SET and GET buffers, from received bytes to reply bytes. */
module EndToEnd {
  import opened Prelude
  import opened Resp
  import opened RedisParser
  import opened Pipeline
  import opened Serial
  import S = Store
  import H = ResponseHandoff

  /** One received buffer, as the frames it holds. */
  datatype Task = Task(env: Env, fd: int, frames: seq<Frame>)

  predicate SetGet(t: Task) {
    && Whole(t.frames)
    && forall i :: 0 <= i < |t.frames| ==> IsSet(t.frames[i]) || Name(t.frames[i]) == "GET"
  }

  predicate AllSetGet(tasks: seq<Task>) { forall i :: 0 <= i < |tasks| ==> SetGet(tasks[i]) }

  function Received(t: Task): Receive { Receive(t.env, t.fd, Encode(t.frames)) }

  function AllReceived(tasks: seq<Task>): seq<Receive> {
    seq(|tasks|, i requires 0 <= i < |tasks| => Received(tasks[i]))
  }

  // ---------------------------------------------------------------------------
  // The store operations a buffer performs.

  function WritesOf(env: Env, frames: seq<Frame>, pos: nat): seq<S.Op>
    requires AllWellFormed(frames)
    decreases |frames|
  {
    if frames == [] || !IsSet(frames[0]) then [] else
    [S.Write(frames[0][1], frames[0][2], ExpiryOf(frames[0], env.now(pos)))]
    + WritesOf(env, frames[1..], pos + |EncodeArray(frames[0])|)
  }

  predicate EndsInGet(t: Task) { Leading(t.frames) < |t.frames| }

  function GetKey(t: Task): string
    requires SetGet(t) && EndsInGet(t)
  {
    t.frames[Leading(t.frames)][1]
  }

  function GetTime(t: Task): int { t.env.now(LastStart(t.frames, 0)) }

  function OpsOf(t: Task): seq<S.Op>
    requires SetGet(t)
  {
    WritesOf(t.env, t.frames, 0) + (if EndsInGet(t) then [S.Read(GetKey(t), GetTime(t))] else [])
  }

  function AllOps(tasks: seq<Task>): seq<S.Op>
    requires AllSetGet(tasks)
    decreases |tasks|
  {
    if tasks == [] then [] else OpsOf(tasks[0]) + AllOps(tasks[1..])
  }

  lemma FirstSet(env: Env, db: S.Database, frames: seq<Frame>, pos: nat) returns (op: S.Op, next: nat)
    requires Whole(frames) && IsSet(frames[0])
    ensures WritesOf(env, frames, pos) == [op] + WritesOf(env, frames[1..], next)
    ensures AfterSets(env, db, frames, pos) == AfterSets(env, S.Apply(db, op).0, frames[1..], next)
  {
    op := S.Write(frames[0][1], frames[0][2], ExpiryOf(frames[0], env.now(pos)));
    next := pos + |EncodeArray(frames[0])|;
  }

  lemma {:induction false} SetsAreWrites(env: Env, db: S.Database, frames: seq<Frame>, pos: nat)
    requires AllWellFormed(frames)
    ensures AfterSets(env, db, frames, pos) == S.After(db, WritesOf(env, frames, pos))
    decreases |frames|
  {
    if frames != [] && IsSet(frames[0]) {
      var op, next := FirstSet(env, db, frames, pos);
      SetsAreWrites(env, S.Apply(db, op).0, frames[1..], next);
      S.AfterFront(db, op, WritesOf(env, frames[1..], next));
    }
  }

  /** One buffer acts on the database as its operations, changes nothing else, and answers
      one +OK per SET and what the database returned to the GET. */
  lemma TaskActs(w: World, t: Task) returns (o: Outcome)
    requires SetGet(t)
    ensures Handle(w, Received(t)) == Ok(o)
    ensures o.world == w.(db := S.After(w.db, OpsOf(t)))
    ensures var written := S.After(w.db, WritesOf(t.env, t.frames, 0));
            H.Replies(o.actions) ==
              Repeat(Leading(t.frames), [OK_RESPONSE])
              + (if EndsInGet(t) then [GetReply(S.DbGet(written, GetKey(t), GetTime(t)).1)] else [])
  {
    var input := Encode(t.frames);
    o := Meaning(t.env, w, t.fd, t.frames, 0, input);
    assert At(input, 0, input);
    InterpMeaning(t.env, w, t.fd, input, 0, t.frames);
    MeaningReplies(t.env, w, t.fd, t.frames, 0, input);
    SetsAreWrites(t.env, w.db, t.frames, 0);
    LastActs(w, t);
    if EndsInGet(t) {
      S.AfterConcat(w.db, WritesOf(t.env, t.frames, 0), [S.Read(GetKey(t), GetTime(t))]);
      S.AfterOne(S.After(w.db, WritesOf(t.env, t.frames, 0)), S.Read(GetKey(t), GetTime(t)));
    } else {
      assert OpsOf(t) == WritesOf(t.env, t.frames, 0);
    }
  }

  lemma LastActs(w: World, t: Task)
    requires SetGet(t)
    ensures var written := AfterSets(t.env, w.db, t.frames, 0);
            Last(t.env, w, t.fd, t.frames, 0) ==
              if EndsInGet(t) then
                var (db, response) := S.DbGet(written, GetKey(t), GetTime(t));
                (w.(db := db), [GetReply(response)])
              else (w.(db := written), [])
  {
    LeadingBound(t.frames);
    if EndsInGet(t) {
      var f := t.frames[Leading(t.frames)];
      assert f[1..1 + Arity(f)] == [f[1]];
    }
  }

  lemma FirstReceived(tasks: seq<Task>)
    requires tasks != []
    ensures AllReceived(tasks) == [Received(tasks[0])] + AllReceived(tasks[1..])
  {
  }

  lemma {:induction false} RunActs(w: World, tasks: seq<Task>)
    requires AllSetGet(tasks)
    ensures Serve(w, AllReceived(tasks)) == Ok(w.(db := S.After(w.db, AllOps(tasks))))
    decreases |tasks|
  {
    if tasks != [] {
      var o := TaskActs(w, tasks[0]);
      RunActs(o.world, tasks[1..]);
      FirstReceived(tasks);
      ServeFirst(w, Received(tasks[0]), AllReceived(tasks[1..]), o);
      S.AfterConcat(w.db, OpsOf(tasks[0]), AllOps(tasks[1..]));
    }
  }

  // ---------------------------------------------------------------------------
  // What the client sees.

  lemma NullReplyIsMalformed()
    ensures ParseBulk(NULL_RESPONSE, 0).Malformed?
  {
    var s := NULL_RESPONSE;
    assert FindCrlf(s, 3) == Some(3);
    assert FindCrlf(s, 2) == Some(3);
    assert FindCrlf(s, 1) == Some(3);
    assert s[1..3] == "-1" == ToString(-1);
    StoiToString(-1);
  }

  /** The sentinel travels in band: the reply to a GET decodes to the stored value exactly
      when that value is not the null reply itself. */
  lemma GetReplyDecodes(v: string)
    requires |v| <= INT_MAX
    ensures ParseBulk(GetReply(v), 0) == Parsed(v, |GetReply(v)|) <==> v != NULL_RESPONSE
  {
    if v == NULL_RESPONSE {
      NullReplyIsMalformed();
    } else {
      assert At(EncodeString(v), 0, EncodeString(v));
      BulkRoundTrip(EncodeString(v), 0, v);
    }
  }

  /** End to end: after any serial run of SET and GET buffers, while the clock does not step
      back, the GET that closes the next buffer is answered from the history of writes: the
      bytes of the last written value while it is live, the null reply otherwise, right after
      one +OK for each SET before it. */
  lemma GetAnswersHistory(w: World, past: seq<Task>, t: Task) returns (before: World, o: Outcome)
    requires AllSetGet(past) && SetGet(t) && EndsInGet(t)
    requires S.ClockSteady(AllOps(past) + WritesOf(t.env, t.frames, 0), GetTime(t))
    ensures Serve(w, AllReceived(past)) == Ok(before) && Handle(before, Received(t)) == Ok(o)
    ensures var history := AllOps(past) + WritesOf(t.env, t.frames, 0);
            H.Replies(o.actions) ==
              Repeat(Leading(t.frames), [OK_RESPONSE])
              + [GetReply(S.Answer(S.LastWrite(w.db, history, GetKey(t)), GetTime(t)))]
  {
    RunActs(w, past);
    before := w.(db := S.After(w.db, AllOps(past)));
    o := TaskActs(before, t);
    var writes := WritesOf(t.env, t.frames, 0);
    S.AfterConcat(w.db, AllOps(past), writes);
    S.LazyExpiryRefinesHistory(w.db, AllOps(past) + writes, GetKey(t), GetTime(t));
  }

  // ---------------------------------------------------------------------------
  // The replica registry over runs of any commands.

  predicate AllWhole(tasks: seq<Task>) { forall i :: 0 <= i < |tasks| ==> Whole(tasks[i].frames) }

  /** The registration a buffer makes: its client's, when a PSYNC follows the leading SETs
      on a master. */
  function Registration(role: string, t: Task): seq<int> {
    var n := Leading(t.frames);
    LeadingBound(t.frames);
    if role == "master" && n < |t.frames| && Name(t.frames[n]) == "PSYNC" then [t.fd] else []
  }

  function AllRegistrations(role: string, tasks: seq<Task>): seq<int> {
    if tasks == [] then [] else Registration(role, tasks[0]) + AllRegistrations(role, tasks[1..])
  }

  lemma LastRegisters(w: World, t: Task)
    requires Whole(t.frames)
    ensures var w' := Last(t.env, w, t.fd, t.frames, 0).0;
            w'.role == w.role && w'.slaveFds == w.slaveFds + Registration(w.role, t)
  {
    LeadingBound(t.frames);
    var n := Leading(t.frames);
    if n < |t.frames| {
      PerformRegisters(t.env, w.(db := AfterSets(t.env, w.db, t.frames, 0)), t.fd, Name(t.frames[n]),
                       t.frames[n][1..1 + Arity(t.frames[n])], t.env.now(LastStart(t.frames, 0)));
    }
  }

  lemma PerformRegisters(env: Env, w: World, fd: int, name: string, args: seq<string>, now: int)
    ensures var w' := Perform(env, w, fd, name, args, now).0;
            && w'.role == w.role
            && w'.slaveFds == w.slaveFds + (if w.role == "master" && name == "PSYNC" then [fd] else [])
  {
  }

  /** One buffer: `o` is what handling it does. */
  lemma TaskSends(w: World, t: Task) returns (o: Outcome)
    requires Whole(t.frames)
    ensures Handle(w, Received(t)) == Ok(o) && o.world == Last(t.env, w, t.fd, t.frames, 0).0
    ensures o.world.role == w.role && o.world.slaveFds == w.slaveFds + Registration(w.role, t)
    ensures o.sends == Repeat(Leading(t.frames), Propagation(o.world, Encode(t.frames)))
  {
    var input := Encode(t.frames);
    o := Meaning(t.env, w, t.fd, t.frames, 0, input);
    assert At(input, 0, input);
    InterpMeaning(t.env, w, t.fd, input, 0, t.frames);
    LastRegisters(w, t);
  }

  lemma TaskRegisters(w: World, t: Task) returns (o: Outcome)
    requires Registered(w) && Whole(t.frames)
    ensures Handle(w, Received(t)) == Ok(o)
    ensures Registered(o.world) && o.world.role == w.role && o.world.slaveFds == w.slaveFds + Registration(w.role, t)
    ensures o.sends == Repeat(Leading(t.frames), Propagation(o.world, Encode(t.frames)))
  {
    o := TaskSends(w, t);
    InterpRegistered(t.env, w, t.fd, Encode(t.frames), 0);
  }

  lemma Grown(a: seq<int>, b: seq<int>, c: seq<int>)
    ensures (a + b) + c == a + (b + c)
  {
  }

  /** Over every serial run, whatever the commands, the registry holds exactly the clients
      whose PSYNC a master handled, in order; its counter agrees with it and is 0 on a
      replica. */
  lemma {:induction false} RunRegisters(w: World, tasks: seq<Task>) returns (w1: World)
    requires Registered(w) && AllWhole(tasks)
    ensures Serve(w, AllReceived(tasks)) == Ok(w1) && Registered(w1) && w1.role == w.role
    ensures w1.slaveFds == w.slaveFds + AllRegistrations(w.role, tasks)
    decreases |tasks|
  {
    if tasks == [] {
      w1 := w;
    } else {
      var o := TaskRegisters(w, tasks[0]);
      w1 := RunRegisters(o.world, tasks[1..]);
      FirstReceived(tasks);
      ServeFirst(w, Received(tasks[0]), AllReceived(tasks[1..]), o);
      Grown(w.slaveFds, Registration(w.role, tasks[0]), AllRegistrations(w.role, tasks[1..]));
    }
  }

  lemma {:induction false} RegistrationsSnoc(role: string, past: seq<Task>, t: Task)
    ensures AllRegistrations(role, past + [t]) == AllRegistrations(role, past) + Registration(role, t)
  {
    if past == [] {
      assert ([] + [t])[1..] == [];
    } else {
      assert (past + [t])[1..] == past[1..] + [t];
      RegistrationsSnoc(role, past[1..], t);
    }
  }

  /** After any run, a master sends the next buffer once per SET in it to every client
      registered so far, in the order of registration, and nothing to anyone else; a PSYNC
      at the end of that buffer counts as so far, because the recursion comes first. */
  lemma PropagationReachesAll(w: World, past: seq<Task>, t: Task) returns (before: World, o: Outcome)
    requires Registered(w) && w.role == "master" && AllWhole(past) && Whole(t.frames)
    ensures Serve(w, AllReceived(past)) == Ok(before) && Handle(before, Received(t)) == Ok(o)
    ensures var fds := w.slaveFds + AllRegistrations("master", past + [t]);
            o.sends == Repeat(Leading(t.frames), Round(fds, Encode(t.frames)))
  {
    before := RunRegisters(w, past);
    o := TaskRegisters(before, t);
    RegistrationsSnoc("master", past, t);
    Grown(w.slaveFds, AllRegistrations("master", past), Registration("master", t));
  }
}

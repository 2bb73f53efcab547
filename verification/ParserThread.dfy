/** The parser thread of one task in small steps.  Each step touches the shared world at one
    instant, and the replies and flag updates it leads to come after it. */
module ParserThread {
  import opened Prelude
  import opened Resp
  import opened Store
  import opened RedisParser
  import opened Pipeline
  import opened Serial
  import H = ResponseHandoff

  /** Where the thread goes on; `open` counts the SETs whose propagation is still to come. */
  datatype Cont =
    | Call(pos: nat, open: nat)    // redis_parser.cpp line 22, before the gate
    | Parse(pos: nat, open: nat)   // line 32, the gate passed
    | Unwind(open: nat)            // line 228 of the innermost open SET, or the end of the thread

  /** What a step does to the world and the replicas' sockets, and the use of the reply queue
      and the flags that follows before the next step. */
  datatype Stage = Stage(world: World, actions: seq<H.Action>, sends: seq<(int, string)>, next: Cont)

  function Advance(r: Receive, w: World, k: Cont): Result<Stage> {
    match k
    case Call(pos, open) => Ok(Stage(w, [H.Gate], [], Parse(pos, open)))
    case Parse(pos, open) => if pos <= |r.input| then Command(r, w, pos, open) else Err("past the end")
    case Unwind(open) =>
      if open == 0 then Err("the thread is through")
      else Ok(Stage(w, [H.Over], Propagation(w, r.input), Unwind(open - 1)))
  }

  /** One command: what it reads from the world and writes to it. */
  function Command(r: Receive, w: World, pos: nat, open: nat): Result<Stage>
    requires pos <= |r.input|
  {
    if !StartsWith(r.input, pos, '*') then Ok(Stage(w, [H.Over], [], Unwind(open))) else
    match ReadNumber(r.input, pos + 1)
    case Malformed(reason) => Err(reason)
    case Parsed(count, afterCount) =>
      match ParseBulk(r.input, afterCount)
      case Malformed(reason) => Err(reason)
      case Parsed(command, afterName) =>
        if Upper(command) == "SET" then SetCommand(r, w, afterName, count, r.env.now(pos), open)
        else OtherCommand(r, w, afterName, Upper(command), r.env.now(pos), open)
  }

  function SetCommand(r: Receive, w: World, pos: nat, count: int, now: int, open: nat): Result<Stage> {
    match ReadSet(r.input, pos, count)
    case Malformed(reason) => Err(reason)
    case Parsed(args, next) =>
      match Expiry(args, now)
      case Err(reason) => Err(reason)
      case Ok(expiry) => AfterSet(r, w.(db := DbSet(w.db, args[0], args[1], expiry)), next, open)
  }

  function AfterSet(r: Receive, w: World, next: nat, open: nat): Result<Stage> {
    if next > |r.input| then Err("past the end")
    else if StartsWith(r.input, next, '*') then Ok(Stage(w, [H.Reply(OK_RESPONSE)], [], Call(next, open + 1)))
    else Ok(Stage(w, [H.Reply(OK_RESPONSE)], [], Unwind(open + 1)))
  }

  function OtherCommand(r: Receive, w: World, pos: nat, name: string, now: int, open: nat): Result<Stage> {
    match ReadArgs(r.input, pos, name)
    case Malformed(reason) => Err(reason)
    case Parsed(args, _) =>
      var (w', replies) := Perform(r.env, w, r.fd, name, args, now);
      Ok(Stage(w', Replying(replies) + [H.Over], [], Unwind(open)))
  }

  // ---------------------------------------------------------------------------
  // The big step from here on.

  /** `open` enclosing SETs propagate and end. */
  function Close(o: Outcome, input: string, open: nat): Outcome {
    Outcome(o.world, o.actions + Repeat(open, [H.Over]), o.sends + Repeat(open, Propagation(o.world, input)))
  }

  function Closed(r: Result<Outcome>, input: string, open: nat): Result<Outcome> {
    match r case Err(reason) => Err(reason) case Ok(o) => Ok(Close(o, input, open))
  }

  /** One call of the interpreter after its gate. */
  function Body(r: Receive, w: World, pos: nat): Result<Outcome>
    requires pos <= |r.input|
  {
    if !StartsWith(r.input, pos, '*') then Ok(Outcome(w, [H.Over], [])) else
    match ReadNumber(r.input, pos + 1)
    case Malformed(reason) => Err(reason)
    case Parsed(count, afterCount) =>
      match ParseBulk(r.input, afterCount)
      case Malformed(reason) => Err(reason)
      case Parsed(command, afterName) =>
        Named(r.env, w, r.fd, r.input, afterName, command, count, r.env.now(pos))
  }

  function Rest(r: Receive, w: World, k: Cont): Result<Outcome> {
    match k
    case Unwind(open) => Ok(Close(Outcome(w, [], []), r.input, open))
    case Call(pos, open) =>
      if pos <= |r.input| then Closed(Interp(r.env, w, r.fd, r.input, pos), r.input, open) else Err("past the end")
    case Parse(pos, open) =>
      if pos <= |r.input| then Closed(Body(r, w, pos), r.input, open) else Err("past the end")
  }

  /** The outcome of a stage and of what comes after it. */
  function Prepend(actions: seq<H.Action>, sends: seq<(int, string)>, rest: Result<Outcome>): Result<Outcome> {
    match rest
    case Err(reason) => Err(reason)
    case Ok(o) => Ok(Outcome(o.world, actions + o.actions, sends + o.sends))
  }

  lemma PrependTwice(a: seq<H.Action>, s: seq<(int, string)>, b: seq<H.Action>, t: seq<(int, string)>,
                     rest: Result<Outcome>)
    ensures Prepend(a, s, Prepend(b, t, rest)) == Prepend(a + b, s + t, rest)
  {
    if rest.Ok? {
      assert a + (b + rest.value.actions) == (a + b) + rest.value.actions;
      assert s + (t + rest.value.sends) == (s + t) + rest.value.sends;
    }
  }

  lemma InterpIsBody(r: Receive, w: World, pos: nat)
    requires pos <= |r.input|
    ensures Interp(r.env, w, r.fd, r.input, pos) == Prepend([H.Gate], [], Body(r, w, pos))
  {
    assert [H.Gate] + [H.Over] == [H.Gate, H.Over];
    if Body(r, w, pos).Ok? {
      assert [] + Body(r, w, pos).value.sends == Body(r, w, pos).value.sends;
    }
  }

  lemma CloseBegun(actions: seq<H.Action>, o: Outcome, input: string, open: nat)
    ensures Close(Outcome(o.world, actions + o.actions, [] + o.sends), input, open)
         == Outcome(o.world, actions + Close(o, input, open).actions, [] + Close(o, input, open).sends)
  {
  }

  lemma CallRefines(r: Receive, w: World, pos: nat, open: nat)
    requires pos <= |r.input|
    ensures Rest(r, w, Call(pos, open)) == Prepend([H.Gate], [], Rest(r, w, Parse(pos, open)))
  {
    InterpIsBody(r, w, pos);
    if Body(r, w, pos).Ok? {
      CloseBegun([H.Gate], Body(r, w, pos).value, r.input, open);
    }
  }

  /** One more SET around `o`: its reply in front, its propagation and its end behind. */
  lemma CloseSet(o: Outcome, input: string, open: nat)
    ensures var around := Outcome(o.world, [H.Reply(OK_RESPONSE)] + o.actions + [H.Over],
                                  o.sends + Propagation(o.world, input));
            var inside := Close(o, input, open + 1);
            Close(around, input, open) == Outcome(o.world, [H.Reply(OK_RESPONSE)] + inside.actions, [] + inside.sends)
  {
    var p := Propagation(o.world, input);
    assert [H.Over] + Repeat(open, [H.Over]) == Repeat(open + 1, [H.Over]);
    assert p + Repeat(open, p) == Repeat(open + 1, p);
    assert ([H.Reply(OK_RESPONSE)] + o.actions + [H.Over]) + Repeat(open, [H.Over])
        == [H.Reply(OK_RESPONSE)] + (o.actions + ([H.Over] + Repeat(open, [H.Over])));
    assert (o.sends + p) + Repeat(open, p) == [] + (o.sends + (p + Repeat(open, p)));
  }

  /** What the stage `st` leaves is what the whole was. */
  ghost predicate Refines(r: Receive, whole: Result<Outcome>, st: Result<Stage>) {
    match st
    case Err(_) => whole.Err?
    case Ok(stage) => whole == Prepend(stage.actions, stage.sends, Rest(r, stage.world, stage.next))
  }

  lemma AfterSetRefines(r: Receive, w: World, next: nat, open: nat)
    ensures Refines(r, Closed(InterpAfterSet(r.env, w, r.fd, r.input, next), r.input, open), AfterSet(r, w, next, open))
  {
    if next <= |r.input| {
      if StartsWith(r.input, next, '*') {
        var rest := Interp(r.env, w, r.fd, r.input, next);
        if rest.Ok? {
          CloseSet(rest.value, r.input, open);
        }
      } else {
        var none := Outcome(w, [], []);
        CloseSet(none, r.input, open);
        assert [H.Reply(OK_RESPONSE)] + [] + [H.Over] == [H.Reply(OK_RESPONSE), H.Over];
        assert [] + Propagation(w, r.input) == Propagation(w, r.input);
      }
    }
  }

  lemma OtherRefines(r: Receive, w: World, pos: nat, name: string, now: int, open: nat)
    ensures Refines(r, Closed(InterpOther(r.env, w, r.fd, r.input, pos, name, now), r.input, open),
                    OtherCommand(r, w, pos, name, now, open))
  {
    var args := ReadArgs(r.input, pos, name);
    if args.Parsed? {
      var (w', replies) := Perform(r.env, w, r.fd, name, args.value, now);
      EndRefines(w', Replying(replies) + [H.Over], r.input, open);
    }
  }

  lemma EndRefines(w: World, actions: seq<H.Action>, input: string, open: nat)
    ensures Ok(Close(Outcome(w, actions, []), input, open))
         == Prepend(actions, [], Ok(Close(Outcome(w, [], []), input, open)))
  {
    var p := Propagation(w, input);
    assert [] + Repeat(open, [H.Over]) == Repeat(open, [H.Over]);
    assert [] + Repeat(open, p) == Repeat(open, p) == [] + ([] + Repeat(open, p));
  }

  lemma SetRefines(r: Receive, w: World, pos: nat, count: int, now: int, open: nat)
    ensures Refines(r, Closed(InterpSet(r.env, w, r.fd, r.input, pos, count, now), r.input, open),
                    SetCommand(r, w, pos, count, now, open))
  {
    var args := ReadSet(r.input, pos, count);
    if args.Parsed? && Expiry(args.value, now).Ok? {
      var db := DbSet(w.db, args.value[0], args.value[1], Expiry(args.value, now).value);
      AfterSetRefines(r, w.(db := db), args.next, open);
    }
  }

  lemma CommandRefines(r: Receive, w: World, pos: nat, open: nat)
    requires pos <= |r.input|
    ensures Refines(r, Closed(Body(r, w, pos), r.input, open), Command(r, w, pos, open))
  {
    if !StartsWith(r.input, pos, '*') {
      EndRefines(w, [H.Over], r.input, open);
    } else {
      var header := ReadNumber(r.input, pos + 1);
      if header.Parsed? && ParseBulk(r.input, header.next).Parsed? {
        var name := ParseBulk(r.input, header.next);
        if Upper(name.value) == "SET" {
          SetRefines(r, w, name.next, header.value, r.env.now(pos), open);
        } else {
          OtherRefines(r, w, name.next, Upper(name.value), r.env.now(pos), open);
        }
      }
    }
  }

  lemma UnwindRefines(r: Receive, w: World, open: nat)
    requires open > 0
    ensures Refines(r, Rest(r, w, Unwind(open)), Advance(r, w, Unwind(open)))
  {
    var p := Propagation(w, r.input);
    assert [] + Repeat(open, [H.Over]) == [H.Over] + ([] + Repeat(open - 1, [H.Over]));
    assert [] + Repeat(open, p) == p + ([] + Repeat(open - 1, p));
  }

  /** The small steps compute the interpreter: what a step does, followed by the big step from
      where it leaves, is the big step from where it began, in any world. */
  lemma AdvanceRefines(r: Receive, w: World, k: Cont)
    requires k != Unwind(0)
    ensures Refines(r, Rest(r, w, k), Advance(r, w, k))
  {
    match k
    case Call(pos, open) => if pos <= |r.input| { CallRefines(r, w, pos, open); }
    case Parse(pos, open) => if pos <= |r.input| { CommandRefines(r, w, pos, open); }
    case Unwind(open) => UnwindRefines(r, w, open);
  }

  lemma CloseNothing(o: Outcome, input: string)
    ensures Close(o, input, 0) == o
  {
    assert o.actions + [] == o.actions && o.sends + [] == o.sends;
  }

  /** At the start the rest is the whole task, at the end nothing. */
  lemma RestAtEnds(r: Receive, w: World)
    ensures Rest(r, w, Call(0, 0)) == Handle(w, r)
    ensures Rest(r, w, Unwind(0)) == Ok(Outcome(w, [], []))
  {
    CloseNothing(Outcome(w, [], []), r.input);
    if Handle(w, r).Ok? {
      CloseNothing(Handle(w, r).value, r.input);
    }
  }

  // ---------------------------------------------------------------------------
  // The shape of what has been produced so far.

  /** No flag update before the unwinding, no reply after it, no empty reply. */
  predicate ShapedSoFar(program: seq<H.Action>, k: Cont) {
    && H.RepliesFirst(program) && H.NonEmptyReplies(program)
    && (!k.Unwind? ==> forall i :: 0 <= i < |program| ==> !program[i].Over?)
  }

  /** What a stage adds: replies and gates, or replies and then flag updates. */
  predicate StageShape(st: Stage) {
    && (forall i :: 0 <= i < |st.actions| && st.actions[i].Reply? ==> st.actions[i].msg != "")
    && (forall i, j :: 0 <= i < j < |st.actions| && st.actions[i].Over? ==> !st.actions[j].Reply?)
    && (!st.next.Unwind? ==> forall i :: 0 <= i < |st.actions| ==> !st.actions[i].Over?)
  }

  lemma OtherShape(r: Receive, w: World, pos: nat, name: string, now: int, open: nat)
    ensures OtherCommand(r, w, pos, name, now, open).Ok? ==> StageShape(OtherCommand(r, w, pos, name, now, open).value)
  {
    var args := ReadArgs(r.input, pos, name);
    if args.Parsed? {
      RepliesNonEmpty(r.env, w, r.fd, name, args.value, now);
    }
  }

  lemma SetShape(r: Receive, w: World, pos: nat, count: int, now: int, open: nat)
    ensures SetCommand(r, w, pos, count, now, open).Ok? ==> StageShape(SetCommand(r, w, pos, count, now, open).value)
  {
    assert OK_RESPONSE[0] == '+';
  }

  lemma CommandShape(r: Receive, w: World, pos: nat, open: nat)
    requires pos <= |r.input| && Command(r, w, pos, open).Ok?
    ensures StageShape(Command(r, w, pos, open).value)
  {
    if StartsWith(r.input, pos, '*') {
      var header := ReadNumber(r.input, pos + 1);
      var name := ParseBulk(r.input, header.next);
      SetShape(r, w, name.next, header.value, r.env.now(pos), open);
      OtherShape(r, w, name.next, Upper(name.value), r.env.now(pos), open);
    }
  }

  lemma AdvanceShape(r: Receive, w: World, k: Cont)
    requires Advance(r, w, k).Ok?
    ensures StageShape(Advance(r, w, k).value)
    ensures k.Unwind? ==> Advance(r, w, k).value.next.Unwind? && Advance(r, w, k).value.actions == [H.Over]
  {
    if k.Parse? {
      CommandShape(r, w, k.pos, k.open);
    }
  }

  lemma ShapeGrows(program: seq<H.Action>, k: Cont, st: Stage)
    requires ShapedSoFar(program, k) && StageShape(st)
    requires k.Unwind? ==> st.next.Unwind? && st.actions == [H.Over]
    ensures ShapedSoFar(program + st.actions, st.next)
  {
  }
}

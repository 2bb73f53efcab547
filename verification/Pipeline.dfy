/** What a received buffer does, seen as a list of frames: the interpreter runs the leading
    SETs and at most one command after them. */
module Pipeline {
  import opened Prelude
  import opened Resp
  import opened Store
  import opened RedisParser
  import H = ResponseHandoff

  type Frame = seq<string>

  function Encode(frames: seq<Frame>): string {
    if frames == [] then "" else EncodeArray(frames[0]) + Encode(frames[1..])
  }

  function Name(f: Frame): string { if f == [] then "" else Upper(f[0]) }

  predicate IsSet(f: Frame) { Name(f) == "SET" }

  /** The arguments a command other than SET reads from its frame. */
  function Arity(f: Frame): nat { ArgsRead(Name(f), if |f| > 1 then Parsed(f[1], 0) else Malformed("")) }

  /** A frame the code accepts: SET has three elements, or five with a number last, and every
      other command has at least the arguments it reads. */
  predicate WellFormed(f: Frame) {
    && f != [] && Fits(f)
    && (if IsSet(f) then |f| == 3 || (|f| == 5 && Stoi(f[4]).Ok?) else |f| >= 1 + Arity(f))
  }

  predicate AllWellFormed(frames: seq<Frame>) { forall i :: 0 <= i < |frames| ==> WellFormed(frames[i]) }

  /** A buffer of such frames. */
  predicate Whole(frames: seq<Frame>) { frames != [] && AllWellFormed(frames) }

  /** How many SETs the buffer starts with. */
  function Leading(frames: seq<Frame>): nat {
    if frames == [] || !IsSet(frames[0]) then 0 else 1 + Leading(frames[1..])
  }

  /** The expiry a SET frame asks for at time `now`. */
  function ExpiryOf(f: Frame, now: int): int
    requires WellFormed(f) && IsSet(f)
  {
    if |f| == 3 then 0 else now + Stoi(f[4]).value
  }

  // ---------------------------------------------------------------------------
  // The meaning of a buffer.

  /** The database after the leading SETs; the clock is read per command, `pos` is where
      the first one starts. */
  function AfterSets(env: Env, db: Database, frames: seq<Frame>, pos: nat): Database
    requires AllWellFormed(frames)
    decreases |frames|
  {
    if frames == [] || !IsSet(frames[0]) then db else
    AfterSets(env, DbSet(db, frames[0][1], frames[0][2], ExpiryOf(frames[0], env.now(pos))),
              frames[1..], pos + |EncodeArray(frames[0])|)
  }

  /** Where the command after the leading SETs starts. */
  function LastStart(frames: seq<Frame>, pos: nat): nat {
    if frames == [] || !IsSet(frames[0]) then pos else LastStart(frames[1..], pos + |EncodeArray(frames[0])|)
  }

  /** The command after the leading SETs, if there is one. */
  function Last(env: Env, w: World, fd: int, frames: seq<Frame>, pos: nat): (World, seq<string>)
    requires AllWellFormed(frames)
  {
    var n := Leading(frames);
    LeadingBound(frames);
    var w1 := w.(db := AfterSets(env, w.db, frames, pos));
    if n == |frames| then (w1, []) else
    Perform(env, w1, fd, Name(frames[n]), frames[n][1..1 + Arity(frames[n])], env.now(LastStart(frames, pos)))
  }

  lemma {:induction false} LeadingBound(frames: seq<Frame>)
    ensures Leading(frames) <= |frames|
    ensures forall i :: 0 <= i < Leading(frames) ==> IsSet(frames[i])
    ensures Leading(frames) < |frames| ==> !IsSet(frames[Leading(frames)])
  {
    if frames != [] && IsSet(frames[0]) {
      LeadingBound(frames[1..]);
    }
  }

  function Repeat<T>(n: nat, s: seq<T>): seq<T> { if n == 0 then [] else s + Repeat(n - 1, s) }

  lemma {:induction false} RepeatSnoc<T>(n: nat, s: seq<T>)
    ensures Repeat(n, s) + s == Repeat(n + 1, s)
  {
    if n > 0 {
      RepeatSnoc(n - 1, s);
      assert s + Repeat(n - 1, s) + s == s + (Repeat(n - 1, s) + s);
    }
  }

  /** The parser thread's actions: one +OK per SET, the last command's replies, and only
      then as many `communication_over` as commands ran. */
  function Actions(sets: nat, last: bool, replies: seq<string>): seq<H.Action> {
    Repeat(sets, [H.Gate, H.Reply(OK_RESPONSE)])
    + (if last then [H.Gate] + Replying(replies) + [H.Over] else [])
    + Repeat(sets, [H.Over])
  }

  /** The whole buffer goes to every replica once for each SET in it. */
  function Meaning(env: Env, w: World, fd: int, frames: seq<Frame>, pos: nat, input: string): Outcome
    requires AllWellFormed(frames)
  {
    var n := Leading(frames);
    var (w', replies) := Last(env, w, fd, frames, pos);
    Outcome(w', Actions(n, n < |frames|, replies), Repeat(n, Propagation(w', input)))
  }

  // ---------------------------------------------------------------------------
  // The interpreter computes the meaning.

  /** Reading a frame's header and name: `args` is where its arguments start. */
  lemma FrameAt(input: string, pos: nat, f: Frame, end: nat) returns (name: nat, args: nat)
    requires f != [] && Fits(f) && At(input, pos, EncodeArray(f)) && end == pos + |EncodeArray(f)|
    ensures StartsWith(input, pos, '*')
    ensures ReadNumber(input, pos + 1) == Parsed(|f|, name)
    ensures ParseBulk(input, name) == Parsed(f[0], args)
    ensures At(input, args, EncodeStrings(f[1..])) && end == args + |EncodeStrings(f[1..])|
  {
    HeaderAt(input, pos, f);
    name := pos + HeaderLength(f);
    FirstAt(input, name, f);
    BulkRoundTrip(input, name, f[0]);
    args := name + |EncodeString(f[0])|;
  }

  lemma {:induction false} EncodeStringsSplit(a: seq<string>, b: seq<string>)
    ensures EncodeStrings(a + b) == EncodeStrings(a) + EncodeStrings(b)
  {
    if a == [] {
      assert a + b == b;
    } else {
      assert (a + b)[1..] == a[1..] + b;
      EncodeStringsSplit(a[1..], b);
    }
  }

  /** Reading the first `n` of the encoded strings. */
  lemma SomeBulksAt(input: string, pos: nat, arr: seq<string>, n: nat) returns (end: nat)
    requires Fits(arr) && n <= |arr| && At(input, pos, EncodeStrings(arr))
    ensures ParseBulks(input, pos, n) == Parsed(arr[..n], end)
    ensures n == |arr| ==> end == pos + |EncodeStrings(arr)|
  {
    EncodeStringsSplit(arr[..n], arr[n..]);
    assert arr[..n] + arr[n..] == arr;
    AtConcat(input, pos, EncodeStrings(arr[..n]), EncodeStrings(arr[n..]));
    end := pos + |EncodeStrings(arr[..n])|;
    BulksRoundTrip(input, pos, arr[..n], n, end);
  }

  lemma SetArgsAt(input: string, args: nat, f: Frame, end: nat)
    requires WellFormed(f) && IsSet(f)
    requires At(input, args, EncodeStrings(f[1..])) && end == args + |EncodeStrings(f[1..])|
    ensures ReadSet(input, args, |f|) == Parsed(f[1..], end)
  {
    var e := SomeBulksAt(input, args, f[1..], |f| - 1);
    assert f[1..][..|f| - 1] == f[1..];
  }

  lemma OtherArgsAt(input: string, args: nat, f: Frame) returns (end: nat)
    requires WellFormed(f) && !IsSet(f) && At(input, args, EncodeStrings(f[1..]))
    ensures ReadArgs(input, args, Name(f)) == Parsed(f[1..1 + Arity(f)], end)
  {
    if |f| > 1 {
      FirstAt(input, args, f[1..]);
      BulkRoundTrip(input, args, f[1]);
    }
    var n := Arity(f);
    assert ArgsRead(Name(f), ParseBulk(input, args)) == n;
    end := SomeBulksAt(input, args, f[1..], n);
    assert f[1..][..n] == f[1..1 + n];
  }

  lemma InterpSetSteps(env: Env, w: World, fd: int, input: string, pos: nat, count: int, now: int, args: seq<string>,
                       end: nat, expiry: int)
    requires ReadSet(input, pos, count) == Parsed(args, end) && |args| >= 2 && Expiry(args, now) == Ok(expiry)
    ensures InterpSet(env, w, fd, input, pos, count, now)
         == InterpAfterSet(env, w.(db := DbSet(w.db, args[0], args[1], expiry)), fd, input, end)
  {
  }

  lemma OneCommand(env: Env, w: World, fd: int, input: string, pos: nat, f: Frame)
    requires WellFormed(f) && !IsSet(f) && At(input, pos, EncodeArray(f))
    ensures var (w', replies) := Perform(env, w, fd, Name(f), f[1..1 + Arity(f)], env.now(pos));
            Interp(env, w, fd, input, pos) == Ok(Outcome(w', [H.Gate] + (Replying(replies) + [H.Over]), []))
  {
    var name, args := FrameAt(input, pos, f, pos + |EncodeArray(f)|);
    InterpSteps(env, w, fd, input, pos, |f|, f[0], name, args);
    var end := OtherArgsAt(input, args, f);
    InterpOtherSteps(env, w, fd, input, args, Name(f), env.now(pos), f[1..1 + Arity(f)], end);
  }

  /** The world after one SET frame read at time `now`. */
  function SetWorld(w: World, f: Frame, now: int): World
    requires WellFormed(f) && IsSet(f)
  {
    w.(db := DbSet(w.db, f[1], f[2], ExpiryOf(f, now)))
  }

  lemma SetFields(f: Frame, now: int)
    requires WellFormed(f) && IsSet(f)
    ensures |f[1..]| >= 2 && f[1..][0] == f[1] && f[1..][1] == f[2]
    ensures Expiry(f[1..], now) == Ok(ExpiryOf(f, now))
  {
    if |f| == 5 {
      assert f[1..][3] == f[4];
    }
  }

  lemma OneSet(env: Env, w: World, fd: int, input: string, pos: nat, f: Frame, end: nat)
    requires WellFormed(f) && IsSet(f) && At(input, pos, EncodeArray(f)) && end == pos + |EncodeArray(f)|
    ensures Interp(env, w, fd, input, pos) == Gated(InterpAfterSet(env, SetWorld(w, f, env.now(pos)), fd, input, end))
  {
    var name, args := FrameAt(input, pos, f, end);
    InterpSteps(env, w, fd, input, pos, |f|, f[0], name, args);
    SetArgsAt(input, args, f, end);
    SetFields(f, env.now(pos));
    InterpSetSteps(env, w, fd, input, args, |f|, env.now(pos), f[1..], end, ExpiryOf(f, env.now(pos)));
  }

  lemma Regroup<T>(gate: T, ok: T, oks: seq<T>, mid: seq<T>, overs: seq<T>, over: T)
    ensures [gate] + ([ok] + (oks + mid + overs) + [over]) == [gate, ok] + oks + mid + (overs + [over])
  {
  }

  lemma ActionsStep(n: nat, last: bool, replies: seq<string>)
    ensures [H.Gate] + ([H.Reply(OK_RESPONSE)] + Actions(n, last, replies) + [H.Over]) == Actions(n + 1, last, replies)
  {
    RepeatSnoc(n, [H.Over]);
    var mid := if last then [H.Gate] + Replying(replies) + [H.Over] else [];
    Regroup(H.Gate, H.Reply(OK_RESPONSE), Repeat(n, [H.Gate, H.Reply(OK_RESPONSE)]), mid, Repeat(n, [H.Over]), H.Over);
  }

  lemma AfterSetSteps(env: Env, w: World, fd: int, input: string, next: nat, rest: Outcome)
    requires next <= |input| && StartsWith(input, next, '*') && Interp(env, w, fd, input, next) == Ok(rest)
    ensures InterpAfterSet(env, w, fd, input, next)
         == Ok(Outcome(rest.world, [H.Reply(OK_RESPONSE)] + rest.actions + [H.Over],
                       rest.sends + Propagation(rest.world, input)))
  {
  }

  /** What one more SET in front does to the outcome of the rest. */
  function Prefixed(o: Outcome, input: string): Outcome {
    Outcome(o.world, [H.Gate] + ([H.Reply(OK_RESPONSE)] + o.actions + [H.Over]), o.sends + Propagation(o.world, input))
  }

  /** One SET in front, unfolded. */
  lemma SetUnfolds(env: Env, db: Database, frames: seq<Frame>, pos: nat, next: nat)
    requires Whole(frames) && IsSet(frames[0]) && next == pos + |EncodeArray(frames[0])|
    ensures var f := frames[0];
            AfterSets(env, db, frames, pos) ==
              AfterSets(env, DbSet(db, f[1], f[2], ExpiryOf(f, env.now(pos))), frames[1..], next)
    ensures LastStart(frames, pos) == LastStart(frames[1..], next)
    ensures Leading(frames) == 1 + Leading(frames[1..])
  {
  }

  lemma {:induction false} LastStep(env: Env, w: World, fd: int, frames: seq<Frame>, pos: nat, next: nat)
    requires Whole(frames) && IsSet(frames[0]) && next == pos + |EncodeArray(frames[0])|
    ensures Last(env, w, fd, frames, pos) == Last(env, SetWorld(w, frames[0], env.now(pos)), fd, frames[1..], next)
    ensures Leading(frames) == 1 + Leading(frames[1..])
  {
    SetUnfolds(env, w.db, frames, pos, next);
    LeadingBound(frames);
    var n := Leading(frames[1..]);
    if n < |frames| - 1 {
      assert frames[1..][n] == frames[n + 1];
    }
  }

  lemma MeaningStep(env: Env, w: World, fd: int, frames: seq<Frame>, pos: nat, next: nat, input: string)
    requires Whole(frames) && IsSet(frames[0]) && next == pos + |EncodeArray(frames[0])|
    ensures Meaning(env, w, fd, frames, pos, input)
         == Prefixed(Meaning(env, SetWorld(w, frames[0], env.now(pos)), fd, frames[1..], next, input), input)
  {
    var w1 := SetWorld(w, frames[0], env.now(pos));
    var n := Leading(frames[1..]);
    var (w', replies) := Last(env, w1, fd, frames[1..], next);
    LastStep(env, w, fd, frames, pos, next);
    ActionsStep(n, n < |frames| - 1, replies);
    RepeatSnoc(n, Propagation(w', input));
  }

  lemma MeaningOfNothing(env: Env, w: World, fd: int, pos: nat, input: string)
    ensures Meaning(env, w, fd, [], pos, input) == Outcome(w, [], [])
  {
  }

  lemma MeaningOfOther(env: Env, w: World, fd: int, frames: seq<Frame>, pos: nat, input: string)
    requires Whole(frames) && !IsSet(frames[0])
    ensures var f := frames[0];
            var (w', replies) := Perform(env, w, fd, Name(f), f[1..1 + Arity(f)], env.now(pos));
            Meaning(env, w, fd, frames, pos, input) == Outcome(w', [H.Gate] + (Replying(replies) + [H.Over]), [])
  {
    assert w.(db := w.db) == w;
  }

  /** After the frames, which end at `end`, nothing more is interpreted: they hold a command
      other than SET, or no array starts there. */
  predicate Stops(frames: seq<Frame>, input: string, end: nat) {
    Leading(frames) < |frames| || !StartsWith(input, end, '*')
  }

  /** A SET in front of a rest whose meaning is `rest`. */
  lemma SetInFront(env: Env, w: World, fd: int, input: string, pos: nat, frames: seq<Frame>, next: nat, rest: Outcome)
    requires Whole(frames) && IsSet(frames[0])
    requires At(input, pos, EncodeArray(frames[0])) && next == pos + |EncodeArray(frames[0])|
    requires rest == Meaning(env, SetWorld(w, frames[0], env.now(pos)), fd, frames[1..], next, input)
    requires InterpAfterSet(env, SetWorld(w, frames[0], env.now(pos)), fd, input, next)
          == Ok(Outcome(rest.world, [H.Reply(OK_RESPONSE)] + rest.actions + [H.Over],
                        rest.sends + Propagation(rest.world, input)))
    ensures Interp(env, w, fd, input, pos) == Ok(Meaning(env, w, fd, frames, pos, input))
  {
    OneSet(env, w, fd, input, pos, frames[0], next);
    MeaningStep(env, w, fd, frames, pos, next, input);
  }

  lemma {:induction false} FramesMeaning(env: Env, w: World, fd: int, input: string, pos: nat, frames: seq<Frame>,
                                         end: nat)
    requires Whole(frames)
    requires At(input, pos, Encode(frames)) && end == pos + |Encode(frames)| && Stops(frames, input, end)
    ensures Interp(env, w, fd, input, pos) == Ok(Meaning(env, w, fd, frames, pos, input))
    decreases |frames|
  {
    var f, rest := frames[0], frames[1..];
    AtConcat(input, pos, EncodeArray(f), Encode(rest));
    if !IsSet(f) {
      OneCommand(env, w, fd, input, pos, f);
      MeaningOfOther(env, w, fd, frames, pos, input);
      return;
    }
    var next := pos + |EncodeArray(f)|;
    var w1 := SetWorld(w, f, env.now(pos));
    if rest == [] {
      MeaningOfNothing(env, w1, fd, next, input);
      AfterLastSet(env, w1, fd, input, next);
    } else {
      FramesStart(input, next, rest);
      FramesMeaning(env, w1, fd, input, next, rest, end);
      AfterSetSteps(env, w1, fd, input, next, Meaning(env, w1, fd, rest, next, input));
    }
    SetInFront(env, w, fd, input, pos, frames, next, Meaning(env, w1, fd, rest, next, input));
  }

  /** Pipelined interpretation: wherever well-formed frames stand in a buffer, the recursion
      of SET runs the maximal leading run of SETs and at most one command after it, with the
      replies, flag updates and propagation of `Meaning`. */
  lemma InterpMeaning(env: Env, w: World, fd: int, input: string, pos: nat, frames: seq<Frame>)
    requires Whole(frames)
    requires At(input, pos, Encode(frames)) && Stops(frames, input, pos + |Encode(frames)|)
    ensures Interp(env, w, fd, input, pos) == Ok(Meaning(env, w, fd, frames, pos, input))
  {
    FramesMeaning(env, w, fd, input, pos, frames, pos + |Encode(frames)|);
  }

  lemma AfterLastSet(env: Env, w: World, fd: int, input: string, next: nat)
    requires next <= |input| && !StartsWith(input, next, '*')
    ensures InterpAfterSet(env, w, fd, input, next)
         == Ok(Outcome(w, [H.Reply(OK_RESPONSE)] + [] + [H.Over], [] + Propagation(w, input)))
  {
    assert [H.Reply(OK_RESPONSE)] + [] + [H.Over] == [H.Reply(OK_RESPONSE), H.Over];
    assert [] + Propagation(w, input) == Propagation(w, input);
  }

  lemma FramesStart(input: string, pos: nat, frames: seq<Frame>)
    requires Whole(frames) && At(input, pos, Encode(frames))
    ensures StartsWith(input, pos, '*')
  {
    AtConcat(input, pos, EncodeArray(frames[0]), Encode(frames[1..]));
    HeaderAt(input, pos, frames[0]);
  }

  // ---------------------------------------------------------------------------
  // From the buffer to the replies on the wire.

  /** On every input whatsoever that raises no exception, the parser thread enqueues all its
      replies before the first `communication_over`, does reach one, and no reply is empty. */
  lemma {:induction false} InterpShaped(env: Env, w: World, fd: int, input: string, pos: nat)
    requires pos <= |input| && Interp(env, w, fd, input, pos).Ok?
    ensures var actions := Interp(env, w, fd, input, pos).value.actions;
            H.RepliesFirst(actions) && H.Ends(actions) && H.NonEmptyReplies(actions)
    decreases |input| - pos, 2
  {
    if !StartsWith(input, pos, '*') {
      assert [H.Gate, H.Over][1].Over?;
    } else {
      var header := ReadNumber(input, pos + 1);
      var name := ParseBulk(input, header.next);
      if Upper(name.value) == "SET" {
        SetShaped(env, w, fd, input, name.next, header.value, env.now(pos));
        ShapedUnderGate(InterpSet(env, w, fd, input, name.next, header.value, env.now(pos)).value.actions);
      } else {
        OtherShaped(env, w, fd, input, name.next, Upper(name.value), env.now(pos));
        ShapedUnderGate(InterpOther(env, w, fd, input, name.next, Upper(name.value), env.now(pos)).value.actions);
      }
    }
  }

  ghost predicate Shaped(actions: seq<H.Action>) {
    H.RepliesFirst(actions) && H.Ends(actions) && H.NonEmptyReplies(actions)
  }

  lemma ShapedUnderGate(actions: seq<H.Action>)
    requires Shaped(actions)
    ensures Shaped([H.Gate] + actions)
  {
    var i :| 0 <= i < |actions| && actions[i].Over?;
    assert ([H.Gate] + actions)[i + 1].Over?;
  }

  lemma ShapedInSet(actions: seq<H.Action>)
    requires Shaped(actions)
    ensures Shaped([H.Reply(OK_RESPONSE)] + actions + [H.Over])
  {
    var i :| 0 <= i < |actions| && actions[i].Over?;
    assert ([H.Reply(OK_RESPONSE)] + actions + [H.Over])[i + 1].Over?;
  }

  lemma OtherShaped(env: Env, w: World, fd: int, input: string, pos: nat, name: string, now: int)
    requires InterpOther(env, w, fd, input, pos, name, now).Ok?
    ensures Shaped(InterpOther(env, w, fd, input, pos, name, now).value.actions)
  {
    var args := ReadArgs(input, pos, name).value;
    var replies := Perform(env, w, fd, name, args, now).1;
    RepliesNonEmpty(env, w, fd, name, args, now);
    assert (Replying(replies) + [H.Over])[|replies|].Over?;
  }

  lemma {:induction false} SetShaped(env: Env, w: World, fd: int, input: string, pos: nat, count: int, now: int)
    requires InterpSet(env, w, fd, input, pos, count, now).Ok?
    ensures Shaped(InterpSet(env, w, fd, input, pos, count, now).value.actions)
    decreases |input| - pos, 1
  {
    var args := ReadSet(input, pos, count);
    var w' := w.(db := DbSet(w.db, args.value[0], args.value[1], Expiry(args.value, now).value));
    if StartsWith(input, args.next, '*') {
      InterpShaped(env, w', fd, input, args.next);
      ShapedInSet(Interp(env, w', fd, input, args.next).value.actions);
    } else {
      assert [H.Reply(OK_RESPONSE), H.Over][1].Over?;
    }
  }

  /** Every command but PSYNC has one reply, PSYNC has two, and none is empty. */
  lemma RepliesNonEmpty(env: Env, w: World, fd: int, name: string, args: seq<string>, now: int)
    ensures var replies := Perform(env, w, fd, name, args, now).1;
            |replies| == (if name == "PSYNC" then 2 else 1) && forall i :: 0 <= i < |replies| ==> replies[i] != ""
  {
  }

  lemma {:induction false} RepliesOfReplying(replies: seq<string>)
    ensures H.Replies(Replying(replies)) == replies
  {
    if replies != [] {
      RepliesOfReplying(replies[1..]);
      assert Replying(replies)[1..] == Replying(replies[1..]);
    }
  }

  lemma {:induction false} RepliesOfRepeat(n: nat, actions: seq<H.Action>)
    ensures H.Replies(Repeat(n, actions)) == Repeat(n, H.Replies(actions))
  {
    if n > 0 {
      RepliesOfRepeat(n - 1, actions);
      H.RepliesConcat(actions, Repeat(n - 1, actions));
    }
  }

  /** The replies of a buffer: one +OK per SET it starts with, then those of the command
      after them. */
  function BufferReplies(env: Env, w: World, fd: int, frames: seq<Frame>, pos: nat): seq<string>
    requires AllWellFormed(frames)
  {
    Repeat(Leading(frames), [OK_RESPONSE]) + Last(env, w, fd, frames, pos).1
  }

  lemma RepliesOfOne(a: H.Action)
    ensures H.Replies([a]) == if a.Reply? then [a.msg] else []
  {
    assert [a][1..] == [];
  }

  lemma RepliesOfLast(replies: seq<string>)
    ensures H.Replies([H.Gate] + Replying(replies) + [H.Over]) == replies
  {
    H.RepliesConcat([H.Gate] + Replying(replies), [H.Over]);
    H.RepliesConcat([H.Gate], Replying(replies));
    RepliesOfOne(H.Gate);
    RepliesOfOne(H.Over);
    RepliesOfReplying(replies);
  }

  lemma RepliesOfSets(n: nat)
    ensures H.Replies(Repeat(n, [H.Gate, H.Reply(OK_RESPONSE)])) == Repeat(n, [OK_RESPONSE])
    ensures H.Replies(Repeat(n, [H.Over])) == []
  {
    H.RepliesConcat([H.Gate], [H.Reply(OK_RESPONSE)]);
    RepliesOfOne(H.Gate);
    RepliesOfOne(H.Over);
    RepliesOfOne(H.Reply(OK_RESPONSE));
    assert [H.Gate] + [H.Reply(OK_RESPONSE)] == [H.Gate, H.Reply(OK_RESPONSE)];
    RepliesOfRepeat(n, [H.Gate, H.Reply(OK_RESPONSE)]);
    RepliesOfRepeat(n, [H.Over]);
    RepeatNothing<string>(n);
  }

  lemma RepliesOfActions(n: nat, last: bool, replies: seq<string>)
    requires !last ==> replies == []
    ensures H.Replies(Actions(n, last, replies)) == Repeat(n, [OK_RESPONSE]) + replies
  {
    var sets, overs := Repeat(n, [H.Gate, H.Reply(OK_RESPONSE)]), Repeat(n, [H.Over]);
    var mid := if last then [H.Gate] + Replying(replies) + [H.Over] else [];
    H.RepliesConcat(sets + mid, overs);
    H.RepliesConcat(sets, mid);
    RepliesOfSets(n);
    RepliesOfLast(replies);
  }

  lemma MeaningReplies(env: Env, w: World, fd: int, frames: seq<Frame>, pos: nat, input: string)
    requires AllWellFormed(frames)
    ensures H.Replies(Meaning(env, w, fd, frames, pos, input).actions) == BufferReplies(env, w, fd, frames, pos)
  {
    LeadingBound(frames);
    RepliesOfActions(Leading(frames), Leading(frames) < |frames|, Last(env, w, fd, frames, pos).1);
  }

  lemma {:induction false} RepeatNothing<T>(n: nat)
    ensures Repeat<T>(n, []) == []
  {
    if n > 0 {
      RepeatNothing<T>(n - 1);
    }
  }

  lemma {:induction false} RepeatLength<T>(n: nat, x: T)
    ensures |Repeat(n, [x])| == n
    ensures forall i :: 0 <= i < n ==> Repeat(n, [x])[i] == x
  {
    if n > 0 {
      RepeatLength(n - 1, x);
    }
  }

  /** The number of replies of a buffer. */
  function ReplyCount(frames: seq<Frame>): nat {
    var n := Leading(frames);
    LeadingBound(frames);
    n + (if n == |frames| then 0 else if Name(frames[n]) == "PSYNC" then 2 else 1)
  }

  /** Interpreter and hand-over together, for one buffer: the replies its parser thread
      enqueues are the buffer's replies.  When the handler leaves its loop no reply is left
      behind if and only if there are at most two of them (at most one when a wait may return
      spuriously): PSYNC alone loses none then, three pipelined SETs can.  Whether it leaves
      its loop is another matter: every buffer can strand. */
  lemma BufferAnsweredExactly(env: Env, w: World, fd: int, frames: seq<Frame>)
    requires Whole(frames)
    ensures Interp(env, w, fd, Encode(frames), 0).Ok?
    ensures var program := Interp(env, w, fd, Encode(frames), 0).value.actions;
            && H.Replies(program) == BufferReplies(env, w, fd, frames, 0)
            && (H.AlwaysAnswers(program, false) <==> ReplyCount(frames) <= 2)
            && (H.AlwaysAnswers(program, true) <==> ReplyCount(frames) <= 1)
            && H.CanStrand(program) && H.CanStrandAtReply(program)
  {
    var input := Encode(frames);
    assert At(input, 0, input);
    InterpMeaning(env, w, fd, input, 0, frames);
    MeaningReplies(env, w, fd, frames, 0, input);
    InterpShaped(env, w, fd, input, 0);
    RepliesCounted(env, w, fd, frames, 0);
    AnyBufferCanStrand(env, w, fd, input);
    var program := Interp(env, w, fd, input, 0).value.actions;
    H.RepliesSafeExactly(program);
    H.StrandsAtReplyExactly(program);
  }

  /** On every input without an error, an empty or a foreign one included: the parser thread
      starts by waiting for the handler, and some run without spurious wake-ups loses that
      wake-up, after which the task never returns. */
  lemma AnyBufferCanStrand(env: Env, w: World, fd: int, input: string)
    requires Interp(env, w, fd, input, 0).Ok?
    ensures H.CanStrand(Interp(env, w, fd, input, 0).value.actions)
  {
    var program := Interp(env, w, fd, input, 0).value.actions;
    assert program[0].Gate?;
    H.StrandsExactly(program);
  }

  lemma RepliesCounted(env: Env, w: World, fd: int, frames: seq<Frame>, pos: nat)
    requires AllWellFormed(frames)
    ensures |BufferReplies(env, w, fd, frames, pos)| == ReplyCount(frames)
  {
    var n := Leading(frames);
    RepeatLength(n, OK_RESPONSE);
    LeadingBound(frames);
    if n < |frames| {
      RepliesNonEmpty(env, w.(db := AfterSets(env, w.db, frames, pos)), fd, Name(frames[n]),
                      frames[n][1..1 + Arity(frames[n])], env.now(LastStart(frames, pos)));
    }
  }

  // ---------------------------------------------------------------------------
  // The replica registry.

  /** The registry stays consistent and only grows. */
  predicate RegistryKept(w: World, w': World) {
    Registered(w') && w'.role == w.role && w.slaveFds <= w'.slaveFds
  }

  /** Every call keeps the registry consistent, on every input. */
  lemma {:induction false} InterpRegistered(env: Env, w: World, fd: int, input: string, pos: nat)
    requires pos <= |input| && Registered(w) && Interp(env, w, fd, input, pos).Ok?
    ensures RegistryKept(w, Interp(env, w, fd, input, pos).value.world)
    decreases |input| - pos, 2
  {
    if StartsWith(input, pos, '*') {
      var header := ReadNumber(input, pos + 1);
      var name := ParseBulk(input, header.next);
      if Upper(name.value) == "SET" {
        SetRegistered(env, w, fd, input, name.next, header.value, env.now(pos));
      } else {
        OtherRegistered(env, w, fd, input, name.next, Upper(name.value), env.now(pos));
      }
    }
  }

  lemma OtherRegistered(env: Env, w: World, fd: int, input: string, pos: nat, name: string, now: int)
    requires Registered(w) && InterpOther(env, w, fd, input, pos, name, now).Ok?
    ensures RegistryKept(w, InterpOther(env, w, fd, input, pos, name, now).value.world)
  {
  }

  lemma {:induction false} SetRegistered(env: Env, w: World, fd: int, input: string, pos: nat, count: int, now: int)
    requires Registered(w) && InterpSet(env, w, fd, input, pos, count, now).Ok?
    ensures RegistryKept(w, InterpSet(env, w, fd, input, pos, count, now).value.world)
    decreases |input| - pos, 1
  {
    var args := ReadSet(input, pos, count);
    var w' := w.(db := DbSet(w.db, args.value[0], args.value[1], Expiry(args.value, now).value));
    if StartsWith(input, args.next, '*') {
      InterpRegistered(env, w', fd, input, args.next);
    }
  }
}

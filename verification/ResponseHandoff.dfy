/** The hand-over of replies inside one task: the parser thread of src/redis_parser.cpp
    against the reply loop of `response_handler` in src/client_handler.cpp.

    The parser runs a list of actions: wait until the handler is in its loop, enqueue a
    reply and wait until it is sent, clear `is_communicating`.  Each access to a shared
    flag, each notify and each wait is a step of its own, and so is every partial `send`.
    The three condition-variable waits have no predicate.  `response_buf_mtx` is held by
    the handler from the end of its timed wait to the end of the iteration. */
module ResponseHandoff {
  datatype Action =
    | Gate                 // redis_parser.cpp lines 25-28
    | Reply(msg: string)   // lines 261-268 and 276-282
    | Over                 // line 286

  datatype ParserPc =
    | Ready        // about to start program[pc]
    | GateBlock    // line 27: saw the flag false, not asleep yet
    | GateAsleep   // line 27
    | Pushed       // line 266
    | CheckSent    // line 277
    | SentBlock    // line 279: saw `response_sent` false, not asleep yet
    | SentAsleep   // line 279
    | SentWoken    // line 280

  datatype HandlerPc =
    | Top          // client_handler.cpp line 49
    | SetFlag      // line 50
    | NotifyGate   // line 51
    | Lock         // line 53
    | Waiting      // line 54, `response_buf_mtx` released
    | Pop          // line 55, `response_buf_mtx` held from here
    | Sending      // lines 59-71
    | MarkSent     // line 72
    | NotifySent   // line 73
    | Poll         // line 79
    | Exited       // line 83

  datatype Parser = Parser(pc: nat, at: ParserPc)

  /** `hand` is the handler's `response` and `sent` its `totalSent`. */
  datatype Handler = Handler(at: HandlerPc, hand: string, sent: nat)

  datatype Shared = Shared(isCommunicating: bool, inLoop: bool, responseSent: bool, buf: seq<string>)

  /** Histories: the replies enqueued, the replies the handler is done with and how many
      bytes of each went out, and the bytes on the wire. */
  datatype Log = Log(enqueued: seq<string>, processed: seq<(string, nat)>, wire: string)

  /** Histories: how often the handler notified and the parser got past a reply, whether a
      reply wait returned spuriously, whether a check of `response_sent` saw true, and
      whether a `send` failed. */
  datatype Tally = Tally(notified: nat, passed: nat, spurious: bool, sawSent: bool, sendFailed: bool)

  datatype State = State(program: seq<Action>, p: Parser, h: Handler, m: Shared, log: Log, tally: Tally)

  datatype Step =
    | ParserStep
    | GateSpurious         // a spurious return from the wait on line 27
    | SentSpurious         // a spurious return from the wait on line 279
    | HandlerStep
    | Send(bytes: nat)     // line 64, a `send` that takes some of the bytes
    | SendFails            // lines 65-67

  function Init(program: seq<Action>): State {
    State(program, Parser(0, Ready), Handler(Top, "", 0), Shared(true, false, false, []),
          Log([], [], ""), Tally(0, 0, false, false, false))
  }

  predicate HoldsBuf(at: HandlerPc) { at.Pop? || at.Sending? || at.MarkSent? || at.NotifySent? || at.Poll? }

  predicate Enabled(s: State, step: Step) {
    match step
    case ParserStep =>
      && s.p.pc < |s.program|
      && !s.p.at.GateAsleep? && !s.p.at.SentAsleep?
      && (s.p.at.Ready? && s.program[s.p.pc].Reply? ==> !HoldsBuf(s.h.at))
    case GateSpurious => s.p.at.GateAsleep?
    case SentSpurious => s.p.at.SentAsleep?
    case HandlerStep => !s.h.at.Exited? && (s.h.at.Sending? ==> s.h.sent >= |s.h.hand|)
    case Send(bytes) => s.h.at.Sending? && s.h.sent < |s.h.hand| && bytes <= |s.h.hand| - s.h.sent
    case SendFails => s.h.at.Sending? && s.h.sent < |s.h.hand|
  }

  function Next(p: Parser): Parser { Parser(p.pc + 1, Ready) }

  function Passed(t: Tally): Tally { t.(passed := t.passed + 1) }

  function ParserMove(s: State): State
    requires s.p.pc < |s.program|
  {
    match s.p.at
    case Ready =>
      (match s.program[s.p.pc]
       case Gate => s.(p := if s.m.inLoop then Next(s.p) else s.p.(at := GateBlock))
       case Reply(msg) =>
         s.(p := s.p.(at := Pushed), m := s.m.(buf := s.m.buf + [msg]),
            log := s.log.(enqueued := s.log.enqueued + [msg]))
       case Over => s.(p := Next(s.p), m := s.m.(isCommunicating := false)))
    case GateBlock => s.(p := s.p.(at := GateAsleep))
    case Pushed => s.(p := s.p.(at := CheckSent))
    case CheckSent =>
      if s.m.responseSent then s.(p := Next(s.p), tally := Passed(s.tally.(sawSent := true)))
      else s.(p := s.p.(at := SentBlock))
    case SentBlock => s.(p := s.p.(at := SentAsleep))
    case SentWoken => s.(p := Next(s.p), m := s.m.(responseSent := false), tally := Passed(s.tally))
    case _ => s
  }

  /** The handler is through with the reply in hand. */
  function Finish(s: State, failed: bool): State {
    s.(h := Handler(if s.h.hand == "" then Poll else MarkSent, "", 0),
       log := s.log.(processed := s.log.processed + [(s.h.hand, s.h.sent)]),
       tally := s.tally.(sendFailed := s.tally.sendFailed || failed))
  }

  function HandlerMove(s: State): State {
    match s.h.at
    case Top => s.(h := s.h.(at := if s.m.inLoop then Lock else SetFlag))
    case SetFlag => s.(h := s.h.(at := NotifyGate), m := s.m.(inLoop := true))
    case NotifyGate => s.(h := s.h.(at := Lock), p := if s.p.at.GateAsleep? then Next(s.p) else s.p)
    case Lock => s.(h := s.h.(at := Waiting))
    case Waiting => s.(h := s.h.(at := Pop))
    case Pop =>
      if s.m.buf == [] then s.(h := s.h.(at := Poll))
      else s.(h := Handler(Sending, s.m.buf[0], 0), m := s.m.(buf := s.m.buf[1..]))
    case Sending => Finish(s, false)
    case MarkSent => s.(h := s.h.(at := NotifySent), m := s.m.(responseSent := true))
    case NotifySent =>
      s.(h := s.h.(at := Poll), p := if s.p.at.SentAsleep? then s.p.(at := SentWoken) else s.p,
         tally := s.tally.(notified := s.tally.notified + 1))
    case Poll => s.(h := s.h.(at := if s.m.isCommunicating then Top else Exited))
    case Exited => s
  }

  function Apply(s: State, step: Step): State
    requires Enabled(s, step)
  {
    match step
    case ParserStep => ParserMove(s)
    case GateSpurious => s.(p := Next(s.p))
    case SentSpurious => s.(p := s.p.(at := SentWoken), tally := s.tally.(spurious := true))
    case HandlerStep => HandlerMove(s)
    case Send(bytes) =>
      s.(h := s.h.(sent := s.h.sent + bytes),
         log := s.log.(wire := s.log.wire + s.h.hand[s.h.sent..s.h.sent + bytes]))
    case SendFails => Finish(s, true)
  }

  predicate Valid(s: State, steps: seq<Step>)
    decreases |steps|
  {
    steps == [] || (Enabled(s, steps[0]) && Valid(Apply(s, steps[0]), steps[1..]))
  }

  function Exec(s: State, steps: seq<Step>): State
    requires Valid(s, steps)
    decreases |steps|
  {
    if steps == [] then s else Exec(Apply(s, steps[0]), steps[1..])
  }

  // ---------------------------------------------------------------------------
  // What a run is measured against.

  function Replies(program: seq<Action>): seq<string> {
    if program == [] then [] else
    (if program[0].Reply? then [program[0].msg] else []) + Replies(program[1..])
  }

  function Messages(processed: seq<(string, nat)>): seq<string> {
    seq(|processed|, i requires 0 <= i < |processed| => processed[i].0)
  }

  function Bytes(processed: seq<(string, nat)>): string {
    if processed == [] then "" else
    var last := processed[|processed| - 1];
    Bytes(processed[..|processed| - 1]) + (if last.1 <= |last.0| then last.0[..last.1] else last.0)
  }

  function Concat(msgs: seq<string>): string {
    if msgs == [] then "" else Concat(msgs[..|msgs| - 1]) + msgs[|msgs| - 1]
  }

  function InHand(s: State): seq<string> { if s.h.at.Sending? then [s.h.hand] else [] }

  /** No reply comes after an `Over`: what the interpreter hands to its parser thread. */
  predicate RepliesFirst(program: seq<Action>) {
    forall i, j :: 0 <= i < j < |program| && program[i].Over? ==> !program[j].Reply?
  }

  lemma {:induction false} RepliesUpTo(program: seq<Action>, n: nat)
    requires n < |program|
    ensures Replies(program[..n + 1]) == Replies(program[..n]) + (if program[n].Reply? then [program[n].msg] else [])
  {
    if n > 0 {
      RepliesUpTo(program[1..], n - 1);
      assert program[1..][..n] == program[..n + 1][1..];
      assert program[1..][..n - 1] == program[..n][1..];
    }
  }

  lemma {:induction false} RepliesNone(program: seq<Action>)
    requires forall i :: 0 <= i < |program| ==> !program[i].Reply?
    ensures Replies(program) == []
  {
    if program != [] {
      RepliesNone(program[1..]);
    }
  }

  lemma {:induction false} RepliesConcat(a: seq<Action>, b: seq<Action>)
    ensures Replies(a + b) == Replies(a) + Replies(b)
  {
    if a == [] {
      assert a + b == b;
    } else {
      var first := if a[0].Reply? then [a[0].msg] else [];
      RepliesConcat(a[1..], b);
      assert (a + b)[0] == a[0] && (a + b)[1..] == a[1..] + b;
      assert Replies(a + b) == first + (Replies(a[1..]) + Replies(b));
    }
  }

  // ---------------------------------------------------------------------------
  // Conservation, in every run.

  /** How many replies the parser has started on, in program order. */
  ghost predicate Enqueuing(s: State) {
    && s.p.pc <= |s.program|
    && (!s.p.at.Ready? && !s.p.at.GateBlock? && !s.p.at.GateAsleep? ==>
          s.p.pc < |s.program| && s.program[s.p.pc].Reply?)
    && (s.p.at.GateBlock? || s.p.at.GateAsleep? ==> s.p.pc < |s.program| && s.program[s.p.pc].Gate?)
    && s.log.enqueued == Replies(s.program[..s.p.pc]) + PushedNow(s)
  }

  function PushedNow(s: State): seq<string> {
    if s.p.pc < |s.program| && s.program[s.p.pc].Reply? && !s.p.at.Ready? then [s.program[s.p.pc].msg] else []
  }

  ghost predicate InOrder(s: State) {
    Messages(s.log.processed) + InHand(s) + s.m.buf == s.log.enqueued
  }

  ghost predicate Wired(s: State) {
    && s.h.sent <= |s.h.hand|
    && (!s.h.at.Sending? ==> s.h.hand == "")
    && s.log.wire == Bytes(s.log.processed) + s.h.hand[..s.h.sent]
  }

  ghost predicate Whole(s: State) {
    !s.tally.sendFailed ==> forall i :: 0 <= i < |s.log.processed| ==> s.log.processed[i].1 == |s.log.processed[i].0|
  }

  lemma FinishBytes(processed: seq<(string, nat)>, msg: string, n: nat)
    requires n <= |msg|
    ensures Bytes(processed + [(msg, n)]) == Bytes(processed) + msg[..n]
    ensures Messages(processed + [(msg, n)]) == Messages(processed) + [msg]
  {
    assert (processed + [(msg, n)])[..|processed|] == processed;
  }

  lemma ReadyKeepsEnqueuing(s: State)
    requires Enqueuing(s) && Enabled(s, ParserStep) && s.p.at.Ready?
    ensures Enqueuing(ParserMove(s))
  {
    RepliesUpTo(s.program, s.p.pc);
  }

  /** A thread that waits or wakes has its reply enqueued already. */
  lemma WaitKeepsEnqueuing(s: State, step: Step)
    requires Enqueuing(s) && Enabled(s, step) && !s.p.at.Ready?
    ensures Enqueuing(Apply(s, step))
  {
    RepliesUpTo(s.program, s.p.pc);
  }

  lemma StepKeepsEnqueuing(s: State, step: Step)
    requires Enqueuing(s) && Enabled(s, step)
    ensures Enqueuing(Apply(s, step))
  {
    if !s.p.at.Ready? {
      WaitKeepsEnqueuing(s, step);
    } else if step.ParserStep? {
      ReadyKeepsEnqueuing(s);
    } else {
      assert Apply(s, step).p == s.p && Apply(s, step).log.enqueued == s.log.enqueued;
    }
  }

  predicate Finishes(s: State, step: Step) { s.h.at.Sending? && (step.HandlerStep? || step.SendFails?) }

  lemma QueueMoves(done: seq<string>, hand: seq<string>, buf: seq<string>, msg: string)
    ensures done + hand + (buf + [msg]) == (done + hand + buf) + [msg]
    ensures buf != [] ==> done + [buf[0]] + buf[1..] == done + [] + buf
    ensures (done + [msg]) + [] + buf == done + [msg] + buf
  {
  }

  lemma FinishKeepsOrder(s: State, step: Step)
    requires InOrder(s) && Wired(s) && Enabled(s, step) && Finishes(s, step)
    ensures InOrder(Apply(s, step))
  {
    FinishBytes(s.log.processed, s.h.hand, s.h.sent);
    QueueMoves(Messages(s.log.processed), [], s.m.buf, s.h.hand);
  }

  lemma StepKeepsOrder(s: State, step: Step)
    requires InOrder(s) && Wired(s) && Enabled(s, step)
    ensures InOrder(Apply(s, step))
  {
    var s' := Apply(s, step);
    if Finishes(s, step) {
      FinishKeepsOrder(s, step);
    } else {
      assert s'.log.processed == s.log.processed;
      if step.HandlerStep? && s.h.at.Pop? {
        QueueMoves(Messages(s.log.processed), [], s.m.buf, "");
      } else if step.ParserStep? && s.p.at.Ready? && s.program[s.p.pc].Reply? {
        QueueMoves(Messages(s.log.processed), InHand(s), s.m.buf, s.program[s.p.pc].msg);
      } else {
        assert s'.m.buf == s.m.buf && InHand(s') == InHand(s) && s'.log.enqueued == s.log.enqueued;
      }
    }
  }

  lemma FinishKeepsWire(s: State, step: Step)
    requires Wired(s) && Whole(s) && Enabled(s, step) && Finishes(s, step)
    ensures Wired(Apply(s, step)) && Whole(Apply(s, step))
  {
    FinishBytes(s.log.processed, s.h.hand, s.h.sent);
    assert Bytes(s.log.processed) + s.h.hand[..s.h.sent] + ""[..0] == Bytes(s.log.processed) + s.h.hand[..s.h.sent];
  }

  lemma SendKeepsWire(s: State, bytes: nat)
    requires Wired(s) && Whole(s) && Enabled(s, Send(bytes))
    ensures Wired(Apply(s, Send(bytes))) && Whole(Apply(s, Send(bytes)))
  {
    SendExtends(Bytes(s.log.processed), s.h.hand, s.h.sent, bytes);
  }

  /** Other steps touch neither the wire nor what has been sent of the reply in hand. */
  lemma QuietKeepsWire(s: State, step: Step)
    requires Wired(s) && Whole(s) && Enabled(s, step) && !Finishes(s, step) && !step.Send?
    ensures Wired(Apply(s, step)) && Whole(Apply(s, step))
  {
    var s' := Apply(s, step);
    assert s'.log.processed == s.log.processed && s'.log.wire == s.log.wire;
    assert s'.h.hand[..s'.h.sent] == s.h.hand[..s.h.sent];
  }

  lemma StepKeepsWire(s: State, step: Step)
    requires Wired(s) && Whole(s) && Enabled(s, step)
    ensures Wired(Apply(s, step)) && Whole(Apply(s, step))
  {
    if Finishes(s, step) {
      FinishKeepsWire(s, step);
    } else if step.Send? {
      SendKeepsWire(s, step.bytes);
    } else {
      QuietKeepsWire(s, step);
    }
  }

  lemma SendExtends(wire: string, msg: string, sent: nat, bytes: nat)
    requires sent + bytes <= |msg|
    ensures (wire + msg[..sent]) + msg[sent..sent + bytes] == wire + msg[..sent + bytes]
  {
    assert msg[..sent] + msg[sent..sent + bytes] == msg[..sent + bytes];
  }

  // ---------------------------------------------------------------------------
  // Who knows what: every pass of the parser is paid for by a finished reply.

  function PassesOwed(s: State): nat { s.tally.passed + (if s.p.at.SentWoken? then 1 else 0) }

  function NotifiesOwed(s: State): nat { s.tally.notified + (if s.h.at.MarkSent? || s.h.at.NotifySent? then 1 else 0) }

  ghost predicate Paid(s: State) {
    && NotifiesOwed(s) <= |s.log.processed|
    && (s.m.responseSent ==> |s.log.processed| >= 1)
    && (!s.tally.spurious && PassesOwed(s) >= 1 ==> |s.log.processed| >= 1)
    && (!s.tally.spurious && !s.tally.sawSent ==> PassesOwed(s) <= s.tally.notified)
    && (s.h.at.NotifySent? ==> |s.log.processed| >= 1)
  }

  ghost predicate Counted(s: State) { |s.log.enqueued| == s.tally.passed + |PushedNow(s)| }

  ghost predicate OverDone(s: State) {
    !s.m.isCommunicating ==> exists i :: 0 <= i < s.p.pc && i < |s.program| && s.program[i].Over?
  }

  lemma StepKeepsPaid(s: State, step: Step)
    requires Paid(s) && Enabled(s, step)
    ensures Paid(Apply(s, step))
  {
  }

  lemma StepKeepsCounted(s: State, step: Step)
    requires Enqueuing(s) && Counted(s) && Enabled(s, step)
    ensures Counted(Apply(s, step))
  {
  }

  lemma StepKeepsOverDone(s: State, step: Step)
    requires OverDone(s) && Enabled(s, step)
    ensures OverDone(Apply(s, step))
  {
    if !Apply(s, step).m.isCommunicating && s.m.isCommunicating {
      assert s.program[s.p.pc].Over?;
    }
  }

  // ---------------------------------------------------------------------------
  // When the handler leaves nothing behind.

  /** The runs in which at most one reply is ever waiting. */
  predicate Quiet(s: State) {
    || |Replies(s.program)| <= 1
    || (!s.tally.spurious && (|Replies(s.program)| <= 2 || !s.tally.sawSent))
  }

  ghost predicate Short(s: State) {
    Quiet(s) ==>
      && |s.m.buf| <= 1
      && (HoldsBuf(s.h.at) && !s.h.at.Pop? ==> s.m.buf == [])
      && (s.h.at.Exited? ==> s.m.buf == [] && !s.m.isCommunicating)
  }

  ghost predicate Inv(s: State) {
    && RepliesFirst(s.program) && Enqueuing(s) && InOrder(s) && Wired(s) && Whole(s)
    && Paid(s) && Counted(s) && OverDone(s) && Short(s)
  }

  lemma {:induction false} RepliesPrefix(program: seq<Action>, n: nat)
    requires n <= |program|
    ensures |Replies(program[..n])| <= |Replies(program)|
    ensures n < |program| && program[n].Reply? ==> |Replies(program[..n])| < |Replies(program)|
  {
    RepliesConcat(program[..n], program[n..]);
    assert program[..n] + program[n..] == program;
  }

  /** A reply is pushed only when no earlier one is waiting. */
  lemma PushFindsEmptyBuf(s: State)
    requires Inv(s) && Enabled(s, ParserStep) && s.p.at.Ready? && s.program[s.p.pc].Reply? && Quiet(s)
    ensures s.m.buf == []
    ensures s.m.isCommunicating
  {
    RepliesPrefix(s.program, s.p.pc);
    assert |s.log.processed| + |InHand(s)| + |s.m.buf| == |s.log.enqueued| by {
      assert |Messages(s.log.processed)| == |s.log.processed|;
      assert |Messages(s.log.processed) + InHand(s) + s.m.buf| == |s.log.enqueued|;
    }
  }

  lemma QuietBefore(s: State, step: Step)
    requires Enabled(s, step) && Quiet(Apply(s, step))
    ensures Quiet(s)
  {
  }

  lemma PushKeepsShort(s: State)
    requires Inv(s) && Enabled(s, ParserStep) && s.p.at.Ready? && s.program[s.p.pc].Reply?
    ensures Short(ParserMove(s))
  {
    var s' := ParserMove(s);
    if Quiet(s') {
      PushFindsEmptyBuf(s);
      assert s'.m.buf == [s.program[s.p.pc].msg] && s'.h == s.h;
    }
  }

  lemma StepKeepsShort(s: State, step: Step)
    requires Inv(s) && Enabled(s, step)
    ensures Short(Apply(s, step))
  {
    if step.ParserStep? && s.p.at.Ready? && s.program[s.p.pc].Reply? {
      PushKeepsShort(s);
    } else {
      OtherKeepsShort(s, step);
    }
  }

  lemma OtherKeepsShort(s: State, step: Step)
    requires Short(s) && Enabled(s, step)
    requires !(step.ParserStep? && s.p.at.Ready? && s.program[s.p.pc].Reply?)
    ensures Short(Apply(s, step))
  {
    if Quiet(Apply(s, step)) {
      QuietBefore(s, step);
      assert |Apply(s, step).m.buf| <= |s.m.buf|;
    }
  }

  lemma StepKeepsProgram(s: State, step: Step)
    requires Enabled(s, step)
    ensures Apply(s, step).program == s.program
  {
  }

  lemma StepKeepsInv(s: State, step: Step)
    requires Inv(s) && Enabled(s, step)
    ensures Inv(Apply(s, step)) && Apply(s, step).program == s.program
  {
    StepKeepsProgram(s, step);
    StepKeepsEnqueuing(s, step);
    StepKeepsOrder(s, step);
    StepKeepsWire(s, step);
    StepKeepsPaid(s, step);
    StepKeepsCounted(s, step);
    StepKeepsOverDone(s, step);
    StepKeepsShort(s, step);
  }

  lemma {:induction false} RunKeepsInv(s: State, steps: seq<Step>)
    requires Inv(s) && Valid(s, steps)
    ensures Inv(Exec(s, steps)) && Exec(s, steps).program == s.program
    decreases |steps|
  {
    if steps != [] {
      StepKeepsInv(s, steps[0]);
      RunKeepsInv(Apply(s, steps[0]), steps[1..]);
    }
  }

  lemma ReachableInv(program: seq<Action>, steps: seq<Step>)
    requires RepliesFirst(program) && Valid(Init(program), steps)
    ensures Inv(Exec(Init(program), steps)) && Exec(Init(program), steps).program == program
  {
    RunKeepsInv(Init(program), steps);
  }

  /** Reply conservation, in every interleaving: what the handler is done with, holds and
      has still queued is exactly what the parser enqueued, in order; the parser enqueued a
      prefix of its replies; and without a failing `send` the wire carries exactly the
      bytes of the finished replies and the part of the current one counted as sent,
      whatever the sizes of the partial sends. */
  lemma RepliesConserved(program: seq<Action>, steps: seq<Step>)
    requires RepliesFirst(program) && Valid(Init(program), steps)
    ensures var s := Exec(Init(program), steps);
            && Messages(s.log.processed) + InHand(s) + s.m.buf == s.log.enqueued
            && s.log.enqueued <= Replies(program)
            && s.h.sent <= |s.h.hand|
            && (!s.tally.sendFailed ==> s.log.wire == Concat(Messages(s.log.processed)) + s.h.hand[..s.h.sent])
  {
    ReachableInv(program, steps);
    var s := Exec(Init(program), steps);
    EnqueuedIsPrefix(s);
    if !s.tally.sendFailed {
      WholeBytes(s.log.processed);
    }
  }

  lemma EnqueuedIsPrefix(s: State)
    requires Enqueuing(s)
    ensures s.log.enqueued <= Replies(s.program)
  {
    var n := if PushedNow(s) == [] then s.p.pc else s.p.pc + 1;
    if s.p.pc < n {
      RepliesUpTo(s.program, s.p.pc);
    }
    RepliesConcat(s.program[..n], s.program[n..]);
    assert s.program[..n] + s.program[n..] == s.program;
  }

  lemma {:induction false} WholeBytes(processed: seq<(string, nat)>)
    requires forall i :: 0 <= i < |processed| ==> processed[i].1 == |processed[i].0|
    ensures Bytes(processed) == Concat(Messages(processed))
  {
    if processed != [] {
      var n := |processed| - 1;
      WholeBytes(processed[..n]);
      assert Messages(processed)[..n] == Messages(processed[..n]);
    }
  }

  /** The parser has cleared `is_communicating`, so everything it will ever say is enqueued. */
  lemma AllEnqueued(s: State)
    requires Inv(s) && !s.m.isCommunicating
    ensures s.log.enqueued == Replies(s.program) && s.tally.passed == |Replies(s.program)|
  {
    var i :| 0 <= i < s.p.pc && i < |s.program| && s.program[i].Over?;
    assert s.program[..s.p.pc] + s.program[s.p.pc..] == s.program;
    RepliesConcat(s.program[..s.p.pc], s.program[s.p.pc..]);
    RepliesNone(s.program[s.p.pc..]);
  }

  /** A task with one reply, or one in which every check of `response_sent` saw false,
      clears `is_communicating` only after the handler is done with every reply, unless a
      wait returned spuriously. */
  lemma OverMeansAnswered(program: seq<Action>, steps: seq<Step>)
    requires RepliesFirst(program) && Valid(Init(program), steps)
    requires var s := Exec(Init(program), steps);
             !s.m.isCommunicating && !s.tally.spurious && (|Replies(program)| <= 1 || !s.tally.sawSent)
    ensures Messages(Exec(Init(program), steps).log.processed) == Replies(program)
  {
    ReachableInv(program, steps);
    var s := Exec(Init(program), steps);
    AllEnqueued(s);
    assert |Messages(s.log.processed)| == |s.log.processed|;
    assert |Messages(s.log.processed) + InHand(s) + s.m.buf| == |s.log.enqueued|;
    assert s.log.enqueued[..|s.log.processed|] == Messages(s.log.processed);
  }

  /** When the handler leaves its loop after a quiet run, every reply has been dealt with. */
  lemma ExitMeansAnswered(program: seq<Action>, steps: seq<Step>)
    requires RepliesFirst(program) && Valid(Init(program), steps)
    requires var s := Exec(Init(program), steps); s.h.at.Exited? && Quiet(s)
    ensures Messages(Exec(Init(program), steps).log.processed) == Replies(program)
  {
    ReachableInv(program, steps);
    AllEnqueued(Exec(Init(program), steps));
  }

  // ---------------------------------------------------------------------------
  // When it does leave something behind: runs built step by step.

  lemma Then(s: State, first: Step, rest: seq<Step>)
    requires Enabled(s, first) && Valid(Apply(s, first), rest)
    ensures Valid(s, [first] + rest) && Exec(s, [first] + rest) == Exec(Apply(s, first), rest)
  {
    assert ([first] + rest)[1..] == rest;
  }

  lemma {:induction false} Append(s: State, a: seq<Step>, b: seq<Step>)
    requires Valid(s, a) && Valid(Exec(s, a), b)
    ensures Valid(s, a + b) && Exec(s, a + b) == Exec(Exec(s, a), b)
    decreases |a|
  {
    if a == [] {
      assert a + b == b;
    } else {
      Append(Apply(s, a[0]), a[1..], b);
      assert (a + b)[1..] == a[1..] + b;
    }
  }

  /** No wait returns without a notify; the timed wait of the handler may. */
  predicate NoSpurious(steps: seq<Step>) {
    forall i :: 0 <= i < |steps| ==> !steps[i].GateSpurious? && !steps[i].SentSpurious?
  }

  /** A run does not see actions that are added behind it. */
  function Longer(s: State, actions: seq<Action>): State { s.(program := s.program + actions) }

  lemma LongerStep(s: State, actions: seq<Action>, step: Step)
    requires Enabled(s, step)
    ensures Enabled(Longer(s, actions), step) && Apply(Longer(s, actions), step) == Longer(Apply(s, step), actions)
  {
  }

  lemma {:induction false} LongerRun(s: State, actions: seq<Action>, steps: seq<Step>)
    requires Valid(s, steps)
    ensures Valid(Longer(s, actions), steps) && Exec(Longer(s, actions), steps) == Longer(Exec(s, steps), actions)
    decreases |steps|
  {
    if steps != [] {
      LongerStep(s, actions, steps[0]);
      LongerRun(Apply(s, steps[0]), actions, steps[1..]);
    }
  }

  predicate NonEmptyReplies(program: seq<Action>) {
    forall i :: 0 <= i < |program| && program[i].Reply? ==> program[i].msg != ""
  }

  /** The state with the handler at `at` after it sent the first waiting reply and notified. */
  function Delivered(s: State, at: HandlerPc): State
    requires s.m.buf != []
  {
    s.(p := if s.p.at.SentAsleep? then s.p.(at := SentWoken) else s.p,
       h := Handler(at, "", 0),
       m := s.m.(responseSent := true, buf := s.m.buf[1..]),
       log := s.log.(processed := s.log.processed + [(s.m.buf[0], |s.m.buf[0]|)], wire := s.log.wire + s.m.buf[0]),
       tally := s.tally.(notified := s.tally.notified + 1))
  }

  lemma DeliverOne(s: State) returns (steps: seq<Step>)
    requires s.h.at.Waiting? && s.m.buf != [] && s.m.buf[0] != ""
    ensures Valid(s, steps) && Exec(s, steps) == Delivered(s, Poll) && NoSpurious(steps)
  {
    var msg := s.m.buf[0];
    var s2 := s.(h := Handler(Sending, msg, 0), m := s.m.(buf := s.m.buf[1..]));
    var s3 := s2.(h := Handler(Sending, msg, |msg|), log := s.log.(wire := s.log.wire + msg));
    assert msg[0..|msg|] == msg;
    var s4 := Apply(s3, HandlerStep);
    var s5 := Apply(s4, HandlerStep);
    assert Apply(s5, HandlerStep) == Delivered(s, Poll);
    Then(s5, HandlerStep, []);
    Then(s4, HandlerStep, [HandlerStep] + []);
    Then(s3, HandlerStep, [HandlerStep] + ([HandlerStep] + []));
    var sent := [HandlerStep] + ([HandlerStep] + ([HandlerStep] + []));
    assert Apply(s2, Send(|msg|)) == s3;
    Then(s2, Send(|msg|), sent);
    var s1 := Apply(s, HandlerStep);
    assert Apply(s1, HandlerStep) == s2;
    Then(s1, HandlerStep, [Send(|msg|)] + sent);
    Then(s, HandlerStep, [HandlerStep] + ([Send(|msg|)] + sent));
    steps := [HandlerStep] + ([HandlerStep] + ([Send(|msg|)] + sent));
  }

  lemma LoopAround(s: State) returns (steps: seq<Step>)
    requires s.h.at.Poll? && s.m.isCommunicating && s.m.inLoop
    ensures Valid(s, steps) && Exec(s, steps) == s.(h := s.h.(at := Waiting)) && NoSpurious(steps)
  {
    var s1 := Apply(s, HandlerStep);
    var s2 := Apply(s1, HandlerStep);
    Then(s2, HandlerStep, []);
    Then(s1, HandlerStep, [HandlerStep] + []);
    Then(s, HandlerStep, [HandlerStep] + ([HandlerStep] + []));
    steps := [HandlerStep] + ([HandlerStep] + ([HandlerStep] + []));
  }

  /** The handler enters its loop and waits before the parser does anything. */
  lemma HandlerFirst(program: seq<Action>) returns (steps: seq<Step>)
    ensures Valid(Init(program), steps) && NoSpurious(steps)
    ensures var s := Init(program);
            Exec(s, steps) == s.(h := s.h.(at := Waiting), m := s.m.(inLoop := true))
  {
    steps := EnterLoop(Init(program));
  }

  function PushedAt(s: State, at: nat): State
    requires at < |s.program| && s.program[at].Reply?
  {
    s.(p := Parser(at, Pushed), m := s.m.(buf := s.m.buf + [s.program[at].msg]),
       log := s.log.(enqueued := s.log.enqueued + [s.program[at].msg]))
  }

  /** Only gates come before the first reply of a program whose replies come first. */
  lemma {:induction false} FirstReply(program: seq<Action>, from: nat) returns (at: nat)
    requires from <= |program| && RepliesFirst(program) && Replies(program[from..]) != []
    ensures from <= at < |program| && program[at].Reply?
    ensures forall i :: from <= i < at ==> program[i].Gate?
    ensures Replies(program[from..]) == [program[at].msg] + Replies(program[at + 1..])
    decreases |program| - from
  {
    var rest := program[from..];
    assert rest[1..] == program[from + 1..];
    if rest[0].Reply? {
      at := from;
    } else if rest[0].Over? {
      RepliesNone(rest[1..]);
      assert false;
    } else {
      at := FirstReply(program, from + 1);
    }
  }

  /** The parser, its gate open, comes to the reply at `at` and pushes it. */
  lemma {:induction false} PushAt(s: State, at: nat) returns (steps: seq<Step>)
    requires s.p.at.Ready? && s.h.at.Waiting? && s.m.inLoop && s.p.pc <= at < |s.program|
    requires s.program[at].Reply? && forall i :: s.p.pc <= i < at ==> s.program[i].Gate?
    ensures Valid(s, steps) && NoSpurious(steps) && Exec(s, steps) == PushedAt(s, at)
    decreases at - s.p.pc
  {
    if s.p.pc == at {
      steps := [];
    } else {
      steps := PushAt(Apply(s, ParserStep), at);
    }
    Then(s, ParserStep, steps);
    steps := [ParserStep] + steps;
  }

  lemma PushFirst(s: State) returns (steps: seq<Step>, at: nat)
    requires s.p.at.Ready? && s.h.at.Waiting? && s.m.inLoop && s.p.pc <= |s.program|
    requires RepliesFirst(s.program) && Replies(s.program[s.p.pc..]) != []
    ensures s.p.pc <= at < |s.program| && s.program[at].Reply?
    ensures Valid(s, steps) && NoSpurious(steps) && Exec(s, steps) == PushedAt(s, at)
    ensures Replies(s.program[s.p.pc..]) == [s.program[at].msg] + Replies(s.program[at + 1..])
  {
    at := FirstReply(s.program, s.p.pc);
    steps := PushAt(s, at);
  }

  /** After the push of a reply: straight through if `response_sent` is still set,
      otherwise asleep and spuriously awake again. */
  lemma PassPushed(s: State) returns (steps: seq<Step>)
    requires s.p.at.Pushed? && s.p.pc < |s.program|
    ensures Valid(s, steps)
    ensures s.m.responseSent ==>
              Exec(s, steps) == s.(p := Next(s.p), tally := s.tally.(passed := s.tally.passed + 1, sawSent := true))
    ensures !s.m.responseSent ==>
              Exec(s, steps) == s.(p := Next(s.p), tally := s.tally.(passed := s.tally.passed + 1, spurious := true))
  {
    var s1 := Apply(s, ParserStep);
    if s.m.responseSent {
      Then(s1, ParserStep, []);
      Then(s, ParserStep, [ParserStep] + []);
      steps := [ParserStep] + ([ParserStep] + []);
    } else {
      var s2 := Apply(s1, ParserStep);
      var s3 := Apply(s2, ParserStep);
      var s4 := Apply(s3, SentSpurious);
      Then(s4, ParserStep, []);
      Then(s3, SentSpurious, [ParserStep] + []);
      Then(s2, ParserStep, [SentSpurious] + ([ParserStep] + []));
      Then(s1, ParserStep, [ParserStep] + ([SentSpurious] + ([ParserStep] + [])));
      Then(s, ParserStep, [ParserStep] + ([ParserStep] + ([SentSpurious] + ([ParserStep] + []))));
      steps := [ParserStep] + ([ParserStep] + ([ParserStep] + ([SentSpurious] + ([ParserStep] + []))));
    }
  }

  /** From `s` the parser ran to its end while the handler stayed in its timed wait. */
  ghost predicate RanAhead(s: State, e: State)
    requires s.p.pc <= |s.program|
  {
    && e.program == s.program && e.p == Parser(|s.program|, Ready) && e.h == s.h
    && e.m.buf == s.m.buf + Replies(s.program[s.p.pc..])
    && (e.m.isCommunicating ==>
          s.m.isCommunicating && forall i :: s.p.pc <= i < |s.program| ==> !s.program[i].Over?)
    && (s.m.responseSent ==> e.tally.spurious == s.tally.spurious)
    && e.log.processed == s.log.processed
  }

  lemma RanAheadStep(s: State, s': State, e: State)
    requires s.p.pc < |s.program| && s.p.at.Ready? && s.m.inLoop
    requires s'.program == s.program && s'.p.pc == s.p.pc + 1 && s'.h == s.h && s'.log.processed == s.log.processed
    requires s'.m.buf == s.m.buf + (if s.program[s.p.pc].Reply? then [s.program[s.p.pc].msg] else [])
    requires s'.m.isCommunicating ==> s.m.isCommunicating && !s.program[s.p.pc].Over?
    requires s.m.responseSent ==> s'.m.responseSent && s'.tally.spurious == s.tally.spurious
    requires RanAhead(s', e)
    ensures RanAhead(s, e)
  {
    assert s.program[s.p.pc..][1..] == s'.program[s'.p.pc..];
  }

  lemma {:induction false} RunAhead(s: State) returns (steps: seq<Step>)
    requires s.p.at.Ready? && s.h.at.Waiting? && s.m.inLoop && s.p.pc <= |s.program|
    ensures Valid(s, steps) && RanAhead(s, Exec(s, steps))
    decreases |s.program| - s.p.pc
  {
    if s.p.pc == |s.program| {
      steps := [];
      return;
    }
    var s1 := Apply(s, ParserStep);
    if s.program[s.p.pc].Reply? {
      var pass := PassPushed(s1);
      var s2 := Exec(s1, pass);
      var more := RunAhead(s2);
      RanAheadStep(s, s2, Exec(s2, more));
      Append(s1, pass, more);
      Then(s, ParserStep, pass + more);
      steps := [ParserStep] + (pass + more);
    } else {
      var more := RunAhead(s1);
      RanAheadStep(s, s1, Exec(s1, more));
      Then(s, ParserStep, more);
      steps := [ParserStep] + more;
    }
  }

  predicate Ends(program: seq<Action>) { exists i :: 0 <= i < |program| && program[i].Over? }

  /** From a timed wait with the parser done, the handler sends one reply and leaves. */
  lemma LeaveAfterOne(s: State) returns (steps: seq<Step>)
    requires s.h.at.Waiting? && s.m.buf != [] && s.m.buf[0] != "" && s.p.at.Ready? && !s.m.isCommunicating
    ensures Valid(s, steps) && Exec(s, steps) == Delivered(s, Exited)
  {
    var deliver := DeliverOne(s);
    var polled := Delivered(s, Poll);
    Then(polled, HandlerStep, []);
    Append(s, deliver, [HandlerStep] + []);
    steps := deliver + ([HandlerStep] + []);
  }

  /** With two replies, a spurious return from the reply wait is enough. */
  lemma SpuriousLoss(program: seq<Action>) returns (steps: seq<Step>)
    requires RepliesFirst(program) && Ends(program) && NonEmptyReplies(program)
    requires |Replies(program)| >= 2
    ensures Valid(Init(program), steps)
    ensures var s := Exec(Init(program), steps);
            s.h.at.Exited? && Messages(s.log.processed) != Replies(program)
  {
    var s0 := Init(program);
    var enter := HandlerFirst(program);
    var s1 := Exec(s0, enter);
    assert program[0..] == program;
    FirstReplyNonEmpty(program);
    var ahead := RunAhead(s1);
    var s2 := Exec(s1, ahead);
    assert s2.m.buf == Replies(program);
    var leave := LeaveAfterOne(s2);
    assert |Exec(s2, leave).log.processed| == 1;
    Append(s1, ahead, leave);
    Append(s0, enter, ahead + leave);
    steps := enter + (ahead + leave);
  }

  lemma {:induction false} FirstReplyNonEmpty(program: seq<Action>)
    requires NonEmptyReplies(program)
    ensures forall i :: 0 <= i < |Replies(program)| ==> Replies(program)[i] != ""
  {
    if program != [] {
      FirstReplyNonEmpty(program[1..]);
    }
  }

  /** With three replies, no spurious wake-up is needed: the flag left set by the first
      reply lets the parser run ahead, and the handler leaves with the third one queued. */
  lemma StaleFlagLoss(program: seq<Action>) returns (steps: seq<Step>)
    requires RepliesFirst(program) && Ends(program) && NonEmptyReplies(program)
    requires |Replies(program)| >= 3
    ensures Valid(Init(program), steps)
    ensures var s := Exec(Init(program), steps);
            s.h.at.Exited? && !s.tally.spurious && Messages(s.log.processed) != Replies(program)
  {
    var s0 := Init(program);
    var enter := HandlerFirst(program);
    var s1 := Exec(s0, enter);
    assert program[0..] == program;
    FirstReplyNonEmpty(program);
    var push, at := PushFirst(s1);
    var s2 := Exec(s1, push);
    var deliver := DeliverOne(s2);
    var s3 := Exec(s2, deliver);
    var around := LoopAround(s3);
    var s4 := Exec(s3, around);
    var pass := PassPushed(s4);
    var s5 := Exec(s4, pass);
    var ahead := RunAhead(s5);
    var s6 := Exec(s5, ahead);
    assert s6.m.buf == Replies(program)[1..];
    OverAfter(program, at);
    var leave := LeaveAfterOne(s6);
    assert |Exec(s6, leave).log.processed| == 2;
    Append(s5, ahead, leave);
    Append(s4, pass, ahead + leave);
    Append(s3, around, pass + (ahead + leave));
    Append(s2, deliver, around + (pass + (ahead + leave)));
    Append(s1, push, deliver + (around + (pass + (ahead + leave))));
    Append(s0, enter, push + (deliver + (around + (pass + (ahead + leave)))));
    steps := enter + (push + (deliver + (around + (pass + (ahead + leave)))));
  }

  lemma OverAfter(program: seq<Action>, at: nat)
    requires RepliesFirst(program) && Ends(program) && at < |program| && program[at].Reply?
    ensures exists i :: at < i < |program| && program[i].Over?
  {
    var i :| 0 <= i < |program| && program[i].Over?;
    assert i != at;
  }

  ghost predicate AlwaysAnswers(program: seq<Action>, withSpurious: bool) {
    forall steps :: Valid(Init(program), steps) ==>
      var s := Exec(Init(program), steps);
      s.h.at.Exited? && (withSpurious || !s.tally.spurious) ==> Messages(s.log.processed) == Replies(program)
  }

  /** Exactly when no reply can be dropped: without spurious wake-ups a task is safe in
      every interleaving if and only if it has at most two replies, with them if and only
      if it has at most one. */
  lemma RepliesSafeExactly(program: seq<Action>)
    requires RepliesFirst(program) && Ends(program) && NonEmptyReplies(program)
    ensures AlwaysAnswers(program, false) <==> |Replies(program)| <= 2
    ensures AlwaysAnswers(program, true) <==> |Replies(program)| <= 1
  {
    forall steps | Valid(Init(program), steps) && Exec(Init(program), steps).h.at.Exited?
                   && Quiet(Exec(Init(program), steps))
      ensures Messages(Exec(Init(program), steps).log.processed) == Replies(program)
    {
      ExitMeansAnswered(program, steps);
    }
    forall steps | Valid(Init(program), steps)
      ensures Exec(Init(program), steps).program == program
    {
      ReachableInv(program, steps);
    }
    if |Replies(program)| >= 2 {
      var loss := SpuriousLoss(program);
    }
    if |Replies(program)| >= 3 {
      var loss := StaleFlagLoss(program);
    }
  }

  // ---------------------------------------------------------------------------
  // A lost wake-up stops the task for good.

  /** The parser sleeps for a notify that has already been spent: on line 27 the flag is
      set and the handler past its notify, on line 279 nothing is left to send. */
  predicate AsleepAtGate(s: State) {
    s.p.at.GateAsleep? && s.m.inLoop && !s.h.at.SetFlag? && !s.h.at.NotifyGate?
  }

  predicate AsleepAtReply(s: State) {
    s.p.at.SentAsleep? && s.m.buf == [] && !s.h.at.Sending? && !s.h.at.MarkSent? && !s.h.at.NotifySent?
  }

  predicate Stranded(s: State) { AsleepAtGate(s) || AsleepAtReply(s) }

  /** Without a spurious wake-up the parser never moves again, so `t.join()` never returns;
      and while `is_communicating` is set the handler does not even leave its loop. */
  lemma {:induction false} StrandedForever(s: State, steps: seq<Step>)
    requires Stranded(s) && Valid(s, steps) && NoSpurious(steps)
    ensures Stranded(Exec(s, steps)) && Exec(s, steps).p == s.p
    ensures s.m.isCommunicating && !s.h.at.Exited? ==> !Exec(s, steps).h.at.Exited?
    decreases |steps|
  {
    if steps != [] {
      assert !steps[0].GateSpurious? && !steps[0].SentSpurious?;
      StrandedForever(Apply(s, steps[0]), steps[1..]);
    }
  }

  /** The task can never return: the parser is not through and no run moves it. */
  ghost predicate StuckForever(s: State) {
    s.p.pc < |s.program| && forall steps :: Valid(s, steps) && NoSpurious(steps) ==> Exec(s, steps).p == s.p
  }

  ghost predicate CanStrand(program: seq<Action>) {
    exists steps :: Valid(Init(program), steps) && NoSpurious(steps) && StuckForever(Exec(Init(program), steps))
  }

  lemma StrandedIsStuck(s: State)
    requires Stranded(s) && s.p.pc < |s.program|
    ensures StuckForever(s)
  {
    forall steps | Valid(s, steps) && NoSpurious(steps)
      ensures Exec(s, steps).p == s.p
    {
      StrandedForever(s, steps);
    }
  }

  /** Before the handler has done anything. */
  predicate Fresh(s: State) {
    s.h == Handler(Top, "", 0) && !s.m.inLoop && !s.m.responseSent && s.m.buf == [] && s.p.at.Ready?
  }

  lemma {:induction false} SkipOvers(s: State, k: nat) returns (steps: seq<Step>)
    requires Fresh(s) && s.p.pc <= k <= |s.program|
    requires forall i :: s.p.pc <= i < k ==> s.program[i].Over?
    ensures Valid(s, steps) && NoSpurious(steps)
    ensures Fresh(Exec(s, steps)) && Exec(s, steps).p.pc == k && Exec(s, steps).program == s.program
    decreases k - s.p.pc
  {
    steps := [];
    if s.p.pc < k {
      var rest := SkipOvers(Apply(s, ParserStep), k);
      Then(s, ParserStep, rest);
      steps := [ParserStep] + rest;
    }
  }

  /** The handler sets the flag and notifies between the parser's look at it and its sleep. */
  lemma StrandAtGate(s: State) returns (steps: seq<Step>)
    requires Fresh(s) && s.p.pc < |s.program| && s.program[s.p.pc].Gate?
    ensures Valid(s, steps) && NoSpurious(steps)
    ensures AsleepAtGate(Exec(s, steps)) && Exec(s, steps).program == s.program && Exec(s, steps).p.pc == s.p.pc
  {
    var s1 := Apply(s, ParserStep);
    var s2 := Apply(s1, HandlerStep);
    var s3 := Apply(s2, HandlerStep);
    var s4 := Apply(s3, HandlerStep);
    Then(s4, ParserStep, []);
    Then(s3, HandlerStep, [ParserStep] + []);
    Then(s2, HandlerStep, [HandlerStep] + ([ParserStep] + []));
    Then(s1, HandlerStep, [HandlerStep] + ([HandlerStep] + ([ParserStep] + [])));
    Then(s, ParserStep, [HandlerStep] + ([HandlerStep] + ([HandlerStep] + ([ParserStep] + []))));
    steps := [ParserStep] + ([HandlerStep] + ([HandlerStep] + ([HandlerStep] + ([ParserStep] + []))));
  }

  /** The handler deals with the only waiting reply, an empty one included. */
  lemma DeliverAny(s: State) returns (steps: seq<Step>)
    requires s.h.at.Waiting? && |s.m.buf| == 1 && s.p.at.SentBlock?
    ensures Valid(s, steps) && NoSpurious(steps)
    ensures var e := Exec(s, steps); e.p == s.p && e.program == s.program && e.h.at.Poll? && e.m.buf == []
  {
    if s.m.buf[0] != "" {
      steps := DeliverOne(s);
    } else {
      var s1 := Apply(s, HandlerStep);
      var s2 := Apply(s1, HandlerStep);
      Then(s2, HandlerStep, []);
      Then(s1, HandlerStep, [HandlerStep] + []);
      Then(s, HandlerStep, [HandlerStep] + ([HandlerStep] + []));
      steps := [HandlerStep] + ([HandlerStep] + ([HandlerStep] + []));
    }
  }

  /** The parser pushes and finds `response_sent` unset. */
  lemma PushAndCheck(s: State) returns (steps: seq<Step>)
    requires s.p.at.Ready? && s.p.pc < |s.program| && s.program[s.p.pc].Reply?
    requires !HoldsBuf(s.h.at) && !s.m.responseSent
    ensures Valid(s, steps) && NoSpurious(steps)
    ensures var e, msg := Exec(s, steps), s.program[s.p.pc].msg;
            e == s.(p := s.p.(at := SentBlock), m := s.m.(buf := s.m.buf + [msg]),
                    log := s.log.(enqueued := s.log.enqueued + [msg]))
  {
    var s1 := Apply(s, ParserStep);
    var s2 := Apply(s1, ParserStep);
    Then(s2, ParserStep, []);
    Then(s1, ParserStep, [ParserStep] + []);
    Then(s, ParserStep, [ParserStep] + ([ParserStep] + []));
    steps := [ParserStep] + ([ParserStep] + ([ParserStep] + []));
  }

  lemma EnterLoop(s: State) returns (steps: seq<Step>)
    requires s.h.at.Top? && !s.m.inLoop && !s.p.at.GateAsleep?
    ensures Valid(s, steps) && NoSpurious(steps)
    ensures Exec(s, steps) == s.(h := s.h.(at := Waiting), m := s.m.(inLoop := true))
  {
    var s1 := Apply(s, HandlerStep);
    var s2 := Apply(s1, HandlerStep);
    var s3 := Apply(s2, HandlerStep);
    Then(s3, HandlerStep, []);
    Then(s2, HandlerStep, [HandlerStep] + []);
    Then(s1, HandlerStep, [HandlerStep] + ([HandlerStep] + []));
    Then(s, HandlerStep, [HandlerStep] + ([HandlerStep] + ([HandlerStep] + [])));
    steps := [HandlerStep] + ([HandlerStep] + ([HandlerStep] + ([HandlerStep] + [])));
  }

  /** The same at the reply wait: the reply is dealt with before the parser sleeps. */
  lemma StrandAtReply(s: State) returns (steps: seq<Step>)
    requires Fresh(s) && s.p.pc < |s.program| && s.program[s.p.pc].Reply?
    ensures Valid(s, steps) && NoSpurious(steps)
    ensures AsleepAtReply(Exec(s, steps)) && Exec(s, steps).program == s.program && Exec(s, steps).p.pc == s.p.pc
  {
    var push := PushAndCheck(s);
    var s1 := Exec(s, push);
    var enter := EnterLoop(s1);
    var s2 := Exec(s1, enter);
    var deliver := DeliverAny(s2);
    var s3 := Exec(s2, deliver);
    Then(s3, ParserStep, []);
    Append(s2, deliver, [ParserStep] + []);
    Append(s1, enter, deliver + ([ParserStep] + []));
    Append(s, push, enter + (deliver + ([ParserStep] + [])));
    steps := push + (enter + (deliver + ([ParserStep] + [])));
  }

  lemma Strand(program: seq<Action>, k: nat)
    requires k < |program| && !program[k].Over? && forall i :: 0 <= i < k ==> program[i].Over?
    ensures CanStrand(program)
  {
    var skip := SkipOvers(Init(program), k);
    var s := Exec(Init(program), skip);
    var more;
    if program[k].Gate? {
      more := StrandAtGate(s);
    } else {
      more := StrandAtReply(s);
    }
    Append(Init(program), skip, more);
    assert NoSpurious(skip + more);
    StrandedIsStuck(Exec(s, more));
  }

  predicate OnlyOvers(program: seq<Action>) { forall i :: 0 <= i < |program| ==> program[i].Over? }

  lemma {:induction false} OnlyOversReady(s: State, steps: seq<Step>)
    requires OnlyOvers(s.program) && s.p.at.Ready? && Valid(s, steps)
    ensures Exec(s, steps).p.at.Ready? && Exec(s, steps).program == s.program
    decreases |steps|
  {
    if steps != [] {
      OnlyOversReady(Apply(s, steps[0]), steps[1..]);
    }
  }

  lemma {:induction false} FirstOther(program: seq<Action>) returns (k: nat)
    requires !OnlyOvers(program)
    ensures k < |program| && !program[k].Over? && forall i :: 0 <= i < k ==> program[i].Over?
  {
    if !program[0].Over? {
      k := 0;
    } else {
      assert forall i :: 0 <= i < |program| - 1 ==> program[1..][i] == program[i + 1];
      k := FirstOther(program[1..]);
      k := k + 1;
    }
  }

  /** Exactly which tasks can lose a wake-up: without any spurious wake-up some run stops the
      parser for good if and only if the task waits at all, at the gate or for a reply. */
  lemma StrandsExactly(program: seq<Action>)
    ensures CanStrand(program) <==> exists i :: 0 <= i < |program| && (program[i].Gate? || program[i].Reply?)
  {
    if OnlyOvers(program) {
      forall steps | Valid(Init(program), steps) && NoSpurious(steps)
        ensures !StuckForever(Exec(Init(program), steps))
      {
        OnlyOversReady(Init(program), steps);
        var s := Exec(Init(program), steps);
        if s.p.pc < |program| {
          Then(s, ParserStep, []);
          assert NoSpurious([ParserStep] + []) && Exec(s, [ParserStep] + []).p != s.p;
        }
      }
    } else {
      var k := FirstOther(program);
      assert program[k].Gate? || program[k].Reply?;
      Strand(program, k);
    }
  }

  /** Past the gate as well: every task with a reply can be stranded in the reply wait, with
      `is_communicating` still set. */
  lemma LostWakeup(program: seq<Action>) returns (steps: seq<Step>)
    requires RepliesFirst(program) && NonEmptyReplies(program) && Replies(program) != []
    ensures Valid(Init(program), steps) && NoSpurious(steps)
    ensures var s := Exec(Init(program), steps); AsleepAtReply(s) && s.m.isCommunicating && !s.h.at.Exited?
  {
    var s0 := Init(program);
    var enter := HandlerFirst(program);
    var s1 := Exec(s0, enter);
    assert program[0..] == program;
    var push, at := PushFirst(s1);
    var s2 := Exec(s1, push);
    FirstReplyNonEmpty(program);
    var strand := StrandPushed(s2);
    Append(s1, push, strand);
    Append(s0, enter, push + strand);
    steps := enter + (push + strand);
  }

  /** The reply just pushed is sent and notified between the look at the flag and the sleep. */
  lemma StrandPushed(s: State) returns (steps: seq<Step>)
    requires s.p.at.Pushed? && s.p.pc < |s.program| && !s.m.responseSent
    requires s.h.at.Waiting? && |s.m.buf| == 1 && s.m.buf[0] != ""
    ensures Valid(s, steps) && NoSpurious(steps)
    ensures var e := Exec(s, steps);
            AsleepAtReply(e) && e.m.isCommunicating == s.m.isCommunicating && !e.h.at.Exited?
  {
    var s1 := Apply(s, ParserStep);
    var s2 := Apply(s1, ParserStep);
    var deliver := DeliverOne(s2);
    var s3 := Exec(s2, deliver);
    Then(s3, ParserStep, []);
    Append(s2, deliver, [ParserStep] + []);
    Then(s1, ParserStep, deliver + ([ParserStep] + []));
    Then(s, ParserStep, [ParserStep] + (deliver + ([ParserStep] + [])));
    steps := [ParserStep] + ([ParserStep] + (deliver + ([ParserStep] + [])));
  }

  ghost predicate CanStrandAtReply(program: seq<Action>) {
    exists steps :: Valid(Init(program), steps) && NoSpurious(steps) && AsleepAtReply(Exec(Init(program), steps))
  }

  /** For the reply wait alone: if and only if the task has a reply. */
  lemma StrandsAtReplyExactly(program: seq<Action>)
    requires RepliesFirst(program) && NonEmptyReplies(program)
    ensures CanStrandAtReply(program) <==> Replies(program) != []
  {
    if Replies(program) != [] {
      var steps := LostWakeup(program);
    } else {
      forall steps | Valid(Init(program), steps)
        ensures !AsleepAtReply(Exec(Init(program), steps))
      {
        ReachableInv(program, steps);
        var s := Exec(Init(program), steps);
        if s.p.at.SentAsleep? {
          RepliesPrefix(program, s.p.pc);
        }
      }
    }
  }

  // ---------------------------------------------------------------------------
  // A wake-up that is not lost arrives: nothing else stops the parser.

  /** Where the handler is and what it may hold. */
  ghost predicate Places(s: State) {
    && (!s.m.inLoop ==> s.h.at.Top? || s.h.at.SetFlag?)
    && (s.h.at.Exited? ==> !s.m.isCommunicating)
    && (s.h.at.Sending? ==> s.h.hand != "")
    && (forall i :: 0 <= i < |s.m.buf| ==> s.m.buf[i] != "")
  }

  lemma StepKeepsPlaces(s: State, step: Step)
    requires Places(s) && NonEmptyReplies(s.program) && Enabled(s, step)
    ensures Places(Apply(s, step)) && Apply(s, step).program == s.program
  {
  }

  lemma {:induction false} RunKeepsPlaces(s: State, steps: seq<Step>)
    requires Places(s) && NonEmptyReplies(s.program) && Valid(s, steps)
    ensures Places(Exec(s, steps))
    decreases |steps|
  {
    if steps != [] {
      StepKeepsPlaces(s, steps[0]);
      RunKeepsPlaces(Apply(s, steps[0]), steps[1..]);
    }
  }

  /** The handler's next step, every `send` taking all that is left. */
  function HandlerNext(s: State): Step {
    if s.h.at.Sending? && s.h.sent < |s.h.hand| then Send(|s.h.hand| - s.h.sent) else HandlerStep
  }

  /** How far the handler is from its next notify of `response_sent_cv`. */
  function ToNotify(h: Handler): nat {
    match h.at
    case Poll => 12
    case Top => 11
    case SetFlag => 10
    case NotifyGate => 9
    case Lock => 8
    case Waiting => 7
    case Pop => 6
    case Sending => if h.sent < |h.hand| then 5 else 4
    case MarkSent => 3
    case NotifySent => 2
    case Exited => 0
  }

  /** The parser sleeps for a reply that is still to be sent or notified. */
  ghost predicate AwaitsReply(s: State) {
    && s.p.at.SentAsleep? && s.m.isCommunicating && Places(s)
    && (s.m.buf != [] || s.h.at.Sending? || s.h.at.MarkSent? || s.h.at.NotifySent?)
  }

  lemma {:induction false} ReplyWakes(s: State) returns (steps: seq<Step>)
    requires AwaitsReply(s)
    ensures Valid(s, steps) && NoSpurious(steps) && Exec(s, steps).p == s.p.(at := SentWoken)
    decreases ToNotify(s.h)
  {
    var step := HandlerNext(s);
    var s1 := Apply(s, step);
    var rest := [];
    if !s.h.at.NotifySent? {
      rest := ReplyWakes(s1);
    }
    Then(s, step, rest);
    steps := [step] + rest;
  }

  /** The parser sleeps at the gate and the handler has not notified yet. */
  lemma {:induction false} GateWakes(s: State) returns (steps: seq<Step>)
    requires s.p.at.GateAsleep? && Places(s) && !AsleepAtGate(s)
    ensures Valid(s, steps) && NoSpurious(steps) && Exec(s, steps).p == Next(s.p)
    decreases ToNotify(s.h)
  {
    var s1 := Apply(s, HandlerStep);
    var rest := [];
    if !s.h.at.NotifyGate? {
      rest := GateWakes(s1);
    }
    Then(s, HandlerStep, rest);
    steps := [HandlerStep] + rest;
  }

  function ToRelease(h: Handler): nat { if HoldsBuf(h.at) then (if h.at.Poll? then 1 else ToNotify(h)) else 0 }

  /** The handler gives `response_buf_mtx` back. */
  lemma {:induction false} BufReleased(s: State) returns (steps: seq<Step>)
    requires s.p.at.Ready?
    ensures Valid(s, steps) && NoSpurious(steps)
    ensures !HoldsBuf(Exec(s, steps).h.at) && Exec(s, steps).p == s.p && Exec(s, steps).program == s.program
    decreases ToRelease(s.h)
  {
    steps := [];
    if HoldsBuf(s.h.at) {
      var step := HandlerNext(s);
      var rest := BufReleased(Apply(s, step));
      Then(s, step, rest);
      steps := [step] + rest;
    }
  }

  lemma ParserMoves(s: State) returns (steps: seq<Step>)
    requires s.p.pc < |s.program| && !s.p.at.GateAsleep? && !s.p.at.SentAsleep?
    ensures Valid(s, steps) && NoSpurious(steps) && Exec(s, steps).p != s.p
  {
    var wait := [];
    if s.p.at.Ready? {
      wait := BufReleased(s);
    }
    var s1 := Exec(s, wait);
    Then(s1, ParserStep, []);
    Append(s, wait, [ParserStep] + []);
    steps := wait + ([ParserStep] + []);
  }

  /** Exactly when a task can never return: in every reachable state with the parser not
      through, no continuation without a spurious wake-up moves it if and only if it sleeps
      for a notify already spent.  Any other sleeper is woken. */
  lemma StuckExactly(program: seq<Action>, steps: seq<Step>)
    requires RepliesFirst(program) && NonEmptyReplies(program) && Valid(Init(program), steps)
    requires Exec(Init(program), steps).p.pc < |program|
    ensures StuckForever(Exec(Init(program), steps)) <==> Stranded(Exec(Init(program), steps))
  {
    var s := Exec(Init(program), steps);
    ReachableInv(program, steps);
    RunKeepsPlaces(Init(program), steps);
    if Stranded(s) {
      StrandedIsStuck(s);
    } else {
      var more;
      if s.p.at.GateAsleep? {
        more := GateWakes(s);
      } else if s.p.at.SentAsleep? {
        more := ReplyWakes(s);
      } else {
        more := ParserMoves(s);
      }
      assert Exec(s, more).p != s.p;
    }
  }

  // ---------------------------------------------------------------------------
  // And every task can be answered in full.

  /** The handler in its timed wait, everything enqueued so far sent, nothing left set. */
  ghost predicate Calm(s: State) {
    && s.p.at.Ready? && s.p.pc <= |s.program| && s.h == Handler(Waiting, "", 0)
    && s.m.inLoop && !s.m.responseSent && s.m.buf == []
    && (s.m.isCommunicating || forall i :: s.p.pc <= i < |s.program| ==> !s.program[i].Reply?)
    && !s.tally.spurious && !s.tally.sawSent && !s.tally.sendFailed
  }

  /** One reply in the ordinary order: pushed, waited for, sent, notified. */
  lemma AnswerOne(s: State) returns (steps: seq<Step>)
    requires Calm(s) && s.p.pc < |s.program| && s.program[s.p.pc].Reply? && s.program[s.p.pc].msg != ""
    ensures Valid(s, steps) && NoSpurious(steps)
    ensures var e, msg := Exec(s, steps), s.program[s.p.pc].msg;
            && e.p == Next(s.p) && e.h == s.h && e.m == s.m && e.program == s.program
            && e.tally == s.tally.(notified := s.tally.notified + 1, passed := s.tally.passed + 1)
            && e.log.processed == s.log.processed + [(msg, |msg|)]
  {
    var push := PushAndCheck(s);
    var s1 := Exec(s, push);
    var s2 := Apply(s1, ParserStep);
    var deliver := DeliverOne(s2);
    var s3 := Exec(s2, deliver);
    var s4 := Apply(s3, ParserStep);
    var around := LoopAround(s4);
    Then(s3, ParserStep, around);
    Append(s2, deliver, [ParserStep] + around);
    Then(s1, ParserStep, deliver + ([ParserStep] + around));
    Append(s, push, [ParserStep] + (deliver + ([ParserStep] + around)));
    steps := push + ([ParserStep] + (deliver + ([ParserStep] + around)));
  }

  /** From a calm state the parser came to its end, all its replies sent. */
  ghost predicate AllAnswered(s: State, e: State)
    requires s.p.pc <= |s.program|
  {
    && Calm(e) && e.program == s.program && e.p.pc == |s.program|
    && Messages(e.log.processed) == Messages(s.log.processed) + Replies(s.program[s.p.pc..])
    && (e.m.isCommunicating <==>
          s.m.isCommunicating && forall i :: s.p.pc <= i < |s.program| ==> !s.program[i].Over?)
  }

  lemma AllAnsweredStep(s: State, s1: State, e: State)
    requires s.p.pc < |s.program| && s1.program == s.program && s1.p.pc == s.p.pc + 1 && AllAnswered(s1, e)
    requires Messages(s1.log.processed)
          == Messages(s.log.processed) + (if s.program[s.p.pc].Reply? then [s.program[s.p.pc].msg] else [])
    requires s1.m.isCommunicating <==> s.m.isCommunicating && !s.program[s.p.pc].Over?
    ensures AllAnswered(s, e)
  {
    assert s.program[s.p.pc..][1..] == s.program[s1.p.pc..];
  }

  lemma {:induction false} AnswerAll(s: State) returns (steps: seq<Step>)
    requires Calm(s) && RepliesFirst(s.program) && NonEmptyReplies(s.program)
    ensures Valid(s, steps) && NoSpurious(steps) && AllAnswered(s, Exec(s, steps))
    decreases |s.program| - s.p.pc
  {
    if s.p.pc == |s.program| {
      steps := [];
    } else if s.program[s.p.pc].Reply? {
      var one := AnswerOne(s);
      var s1 := Exec(s, one);
      var rest := AnswerAll(s1);
      AllAnsweredStep(s, s1, Exec(s1, rest));
      Append(s, one, rest);
      steps := one + rest;
    } else {
      var s1 := Apply(s, ParserStep);
      var rest := AnswerAll(s1);
      AllAnsweredStep(s, s1, Exec(s1, rest));
      Then(s, ParserStep, rest);
      steps := [ParserStep] + rest;
    }
  }

  /** With nothing left to send and the flag cleared, the handler leaves. */
  lemma LeaveIdle(s: State) returns (steps: seq<Step>)
    requires s.h.at.Waiting? && s.m.buf == [] && !s.m.isCommunicating
    ensures Valid(s, steps) && NoSpurious(steps) && Exec(s, steps) == s.(h := s.h.(at := Exited))
  {
    var s1 := Apply(s, HandlerStep);
    var s2 := Apply(s1, HandlerStep);
    Then(s2, HandlerStep, []);
    Then(s1, HandlerStep, [HandlerStep] + []);
    Then(s, HandlerStep, [HandlerStep] + ([HandlerStep] + []));
    steps := [HandlerStep] + ([HandlerStep] + ([HandlerStep] + []));
  }

  /** Every task, whatever the number of its replies, has an ordinary run: no spurious wake-up,
      no check that finds the flag stale, both threads through, every reply sent in full. */
  lemma AnsweredRun(program: seq<Action>) returns (steps: seq<Step>)
    requires RepliesFirst(program) && NonEmptyReplies(program) && Ends(program)
    ensures Valid(Init(program), steps) && NoSpurious(steps)
    ensures var s := Exec(Init(program), steps);
            && s.h.at.Exited? && s.p == Parser(|program|, Ready)
            && !s.tally.spurious && !s.tally.sawSent && !s.tally.sendFailed
            && Messages(s.log.processed) == Replies(program) && s.log.wire == Concat(Replies(program))
  {
    var s0 := Init(program);
    var enter := HandlerFirst(program);
    var s1 := Exec(s0, enter);
    assert program[0..] == program;
    var all := AnswerAll(s1);
    var s2 := Exec(s1, all);
    var leave := LeaveIdle(s2);
    Append(s1, all, leave);
    Append(s0, enter, all + leave);
    steps := enter + (all + leave);
    RepliesConserved(program, steps);
    WholeWire(Concat(Replies(program)));
  }

  lemma WholeWire(wire: string)
    ensures wire + ""[..0] == wire
  {
  }
}

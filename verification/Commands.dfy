/** What a client sees: the answer to every command, from the bytes of the request to the
    bytes of the reply, both read by the protocol's own grammar. */
module Commands {
  import opened Prelude
  import opened Resp
  import opened Store
  import opened RedisParser
  import opened Pipeline
  import opened RespReader
  import opened Bytes
  import opened FileBytes
  import H = ResponseHandoff

  // ---------------------------------------------------------------------------
  // Names are taken in any case.

  /** The same character, or the two cases of one letter. */
  predicate OneLetter(c: char, d: char) {
    || c == d
    || ('a' <= c <= 'z' && d as int == c as int - 32)
    || ('A' <= c <= 'Z' && d as int == c as int + 32)
  }

  predicate SameButCase(a: string, b: string) {
    |a| == |b| && forall i :: 0 <= i < |a| ==> OneLetter(a[i], b[i])
  }

  predicate Capitals(s: string) { forall i :: 0 <= i < |s| ==> !('a' <= s[i] <= 'z') }

  lemma UpperLetter(c: char, d: char)
    ensures ToUpper(c) == ToUpper(d) <==> OneLetter(c, d)
  {
  }

  /** `std::transform` with `toupper` brings together exactly the names that differ in case. */
  lemma UpperExactly(a: string, b: string)
    ensures Upper(a) == Upper(b) <==> SameButCase(a, b)
  {
    if Upper(a) == Upper(b) {
      assert |Upper(a)| == |Upper(b)|;
      forall i | 0 <= i < |a|
        ensures OneLetter(a[i], b[i])
      {
        assert Upper(a)[i] == Upper(b)[i];
        UpperLetter(a[i], b[i]);
      }
    }
    if SameButCase(a, b) {
      forall i | 0 <= i < |a|
        ensures Upper(a)[i] == Upper(b)[i]
      {
        UpperLetter(a[i], b[i]);
      }
    }
  }

  lemma CapitalsStay(s: string)
    requires Capitals(s)
    ensures Upper(s) == s
  {
  }

  /** The name of the frame is `command`, in any case. */
  predicate Calls(f: seq<string>, command: string) { f != [] && SameButCase(f[0], command) }

  lemma NameIs(f: seq<string>, command: string)
    requires f != [] && Capitals(command)
    ensures Name(f) == command <==> Calls(f, command)
  {
    CapitalsStay(command);
    UpperExactly(f[0], command);
  }

  const COMMANDS: seq<string> := ["ECHO", "PING", "SET", "GET", "CONFIG", "KEYS", "INFO", "REPLCONF", "PSYNC"]

  lemma CommandsCapital()
    ensures forall i :: 0 <= i < |COMMANDS| ==> Capitals(COMMANDS[i])
  {
  }

  /** Equal apart from the case of the names. */
  predicate SameCommands(fs: seq<Frame>, gs: seq<Frame>) {
    |fs| == |gs| && forall i :: 0 <= i < |fs| ==> SameCommand(fs[i], gs[i])
  }

  predicate SameCommand(f: Frame, g: Frame) {
    f != [] && g != [] && SameButCase(f[0], g[0]) && f[1..] == g[1..]
  }

  lemma {:induction false} SameLength(f: Frame, g: Frame)
    requires SameCommand(f, g)
    ensures |f| == |g| && |EncodeArray(f)| == |EncodeArray(g)| && Name(f) == Name(g) && Arity(f) == Arity(g)
    ensures forall i :: 1 <= i < |f| ==> f[i] == g[i]
  {
    UpperExactly(f[0], g[0]);
    assert forall i :: 1 <= i < |f| ==> f[i] == f[1..][i - 1] && g[i] == g[1..][i - 1];
    assert |EncodeString(f[0])| == |EncodeString(g[0])|;
  }

  lemma {:induction false} FirstSame(env: Env, db: Database, f: Frame, g: Frame, pos: nat)
    requires SameCommand(f, g) && WellFormed(f) && WellFormed(g)
    ensures IsSet(f) <==> IsSet(g)
    ensures pos + |EncodeArray(f)| == pos + |EncodeArray(g)|
    ensures IsSet(f) ==>
              DbSet(db, f[1], f[2], ExpiryOf(f, env.now(pos))) == DbSet(db, g[1], g[2], ExpiryOf(g, env.now(pos)))
  {
    SameLength(f, g);
  }

  lemma {:induction false} SameSets(env: Env, db: Database, fs: seq<Frame>, gs: seq<Frame>, pos: nat)
    requires AllWellFormed(fs) && AllWellFormed(gs) && SameCommands(fs, gs)
    ensures AfterSets(env, db, fs, pos) == AfterSets(env, db, gs, pos)
    ensures Leading(fs) == Leading(gs) && LastStart(fs, pos) == LastStart(gs, pos)
    decreases |fs|
  {
    if fs != [] {
      assert SameCommand(fs[0], gs[0]);
      FirstSame(env, db, fs[0], gs[0], pos);
      assert SameCommands(fs[1..], gs[1..]);
      if IsSet(fs[0]) {
        var next := pos + |EncodeArray(fs[0])|;
        SetUnfolds(env, db, fs, pos, next);
        SetUnfolds(env, db, gs, pos, next);
        SameSets(env, DbSet(db, fs[0][1], fs[0][2], ExpiryOf(fs[0], env.now(pos))), fs[1..], gs[1..], next);
      }
    }
  }

  lemma SameArguments(f: Frame, g: Frame)
    requires WellFormed(f) && WellFormed(g) && SameCommand(f, g)
    ensures Name(f) == Name(g) && f[1..1 + Arity(f)] == g[1..1 + Arity(g)]
  {
    SameLength(f, g);
  }

  /** The case of the names does not matter to what a buffer does. */
  lemma {:induction false} CaseDoesNotMatter(env: Env, w: World, fd: int, fs: seq<Frame>, gs: seq<Frame>,
                                            pos: nat, input: string)
    requires AllWellFormed(fs) && AllWellFormed(gs) && SameCommands(fs, gs)
    ensures Meaning(env, w, fd, fs, pos, input) == Meaning(env, w, fd, gs, pos, input)
  {
    var n := Leading(fs);
    SameSets(env, w.db, fs, gs, pos);
    LeadingBound(fs);
    LeadingBound(gs);
    if n < |fs| {
      SameArguments(fs[n], gs[n]);
    }
  }

  // ---------------------------------------------------------------------------
  // One request.

  /** The input is exactly one array of bulk strings. */
  ghost predicate Request(input: string, f: Frame) { ArrayAt(input, 0, f, |input|) && Fits(f) }

  /** The request leaves the world `w`, sends nothing to replicas, and a client reads `values`. */
  ghost predicate Answered(r: Result<Outcome>, w: World, values: seq<Value>) {
    && r.Ok? && r.value.world == w && r.value.sends == []
    && ReadAll(H.Replies(r.value.actions), values)
  }

  ghost predicate ReadAll(replies: seq<string>, values: seq<Value>) {
    |replies| == |values| && forall i :: 0 <= i < |values| ==> Reads(replies[i], values[i])
  }

  /** A command other than SET. */
  lemma {:induction false} OneRequest(env: Env, w: World, fd: int, input: string, f: Frame)
    requires Request(input, f) && WellFormed(f) && !IsSet(f)
    ensures var r, p := Interp(env, w, fd, input, 0), Perform(env, w, fd, Name(f), f[1..1 + Arity(f)], env.now(0));
            r.Ok? && r.value.world == p.0 && r.value.sends == [] && H.Replies(r.value.actions) == p.1
  {
    var p := Perform(env, w, fd, Name(f), f[1..1 + Arity(f)], env.now(0));
    ArrayIs(input, f);
    assert At(input, 0, EncodeArray(f));
    OneCommand(env, w, fd, input, 0, f);
    assert [H.Gate] + (Replying(p.1) + [H.Over]) == [H.Gate] + Replying(p.1) + [H.Over];
    RepliesOfLast(p.1);
  }

  /** The same for a command with one reply. */
  lemma {:induction false} OneAnswer(env: Env, w: World, fd: int, input: string, f: Frame, w': World,
                                     reply: string, v: Value)
    requires Request(input, f) && WellFormed(f) && !IsSet(f) && Reads(reply, v)
    requires Perform(env, w, fd, Name(f), f[1..1 + Arity(f)], env.now(0)) == (w', [reply])
    ensures Answered(Interp(env, w, fd, input, 0), w', [v])
  {
    OneRequest(env, w, fd, input, f);
  }

  /** Frames that read no argument, and one. */
  lemma {:induction false} NoArgs(f: Frame, command: string)
    requires Fits(f) && f != [] && Name(f) == command
    requires command == "PING" || command == "REPLCONF" || command == "PSYNC"
    ensures WellFormed(f) && !IsSet(f) && Arity(f) == 0 && f[1..1] == []
  {
  }

  lemma {:induction false} OneArg(f: Frame, command: string)
    requires Fits(f) && |f| >= 2 && Name(f) == command
    requires command == "ECHO" || command == "GET" || command == "KEYS" || command == "INFO"
    ensures WellFormed(f) && !IsSet(f) && Arity(f) == 1 && f[1..2] == [f[1]]
  {
  }

  lemma PerformOne(env: Env, w: World, fd: int, arg: string, now: int)
    ensures Perform(env, w, fd, "ECHO", [arg], now) == (w, [EncodeString(arg)])
    ensures Perform(env, w, fd, "KEYS", [arg], now) == (w, [EncodeArray(env.matching(arg, w.db.Keys))])
    ensures Perform(env, w, fd, "INFO", [arg], now)
         == (w, [EncodeString(if Upper(arg) == "REPLICATION" then InfoText(w) else "")])
  {
  }

  lemma PerformGet(env: Env, w: World, fd: int, key: string, now: int)
    ensures var (db, response) := DbGet(w.db, key, now);
            Perform(env, w, fd, "GET", [key], now) == (w.(db := db), [GetReply(response)])
  {
  }

  lemma PerformConfig(env: Env, w: World, fd: int, args: seq<string>, now: int)
    ensures Perform(env, w, fd, "CONFIG", args, now) == (w, [ConfigReply(env, args)])
  {
  }

  lemma PerformNone(env: Env, w: World, fd: int, now: int)
    ensures Perform(env, w, fd, "PING", [], now) == (w, [PING_RESPONSE])
    ensures Perform(env, w, fd, "REPLCONF", [], now) == (w, [OK_RESPONSE])
    ensures Perform(env, w, fd, "PSYNC", [], now) == (Register(w, fd), PsyncReplies(env, w))
  {
  }

  lemma OkReads()
    ensures Reads(OK_RESPONSE, Simple("OK"))
  {
  }

  lemma PongReads()
    ensures Reads(PING_RESPONSE, Simple("PONG"))
  {
  }

  lemma NullReads()
    ensures Reads(NULL_RESPONSE, Null)
  {
  }

  lemma {:induction false} PingAnswered(env: Env, w: World, fd: int, input: string, f: Frame)
    requires Request(input, f) && Calls(f, "PING")
    ensures Answered(Interp(env, w, fd, input, 0), w, [Simple("PONG")])
  {
    NameIs(f, "PING");
    NoArgs(f, "PING");
    PerformNone(env, w, fd, env.now(0));
    PongReads();
    OneAnswer(env, w, fd, input, f, w, PING_RESPONSE, Simple("PONG"));
  }

  lemma {:induction false} ReplconfAnswered(env: Env, w: World, fd: int, input: string, f: Frame)
    requires Request(input, f) && Calls(f, "REPLCONF")
    ensures Answered(Interp(env, w, fd, input, 0), w, [Simple("OK")])
  {
    NameIs(f, "REPLCONF");
    NoArgs(f, "REPLCONF");
    PerformNone(env, w, fd, env.now(0));
    OkReads();
    OneAnswer(env, w, fd, input, f, w, OK_RESPONSE, Simple("OK"));
  }

  lemma {:induction false} EchoAnswered(env: Env, w: World, fd: int, input: string, f: Frame)
    requires Request(input, f) && Calls(f, "ECHO") && |f| >= 2
    ensures Answered(Interp(env, w, fd, input, 0), w, [Bulk(f[1])])
  {
    NameIs(f, "ECHO");
    OneArg(f, "ECHO");
    PerformOne(env, w, fd, f[1], env.now(0));
    BulkReply(f[1]);
    OneAnswer(env, w, fd, input, f, w, EncodeString(f[1]), Bulk(f[1]));
  }

  /** GET reads the stored value while it is live, and null otherwise; a dead entry is gone
      afterwards.  A stored value that is the null reply itself also reads as null. */
  lemma {:induction false} GetAnswered(env: Env, w: World, fd: int, input: string, f: Frame)
    requires Request(input, f) && Calls(f, "GET") && |f| >= 2
    ensures var key, now, db := f[1], env.now(0), w.db;
            var live := key in db && (db[key].expiryTime == 0 || now < db[key].expiryTime);
            Answered(Interp(env, w, fd, input, 0), w.(db := if live then db else db - {key}),
                     [if live && db[key].value != ['$', '-', '1', '\r', '\n'] then Bulk(db[key].value) else Null])
  {
    NameIs(f, "GET");
    OneArg(f, "GET");
    PerformGet(env, w, fd, f[1], env.now(0));
    var (db, response) := DbGet(w.db, f[1], env.now(0));
    GetReads(w.db, f[1], env.now(0));
    assert f[1] !in w.db ==> w.db - {f[1]} == w.db;
    OneAnswer(env, w, fd, input, f, w.(db := db), GetReply(response),
              if response != NULL_RESPONSE then Bulk(response) else Null);
  }

  lemma {:induction false} ConfigShape(f: Frame)
    requires Fits(f) && |f| >= 2 && Name(f) == "CONFIG" && (Upper(f[1]) == "GET" ==> |f| >= 3)
    ensures WellFormed(f) && !IsSet(f)
    ensures f[1..1 + Arity(f)] == if Upper(f[1]) == "GET" then [f[1], f[2]] else [f[1]]
  {
  }

  lemma GetReads(db: Database, key: string, now: int)
    ensures NULL_RESPONSE == ['$', '-', '1', '\r', '\n']
    ensures var response := DbGet(db, key, now).1;
            Reads(GetReply(response), if response != NULL_RESPONSE then Bulk(response) else Null)
  {
    NullReads();
    BulkReply(DbGet(db, key, now).1);
  }

  lemma {:induction false} ConfigAnswered(env: Env, w: World, fd: int, input: string, f: Frame)
    requires Request(input, f) && Calls(f, "CONFIG") && |f| >= 2 && (SameButCase(f[1], "GET") ==> |f| >= 3)
    ensures Answered(Interp(env, w, fd, input, 0), w,
                     [if SameButCase(f[1], "GET") && f[2] == "dir" then Array([f[2], env.dir])
                      else if SameButCase(f[1], "GET") && f[2] == "dbfile" then Array([f[2], env.dbfilename])
                      else Null])
  {
    NameIs(f, "CONFIG");
    NameIs([f[1]], "GET");
    ConfigShape(f);
    if SameButCase(f[1], "GET") {
      ConfigArgs(env, w, fd, input, f, [f[1], f[2]]);
    } else {
      ConfigArgs(env, w, fd, input, f, [f[1]]);
    }
  }

  lemma {:induction false} ConfigArgs(env: Env, w: World, fd: int, input: string, f: Frame, args: seq<string>)
    requires Request(input, f) && WellFormed(f) && Name(f) == "CONFIG" && f[1..1 + Arity(f)] == args
    ensures Answered(Interp(env, w, fd, input, 0), w, [ConfigValue(env, args)])
  {
    PerformConfig(env, w, fd, args, env.now(0));
    ConfigReads(env, args);
    OneAnswer(env, w, fd, input, f, w, ConfigReply(env, args), ConfigValue(env, args));
  }

  function ConfigValue(env: Env, args: seq<string>): Value {
    if |args| == 2 && args[1] == "dir" then Array([args[1], env.dir])
    else if |args| == 2 && args[1] == "dbfile" then Array([args[1], env.dbfilename])
    else Null
  }

  lemma ConfigReads(env: Env, args: seq<string>)
    ensures Reads(ConfigReply(env, args), ConfigValue(env, args))
  {
    NullReads();
    if |args| == 2 {
      ArrayReply([args[1], env.dir]);
      ArrayReply([args[1], env.dbfilename]);
    }
  }

  lemma {:induction false} KeysAnswered(env: Env, w: World, fd: int, input: string, f: Frame)
    requires Request(input, f) && Calls(f, "KEYS") && |f| >= 2
    ensures Answered(Interp(env, w, fd, input, 0), w, [Array(env.matching(f[1], w.db.Keys))])
  {
    NameIs(f, "KEYS");
    OneArg(f, "KEYS");
    PerformOne(env, w, fd, f[1], env.now(0));
    var keys := env.matching(f[1], w.db.Keys);
    ArrayReply(keys);
    OneAnswer(env, w, fd, input, f, w, EncodeArray(keys), Array(keys));
  }

  /** Anything but the nine names reads as null. */
  lemma {:induction false} UnknownAnswered(env: Env, w: World, fd: int, input: string, f: Frame)
    requires Request(input, f) && f != [] && forall i :: 0 <= i < |COMMANDS| ==> !Calls(f, COMMANDS[i])
    ensures Answered(Interp(env, w, fd, input, 0), w, [Null])
  {
    CommandsCapital();
    forall i | 0 <= i < |COMMANDS|
      ensures Name(f) != COMMANDS[i]
    {
      NameIs(f, COMMANDS[i]);
    }
    UnknownName(f);
    NullReads();
    OneAnswer(env, w, fd, input, f, w, NULL_RESPONSE, Null);
  }

  lemma {:induction false} UnknownName(f: Frame)
    requires forall i :: 0 <= i < |COMMANDS| ==> Name(f) != COMMANDS[i]
    ensures Name(f) !in {"ECHO", "PING", "SET", "GET", "CONFIG", "KEYS", "INFO", "REPLCONF", "PSYNC"}
  {
    assert COMMANDS[0] == "ECHO" && COMMANDS[1] == "PING" && COMMANDS[2] == "SET" && COMMANDS[3] == "GET";
    assert COMMANDS[4] == "CONFIG" && COMMANDS[5] == "KEYS" && COMMANDS[6] == "INFO";
    assert COMMANDS[7] == "REPLCONF" && COMMANDS[8] == "PSYNC";
  }

  // ---------------------------------------------------------------------------
  // INFO.

  /** The lines of a text in which a lone carriage return ends a line. */
  function Lines(text: string): seq<string>
    decreases |text|
  {
    var n := LineLength(text);
    if n == |text| then [] else [text[..n]] + Lines(text[n + 1..])
  }

  function LineLength(text: string): (n: nat)
    ensures n <= |text|
  {
    if text == "" || text[0] == '\r' then 0 else 1 + LineLength(text[1..])
  }

  predicate NoReturn(s: string) { forall i :: 0 <= i < |s| ==> s[i] != '\r' }

  lemma {:induction false} LineLengthOf(line: string, rest: string)
    requires NoReturn(line)
    ensures LineLength(line + "\r" + rest) == |line|
  {
    var text := line + "\r" + rest;
    if line != "" {
      assert text[1..] == line[1..] + "\r" + rest;
      LineLengthOf(line[1..], rest);
    }
  }

  lemma FirstLine(line: string, rest: string)
    requires NoReturn(line)
    ensures Lines(line + "\r" + rest) == [line] + Lines(rest)
  {
    var text := line + "\r" + rest;
    LineLengthOf(line, rest);
    assert text[..|line|] == line && text[|line| + 1..] == rest;
  }

  lemma InfoLineFirst(name: string, value: string, rest: string)
    requires NoReturn(name) && NoReturn(value)
    ensures Lines(InfoLine(name, value) + rest) == [name + ":" + value] + Lines(rest)
  {
    var line := name + ":" + value;
    FirstLine(line, rest);
    assert InfoLine(name, value) + rest == line + "\r" + rest;
  }

  /** The nine lines of the replication section. */
  function InfoLines(w: World): seq<string> {
    ["role:" + w.role, "connected_slaves:" + ToString(w.connectedSlaves), "master_replid:" + w.replid,
     "master_repl_offset:0", "second_repl_offset:-1", "repl_backlog_active:-1", "repl_backlog_size:-1",
     "repl_backlog_first_byte_offset:-1", "repl_backlog_histlen:-1"]
  }

  lemma {:induction false} DigitsNoReturn(n: int)
    ensures NoReturn(ToString(n))
  {
    DecimalValue(if n < 0 then -n else n);
  }

  /** Lines put together from names and values, the first one first. */
  function Joined(fields: seq<(string, string)>): string {
    if fields == [] then "" else InfoLine(fields[0].0, fields[0].1) + Joined(fields[1..])
  }

  lemma {:induction false} JoinedCons(name: string, value: string, fields: seq<(string, string)>)
    ensures Joined([(name, value)] + fields) == InfoLine(name, value) + Joined(fields)
  {
    assert ([(name, value)] + fields)[1..] == fields;
  }

  function Field(field: (string, string)): string { field.0 + ":" + field.1 }

  predicate Printable(fields: seq<(string, string)>) {
    forall i :: 0 <= i < |fields| ==> NoReturn(fields[i].0) && NoReturn(fields[i].1)
  }

  lemma {:induction false} JoinedLines(fields: seq<(string, string)>)
    requires Printable(fields)
    ensures Lines(Joined(fields)) == seq(|fields|, i requires 0 <= i < |fields| => Field(fields[i]))
  {
    if fields == [] {
      assert Lines("") == [];
    } else {
      assert forall i :: 0 <= i < |fields| - 1 ==> fields[1..][i] == fields[i + 1];
      JoinedLines(fields[1..]);
      InfoLineFirst(fields[0].0, fields[0].1, Joined(fields[1..]));
    }
  }

  function FixedFields(): seq<(string, string)> {
    [("master_repl_offset", "0")] + ([("second_repl_offset", "-1")] + ([("repl_backlog_active", "-1")]
    + ([("repl_backlog_size", "-1")] + ([("repl_backlog_first_byte_offset", "-1")]
    + ([("repl_backlog_histlen", "-1")] + [])))))
  }

  function InfoFields(w: World): seq<(string, string)> {
    [("role", w.role)] + ([("connected_slaves", ToString(w.connectedSlaves))]
    + ([("master_replid", w.replid)] + FixedFields()))
  }

  function FixedLines(): string {
    InfoLine("master_repl_offset", "0") + (InfoLine("second_repl_offset", "-1")
    + (InfoLine("repl_backlog_active", "-1") + (InfoLine("repl_backlog_size", "-1")
    + (InfoLine("repl_backlog_first_byte_offset", "-1") + (InfoLine("repl_backlog_histlen", "-1") + "")))))
  }

  lemma {:induction false} FixedJoined()
    ensures Joined(FixedFields()) == FixedLines()
  {
    var f6 := [("repl_backlog_histlen", "-1")] + [];
    var f5 := [("repl_backlog_first_byte_offset", "-1")] + f6;
    var f4 := [("repl_backlog_size", "-1")] + f5;
    var f3 := [("repl_backlog_active", "-1")] + f4;
    var f2 := [("second_repl_offset", "-1")] + f3;
    JoinedCons("repl_backlog_histlen", "-1", []);
    JoinedCons("repl_backlog_first_byte_offset", "-1", f6);
    JoinedCons("repl_backlog_size", "-1", f5);
    JoinedCons("repl_backlog_active", "-1", f4);
    JoinedCons("second_repl_offset", "-1", f3);
    JoinedCons("master_repl_offset", "0", f2);
  }

  lemma TextSplits(w: World)
    ensures InfoText(w) == InfoLine("role", w.role) + (InfoLine("connected_slaves", ToString(w.connectedSlaves))
                           + (InfoLine("master_replid", w.replid) + FixedLines()))
  {
  }

  lemma {:induction false} TextIsJoined(w: World)
    ensures InfoText(w) == Joined(InfoFields(w))
  {
    var f3 := [("master_replid", w.replid)] + FixedFields();
    var f2 := [("connected_slaves", ToString(w.connectedSlaves))] + f3;
    TextSplits(w);
    FixedJoined();
    JoinedCons("master_replid", w.replid, FixedFields());
    JoinedCons("connected_slaves", ToString(w.connectedSlaves), f3);
    JoinedCons("role", w.role, f2);
  }

  lemma {:induction false} FixedFieldsAre()
    ensures FixedFields() == [("master_repl_offset", "0"), ("second_repl_offset", "-1"), ("repl_backlog_active", "-1"),
                              ("repl_backlog_size", "-1"), ("repl_backlog_first_byte_offset", "-1"),
                              ("repl_backlog_histlen", "-1")]
  {
  }

  lemma {:induction false} FieldsAre(w: World)
    ensures var fs := InfoFields(w);
            && |fs| == 9
            && fs[0] == ("role", w.role) && fs[1] == ("connected_slaves", ToString(w.connectedSlaves))
            && fs[2] == ("master_replid", w.replid) && fs[3] == ("master_repl_offset", "0")
            && fs[4] == ("second_repl_offset", "-1") && fs[5] == ("repl_backlog_active", "-1")
            && fs[6] == ("repl_backlog_size", "-1") && fs[7] == ("repl_backlog_first_byte_offset", "-1")
            && fs[8] == ("repl_backlog_histlen", "-1")
  {
    FixedFieldsAre();
  }

  lemma {:induction false} FixedPrintable()
    ensures NoReturn("master_repl_offset") && NoReturn("second_repl_offset") && NoReturn("repl_backlog_active")
    ensures NoReturn("repl_backlog_size") && NoReturn("repl_backlog_first_byte_offset")
    ensures NoReturn("repl_backlog_histlen") && NoReturn("role") && NoReturn("connected_slaves")
    ensures NoReturn("master_replid") && NoReturn("0") && NoReturn("-1")
  {
  }

  lemma {:induction false} FieldsPrintable(w: World)
    requires NoReturn(w.role) && NoReturn(w.replid)
    ensures Printable(InfoFields(w))
  {
    DigitsNoReturn(w.connectedSlaves);
    FixedPrintable();
    FieldsAre(w);
  }

  lemma {:induction false} InfoLinesAre(w: World)
    requires NoReturn(w.role) && NoReturn(w.replid)
    ensures Lines(InfoText(w)) == InfoLines(w)
  {
    TextIsJoined(w);
    FieldsPrintable(w);
    FieldsAre(w);
    JoinedLines(InfoFields(w));
    NineLines(w, Lines(Joined(InfoFields(w))));
  }

  lemma {:induction false} NineLines(w: World, lines: seq<string>)
    requires |lines| == |InfoFields(w)| && forall i :: 0 <= i < |lines| ==> lines[i] == Field(InfoFields(w)[i])
    ensures lines == InfoLines(w)
  {
    FieldsAre(w);
    assert |lines| == 9 && |InfoLines(w)| == 9;
    assert lines[0] == InfoLines(w)[0] && lines[1] == InfoLines(w)[1] && lines[2] == InfoLines(w)[2];
    assert lines[3] == InfoLines(w)[3] && lines[4] == InfoLines(w)[4] && lines[5] == InfoLines(w)[5];
    assert lines[6] == InfoLines(w)[6] && lines[7] == InfoLines(w)[7] && lines[8] == InfoLines(w)[8];
  }

  /** INFO reads as one bulk string: the nine lines after REPLICATION, nothing otherwise. */
  lemma {:induction false} InfoAnswered(env: Env, w: World, fd: int, input: string, f: Frame) returns (text: string)
    requires Request(input, f) && Calls(f, "INFO") && |f| >= 2 && NoReturn(w.role) && NoReturn(w.replid)
    ensures Answered(Interp(env, w, fd, input, 0), w, [Bulk(text)])
    ensures if SameButCase(f[1], "REPLICATION") then Lines(text) == InfoLines(w) else text == ""
  {
    NameIs(f, "INFO");
    NameIs([f[1]], "REPLICATION");
    OneArg(f, "INFO");
    PerformOne(env, w, fd, f[1], env.now(0));
    text := if Upper(f[1]) == "REPLICATION" then InfoText(w) else "";
    InfoLinesAre(w);
    BulkReply(text);
    OneAnswer(env, w, fd, input, f, w, EncodeString(text), Bulk(text));
  }

  // ---------------------------------------------------------------------------
  // SET.

  /** The key is set, a client reads OK, and a master sends the request itself to every
      replica once. */
  lemma {:induction false} SetAnswered(env: Env, w: World, fd: int, input: string, f: Frame, value: DBValue)
    returns (o: Outcome)
    requires Request(input, f) && Calls(f, "SET") && (|f| == 3 || (|f| == 5 && Stoi(f[4]).Ok?))
    requires value == DBValue(f[2], if |f| == 3 then 0 else env.now(0) + Stoi(f[4]).value)
    ensures Interp(env, w, fd, input, 0) == Ok(o)
    ensures o.world == w.(db := w.db[f[1] := value]) && ReadAll(H.Replies(o.actions), [Simple("OK")])
    ensures o.sends == if w.role == "master" then Round(w.slaveFds, input) else []
  {
    NameIs(f, "SET");
    SetShape(f);
    SetWorldIs(w, f, env.now(0), value);
    o := SetRequest(env, w, fd, input, f);
    OkOnly(H.Replies(o.actions));
  }

  lemma {:induction false} SetShape(f: Frame)
    requires Fits(f) && f != [] && Name(f) == "SET" && (|f| == 3 || (|f| == 5 && Stoi(f[4]).Ok?))
    ensures WellFormed(f) && IsSet(f)
  {
  }

  lemma {:induction false} SetWorldIs(w: World, f: Frame, now: int, value: DBValue)
    requires WellFormed(f) && IsSet(f)
    requires value == DBValue(f[2], if |f| == 3 then 0 else now + Stoi(f[4]).value)
    ensures SetWorld(w, f, now) == w.(db := w.db[f[1] := value])
  {
  }

  lemma OkOnly(replies: seq<string>)
    requires replies == [OK_RESPONSE]
    ensures ReadAll(replies, [Simple("OK")])
  {
    OkReads();
  }

  lemma {:induction false} SetRequest(env: Env, w: World, fd: int, input: string, f: Frame) returns (o: Outcome)
    requires Request(input, f) && WellFormed(f) && IsSet(f)
    ensures Interp(env, w, fd, input, 0) == Ok(o) && o.world == SetWorld(w, f, env.now(0))
    ensures H.Replies(o.actions) == [OK_RESPONSE] && o.sends == Propagation(o.world, input)
  {
    o := Meaning(env, w, fd, [f], 0, input);
    ArrayIs(input, f);
    AtFrame(f);
    InterpMeaning(env, w, fd, input, 0, [f]);
    MeaningReplies(env, w, fd, [f], 0, input);
    OneSetMeaning(env, w, fd, f, input);
    OneSetReplies(env, w, fd, f);
  }

  lemma {:induction false} AtFrame(f: Frame)
    ensures Encode([f]) == EncodeArray(f) && At(EncodeArray(f), 0, Encode([f]))
  {
    assert Encode([f]) == EncodeArray(f) + Encode([f][1..]) == EncodeArray(f);
  }

  lemma {:induction false} OneSetMeaning(env: Env, w: World, fd: int, f: Frame, input: string)
    requires WellFormed(f) && IsSet(f)
    ensures var m, w1 := Meaning(env, w, fd, [f], 0, input), SetWorld(w, f, env.now(0));
            m.world == w1 && m.sends == Propagation(w1, input)
  {
    var w1 := SetWorld(w, f, env.now(0));
    MeaningStep(env, w, fd, [f], 0, |EncodeArray(f)|, input);
    assert [f][1..] == [];
    MeaningOfNothing(env, w1, fd, |EncodeArray(f)|, input);
    assert [] + Propagation(w1, input) == Propagation(w1, input);
  }

  lemma {:induction false} OneSetReplies(env: Env, w: World, fd: int, f: Frame)
    requires WellFormed(f) && IsSet(f)
    ensures BufferReplies(env, w, fd, [f], 0) == [OK_RESPONSE]
  {
    assert [f][1..] == [];
    assert Leading([f]) == 1;
    assert Repeat(1, [OK_RESPONSE]) == [OK_RESPONSE] + Repeat(0, [OK_RESPONSE]) == [OK_RESPONSE];
  }

  /** PX in milliseconds: set at one time with `ms` to live, a later GET reads the value
      exactly while fewer than `ms` have passed. */
  lemma {:induction false} PxExpiresExactly(env: Env, w: World, fd: int, input: string, f: Frame, ms: int,
                                            env2: Env, input2: string, g: Frame) returns (o: Outcome, w2: World)
    requires Request(input, f) && Calls(f, "SET") && |f| == 5 && f[4] == ToString(ms) && -INT_MAX - 1 <= ms <= INT_MAX
    requires Request(input2, g) && Calls(g, "GET") && |g| >= 2 && g[1] == f[1]
    requires f[2] != NULL_RESPONSE && env.now(0) + ms != 0
    ensures Interp(env, w, fd, input, 0) == Ok(o)
    ensures Answered(Interp(env2, o.world, fd, input2, 0), w2,
                     [if env2.now(0) - env.now(0) < ms then Bulk(f[2]) else Null])
  {
    StoiToString(ms);
    o := SetAnswered(env, w, fd, input, f, DBValue(f[2], env.now(0) + ms));
    GetReads(map[], f[1], 0);
    GetAnswered(env2, o.world, fd, input2, g);
    w2 := if env2.now(0) - env.now(0) < ms then o.world else o.world.(db := o.world.db - {f[1]});
  }

  // ---------------------------------------------------------------------------
  // PSYNC.

  /** `$`, the length, a line end and exactly the bytes of the file, with no line end behind. */
  ghost predicate SnapshotAt(reply: string, file: string) {
    exists start: nat :: start <= |reply| && CountAt(reply, 0, '$', |file|, start) && reply[start..] == file
  }

  lemma {:induction false} SnapshotReads(file: string)
    ensures SnapshotAt("$" + Decimal(|file|) + CRLF + file, file)
  {
    var header := "$" + Decimal(|file|) + CRLF;
    SnapshotHeader(header, file);
  }

  lemma {:induction false} SnapshotHeader(header: string, file: string)
    requires header == "$" + Decimal(|file|) + CRLF
    ensures SnapshotAt(header + file, file)
  {
    assert At(header + file, 0, header);
    HeaderWritten(header + file, 0, '$', |file|);
    assert (header + file)[|header|..] == file;
  }

  /** What the server itself makes of the header: the number of bytes and where they start. */
  lemma {:induction false} SnapshotParses(file: string)
    requires |file| <= INT_MAX
    ensures var r := "$" + Decimal(|file|) + CRLF + file;
            && StartsWith(r, 0, '$') && ReadNumber(r, 1).Parsed? && ReadNumber(r, 1).value == |file|
            && r[ReadNumber(r, 1).next..] == file
  {
    NumberBefore(Decimal(|file|) + CRLF, file);
    var r := "$" + Decimal(|file|) + CRLF + file;
    assert r == "$" + (Decimal(|file|) + CRLF) + file;
  }

  lemma {:induction false} NumberBefore(number: string, file: string)
    requires |file| <= INT_MAX && number == Decimal(|file|) + CRLF
    ensures var r := "$" + number + file;
            && r[0] == '$' && ReadNumber(r, 1) == Parsed(|file|, 1 + |number|) && r[1 + |number|..] == file
  {
    AtInContext("$", number, file);
    ReadNumberAt("$" + number + file, 1, |file|);
  }

  lemma OneLineSum(a: string, b: string)
    ensures OneLine(a + b) <==> OneLine(a) && OneLine(b)
  {
    if OneLine(a + b) {
      assert forall i :: 0 <= i < |a| ==> a[i] == (a + b)[i];
      assert forall i :: 0 <= i < |b| ==> b[i] == (a + b)[|a| + i];
    }
  }

  lemma SimpleReads(text: string)
    requires OneLine(text)
    ensures Reads("+" + text + CRLF, Simple(text))
  {
    assert ("+" + text + CRLF)[1..1 + |text|] == text;
  }

  lemma Regrouped(a: string, b: string, c: string, d: string, e: string)
    ensures (a + b) + c + (d + e) == a + (b + c + d) + e
  {
  }

  lemma ResyncReads(id: string)
    requires OneLine(id)
    ensures Reads("+FULLRESYNC " + id + " 0\r\n", Simple("FULLRESYNC " + id + " 0"))
  {
    OneLineSum("FULLRESYNC ", id);
    OneLineSum("FULLRESYNC " + id, " 0");
    SimpleReads("FULLRESYNC " + id + " 0");
    assert "+FULLRESYNC " == "+" + "FULLRESYNC " && " 0\r\n" == " 0" + CRLF;
    Regrouped("+", "FULLRESYNC ", id, " 0", CRLF);
  }

  /** The snapshot of a readable file: 8*(n/8+1) bytes for a file of n, the file in front. */
  lemma {:induction false} SnapshotHoldsFile(env: Env, w: World, file: seq<Byte>, stale: seq<Byte>)
    requires |stale| == 8 && env.rdbFile == AsString(Contents(file, stale))
    ensures SnapshotAt(PsyncReplies(env, w)[1], env.rdbFile)
    ensures |env.rdbFile| == 8 * (|file| / 8 + 1) && env.rdbFile[..|file|] == AsString(file)
  {
    SnapshotReads(env.rdbFile);
  }

  /** PSYNC reads as the resync line with the server's id, then the snapshot with its length;
      a master has the client registered afterwards. */
  lemma {:induction false} PsyncAnswered(env: Env, w: World, fd: int, input: string, f: Frame)
    requires Request(input, f) && Calls(f, "PSYNC") && OneLine(w.replid)
    ensures var r := Interp(env, w, fd, input, 0);
            && r.Ok? && r.value.sends == []
            && r.value.world == (if w.role != "master" then w
                                 else w.(connectedSlaves := w.connectedSlaves + 1, slaveFds := w.slaveFds + [fd]))
            && var replies := H.Replies(r.value.actions);
               && |replies| == 2
               && Reads(replies[0], Simple("FULLRESYNC " + w.replid + " 0"))
               && SnapshotAt(replies[1], env.rdbFile)
  {
    NameIs(f, "PSYNC");
    NoArgs(f, "PSYNC");
    PerformNone(env, w, fd, env.now(0));
    OneRequest(env, w, fd, input, f);
    PsyncReads(env, w);
  }

  lemma {:induction false} PsyncReads(env: Env, w: World)
    requires OneLine(w.replid)
    ensures |PsyncReplies(env, w)| == 2
    ensures Reads(PsyncReplies(env, w)[0], Simple("FULLRESYNC " + w.replid + " 0"))
    ensures SnapshotAt(PsyncReplies(env, w)[1], env.rdbFile)
  {
    ResyncReads(w.replid);
    SnapshotReads(env.rdbFile);
  }
}

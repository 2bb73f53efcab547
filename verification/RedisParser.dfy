/** The command interpreter of src/redis_parser.cpp and the replica registry of
    src/server_info.cpp.

    `Interp` says what one call of `parseRESPCommand` does to the database and the
    registry, which replies and flag updates the parser thread performs in order, and what
    it sends to the replicas.  The class below it is the code: methods that update the
    objects in place and call each other. */
module RedisParser {
  import opened Prelude
  import opened Resp
  import opened Store
  import H = ResponseHandoff

  const OK_RESPONSE := "+OK\r\n"
  const PING_RESPONSE := "+PONG\r\n"

  /** What the interpreter cannot compute: the clock reading of the command that starts at a
      position, the configuration, the bytes `read_rdb_file_binary` returned, and which keys
      match a pattern, in the order of the hash map. */
  datatype Env = Env(now: nat -> int, dir: string, dbfilename: string, rdbFile: string,
                     matching: (string, set<string>) -> seq<string>)

  datatype World = World(db: Database, role: string, connectedSlaves: int, slaveFds: seq<int>, replid: string)

  /** The registry: the counter agrees with the list, and only a master has replicas. */
  predicate Registered(w: World) {
    w.connectedSlaves == |w.slaveFds| && (w.role != "master" ==> w.connectedSlaves == 0)
  }

  datatype Outcome = Outcome(world: World, actions: seq<H.Action>, sends: seq<(int, string)>)

  // ---------------------------------------------------------------------------
  // Commands.

  function ToUpper(c: char): char {
    if 'a' <= c <= 'z' then (c as int - 'a' as int + 'A' as int) as char else c
  }

  function Upper(s: string): string { seq(|s|, i requires 0 <= i < |s| => ToUpper(s[i])) }

  function InfoLine(name: string, value: string): string { name + ":" + value + "\r" }

  function InfoText(w: World): string {
    InfoLine("role", w.role) + InfoLine("connected_slaves", ToString(w.connectedSlaves))
    + InfoLine("master_replid", w.replid) + InfoLine("master_repl_offset", "0") + InfoLine("second_repl_offset", "-1")
    + InfoLine("repl_backlog_active", "-1") + InfoLine("repl_backlog_size", "-1")
    + InfoLine("repl_backlog_first_byte_offset", "-1") + InfoLine("repl_backlog_histlen", "-1")
  }

  /** How many arguments a command other than SET reads; CONFIG reads its second one only
      after GET. */
  function ArgsRead(name: string, first: Parse<string>): nat {
    if name == "ECHO" || name == "GET" || name == "KEYS" || name == "INFO" then 1
    else if name == "CONFIG" then (if first.Parsed? && Upper(first.value) == "GET" then 2 else 1)
    else 0
  }

  function ConfigReply(env: Env, args: seq<string>): string {
    if |args| == 2 && args[1] == "dir" then EncodeArray([args[1], env.dir])
    else if |args| == 2 && args[1] == "dbfile" then EncodeArray([args[1], env.dbfilename])
    else NULL_RESPONSE
  }

  /** The reply of GET to what the database returned. */
  function GetReply(response: string): string {
    if response != NULL_RESPONSE then EncodeString(response) else response
  }

  function PsyncReplies(env: Env, w: World): seq<string> {
    ["+FULLRESYNC " + w.replid + " 0\r\n", "$" + Decimal(|env.rdbFile|) + CRLF + env.rdbFile]
  }

  function Register(w: World, fd: int): World {
    if w.role == "master" then w.(connectedSlaves := w.connectedSlaves + 1, slaveFds := w.slaveFds + [fd]) else w
  }

  /** Every command but SET: the new world and the replies. */
  function Perform(env: Env, w: World, fd: int, name: string, args: seq<string>, now: int): (World, seq<string>) {
    if name == "PING" then (w, [PING_RESPONSE])
    else if name == "REPLCONF" then (w, [OK_RESPONSE])
    else if name == "PSYNC" then (Register(w, fd), PsyncReplies(env, w))
    else if name == "ECHO" && |args| == 1 then (w, [EncodeString(args[0])])
    else if name == "GET" && |args| == 1 then
      var (db, response) := DbGet(w.db, args[0], now);
      (w.(db := db), [GetReply(response)])
    else if name == "CONFIG" then (w, [ConfigReply(env, args)])
    else if name == "KEYS" && |args| == 1 then (w, [EncodeArray(env.matching(args[0], w.db.Keys))])
    else if name == "INFO" && |args| == 1 then
      (w, [EncodeString(if Upper(args[0]) == "REPLICATION" then InfoText(w) else "")])
    else (w, [NULL_RESPONSE])
  }

  function Replying(replies: seq<string>): seq<H.Action> {
    seq(|replies|, i requires 0 <= i < |replies| => H.Reply(replies[i]))
  }

  /** Lines 209-219: 0 without PX, otherwise the clock plus the given milliseconds. */
  function Expiry(args: seq<string>, now: int): Result<int> {
    if |args| != 4 then Ok(0) else
    match Stoi(args[3])
    case Err(reason) => Err(reason)
    case Ok(ms) => Ok(now + ms)
  }

  /** One round of propagation: the input to every descriptor, in order. */
  function Round(fds: seq<int>, input: string): seq<(int, string)> {
    seq(|fds|, i requires 0 <= i < |fds| => (fds[i], input))
  }

  /** Lines 228-234: the whole buffer, once to every registered replica, in order. */
  function Propagation(w: World, input: string): seq<(int, string)> {
    if w.role == "master" then Round(w.slaveFds, input) else []
  }

  // ---------------------------------------------------------------------------
  // One call of parseRESPCommand.

  /** The arguments of SET: two strings, and two more if the header counts more than three. */
  function ReadSet(input: string, pos: nat, count: int): Parse<seq<string>> {
    ParseBulks(input, pos, if count > 3 then 4 else 2)
  }

  function ReadArgs(input: string, pos: nat, name: string): Parse<seq<string>> {
    ParseBulks(input, pos, ArgsRead(name, ParseBulk(input, pos)))
  }

  function Interp(env: Env, w: World, fd: int, input: string, pos: nat): Result<Outcome>
    requires pos <= |input|
    decreases |input| - pos, 2
  {
    if !StartsWith(input, pos, '*') then Ok(Outcome(w, [H.Gate, H.Over], [])) else
    match ReadNumber(input, pos + 1)
    case Malformed(reason) => Err(reason)
    case Parsed(count, afterCount) =>
      match ParseBulk(input, afterCount)
      case Malformed(reason) => Err(reason)
      case Parsed(command, afterName) =>
        var r := if Upper(command) == "SET" then InterpSet(env, w, fd, input, afterName, count, env.now(pos))
                 else InterpOther(env, w, fd, input, afterName, Upper(command), env.now(pos));
        match r
        case Err(reason) => Err(reason)
        case Ok(o) => Ok(o.(actions := [H.Gate] + o.actions))
  }

  function InterpOther(env: Env, w: World, fd: int, input: string, pos: nat, name: string, now: int): Result<Outcome> {
    match ReadArgs(input, pos, name)
    case Malformed(reason) => Err(reason)
    case Parsed(args, _) =>
      var (w', replies) := Perform(env, w, fd, name, args, now);
      Ok(Outcome(w', Replying(replies) + [H.Over], []))
  }

  function InterpSet(env: Env, w: World, fd: int, input: string, pos: nat, count: int, now: int): Result<Outcome>
    decreases |input| - pos, 1
  {
    match ReadSet(input, pos, count)
    case Malformed(reason) => Err(reason)
    case Parsed(args, next) =>
      match Expiry(args, now)
      case Err(reason) => Err(reason)
      case Ok(expiry) => InterpAfterSet(env, w.(db := DbSet(w.db, args[0], args[1], expiry)), fd, input, next)
  }

  /** Lines 223-236, once the key is set and the input read up to `next`. */
  function InterpAfterSet(env: Env, w: World, fd: int, input: string, next: nat): Result<Outcome>
    decreases |input| - next, 3
  {
    if next > |input| then Err("past the end")
    else if !StartsWith(input, next, '*') then
      Ok(Outcome(w, [H.Reply(OK_RESPONSE), H.Over], Propagation(w, input)))
    else
      match Interp(env, w, fd, input, next)
      case Err(reason) => Err(reason)
      case Ok(rest) =>
        Ok(Outcome(rest.world, [H.Reply(OK_RESPONSE)] + rest.actions + [H.Over],
                   rest.sends + Propagation(rest.world, input)))
  }

  /** A call that returned did what `r` says: to the world, to the reply queue and the
      flags, and to the replicas' sockets. */
  predicate Did(r: Result<Outcome>, ok: bool, w: World, a0: seq<H.Action>, a: seq<H.Action>,
                s0: seq<(int, string)>, s: seq<(int, string)>) {
    && ok == r.Ok?
    && (ok ==> w == r.value.world && a == a0 + r.value.actions && s == s0 + r.value.sends)
  }

  /** A command whose name has been read. */
  function Named(env: Env, w: World, fd: int, input: string, pos: nat, command: string, count: int,
                 now: int): Result<Outcome>
  {
    if Upper(command) == "SET" then InterpSet(env, w, fd, input, pos, count, now)
    else InterpOther(env, w, fd, input, pos, Upper(command), now)
  }

  function Gated(r: Result<Outcome>): Result<Outcome> {
    match r case Err(reason) => Err(reason) case Ok(o) => Ok(o.(actions := [H.Gate] + o.actions))
  }

  lemma InterpSteps(env: Env, w: World, fd: int, input: string, pos: nat, count: int, command: string,
                    name: nat, args: nat)
    requires StartsWith(input, pos, '*') && ReadNumber(input, pos + 1) == Parsed(count, name)
    requires ParseBulk(input, name) == Parsed(command, args)
    ensures Interp(env, w, fd, input, pos) == Gated(Named(env, w, fd, input, args, command, count, env.now(pos)))
  {
  }

  lemma GatePassed(r: Result<Outcome>, ok: bool, w: World, a0: seq<H.Action>, a: seq<H.Action>,
                   s0: seq<(int, string)>, s: seq<(int, string)>)
    requires Did(r, ok, w, a0 + [H.Gate], a, s0, s)
    ensures Did(Gated(r), ok, w, a0, a, s0, s)
  {
  }

  lemma InterpOtherSteps(env: Env, w: World, fd: int, input: string, pos: nat, name: string, now: int,
                         args: seq<string>, end: nat)
    requires ReadArgs(input, pos, name) == Parsed(args, end)
    ensures var (w', replies) := Perform(env, w, fd, name, args, now);
            InterpOther(env, w, fd, input, pos, name, now) == Ok(Outcome(w', Replying(replies) + [H.Over], []))
  {
  }

  lemma ReadOne(input: string, pos: nat)
    ensures ParseBulks(input, pos, 1) ==
              match ParseBulk(input, pos) case Malformed(m) => Malformed(m) case Parsed(s, next) => Parsed([s], next)
  {
    if ParseBulk(input, pos).Parsed? {
      assert [ParseBulk(input, pos).value] + [] == [ParseBulk(input, pos).value];
    }
  }

  lemma ReadTwo(input: string, pos: nat)
    requires ParseBulk(input, pos).Parsed?
    ensures var first := ParseBulk(input, pos);
            ParseBulks(input, pos, 2) ==
              match ParseBulk(input, first.next)
              case Malformed(m) => Malformed(m)
              case Parsed(s, next) => Parsed([first.value, s], next)
  {
    var first := ParseBulk(input, pos);
    var second := ParseBulk(input, first.next);
    ReadOne(input, first.next);
    if second.Parsed? {
      assert [first.value] + [second.value] == [first.value, second.value];
    }
  }

  lemma AfterRecursion(env: Env, w: World, fd: int, input: string, next: nat, a0: seq<H.Action>, s0: seq<(int, string)>)
    requires next <= |input| && StartsWith(input, next, '*') && Interp(env, w, fd, input, next).Ok?
    ensures var o := Interp(env, w, fd, input, next).value;
            Did(InterpAfterSet(env, w, fd, input, next), true, o.world,
                a0, a0 + [H.Reply(OK_RESPONSE)] + o.actions + [H.Over], s0, s0 + o.sends + Propagation(o.world, input))
  {
  }

  // ---------------------------------------------------------------------------
  // The objects the code updates in place.

  class ServerInfo {
    var role: string
    var connectedSlaves: int
    var masterReplid: string
    var connectedSlavesFd: seq<int>

    constructor (replid: string)
      ensures role == "master" && connectedSlaves == 0 && connectedSlavesFd == [] && masterReplid == replid
    {
      role, connectedSlaves, masterReplid, connectedSlavesFd := "master", 0, replid, [];
    }

    method UpdateRole(r: string)
      modifies `role
      ensures role == r
    {
      role := r;
    }

    method UpdateConnectedSlaves(n: int)
      modifies `connectedSlaves
      ensures connectedSlaves == n
    {
      connectedSlaves := n;
    }

    method AddConnectedSlave(fd: int)
      modifies `connectedSlavesFd
      ensures connectedSlavesFd == old(connectedSlavesFd) + [fd]
    {
      connectedSlavesFd := connectedSlavesFd + [fd];
    }

    method GetConnectedSlaveFd(i: int) returns (fd: int)
      requires 0 <= i < |connectedSlavesFd|
      ensures fd == connectedSlavesFd[i]
    {
      fd := connectedSlavesFd[i];
    }
  }

  /** One parser object.  `actions` is the order in which it used the reply queue and the
      flags, `sends` what it wrote to the replicas' sockets. */
  class Parser {
    const handler: DatabaseHandler
    const info: ServerInfo
    const clientFd: int
    var actions: seq<H.Action>
    var sends: seq<(int, string)>

    constructor (handler: DatabaseHandler, info: ServerInfo, fd: int)
      ensures this.handler == handler && this.info == info && clientFd == fd && actions == [] && sends == []
    {
      this.handler, this.info, clientFd, actions, sends := handler, info, fd, [], [];
    }

    function Current(): World
      reads handler, info
    {
      World(handler.database, info.role, info.connectedSlaves, info.connectedSlavesFd, info.masterReplid)
    }

    method EnqueueMessage(msg: string)
      modifies `actions
      ensures actions == old(actions) + [H.Reply(msg)]
    {
      actions := actions + [H.Reply(msg)];
    }

    method CommunicationOver()
      modifies `actions
      ensures actions == old(actions) + [H.Over]
    {
      actions := actions + [H.Over];
    }

    /** False when an exception leaves the function, which ends the process. */
    method ParseRESPCommand(env: Env, input: string, start: nat) returns (ok: bool)
      requires start <= |input| && Registered(Current())
      modifies this, handler, info
      ensures Registered(Current())
      ensures Did(Interp(env, old(Current()), clientFd, input, start),
                  ok, Current(), old(actions), actions, old(sends), sends)
      decreases |input| - start, 2
    {
      actions := actions + [H.Gate];
      if !StartsWith(input, start, '*') {
        CommunicationOver();
        return true;
      }
      var header := ReadNumber(input, start + 1);
      if header.Malformed? { return false; }
      var name := ParseBulk(input, header.next);
      if name.Malformed? { return false; }
      ghost var w, now := Current(), env.now(start);
      ghost var r := Named(env, w, clientFd, input, name.next, name.value, header.value, now);
      InterpSteps(env, w, clientFd, input, start, header.value, name.value, header.next, name.next);
      ok := ParseNamedCommand(env, input, name.next, name.value, header.value, env.now(start));
      GatePassed(r, ok, Current(), old(actions), actions, old(sends), sends);
    }

    /** The dispatch of lines 52-84. */
    method ParseNamedCommand(env: Env, input: string, pos: nat, command: string, count: int, now: int)
      returns (ok: bool)
      requires Registered(Current())
      modifies this, handler, info
      ensures Registered(Current())
      ensures Did(Named(env, old(Current()), clientFd, input, pos, command, count, now),
                  ok, Current(), old(actions), actions, old(sends), sends)
      decreases |input| - pos, 2
    {
      if Upper(command) == "SET" {
        ok := ParseSETCommand(env, input, pos, count, now);
      } else {
        ok := ParseOtherCommand(env, input, pos, Upper(command), now);
      }
    }

    /** The branches for every other command. */
    method ParseOtherCommand(env: Env, input: string, pos: nat, command: string, now: int) returns (ok: bool)
      requires Registered(Current())
      modifies `actions, handler, info
      ensures Registered(Current())
      ensures Did(InterpOther(env, old(Current()), clientFd, input, pos, command, now),
                  ok, Current(), old(actions), actions, sends, sends)
    {
      if command == "PSYNC" {
        ParsePSYNCCommand(env);
        ok := true;
      } else if command == "GET" {
        ReadOne(input, pos);
        ok := ParseGETCommand(input, pos, now);
      } else {
        ok := ParseReplyCommand(env, input, pos, command, now);
      }
    }

    /** Those that change nothing but the reply queue and the flags. */
    method ParseReplyCommand(env: Env, input: string, pos: nat, command: string, now: int) returns (ok: bool)
      requires command != "PSYNC" && command != "GET"
      modifies `actions
      ensures Did(InterpOther(env, Current(), clientFd, input, pos, command, now),
                  ok, Current(), old(actions), actions, sends, sends)
    {
      if command == "CONFIG" {
        ok := ParseCONFIGGETCommand(env, input, pos);
      } else if command == "ECHO" || command == "KEYS" || command == "INFO" {
        ok := ParseOneArgCommand(env, input, pos, command, now);
      } else {
        ParseNoArgsCommand(command);
        ok := true;
      }
    }

    method ParseOneArgCommand(env: Env, input: string, pos: nat, command: string, now: int) returns (ok: bool)
      requires command == "ECHO" || command == "KEYS" || command == "INFO"
      modifies `actions
      ensures Did(InterpOther(env, Current(), clientFd, input, pos, command, now),
                  ok, Current(), old(actions), actions, sends, sends)
    {
      ReadOne(input, pos);
      match command
      case "ECHO" => ok := ParseECHOCommand(input, pos);
      case "KEYS" => ok := ParseKEYSCommand(env, input, pos);
      case "INFO" => ok := ParseINFOCommand(input, pos);
    }

    /** PING, REPLCONF and every unknown command. */
    method ParseNoArgsCommand(command: string)
      modifies `actions
      ensures var reply := if command == "PING" then PING_RESPONSE
                           else if command == "REPLCONF" then OK_RESPONSE else NULL_RESPONSE;
              actions == old(actions) + [H.Reply(reply), H.Over]
    {
      if command == "PING" {
        ParsePINGCommand();
      } else if command == "REPLCONF" {
        ParseREPLCONFCommand();
      } else {
        EnqueueMessage(NULL_RESPONSE);
        CommunicationOver();
      }
    }

    method ParseECHOCommand(input: string, pos: nat) returns (ok: bool)
      modifies `actions
      ensures ok == ParseBulk(input, pos).Parsed?
      ensures ok ==> actions == old(actions) + [H.Reply(EncodeString(ParseBulk(input, pos).value)), H.Over]
    {
      var argument := ParseBulk(input, pos);
      if argument.Malformed? { return false; }
      EnqueueMessage(EncodeString(argument.value));
      CommunicationOver();
      return true;
    }

    method ParsePINGCommand()
      modifies `actions
      ensures actions == old(actions) + [H.Reply(PING_RESPONSE), H.Over]
    {
      EnqueueMessage(PING_RESPONSE);
      CommunicationOver();
    }

    method ParseREPLCONFCommand()
      modifies `actions
      ensures actions == old(actions) + [H.Reply(OK_RESPONSE), H.Over]
    {
      EnqueueMessage(OK_RESPONSE);
      CommunicationOver();
    }

    /** Only GET of `dir` and `dbfile` is answered; another word reads no second argument. */
    method ParseCONFIGGETCommand(env: Env, input: string, pos: nat) returns (ok: bool)
      modifies `actions
      ensures var args := ReadArgs(input, pos, "CONFIG");
              && ok == args.Parsed?
              && (ok ==> actions == old(actions) + [H.Reply(ConfigReply(env, args.value)), H.Over])
    {
      ReadOne(input, pos);
      var command := ParseBulk(input, pos);
      if command.Malformed? { return false; }
      if Upper(command.value) == "GET" {
        ReadTwo(input, pos);
        var variable := ParseBulk(input, command.next);
        if variable.Malformed? { return false; }
        if variable.value == "dir" {
          var reply := CreateArrayResponse([variable.value, env.dir]);
          EnqueueMessage(reply);
          CommunicationOver();
          return true;
        } else if variable.value == "dbfile" {
          var reply := CreateArrayResponse([variable.value, env.dbfilename]);
          EnqueueMessage(reply);
          CommunicationOver();
          return true;
        }
      }
      EnqueueMessage(NULL_RESPONSE);
      CommunicationOver();
      return true;
    }

    method ParseKEYSCommand(env: Env, input: string, pos: nat) returns (ok: bool)
      modifies `actions
      ensures var pattern := ParseBulk(input, pos);
              && ok == pattern.Parsed?
              && (ok ==> var keys := env.matching(pattern.value, handler.database.Keys);
                         actions == old(actions) + [H.Reply(EncodeArray(keys)), H.Over])
    {
      var pattern := ParseBulk(input, pos);
      if pattern.Malformed? { return false; }
      var reply := CreateArrayResponse(env.matching(pattern.value, handler.database.Keys));
      EnqueueMessage(reply);
      CommunicationOver();
      return true;
    }

    /** The nine lines of the replication section. */
    method DescribeReplication() returns (response: string)
      ensures response == InfoText(Current())
    {
      response := InfoLine("role", info.role);
      response := response + InfoLine("connected_slaves", ToString(info.connectedSlaves));
      response := response + InfoLine("master_replid", info.masterReplid);
      response := response + InfoLine("master_repl_offset", "0");
      response := response + InfoLine("second_repl_offset", "-1");
      response := response + InfoLine("repl_backlog_active", "-1");
      response := response + InfoLine("repl_backlog_size", "-1");
      response := response + InfoLine("repl_backlog_first_byte_offset", "-1");
      response := response + InfoLine("repl_backlog_histlen", "-1");
    }

    method ParseINFOCommand(input: string, pos: nat) returns (ok: bool)
      modifies `actions
      ensures var word := ParseBulk(input, pos);
              && ok == word.Parsed?
              && (ok ==> var text := if Upper(word.value) == "REPLICATION" then InfoText(Current()) else "";
                         actions == old(actions) + [H.Reply(EncodeString(text)), H.Over])
    {
      var word := ParseBulk(input, pos);
      if word.Malformed? { return false; }
      var response := "";
      if Upper(word.value) == "REPLICATION" {
        response := DescribeReplication();
      }
      EnqueueMessage(EncodeString(response));
      CommunicationOver();
      return true;
    }

    method ParsePSYNCCommand(env: Env)
      requires Registered(Current())
      modifies `actions, info
      ensures Registered(Current()) && Current() == Register(old(Current()), clientFd)
      ensures actions == old(actions) + Replying(PsyncReplies(env, old(Current()))) + [H.Over]
    {
      if info.role == "master" {
        info.UpdateConnectedSlaves(info.connectedSlaves + 1);
        info.AddConnectedSlave(clientFd);
      }
      EnqueueMessage("+FULLRESYNC " + info.masterReplid + " 0\r\n");
      EnqueueMessage("$" + Decimal(|env.rdbFile|) + CRLF + env.rdbFile);
      CommunicationOver();
    }

    method ParseGETCommand(input: string, pos: nat, now: int) returns (ok: bool)
      modifies `actions, handler
      ensures var key := ParseBulk(input, pos);
              && ok == key.Parsed?
              && (ok ==> var (db, response) := DbGet(old(handler.database), key.value, now);
                         && Current() == old(Current()).(db := db)
                         && actions == old(actions) + [H.Reply(GetReply(response)), H.Over])
    {
      var key := ParseBulk(input, pos);
      if key.Malformed? { return false; }
      var response := handler.Get(key.value, now);
      if response != NULL_RESPONSE {
        EnqueueMessage(EncodeString(response));
      } else {
        EnqueueMessage(response);
      }
      CommunicationOver();
      return true;
    }

    method ParseSETCommand(env: Env, input: string, pos: nat, count: int, now: int) returns (ok: bool)
      requires Registered(Current())
      modifies this, handler, info
      ensures Registered(Current())
      ensures Did(InterpSet(env, old(Current()), clientFd, input, pos, count, now),
                  ok, Current(), old(actions), actions, old(sends), sends)
      decreases |input| - pos, 1
    {
      var args := ReadSet(input, pos, count);
      if args.Malformed? { return false; }
      var expiry := Expiry(args.value, now);
      if expiry.Err? { return false; }
      handler.Set(args.value[0], args.value[1], expiry.value);
      ok := ReplyAndPropagate(env, input, args.next);
    }

    method ReplyAndPropagate(env: Env, input: string, next: nat) returns (ok: bool)
      requires Registered(Current())
      modifies this, handler, info
      ensures Registered(Current())
      ensures Did(InterpAfterSet(env, old(Current()), clientFd, input, next),
                  ok, Current(), old(actions), actions, old(sends), sends)
      decreases |input| - next, 3
    {
      ghost var w, a0, s0 := Current(), actions, sends;
      EnqueueMessage(OK_RESPONSE);
      if next > |input| { return false; }
      if StartsWith(input, next, '*') {
        ok := ParseRESPCommand(env, input, next);
        if !ok { return; }
        AfterRecursion(env, w, clientFd, input, next, a0, s0);
      }
      Propagate(input);
      CommunicationOver();
      return true;
    }

    /** The propagation loop never indexes outside the registry and visits it in order. */
    method Propagate(input: string)
      requires Registered(Current())
      modifies `sends
      ensures sends == old(sends) + Propagation(Current(), input)
    {
      if info.role == "master" {
        var i := 0;
        while i < info.connectedSlaves
          invariant 0 <= i <= info.connectedSlaves
          invariant sends == old(sends) + Propagation(Current(), input)[..i]
        {
          var fd := info.GetConnectedSlaveFd(i);
          assert Propagation(Current(), input)[..i + 1] == Propagation(Current(), input)[..i] + [(fd, input)];
          sends := sends + [(fd, input)];
          i := i + 1;
        }
      }
    }
  }
}

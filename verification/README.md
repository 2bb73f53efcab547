# A verified model of the Redis server's core

The server accepts RESP commands over sockets, hands every received buffer to a worker
pool, interprets it, keeps keys in an expiring map, copies SETs to replicas and can load an
RDB file at start. This project states what its five hard parts do and proves it.

- **Lock-free queue** (`NonBlockingQueue.dfy`): every atomic load, store and compare-exchange
  of `enqueue` and `dequeue` is one step of a state machine over a growing heap of nodes.
  Any number of threads, any interleaving, and a compare-exchange may fail spuriously.
- **Worker pool** (`WorkerPool.dfy`): client threads, workers, the mutex and the condition
  variable. A worker keeps the mutex while a task runs, so the pool is one sequential
  executor, whatever its size. The repository's README lists multiple connections at the same
  time; receiving is concurrent, executing commands is not. Waiting work can start on its own
  exactly while no task runs.
- **Reply hand-over** (`ResponseHandoff.dfy`): inside one task a parser thread and the reply
  loop share a queue and three flags. Every flag access, notify, wait and partial send is a
  step. The exact condition under which no reply is dropped when the handler leaves its loop
  is proved, in both directions, and so is the exact condition under which a wait without
  predicate, on line 27 or line 279 of `src/redis_parser.cpp`, can lose its wake-up.
- **RESP and the pipelined interpreter** (`Resp.dfy`, `RedisParser.dfy`, `Pipeline.dfy`,
  `RespReader.dfy`,
  `Commands.dfy`, `Serial.dfy`, `EndToEnd.dfy`, `Replication.dfy`), over the expiring store (`Store.dfy`). The parser, the
  replica registry and the database are classes updated in place, proved against the
  specification functions `Interp` and `DbGet`; the lemmas are about those functions and
  about whole runs of buffers. Requests and replies are tied to the protocol's own grammar,
  stated without the server's encoders: what a client reads for every command is proved from
  the bytes it sends.
- **The whole server** (`ParserThread.dfy`, `Server.dfy`, `ServerProgress.dfy`): the parser thread in steps that each
  touch the shared world once, proved to compute the interpreter; and a machine in which every
  running worker has a parser thread and a hand-over of its own and only the pool's mutex keeps
  tasks apart. Its runs are serial executions in push order, and a stranded task freezes all
  of it; otherwise the next buffer can always be completed and answered.
- **RDB loading** (`RdbFile.dfy`, `RdbEncoding.dfy`, `RdbRejects.dfy`) and the **byte-exact file reader**
  (`Bytes.dfy`, `FileBytes.dfy`). A loader class with a cursor and a database is proved
  against `LoadFile`, and `LoadFile` against an encoder for the part of the format the
  loader supports ("Length Encoding" and "String Encoding" of the RDB file format).

`Prelude.dfy` holds `Option`, `Result` and `At(input, pos, part)`: `part` stands at `pos`, in
any surroundings. `dafny verify dfyconfig.toml` checks the project.

## Assumptions

- Queue: steps are sequentially consistent and nodes are never freed. Line 81 of
  `include/redis/non_blocking_queue.hpp` deletes the old head with no reclamation scheme, so
  the results hold only if neither a thread nor `tail` still refers to the node; which nodes
  are deleted, and a run that leaves `tail` on one, are proved. With nodes kept, no run
  dereferences a missing node.
- Pool and hand-over: the mutexes and condition variables behave as in the C++ standard;
  waits may return spuriously. A run of the hand-over covers one task. In
  the joint machine a parser thread's access to the world - the `set` or `get` of a command, the
  registration of PSYNC, one propagation loop - is one step.
- Interpreter: clock readings, configuration, the bytes of the snapshot file, the replication
  id and the keys that match a pattern are inputs (`Env` and `World`). A negative or missing
  length is an error, as are a thrown exception and a position past the buffer; all of these
  end a run with `Err`. Well-formed frames (`WellFormed`) have the arguments their command
  reads, and SET has three elements, or five with a number last. Strings and element counts
  fit an `int`.
- Replication: bytes sent to a replica arrive whole and in order, each receive holding whole
  sends.
- Files: the host is little-endian. In the loader a read past the end inside a section ends
  the load without success, and at the end of the file no further section starts; the C++
  code goes on with variables that were never set. `stale` is what the memory of the last
  word held.

## Findings

Where the code falls short of what its parts promise, the exact condition is proved.

- A task with three or more replies, such as three pipelined SETs, can end with replies
  unsent, because `response_sent` is reset on the blocking path only. When the handler leaves
  its loop after PSYNC, with two replies, one can be missing only after a spurious wake-up,
  because the handler holds `response_buf_mtx` while it sends and polls.
- Every task can lose a wake-up and never return: at the gate, where every task waits, or in
  the wait for a reply, when the notify comes between the look at the flag and the sleep. A
  worker keeps the pool's mutex meanwhile, so from then on the whole server is frozen, unless
  a wait returns spuriously.
- `empty()` is wrong exactly while `tail` lags and `head` is on `tail` or on its successor. Both
  kinds of wrong answer are reachable: true with a value in the queue, false with none.
- A stored value equal to the null reply cannot be told from a missing key.
- After an enqueue whose last exchange fails spuriously and a dequeue, `tail` points to a node
  that line 81 has deleted, and the next enqueue dereferences it.
- The reply to KEYS is an array. When the keys that match spell a command, the side that gets
  the reply executes it.
- A clock that steps back can lose a value that is live again.
- In a receive that mixes commands and replies a SET is applied exactly when every message
  before it is a SET. So a SET buffer that arrives in one receive with the PSYNC snapshot is
  ignored by the replica.
- RDB: second expiries from 4294968 on wrap; an expiry of 0 becomes none; negative integers are read unsigned; raw strings
  of 64 bytes and more and tables of 256 entries and more are not read back.
- The file reader appends up to eight bytes of stale memory to every file.

## Model

| member | source | states |
|---|---|---|
| `NonBlockingQueue.InitInv` | include/redis/non_blocking_queue.hpp:22-26 | The constructor's stub node gives an empty FIFO and a state that satisfies the invariant |
| `NonBlockingQueue.StepKeepsInv` | include/redis/non_blocking_queue.hpp:42-85 | Every load and every compare-exchange, spurious failures included, keeps: one acyclic chain holding `head` and `tail`, both only moving forward and by one node, unlinked nodes owned by one thread, linked nodes never unlinked |
| `NonBlockingQueue.ContentsAreView` | include/redis/non_blocking_queue.hpp:66-80 | Following `next` from `head` yields exactly the values of the linked nodes `head` has not passed |
| `NonBlockingQueue.LinearizationPoints` | include/redis/non_blocking_queue.hpp:42-85 | The queue changes at two kinds of step only: a successful link appends the enqueued value, a successful exchange of `head` removes the first value |
| `NonBlockingQueue.DequeueAnswers` | include/redis/non_blocking_queue.hpp:66-83 | The successful exchange of `head` is by a thread about to take the first value; a `next` load that finds null sees an empty queue |
| `NonBlockingQueue.OwnPhase` | include/redis/non_blocking_queue.hpp:42-85 | A call is done at its linearization point with the right answer, and at no other step |
| `NonBlockingQueue.OnlyOwnPhaseChanges` | include/redis/non_blocking_queue.hpp:42-85 | A step changes the standing of its own call only, although dequeues empty nodes (`std::move`) that others can still see |
| `NonBlockingQueue.StepRefines` | include/redis/non_blocking_queue.hpp:42-85 | Each step is a step of an atomic FIFO with the same call or reply label |
| `NonBlockingQueue.RunRefines` | include/redis/non_blocking_queue.hpp:42-85 | The same over whole runs from any state with the invariant, and head, tail and chain only grow |
| `NonBlockingQueue.QueueIsLinearizable` | include/redis/non_blocking_queue.hpp:42-85 | Linearizability: for any set of threads and any interleaving from the constructor, the run maps to a run of the atomic FIFO with the same calls and replies |
| `NonBlockingQueue.ReachableChain` | include/redis/non_blocking_queue.hpp:37-63 | In every reachable state the nodes form one acyclic chain from the stub; `tail` is at most one node behind the last, `head` at most one past `tail` |
| `NonBlockingQueue.ValuesConserved` | include/redis/non_blocking_queue.hpp:42-85 | Over every run, values removed then values present are the values linked, in order: nothing lost, duplicated or reordered |
| `NonBlockingQueue.NeverDangles` | include/redis/non_blocking_queue.hpp:42-85 | Under the invariant a thread inside a call finds every node it is about to dereference |
| `NonBlockingQueue.ReachableNeverDangles` | include/redis/non_blocking_queue.hpp:42-85 | In every reachable state every thread has a step, so the dereference guard of the machine excludes no run |
| `NonBlockingQueue.AloneStepCounts` | include/redis/non_blocking_queue.hpp:42-85 | A step of a thread running alone, no exchange failing spuriously, brings the end of its call exactly one step nearer |
| `NonBlockingQueue.FinishesAlone` | include/redis/non_blocking_queue.hpp:42-85 | Obstruction freedom: from every reachable state a pending call that runs alone returns within ten steps |
| `NonBlockingQueue.FailureMeansSuccess` | include/redis/non_blocking_queue.hpp:52-62 | What an exchange compares with changes only through an exchange that succeeds: a failure that is not spurious means another success since the load |
| `NonBlockingQueue.CallsBoundSteps` | include/redis/non_blocking_queue.hpp:42-85 | Lock freedom with a bound: in every schedule, n threads that start k calls take at most 4*k*(10*n+1) steps when no exchange fails spuriously, so all calls return |
| `NonBlockingQueue.DeletedExactly` | include/redis/non_blocking_queue.hpp:79-82 | Which nodes line 81 has deleted in a reachable state: exactly those `head` has passed and whose remover is through; the node `tail` points to is one exactly when `head` is past it and its remover is through |
| `NonBlockingQueue.TouchesDeletedExactly` | include/redis/non_blocking_queue.hpp:42-85 | A thread is about to dereference a deleted node if and only if it holds one that `head` has passed and whose remover is through |
| `NonBlockingQueue.EnqueueTouchesTail` | include/redis/non_blocking_queue.hpp:47-48 | An enqueue that starts dereferences whatever `tail` points to |
| `NonBlockingQueue.TailDeleted` | include/redis/non_blocking_queue.hpp:61-82 | One thread alone gets there: an enqueue whose last exchange fails spuriously, then a dequeue, and `tail` points to a deleted node with no call pending |
| `NonBlockingQueue.EmptyExactly` | include/redis/non_blocking_queue.hpp:37-39 | With both loads at one instant, `empty()` agrees with the abstract queue if and only if `tail` is the last node, or `head` is on neither `tail` nor its successor |
| `NonBlockingQueue.EmptyHidesValue` | include/redis/non_blocking_queue.hpp:37-39 | A run from the constructor after which `empty()` answers true with a value in the queue |
| `NonBlockingQueue.EmptyMissesDrained` | include/redis/non_blocking_queue.hpp:37-39 | A run from the constructor after which `empty()` answers false with the queue empty |
| `NonBlockingQueue.EmptyTwoLoads` | include/redis/non_blocking_queue.hpp:37-39 | The two loads in either order with any steps in between: a true answer means at most one of the values present at the first load is still there at the second |
| `WorkerPool.StepKeepsMutex` | src/client_handler.cpp:93-116 | In every step exactly the owner of `mtx` is inside a locked region |
| `WorkerPool.StepKeepsServed` | src/client_handler.cpp:93-116 | While tasks wait, some worker is awake or some client owes a `notify_one`, kept by every step |
| `WorkerPool.StepKeepsTasks` | src/client_handler.cpp:93-116 | Completed, running and queued tasks together stay the pushed tasks, in order |
| `WorkerPool.StepKeepsOrder` | src/client_handler.cpp:14-34 | Each client's pushed buffers, plus the one it is about to push, stay what it received, in order |
| `WorkerPool.StepKeepsInv` | src/client_handler.cpp:93-116 | All of these together are kept by every step |
| `WorkerPool.StepRefines` | src/client_handler.cpp:93-116 | Each step is a step of one sequential executor |
| `WorkerPool.PoolIsSequential` | src/client_handler.cpp:93-116 | Every run of any non-empty pool refines one sequential FIFO executor; completed ++ running ++ queued equals the tasks in push order |
| `WorkerPool.AtMostOneRunning` | src/client_handler.cpp:96-103 | Two workers that are running a task are the same worker |
| `WorkerPool.NoLostWakeup` | src/client_handler.cpp:93-116 | In every reachable state, work waiting means a worker awake or a notify still owed |
| `WorkerPool.ClientOrderKept` | src/client_handler.cpp:14-34 | In every reachable state a client's buffers were pushed in receive order, at most the newest one missing |
| `WorkerPool.FrontTaskCanStart` | src/client_handler.cpp:93-116 | From any state with the invariant, a waiting task and no task running, at most five steps, none of them the return of a task, start the first waiting task |
| `WorkerPool.WaitingWorkStarts` | src/client_handler.cpp:93-116 | The same from every reachable state in which no task runs |
| `WorkerPool.FrozenWhileRunning` | src/client_handler.cpp:96-103 | While a worker runs its task nothing is pushed, started or completed, whatever the other threads do, until that task returns |
| `WorkerPool.StartsExactly` | src/client_handler.cpp:93-116 | A waiting task can be started before any task returns if and only if no task is running |
| `ResponseHandoff.StepKeepsInv` | src/client_handler.cpp:48-82 | Every step of parser or handler, partial and failing sends and spurious wake-ups included, keeps the hand-over invariant |
| `ResponseHandoff.PushFindsEmptyBuf` | src/redis_parser.cpp:261-268 | In a run with at most one reply, or with no spurious return and at most two replies or no stale flag seen, a reply is pushed only into an empty `response_buf` |
| `ResponseHandoff.RepliesConserved` | src/client_handler.cpp:48-82 | In every interleaving: replies done ++ reply in hand ++ `response_buf` equals the replies enqueued, a prefix of the program's; without a failing `send` the wire holds exactly their bytes for any sizes of partial sends |
| `ResponseHandoff.OverMeansAnswered` | src/redis_parser.cpp:261-287 | Without spurious wake-ups, a task with one reply, or any task whose checks of `response_sent` all saw false, clears `is_communicating` only after every reply has been dealt with |
| `ResponseHandoff.ExitMeansAnswered` | src/client_handler.cpp:48-83 | The handler never leaves its loop with a reply pending in such a run, nor in one with two replies |
| `ResponseHandoff.SpuriousLoss` | src/redis_parser.cpp:276-282 | For every task with two or more replies a run exists, with a spurious return from the wait, in which the handler exits and drops a reply |
| `ResponseHandoff.StaleFlagLoss` | src/redis_parser.cpp:276-282 | For every task with three or more replies such a run exists without any spurious wake-up, because `response_sent` stays set on the non-blocking path |
| `ResponseHandoff.RepliesSafeExactly` | src/client_handler.cpp:48-82 | When the handler leaves its loop no reply is left behind, in any interleaving, if and only if there are at most two; at most one when waits may return spuriously |
| `ResponseHandoff.StrandedForever` | src/redis_parser.cpp:25-28 | At either wait: once the parser sleeps for a notify already spent, no continuation without a spurious wake-up moves it, and while `is_communicating` is set the handler never exits |
| `ResponseHandoff.StrandsExactly` | src/redis_parser.cpp:22-28 | For every list of actions: a run without spurious wake-ups that stops the parser for good exists if and only if the list has a wait, at the gate of line 27 or for a reply on line 279 |
| `ResponseHandoff.LostWakeup` | src/redis_parser.cpp:276-282 | Past the gate too: for every task with a reply a run without spurious wake-ups exists in which the notify comes between the flag check and the sleep |
| `ResponseHandoff.StrandsAtReplyExactly` | src/redis_parser.cpp:276-282 | A run that strands a task in the reply wait exists if and only if the task has a reply |
| `ResponseHandoff.StuckExactly` | src/client_handler.cpp:48-82 | In every reachable state with the parser not through, no continuation without a spurious wake-up moves it if and only if it sleeps for a notify already spent: every other sleeper is woken |
| `ResponseHandoff.ReplyWakes` | src/client_handler.cpp:71-73 | A parser asleep for a reply that is still to be sent or notified is woken, past the notify of line 73 |
| `ResponseHandoff.GateWakes` | src/client_handler.cpp:49-52 | A parser asleep at the gate before the notify of line 51 is woken |
| `ResponseHandoff.AnsweredRun` | src/client_handler.cpp:48-83 | Every task, however many replies it has, has an ordinary run: no spurious wake-up, no stale flag seen, both threads through, exactly the bytes of all replies on the wire |
| `Resp.StoiToString` | src/utils.cpp:64-98 | `std::stoi` inverts `std::to_string` on every `int` |
| `Resp.CreateArrayResponse` | src/utils.cpp:69-75 | The loop yields the RESP array encoding |
| `Resp.BulkRoundTrip` | src/utils.cpp:64-106 | Wherever an encoded string stands in a buffer, parsing there returns the string, CRLF inside allowed, and leaves `pos` right after it |
| `Resp.BulkRoundTripInContext` | src/utils.cpp:64-106 | The same for every text before and after |
| `Resp.BulksRoundTrip` | src/utils.cpp:64-106 | A sequence of encoded strings parses back to the sequence |
| `Resp.ArrayRoundTrip` | src/utils.cpp:64-106 | An encoded array, anywhere in a buffer, parses back to the same list and ends right after it |
| `Resp.ArrayPrefixFree` | src/utils.cpp:64-106 | No array encoding is a proper prefix of another, and different arrays have different encodings |
| `RespReader.BulkExactly` | src/utils.cpp:64-66 | `create_string_reponse`, byte for byte in any surroundings: a bulk string of the protocol - `$`, the length without leading zeros, a line end, exactly that many bytes, a line end - stands somewhere if and only if the encoding does |
| `RespReader.ArrayExactly` | src/utils.cpp:69-75 | `create_array_reponse` in the same way, against the protocol's arrays |
| `RespReader.OneReading` | src/utils.cpp:64-75 | No reply reads as two values: simple string, bulk string, null or array |
| `RespReader.StoiExactly` | src/utils.cpp:98 | `std::stoi` on every text with a number: blanks and one sign before it, anything behind its digits, an exception exactly when the value is no `int` |
| `RespReader.StoiRejects` | src/utils.cpp:98 | And an exception on every text without one |
| `RespReader.BulkTakesWhatIsThere` | src/utils.cpp:90-106 | After a header, as many bytes as it says or what is left of them, the position two further on, whatever stands there |
| `RespReader.BulkNeedsMarker` | src/utils.cpp:91-93 | Nothing is read where there is no `$` |
| `Store.DatabaseHandler.Set` | src/database_handler.cpp:9-14 | The map with one entry replaced |
| `Store.DatabaseHandler.Get` | src/database_handler.cpp:21-36 | The answer and the new map: a dead entry is erased, no other key is touched |
| `Store.StoredExactly` | src/database_handler.cpp:9-36 | After any run, with any clock, a key is stored if and only if it was written and no later read of it came at or after its expiry; then it holds its last write |
| `Store.LazyExpiryRefinesHistory` | src/database_handler.cpp:9-36 | With a clock that does not step back, every read answers the last written value exactly while it is live: erasing on read never shows |
| `Store.ReadAnswersExactly` | src/database_handler.cpp:9-36 | With an arbitrary clock and any values, a read agrees with the history if and only if no earlier read, past the expiry, erased an entry that is live again now and whose value is not the null reply |
| `Store.ClockSetBack` | src/database_handler.cpp:21-36 | The concrete run in which setting the clock back loses a live value |
| `RedisParser.Parser.ParseRESPCommand` | src/redis_parser.cpp:22-85 | The mutable parser does exactly what the specification `Interp` says: database, registry, order of replies and flag updates, sends to replicas, or an error; on every input, negative and missing lengths counting as errors |
| `RedisParser.Parser.ParseNamedCommand` | src/redis_parser.cpp:52-84 | The dispatch on the name, on every input |
| `RedisParser.Parser.ParseOtherCommand` | src/redis_parser.cpp:52-84 | Every command but SET, on every input, against the same specification |
| `RedisParser.Parser.ParseReplyCommand` | src/redis_parser.cpp:52-84 | Every command that only answers |
| `RedisParser.Parser.ParseECHOCommand` | src/redis_parser.cpp:240-248 | The argument as a bulk string |
| `RedisParser.Parser.ParsePINGCommand` | src/redis_parser.cpp:252-255 | One +PONG |
| `RedisParser.Parser.ParseREPLCONFCommand` | src/redis_parser.cpp:108-112 | One +OK |
| `RedisParser.Parser.ParseCONFIGGETCommand` | src/redis_parser.cpp:164-186 | An array for `dir` and `dbfile` after GET, the null reply otherwise; the second argument is read only after GET |
| `RedisParser.Parser.ParseKEYSCommand` | src/redis_parser.cpp:137-159 | The matching keys as an array |
| `RedisParser.Parser.DescribeReplication` | src/redis_parser.cpp:119-130 | The nine lines of the replication section |
| `RedisParser.Parser.ParseINFOCommand` | src/redis_parser.cpp:115-134 | The nine lines of the replication section, or an empty string |
| `RedisParser.Parser.ParsePSYNCCommand` | src/redis_parser.cpp:88-104 | Two replies; on a master the client is registered and the counter kept equal to the list |
| `RedisParser.Parser.ParseGETCommand` | src/redis_parser.cpp:189-201 | The stored value as a bulk string, or the null reply as is; the database as lazy expiry leaves it; an error for a malformed argument |
| `RedisParser.Parser.ParseSETCommand` | src/redis_parser.cpp:204-237 | Key set with its expiry, then reply, recursion and propagation, or an error, on every input |
| `RedisParser.Parser.ReplyAndPropagate` | src/redis_parser.cpp:223-236 | The +OK comes before the recursion, the propagation and `communication_over` after it |
| `RedisParser.Parser.Propagate` | src/redis_parser.cpp:228-234 | The loop stays inside the registry and sends the whole buffer to every registration once, in order |
| `RedisParser.Parser.EnqueueMessage` | src/redis_parser.cpp:261-268 | One reply is added at the end |
| `RedisParser.Parser.CommunicationOver` | src/redis_parser.cpp:284-287 | One flag update is added at the end |
| `RedisParser.ServerInfo.UpdateRole` | src/server_info.cpp:44-46 | The role is replaced, nothing else changes |
| `RedisParser.ServerInfo.UpdateConnectedSlaves` | src/server_info.cpp:47-49 | The counter is replaced, nothing else changes |
| `RedisParser.ServerInfo.AddConnectedSlave` | src/server_info.cpp:125-127 | One descriptor is added at the end of the list |
| `RedisParser.ServerInfo.GetConnectedSlaveFd` | src/server_info.cpp:129-131 | The descriptor at an index inside the list |
| `Pipeline.InterpMeaning` | src/redis_parser.cpp:22-85 | Wherever well-formed frames stand in a buffer, the SET recursion runs exactly the maximal leading run of SETs and at most one command after it; one +OK per SET, then that command's replies, then the flag updates; the whole buffer is propagated once per SET |
| `Commands.UpperExactly` | src/redis_parser.cpp:49-50 | The transform to upper case brings together exactly the names that differ in case |
| `Commands.NameIs` | src/redis_parser.cpp:50-84 | A frame is dispatched as a command if and only if its name is the command in any case |
| `Commands.CaseDoesNotMatter` | src/redis_parser.cpp:50-84 | Buffers that are equal apart from the case of the names do the same |
| `Commands.PingAnswered` | src/redis_parser.cpp:252-255 | A request for PING, as the protocol writes it and in any case, is read by a client as PONG |
| `Commands.ReplconfAnswered` | src/redis_parser.cpp:108-112 | The same for REPLCONF and OK |
| `Commands.EchoAnswered` | src/redis_parser.cpp:240-248 | The same for ECHO and its argument |
| `Commands.GetAnswered` | src/redis_parser.cpp:189-201 | GET is read as the stored value while it is live, otherwise or for a value that is the null reply itself as null; a dead entry is gone afterwards |
| `Commands.SetAnswered` | src/redis_parser.cpp:204-237 | SET stores the value with the expiry, is read as OK, and on a master goes to every replica once |
| `Commands.PxExpiresExactly` | src/redis_parser.cpp:214-219 | A key set with PX is read later exactly while fewer milliseconds have passed |
| `Commands.ConfigAnswered` | src/redis_parser.cpp:164-186 | CONFIG GET of `dir` and `dbfile` is read as the array of name and value, anything else as null |
| `Commands.KeysAnswered` | src/redis_parser.cpp:137-159 | KEYS is read as the array of the matching keys |
| `Commands.InfoAnswered` | src/redis_parser.cpp:115-134 | INFO REPLICATION is read as a text of nine lines, the role, the count and the id among them, anything else as an empty one |
| `Commands.UnknownAnswered` | src/redis_parser.cpp:79-84 | A name that is none of the nine in any case is read as null |
| `Commands.PsyncAnswered` | src/redis_parser.cpp:88-104 | PSYNC is read as the resync line with the id and then the snapshot: its length and exactly its bytes; a master has the client registered |
| `Commands.SnapshotHoldsFile` | src/redis_parser.cpp:99-101 | For a file of n bytes the snapshot has 8*(n/8+1), the file in front |
| `Commands.SnapshotParses` | src/redis_parser.cpp:101 | The server's own number reader finds the length and the start of the bytes |
| `Pipeline.InterpShaped` | src/redis_parser.cpp:22-287 | On every input without an error, well-formed or not, all replies come before the first `communication_over`, there is one, and no reply is empty |
| `Pipeline.RepliesNonEmpty` | src/redis_parser.cpp:88-201 | PSYNC has two replies, every other command but SET one, none empty |
| `Pipeline.MeaningReplies` | src/redis_parser.cpp:204-237 | The enqueued replies are one +OK per leading SET, then the replies of the command after them |
| `Pipeline.BufferAnsweredExactly` | src/redis_parser.cpp:204-287 | Interpreter and hand-over together: when the handler leaves its loop no reply of the buffer is left behind, in any interleaving, if and only if there are at most two (at most one with spurious wake-ups); and every buffer can strand instead, so that the handler never leaves it |
| `Pipeline.AnyBufferCanStrand` | src/redis_parser.cpp:22-28 | On every input without an error, an empty or foreign one included, some run without spurious wake-ups stops the parser for good |
| `Pipeline.InterpRegistered` | src/redis_parser.cpp:88-94 | On every input without an error the counter stays the length of the list, 0 on a replica, and registrations are never dropped |
| `EndToEnd.SetsAreWrites` | src/redis_parser.cpp:204-226 | The leading SETs of a buffer act on the database as their history of writes |
| `EndToEnd.TaskActs` | src/redis_parser.cpp:189-237 | A SET/GET buffer acts as its operations, changes nothing else, and answers one +OK per SET and what the database returned |
| `EndToEnd.RunActs` | src/redis_parser.cpp:189-237 | A serial run of such buffers leaves the database of its operation history |
| `EndToEnd.NullReplyIsMalformed` | src/utils.cpp:90-106 | `parseBulkString` does not accept the null reply |
| `EndToEnd.GetReplyDecodes` | src/redis_parser.cpp:189-201 | The reply to GET decodes to the stored value if and only if that value is not the five bytes of the null reply |
| `EndToEnd.GetAnswersHistory` | src/redis_parser.cpp:189-237 | Over every serial run of SET and GET buffers with a non-decreasing clock, a GET is answered with the live last-written value or the null reply, right after one +OK per SET before it |
| `EndToEnd.TaskRegisters` | src/redis_parser.cpp:88-94 | One buffer adds at most its own client to the registry, and propagates one round per SET over the registry it leaves |
| `Serial.ServeRegistered` | src/redis_parser.cpp:88-94 | Over every serial run, on any inputs, the counter stays the length of the list and registrations are never dropped |
| `Serial.ServeConcat` | src/client_handler.cpp:93-108 | Serving a run of buffers is serving its parts one after the other |
| `EndToEnd.RunRegisters` | src/redis_parser.cpp:88-94 | Over every serial run of any commands the registry is exactly the clients whose PSYNC a master handled, in order |
| `EndToEnd.PropagationReachesAll` | src/redis_parser.cpp:204-237 | After any run a master sends the next buffer once per SET in it to every registration, in order, a PSYNC at the end of that same buffer included, and to nobody else |
| `Replication.OneRoundSends` | src/redis_parser.cpp:228-234 | One propagation loop sends a replica the buffer once per registration of it |
| `Replication.BufferSent` | src/redis_parser.cpp:204-237 | A buffer reaches a replica whole, once per leading SET and registration, a PSYNC at its end counted; a replica sends nothing on |
| `Replication.SendsAreCopies` | src/redis_parser.cpp:204-237 | Over a run of any commands of any clients the sends to a replica are the buffers in order, each as often as it has leading SETs times registrations |
| `Replication.SetsOverlay` | src/redis_parser.cpp:204-226 | The values after a run of SETs are the old ones overlaid with the pairs, last write winning |
| `Replication.ServeOverlay` | src/redis_parser.cpp:204-237 | Receives without GET that each hold one or more whole buffers overlay all their pairs in order, for every grouping |
| `Replication.ServeFates` | src/redis_parser.cpp:204-237 | Receives of any commands, with PX and GET: a key written and still present has its last written value, a missing one was last written with PX |
| `Replication.CopiesOverlay` | src/redis_parser.cpp:204-237 | Idempotence: repeating each buffer any positive number of times in place overlays the same values |
| `Replication.EncodeInjective` | src/utils.cpp:64-75 | Different lists of frames have different encodings |
| `Replication.ReplicaConverges` | src/redis_parser.cpp:204-237 | Convergence with PX, for any commands but GET, pure-SET buffers included, in any grouping of whole sends into receives: both sides hold the same value for every key written since, with no expiry on either side if no SET had one, and the replica keeps every other key |
| `Replication.SingleDelivery` | src/redis_parser.cpp:228-234 | Deliveries as convergence needs them exist for every run: each send in a receive of its own is one |
| `Replication.MixedConverges` | src/redis_parser.cpp:204-237 | Convergence for any commands of any clients, PX and GET included: after everything sent has arrived a key written and still present on either side has its last written value there, and a missing one was last written with PX; without PX both sides hold every key, without an expiry |
| `Replication.PureIsReadable` | src/redis_parser.cpp:223-226 | Every grouping of pure-SET buffers into one receive is of the kind convergence takes |
| `Replication.WhatArrives` | src/redis_parser.cpp:228-234 | What the replica receives is exactly copies of the master's buffers, and overlays the same values |
| `Replication.NotACommand` | src/redis_parser.cpp:32-38 | A receive that does not start with `*` changes nothing, answers nothing and sends nothing |
| `Replication.FeedbackEnds` | src/redis_parser.cpp:32-112 | One hop: replies to any buffers that ask for no array, any number of them, to one buffer or several, arriving together make the other side do nothing |
| `Replication.AnswersInertExactly` | src/redis_parser.cpp:88-201 | The replies to a buffer cannot be taken for a command if and only if its last command is neither KEYS nor CONFIG GET of `dir` or `dbfile` |
| `Replication.ArrayExecuted` | src/redis_parser.cpp:32-85 | An array of strings that is a command is executed as one, wherever it comes from |
| `Replication.KeysReplyExecuted` | src/redis_parser.cpp:137-159 | The reply to KEYS, when the matching keys are `SET`, a key and a value, writes that key on the other side |
| `Replication.MixedMeaning` | src/redis_parser.cpp:22-38 | A receive that is any list of whole messages, commands and replies: exactly the commands before the first reply are seen, and of those the leading SETs and one more command run |
| `Replication.LeadingMessages` | src/redis_parser.cpp:223-226 | A SET in such a receive is among the leading ones if and only if every message before it is a SET |
| `Replication.SetAppliedExactly` | src/redis_parser.cpp:22-38 | For a SET whose key nothing else in the receive or the database can supply or expire: its key is in the database afterwards if and only if every message before it is a SET |
| `Replication.SnapshotSwallowsSets` | src/redis_parser.cpp:96-102 | The instance with the PSYNC snapshot in front: the buffer behind it in one receive is dropped whole |
| `Bytes.LERoundTrip` | src/utils.cpp:77-81 | An integer that fits comes back from its little-endian bytes |
| `FileBytes.ReverseEndianness` | src/utils.cpp:6-14 | The shift loop yields the word whose big-endian bytes are the little-endian bytes of the argument |
| `FileBytes.Uint64ToString` | src/utils.cpp:109-118 | The loop yields the eight bytes, most significant first |
| `FileBytes.LoopsCancel` | src/utils.cpp:77-87 | The two loops cancel on every word |
| `FileBytes.CopyWord` | src/utils.cpp:80-83 | A word in memory comes out byte for byte |
| `FileBytes.ReadRdbFileBinary` | src/utils.cpp:77-87 | For every file of n bytes and every stale tail: 8*(n/8+1) bytes, the first n are the file, the rest the stale tail; nothing for an unreadable file |
| `RdbFile.RdbParser.Parse` | src/read_file.cpp:9-46 | Success and the final database are those of the specification `LoadFile`: its writes applied in order, also when the load fails half-way |
| `RdbFile.RdbParser.ParseSections` | src/read_file.cpp:19-45 | The section loop against `LoadSections` |
| `RdbFile.RdbParser.ReadSection` | src/read_file.cpp:20-43 | The dispatch on the indicator, cursor and database included |
| `RdbFile.RdbParser.ReadMetaData` | src/read_file.cpp:61-71 | Success exactly when both strings are non-empty, and the cursor behind them |
| `RdbFile.RdbParser.ReadDatabase` | src/read_file.cpp:73-138 | Table header and entries, cursor and database included |
| `RdbFile.RdbParser.ReadEntries` | src/read_file.cpp:91-135 | The entry loop against `LoadEntries` |
| `RdbFile.RdbParser.ReadOneEntry` | src/read_file.cpp:92-134 | One turn leaves a database and cursor from which the rest of the load ends as before; a failing turn ends the load with the writes done so far |
| `RdbFile.EntryContinues` | src/read_file.cpp:91-135 | The loop invariant of the entry loop is kept by one turn |
| `RdbFile.SectionContinues` | src/read_file.cpp:19-45 | The loop invariant of the section loop is kept by one section |
| `RdbEncoding.StringExactly` | src/read_file.cpp:144-205 | A string object of the format, raw under 16384 bytes or a signed integer of 8, 16 or 32 bits, is read back, with the cursor behind it, if and only if it is raw with fewer than 64 bytes or a non-negative integer |
| `RdbEncoding.EntryAt` | src/read_file.cpp:91-135 | An encoded entry, with no, millisecond or second expiry, is read back as the write it stands for |
| `RdbEncoding.DueExactly` | src/read_file.cpp:93-121 | For every due time of the format: the store serves the loaded entry at just the times the format does if and only if it is none, or positive and below 2^63 milliseconds, or positive and at most 4294967 seconds |
| `RdbEncoding.EntriesAt` | src/read_file.cpp:91-135 | The entry loop consumes exactly the bytes of the entries |
| `RdbEncoding.SizeAt` | src/read_file.cpp:234-250 | A 6-bit length is read exactly; a 14-bit length with its prefix bits left in |
| `RdbEncoding.CountExactly` | src/read_file.cpp:81-86 | An entry count is read exactly, in either form, if and only if it is below 256 |
| `RdbEncoding.TableAt` | src/read_file.cpp:73-138 | An encoded table section loads as its writes and ends at the next indicator |
| `RdbEncoding.MetaAt` | src/read_file.cpp:61-71 | An encoded metadata section loads nothing and ends at the next indicator |
| `RdbEncoding.TrailerLoadsNothing` | src/read_file.cpp:39-43 | A trailer without 0xFA and 0xFE is skipped |
| `RdbEncoding.LoadInvertsEncoding` | src/read_file.cpp:9-46 | For every list of valid metadata and database sections, the loader accepts the encoded file, consumes it to the end and performs exactly the entries' writes in file order; integers have the signed meaning of the format |
| `RdbEncoding.SecondsExactly` | src/read_file.cpp:108-121 | The 32-bit product `time_sec*1000` is exact if and only if the seconds are at most 4294967 |
| `RdbEncoding.SignedIntegersExactly` | src/read_file.cpp:182-205 | An encoded signed integer, in any of the three widths, is read as its own decimal text if and only if it is not negative |
| `RdbEncoding.RawStringsExactly` | src/read_file.cpp:151-163 | A raw string under 16384 bytes is read back, with the cursor behind it, if and only if it has fewer than 64 bytes |
| `RdbRejects.RejectsExactly` | src/read_file.cpp:9-46 | For every file of valid sections, metadata with an empty string, tables without their marker, and tables with an entry of another value type: it is turned down if and only if it has one of the second or last kind, with exactly the writes before the first of them |
| `RdbRejects.NoTableAt` | src/read_file.cpp:79-81 | A section without the marker 0xFB is over behind that byte |
| `RdbRejects.HeaderRejects` | src/read_file.cpp:50-59 | A file that does not start with the magic word is turned down without any write |
| `ParserThread.AdvanceRefines` | src/redis_parser.cpp:22-237 | The parser thread in steps that each touch the shared world once computes the interpreter: a step, followed by the rest from the world it leaves, is the whole from the world it found |
| `ParserThread.RestAtEnds` | src/redis_parser.cpp:18-20 | From the start the rest is the whole call, at the end it is nothing |
| `ParserThread.AdvanceShape` | src/redis_parser.cpp:22-287 | A step adds no empty reply, and no reply after a flag update |
| `Server.OnlyOne` | src/client_handler.cpp:96-103 | The mutex at work: when a worker runs a task it is the only one, so the database is never accessed by two tasks at once |
| `Server.ParserUnderway` | src/redis_parser.cpp:22-237 | An access of the running task to the shared world is one step of the serial run in progress |
| `Server.StepKeepsInv` | src/client_handler.cpp:39-116 | Every step of pool, parser threads and handlers keeps the joint invariant, seriality included |
| `Server.ServerIsSerial` | src/client_handler.cpp:39-116 | In every run, with any numbers of clients and workers and every parser thread reading and writing the shared world on its own: while no task runs, the world and everything sent to the replicas are those of serving the completed buffers one after the other in push order; while one runs, it is half-way through the next buffer of that serial run; every completed task handed over exactly its buffer's actions |
| `Server.RegistryOfClients` | src/client_handler.cpp:29-31 | In terms of the pool's own tasks: while no task runs, the registry holds the descriptors of exactly the clients whose completed buffer ended in a PSYNC on a master, and what went to the replicas is the clients' own bytes, as often and to whom the registrations by then say |
| `Server.DatabaseOfClients` | src/client_handler.cpp:29-31 | And the database is that of the clients' own SETs and GETs in push order |
| `Server.CompletedDelivered` | src/client_handler.cpp:48-86 | In runs without spurious wake-ups and failing sends every completed task with at most two replies has put exactly their bytes, those of the serial run, on the wire |
| `Server.GetDelivered` | src/client_handler.cpp:39-116 | After any run of SET and GET buffers with a steady clock, a completed task of the pool with a clean wire and at most one SET before its GET has sent exactly the +OK and the answer the history of the clients' writes gives |
| `Server.GetUnderway` | src/client_handler.cpp:39-116 | The replies the running task has enqueued are a prefix of those the history gives |
| `Server.StoppedFreezes` | src/client_handler.cpp:96-103 | Once the hand-over of the running task is stuck, no continuation without a spurious wake-up pushes, starts, completes, writes or propagates anything, whatever the other threads do |
| `Server.AnyBufferCanFreeze` | src/client_handler.cpp:39-103 | When a buffer is waiting and no task runs, some continuation without a spurious wake-up freezes the whole server for good, whatever the buffer holds |
| `Server.ServerCanFreeze` | src/client_handler.cpp:39-103 | The same from every reachable state |
| `ServerProgress.AdvanceShrinks` | src/redis_parser.cpp:22-237 | Every step of the parser thread brings its end nearer |
| `ServerProgress.ServerCanServe` | src/client_handler.cpp:39-116 | From every state with the invariant: a waiting buffer that raises no exception can be completed next, without a spurious wake-up, with exactly the bytes of all its replies on the wire, however many they are |

## Left out

- Socket setup, the accept loop, connecting to the master and the timed handshake (`src/Server.cpp`, `src/server_info.cpp:68-123`): input and output only.
- KEYS pattern matching and parsing the master address: they rest on `std::regex`; KEYS gets its matches as an input.
- Command-line handling, logging and hex printing: no property beyond the text. INFO and CONFIG are modelled as the text they reply.
- The random replication id and reading the clock: inputs.
- Weak memory orders in the queue, the destructor, and what a dereference of a deleted node does: the results other than `DeletedExactly` and `TailDeleted` are about nodes that are kept.
- EmptyExactly: reads both loads of `empty()` at one instant; with steps between the loads only the bound of `EmptyTwoLoads` is proved, since any answer can be out of date by then.
- Liveness of the hand-over: the code does not have it, as the lost wake-ups show; what a fair scheduler with spurious wake-ups would give is not modelled.
- CallsBoundSteps: takes schedules without spurious failures; with them no bound holds.
- MixedConverges: receives in which a buffer that ends in another command is followed by more are not covered, because the code drops what follows.
- SetAppliedExactly: takes a SET whose key no other SET of the receive writes, so that its effect can be told apart; `MixedMeaning` and `LeadingMessages` cover the rest.
- Malformed RESP in detail: where `find` returns `npos` the C++ code goes on with a wrapped position, and with a negative length it reads to the end and moves back; the model makes both an error.
- What an exception does to the process: it escapes the parser thread and ends the program; the model stops with `Err`.
- 64-bit overflow of the clock plus the PX milliseconds.
- The mutex of the database: at most one task runs, as `Server.OnlyOne` states, so it is never contended.
- Splitting of long buffers at 4096 bytes: a received buffer is whole.
- The queue, the pool and the hand-over are state machines over values, not classes with threads: the memory they share is a field of the state, and aliasing beyond node identity is not captured.
- A failing or partial `send` to a replica: the call on `src/redis_parser.cpp:232` ignores its result, and the model takes it as complete.
- The fixed pool size 4: the results hold for every non-empty set of workers.
- LZF strings, the 32-bit length form as the format defines it, and the checksum: the code does not decode them. The 32-bit form is modelled as the code reads it.
- `scripts/rdb_parser.cpp`: an older copy of the loader that only prints.
- ReplicaConverges: SETs with PX reach both sides with the same value but with the expiry of each side's own clock, so for them only the values are proved equal, not the expiry times.

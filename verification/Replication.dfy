/** Propagation from a master to its replicas: what reaches a replica's socket, what the
    replica's database becomes, and why the exchange ends. */
module Replication {
  import opened Prelude
  import opened Resp
  import opened Store
  import opened RedisParser
  import opened Pipeline
  import opened Serial
  import E = EndToEnd
  import H = ResponseHandoff

  type Buffer = seq<Frame>

  predicate AllSets(b: Buffer) { forall i :: 0 <= i < |b| ==> WellFormed(b[i]) && IsSet(b[i]) }

  predicate PureSets(b: Buffer) { b != [] && AllSets(b) }

  predicate AllPureSets(bs: seq<Buffer>) { forall i :: 0 <= i < |bs| ==> PureSets(bs[i]) }

  predicate AllWhole(bs: seq<Buffer>) { forall i :: 0 <= i < |bs| ==> Whole(bs[i]) }

  // ---------------------------------------------------------------------------
  // What the master sends.

  function SentTo(sends: seq<(int, string)>, fd: int): seq<string> {
    if sends == [] then [] else (if sends[0].0 == fd then [sends[0].1] else []) + SentTo(sends[1..], fd)
  }

  function TimesRegistered(fds: seq<int>, fd: int): nat {
    if fds == [] then 0 else (if fds[0] == fd then 1 else 0) + TimesRegistered(fds[1..], fd)
  }

  lemma {:induction false} SentToConcat(a: seq<(int, string)>, b: seq<(int, string)>, fd: int)
    ensures SentTo(a + b, fd) == SentTo(a, fd) + SentTo(b, fd)
  {
    if a == [] {
      assert a + b == b;
    } else {
      assert (a + b)[1..] == a[1..] + b;
      SentToConcat(a[1..], b, fd);
    }
  }

  lemma {:induction false} TimesConcat(a: seq<int>, b: seq<int>, fd: int)
    ensures TimesRegistered(a + b, fd) == TimesRegistered(a, fd) + TimesRegistered(b, fd)
  {
    if a == [] {
      assert a + b == b;
    } else {
      assert (a + b)[1..] == a[1..] + b;
      TimesConcat(a[1..], b, fd);
    }
  }

  lemma {:induction false} OneRoundSends(fds: seq<int>, input: string, fd: int)
    ensures SentTo(Round(fds, input), fd) == Repeat(TimesRegistered(fds, fd), [input])
  {
    if fds != [] {
      OneRoundSends(fds[1..], input, fd);
      assert Round(fds, input)[1..] == Round(fds[1..], input);
    }
  }

  lemma {:induction false} RepeatOfRepeat(n: nat, m: nat, x: string)
    ensures Repeat(n, Repeat(m, [x])) == Repeat(n * m, [x])
  {
    if n > 0 {
      RepeatOfRepeat(n - 1, m, x);
      RepeatSum(m, (n - 1) * m, x);
      assert m + (n - 1) * m == n * m;
    }
  }

  lemma {:induction false} RepeatSum(m: nat, k: nat, x: string)
    ensures Repeat(m, [x]) + Repeat(k, [x]) == Repeat(m + k, [x])
  {
    if m > 0 {
      RepeatSum(m - 1, k, x);
      assert [x] + Repeat(m - 1, [x]) + Repeat(k, [x]) == [x] + (Repeat(m - 1, [x]) + Repeat(k, [x]));
    }
  }

  lemma {:induction false} SentToRepeat(n: nat, sends: seq<(int, string)>, fd: int)
    ensures SentTo(Repeat(n, sends), fd) == Repeat(n, SentTo(sends, fd))
  {
    if n > 0 {
      SentToRepeat(n - 1, sends, fd);
      SentToConcat(sends, Repeat(n - 1, sends), fd);
    }
  }

  /** How often one buffer goes to `fd`, once the registration it may make is in. */
  function Copies(fds: seq<int>, t: E.Task, fd: int): nat {
    Leading(t.frames) * TimesRegistered(fds + E.Registration("master", t), fd)
  }

  /** A buffer reaches a replica whole, once per SET in it for each time the replica is
      registered; a replica itself sends nothing on. */
  lemma BufferSent(w: World, t: E.Task, fd: int) returns (o: Outcome)
    requires Whole(t.frames)
    ensures Handle(w, E.Received(t)) == Ok(o) && o.world == Last(t.env, w, t.fd, t.frames, 0).0
    ensures o.world.role == w.role && o.world.slaveFds == w.slaveFds + E.Registration(w.role, t)
    ensures w.role == "master" ==>
              SentTo(o.sends, fd) == Repeat(Copies(w.slaveFds, t, fd), [Encode(t.frames)])
    ensures w.role != "master" ==> o.sends == []
  {
    var n, input := Leading(t.frames), Encode(t.frames);
    o := E.TaskSends(w, t);
    if w.role == "master" {
      SentToRepeat(n, Round(o.world.slaveFds, input), fd);
      OneRoundSends(o.world.slaveFds, input, fd);
      RepeatOfRepeat(n, TimesRegistered(o.world.slaveFds, fd), input);
    } else {
      RepeatNothing<(int, string)>(n);
    }
  }

  /** Every buffer in order, the i-th one as many times as `copies` says. */
  function Copied(bs: seq<Buffer>, copies: seq<nat>): seq<Buffer>
    requires |copies| == |bs|
  {
    if bs == [] then [] else Repeat(copies[0], [bs[0]]) + Copied(bs[1..], copies[1..])
  }

  function Buffers(tasks: seq<E.Task>): seq<Buffer> {
    seq(|tasks|, i requires 0 <= i < |tasks| => tasks[i].frames)
  }

  function EncodeEach(bs: seq<Buffer>): seq<string> { seq(|bs|, i requires 0 <= i < |bs| => Encode(bs[i])) }

  /** How often `fd` gets each buffer of a run that starts with the registry `fds`. */
  function AllCopies(fds: seq<int>, tasks: seq<E.Task>, fd: int): (copies: seq<nat>)
    ensures |copies| == |tasks|
    decreases |tasks|
  {
    if tasks == [] then []
    else [Copies(fds, tasks[0], fd)] + AllCopies(fds + E.Registration("master", tasks[0]), tasks[1..], fd)
  }

  lemma {:induction false} EncodeEachRepeat(n: nat, b: Buffer)
    ensures EncodeEach(Repeat(n, [b])) == Repeat(n, [Encode(b)])
  {
    if n > 0 {
      EncodeEachRepeat(n - 1, b);
      assert EncodeEach(Repeat(n, [b])) == [Encode(b)] + EncodeEach(Repeat(n - 1, [b]));
    }
  }

  lemma EncodeEachConcat(a: seq<Buffer>, b: seq<Buffer>)
    ensures EncodeEach(a + b) == EncodeEach(a) + EncodeEach(b)
  {
  }

  lemma CopiedStep(fds: seq<int>, tasks: seq<E.Task>, fd: int)
    requires tasks != []
    ensures var t, rest := tasks[0], tasks[1..];
            Copied(Buffers(tasks), AllCopies(fds, tasks, fd)) ==
              Repeat(Copies(fds, t, fd), [t.frames])
              + Copied(Buffers(rest), AllCopies(fds + E.Registration("master", t), rest, fd))
  {
    assert Buffers(tasks)[1..] == Buffers(tasks[1..]);
    assert AllCopies(fds, tasks, fd)[1..] == AllCopies(fds + E.Registration("master", tasks[0]), tasks[1..], fd);
  }

  /** Over a run of any commands of any clients, the sends to one replica are exactly the
      whole buffers in order, each as often as it has leading SETs times registrations. */
  lemma {:induction false} SendsAreCopies(w: World, tasks: seq<E.Task>, fd: int)
    requires E.AllWhole(tasks) && w.role == "master"
    ensures SentTo(Sends(w, E.AllReceived(tasks)), fd)
         == EncodeEach(Copied(Buffers(tasks), AllCopies(w.slaveFds, tasks, fd)))
    decreases |tasks|
  {
    if tasks != [] {
      var t, rest := tasks[0], tasks[1..];
      var o := BufferSent(w, t, fd);
      SendsAreCopies(o.world, rest, fd);
      E.FirstReceived(tasks);
      ServeFirst(w, E.Received(t), E.AllReceived(rest), o);
      SentToConcat(o.sends, Sends(o.world, E.AllReceived(rest)), fd);
      CopiedStep(w.slaveFds, tasks, fd);
      EncodeEachRepeat(Copies(w.slaveFds, t, fd), t.frames);
      EncodeEachConcat(Repeat(Copies(w.slaveFds, t, fd), [t.frames]),
                       Copied(Buffers(rest), AllCopies(o.world.slaveFds, rest, fd)));
    }
  }

  /** A buffer with SETs goes to every registered replica at least once. */
  predicate Enough(bs: seq<Buffer>, copies: seq<nat>)
    requires |copies| == |bs|
  {
    forall i :: 0 <= i < |bs| && Leading(bs[i]) >= 1 ==> copies[i] >= 1
  }

  lemma {:induction false} EnoughCopies(fds: seq<int>, tasks: seq<E.Task>, fd: int)
    requires TimesRegistered(fds, fd) >= 1
    ensures Enough(Buffers(tasks), AllCopies(fds, tasks, fd))
    decreases |tasks|
  {
    if tasks != [] {
      var t := tasks[0];
      TimesConcat(fds, E.Registration("master", t), fd);
      EnoughCopies(fds + E.Registration("master", t), tasks[1..], fd);
      AtLeastOnce(Leading(t.frames), TimesRegistered(fds + E.Registration("master", t), fd));
      assert Buffers(tasks)[1..] == Buffers(tasks[1..]);
      forall i | 0 <= i < |tasks| && Leading(Buffers(tasks)[i]) >= 1
        ensures AllCopies(fds, tasks, fd)[i] >= 1
      {
        assert i > 0 ==> Buffers(tasks)[i] == Buffers(tasks[1..])[i - 1];
      }
    }
  }

  lemma AtLeastOnce(n: nat, m: nat)
    requires m >= 1
    ensures n >= 1 ==> n * m >= 1
  {
  }

  // ---------------------------------------------------------------------------
  // Last writes win, and replaying a buffer changes nothing.

  /** What a SET writes, and whether with PX. */
  datatype Written = Written(value: string, px: bool)

  function Pair(f: Frame): (string, Written) {
    if |f| >= 3 then (f[1], Written(f[2], |f| > 3)) else ("", Written("", false))
  }

  /** The keys and values of the SETs a buffer starts with. */
  function Pairs(b: Buffer): seq<(string, Written)> {
    if b == [] || !IsSet(b[0]) then [] else [Pair(b[0])] + Pairs(b[1..])
  }

  function Overlay(pairs: seq<(string, Written)>): map<string, Written> {
    if pairs == [] then map[] else map[pairs[0].0 := pairs[0].1] + Overlay(pairs[1..])
  }

  function Values(db: Database): map<string, string> { map k | k in db :: db[k].value }

  function Plain(m: map<string, Written>): map<string, string> { map k | k in m :: m[k].value }

  lemma {:induction false} OverlayConcat(a: seq<(string, Written)>, b: seq<(string, Written)>)
    ensures Overlay(a + b) == Overlay(a) + Overlay(b)
  {
    if a == [] {
      assert a + b == b;
    } else {
      assert (a + b)[1..] == a[1..] + b;
      OverlayConcat(a[1..], b);
      PlusAssociates(map[a[0].0 := a[0].1], Overlay(a[1..]), Overlay(b));
    }
  }

  lemma {:induction false} PairsConcat(a: Buffer, b: Buffer)
    requires AllSets(a)
    ensures Pairs(a + b) == Pairs(a) + Pairs(b)
  {
    if a == [] {
      assert a + b == b;
    } else {
      assert (a + b)[1..] == a[1..] + b;
      PairsConcat(a[1..], b);
    }
  }

  lemma OverlayFirst(first: (string, Written), rest: seq<(string, Written)>)
    ensures Overlay([first] + rest) == map[first.0 := first.1] + Overlay(rest)
  {
    assert ([first] + rest)[1..] == rest;
  }

  /** The database after the SETs of a buffer holds the old values overlaid with its pairs. */
  lemma {:induction false} SetsOverlay(env: Env, db: Database, b: Buffer, pos: nat)
    requires AllWellFormed(b)
    ensures Values(AfterSets(env, db, b, pos)) == Values(db) + Plain(Overlay(Pairs(b)))
    decreases |b|
  {
    if b == [] || !IsSet(b[0]) {
      assert Values(db) + map[] == Values(db);
    } else {
      var expiry, next := ExpiryOf(b[0], env.now(pos)), pos + |EncodeArray(b[0])|;
      SetsOverlay(env, DbSet(db, b[0][1], b[0][2], expiry), b[1..], next);
      OverlayFirst(Pair(b[0]), Pairs(b[1..]));
      OneOverlay(db, b[0][1], Pair(b[0]).1, expiry, Overlay(Pairs(b[1..])));
    }
  }

  lemma OneOverlay(db: Database, key: string, w: Written, expiry: int, rest: map<string, Written>)
    ensures Values(DbSet(db, key, w.value, expiry)) + Plain(rest) == Values(db) + Plain(map[key := w] + rest)
  {
  }

  predicate Persistent(db: Database, key: string) { key in db && db[key].expiryTime == 0 }

  /** The database has the values of `m`, none of them with an expiry. */
  ghost predicate Holds(db: Database, m: map<string, Written>) {
    forall k :: k in m ==> Persistent(db, k) && db[k].value == m[k].value
  }

  /** A key that is present has its last written value, without an expiry unless that was
      written with PX; a key that is missing was last written with PX. */
  ghost predicate Fates(db: Database, m: map<string, Written>) {
    forall k :: k in m ==> if k in db then db[k].value == m[k].value && (m[k].px || db[k].expiryTime == 0) else m[k].px
  }

  predicate Each(b: Buffer, p: Frame -> bool) { forall i :: 0 <= i < |b| ==> p(b[i]) }

  predicate AllEach(bs: seq<Buffer>, p: Frame -> bool) { forall i :: 0 <= i < |bs| ==> Each(bs[i], p) }

  predicate WithoutPx(f: Frame) { IsSet(f) ==> |f| == 3 }

  predicate NotGet(f: Frame) { Name(f) != "GET" }

  lemma {:induction false} SetsFates(env: Env, db: Database, b: Buffer, pos: nat, m: map<string, Written>)
    requires AllWellFormed(b) && Fates(db, m)
    ensures Fates(AfterSets(env, db, b, pos), m + Overlay(Pairs(b)))
    decreases |b|
  {
    if b == [] || !IsSet(b[0]) {
      assert m + map[] == m;
    } else {
      var (key, w) := Pair(b[0]);
      var expiry := ExpiryOf(b[0], env.now(pos));
      SetsFates(env, DbSet(db, key, w.value, expiry), b[1..], pos + |EncodeArray(b[0])|, m + map[key := w]);
      OverlayFirst(Pair(b[0]), Pairs(b[1..]));
      PlusAssociates(m, map[key := w], Overlay(Pairs(b[1..])));
    }
  }

  /** The command after the SETs erases a dead entry at most. */
  lemma LastFates(env: Env, w: World, fd: int, b: Buffer, m: map<string, Written>)
    requires AllWellFormed(b) && Fates(AfterSets(env, w.db, b, 0), m)
    ensures Fates(Last(env, w, fd, b, 0).0.db, m)
  {
    LeadingBound(b);
    var n, w1 := Leading(b), w.(db := AfterSets(env, w.db, b, 0));
    if n < |b| {
      PerformFates(env, w1, fd, Name(b[n]), b[n][1..1 + Arity(b[n])], env.now(LastStart(b, 0)), m);
    }
  }

  lemma PerformFates(env: Env, w: World, fd: int, name: string, args: seq<string>, now: int, m: map<string, Written>)
    requires Fates(w.db, m)
    ensures Fates(Perform(env, w, fd, name, args, now).0.db, m)
  {
  }

  /** And none at all unless it is a GET. */
  lemma LastKeepsDb(env: Env, w: World, fd: int, b: Buffer)
    requires AllWellFormed(b) && Each(b, NotGet)
    ensures Last(env, w, fd, b, 0).0.db == AfterSets(env, w.db, b, 0)
  {
    LeadingBound(b);
    var n, w1 := Leading(b), w.(db := AfterSets(env, w.db, b, 0));
    if n < |b| {
      PerformKeepsDb(env, w1, fd, Name(b[n]), b[n][1..1 + Arity(b[n])], env.now(LastStart(b, 0)));
    }
  }

  lemma PerformKeepsDb(env: Env, w: World, fd: int, name: string, args: seq<string>, now: int)
    requires name != "GET"
    ensures Perform(env, w, fd, name, args, now).0.db == w.db
  {
  }

  lemma PlusAssociates<V>(a: map<string, V>, b: map<string, V>, c: map<string, V>)
    ensures (a + b) + c == a + (b + c)
  {
  }

  // ---------------------------------------------------------------------------
  // Grouping: several whole sends may arrive in one receive.

  function Flatten(bs: seq<Buffer>): Buffer { if bs == [] then [] else bs[0] + Flatten(bs[1..]) }

  /** The bytes of one receive that holds the sends of `bs`. */
  function Joined(bs: seq<Buffer>): string { if bs == [] then "" else Encode(bs[0]) + Joined(bs[1..]) }

  function AllPairs(bs: seq<Buffer>): seq<(string, Written)> {
    if bs == [] then [] else Pairs(bs[0]) + AllPairs(bs[1..])
  }

  /** One receive: pure-SET buffers, and last of all one buffer that may end in any command. */
  predicate Readable(group: seq<Buffer>) {
    group != [] && AllPureSets(group[..|group| - 1]) && Whole(group[|group| - 1])
  }

  lemma {:induction false} EncodeConcat(a: Buffer, b: Buffer)
    ensures Encode(a + b) == Encode(a) + Encode(b)
  {
    if a == [] {
      assert a + b == b;
    } else {
      assert (a + b)[1..] == a[1..] + b;
      EncodeConcat(a[1..], b);
      assert Encode(a + b) == EncodeArray(a[0]) + (Encode(a[1..]) + Encode(b));
    }
  }

  lemma {:induction false} JoinedIsEncoded(bs: seq<Buffer>)
    ensures Joined(bs) == Encode(Flatten(bs))
  {
    if bs != [] {
      JoinedIsEncoded(bs[1..]);
      EncodeConcat(bs[0], Flatten(bs[1..]));
    }
  }

  lemma ReadableTail(group: seq<Buffer>)
    requires Readable(group) && |group| > 1
    ensures PureSets(group[0]) && Readable(group[1..])
  {
    assert group[..|group| - 1][0] == group[0];
    assert group[1..][..|group| - 2] == group[..|group| - 1][1..];
  }

  lemma {:induction false} ReadableFlattens(group: seq<Buffer>)
    requires Readable(group)
    ensures Whole(Flatten(group)) && Pairs(Flatten(group)) == AllPairs(group)
  {
    if |group| == 1 {
      assert group[1..] == [];
      assert group[0] + [] == group[0] && Pairs(group[0]) + [] == Pairs(group[0]);
    } else {
      ReadableTail(group);
      ReadableFlattens(group[1..]);
      PairsConcat(group[0], Flatten(group[1..]));
    }
  }

  lemma {:induction false} EachFlattens(group: seq<Buffer>, p: Frame -> bool)
    requires AllEach(group, p)
    ensures Each(Flatten(group), p)
  {
    if group != [] {
      assert forall i :: 0 <= i < |group| - 1 ==> group[1..][i] == group[i + 1];
      EachFlattens(group[1..], p);
    }
  }

  // ---------------------------------------------------------------------------
  // Runs of the two servers.

  /** One receive and the whole sends in it. */
  datatype Arrival = Arrival(env: Env, fd: int, group: seq<Buffer>)

  function Bytes(a: Arrival): Receive { Receive(a.env, a.fd, Joined(a.group)) }

  function AllBytes(arrivals: seq<Arrival>): seq<Receive> {
    seq(|arrivals|, i requires 0 <= i < |arrivals| => Bytes(arrivals[i]))
  }

  /** The buffers of a run of receives, in order. */
  function Arrived(arrivals: seq<Arrival>): seq<Buffer> {
    if arrivals == [] then [] else arrivals[0].group + Arrived(arrivals[1..])
  }

  predicate AllReadable(arrivals: seq<Arrival>) { forall i :: 0 <= i < |arrivals| ==> Readable(arrivals[i].group) }

  lemma FirstArrival(arrivals: seq<Arrival>)
    requires arrivals != []
    ensures AllBytes(arrivals) == [Bytes(arrivals[0])] + AllBytes(arrivals[1..])
  {
  }

  lemma ArrivalActs(w: World, a: Arrival) returns (o: Outcome)
    requires Readable(a.group)
    ensures Handle(w, Bytes(a)) == Ok(o)
    ensures Whole(Flatten(a.group)) && o.world == Last(a.env, w, a.fd, Flatten(a.group), 0).0
  {
    ReadableFlattens(a.group);
    JoinedIsEncoded(a.group);
    o := E.TaskSends(w, E.Task(a.env, a.fd, Flatten(a.group)));
  }

  lemma ArrivalOverlays(w: World, a: Arrival) returns (o: Outcome)
    requires Readable(a.group) && AllEach(a.group, NotGet)
    ensures Handle(w, Bytes(a)) == Ok(o)
    ensures Values(o.world.db) == Values(w.db) + Plain(Overlay(AllPairs(a.group)))
  {
    o := ArrivalActs(w, a);
    ReadableFlattens(a.group);
    EachFlattens(a.group, NotGet);
    LastKeepsDb(a.env, w, a.fd, Flatten(a.group));
    SetsOverlay(a.env, w.db, Flatten(a.group), 0);
  }

  lemma {:induction false} AllPairsConcat(a: seq<Buffer>, b: seq<Buffer>)
    ensures AllPairs(a + b) == AllPairs(a) + AllPairs(b)
  {
    if a == [] {
      assert a + b == b;
    } else {
      assert (a + b)[1..] == a[1..] + b;
      AllPairsConcat(a[1..], b);
      assert AllPairs(a + b) == Pairs(a[0]) + (AllPairs(a[1..]) + AllPairs(b));
    }
  }

  lemma OverlaySplit(m: map<string, Written>, a: seq<Buffer>, b: seq<Buffer>)
    ensures m + Overlay(AllPairs(a + b)) == (m + Overlay(AllPairs(a))) + Overlay(AllPairs(b))
  {
    AllPairsConcat(a, b);
    OverlayConcat(AllPairs(a), AllPairs(b));
    PlusAssociates(m, Overlay(AllPairs(a)), Overlay(AllPairs(b)));
  }

  lemma {:induction false} EachArrived(arrivals: seq<Arrival>, p: Frame -> bool)
    requires arrivals != [] && AllEach(Arrived(arrivals), p)
    ensures AllEach(arrivals[0].group, p) && AllEach(Arrived(arrivals[1..]), p)
  {
    EachOfBoth(arrivals[0].group, Arrived(arrivals[1..]), p);
  }

  lemma EachOfBoth(a: seq<Buffer>, b: seq<Buffer>, p: Frame -> bool)
    requires AllEach(a + b, p)
    ensures AllEach(a, p) && AllEach(b, p)
  {
    assert forall i :: 0 <= i < |a| ==> (a + b)[i] == a[i];
    assert forall i :: 0 <= i < |b| ==> (a + b)[|a| + i] == b[i];
  }

  lemma ValuesSplit(m: map<string, string>, a: seq<Buffer>, b: seq<Buffer>)
    ensures m + Plain(Overlay(AllPairs(a + b))) == (m + Plain(Overlay(AllPairs(a)))) + Plain(Overlay(AllPairs(b)))
  {
    AllPairsConcat(a, b);
    OverlayConcat(AllPairs(a), AllPairs(b));
    PlainSum(Overlay(AllPairs(a)), Overlay(AllPairs(b)));
    PlusAssociates(m, Plain(Overlay(AllPairs(a))), Plain(Overlay(AllPairs(b))));
  }

  lemma PlainSum(a: map<string, Written>, b: map<string, Written>)
    ensures Plain(a + b) == Plain(a) + Plain(b)
  {
  }

  /** Without GET, receives overlay all their pairs in order, in any grouping. */
  lemma {:induction false} ServeOverlay(w: World, arrivals: seq<Arrival>) returns (w1: World)
    requires AllReadable(arrivals) && AllEach(Arrived(arrivals), NotGet)
    ensures Serve(w, AllBytes(arrivals)) == Ok(w1)
    ensures Values(w1.db) == Values(w.db) + Plain(Overlay(AllPairs(Arrived(arrivals))))
    decreases |arrivals|
  {
    if arrivals == [] {
      w1 := w;
      assert Values(w.db) + map[] == Values(w.db);
    } else {
      EachArrived(arrivals, NotGet);
      var o := ArrivalOverlays(w, arrivals[0]);
      w1 := ServeOverlay(o.world, arrivals[1..]);
      FirstArrival(arrivals);
      ServeFirst(w, Bytes(arrivals[0]), AllBytes(arrivals[1..]), o);
      ValuesSplit(Values(w.db), arrivals[0].group, Arrived(arrivals[1..]));
    }
  }

  lemma ArrivalFates(w: World, a: Arrival, m: map<string, Written>) returns (o: Outcome)
    requires Readable(a.group) && Fates(w.db, m)
    ensures Handle(w, Bytes(a)) == Ok(o) && Fates(o.world.db, m + Overlay(AllPairs(a.group)))
  {
    o := ArrivalActs(w, a);
    ReadableFlattens(a.group);
    SetsFates(a.env, w.db, Flatten(a.group), 0, m);
    LastFates(a.env, w, a.fd, Flatten(a.group), m + Overlay(AllPairs(a.group)));
  }

  /** Whatever commands end the receives, with PX or without: a key written and still present
      has its last written value, and one that is missing was last written with PX. */
  lemma {:induction false} ServeFates(w: World, arrivals: seq<Arrival>, m: map<string, Written>) returns (w1: World)
    requires AllReadable(arrivals) && Fates(w.db, m)
    ensures Serve(w, AllBytes(arrivals)) == Ok(w1)
    ensures Fates(w1.db, m + Overlay(AllPairs(Arrived(arrivals))))
    decreases |arrivals|
  {
    if arrivals == [] {
      w1 := w;
      assert m + map[] == m;
    } else {
      var o := ArrivalFates(w, arrivals[0], m);
      w1 := ServeFates(o.world, arrivals[1..], m + Overlay(AllPairs(arrivals[0].group)));
      FirstArrival(arrivals);
      ServeFirst(w, Bytes(arrivals[0]), AllBytes(arrivals[1..]), o);
      OverlaySplit(m, arrivals[0].group, Arrived(arrivals[1..]));
    }
  }

  lemma {:induction false} OverlayPx(pairs: seq<(string, Written)>)
    requires forall i :: 0 <= i < |pairs| ==> !pairs[i].1.px
    ensures forall k :: k in Overlay(pairs) ==> !Overlay(pairs)[k].px
  {
    if pairs != [] {
      OverlayPx(pairs[1..]);
    }
  }

  lemma {:induction false} PairsPx(b: Buffer)
    requires AllWellFormed(b) && Each(b, WithoutPx)
    ensures forall i :: 0 <= i < |Pairs(b)| ==> !Pairs(b)[i].1.px
  {
    if b != [] && IsSet(b[0]) {
      PairsPx(b[1..]);
    }
  }

  lemma {:induction false} AllPairsPx(bs: seq<Buffer>)
    requires AllWhole(bs) && AllEach(bs, WithoutPx)
    ensures forall i :: 0 <= i < |AllPairs(bs)| ==> !AllPairs(bs)[i].1.px
  {
    if bs != [] {
      assert forall i :: 0 <= i < |bs| - 1 ==> bs[1..][i] == bs[i + 1];
      PairsPx(bs[0]);
      AllPairsPx(bs[1..]);
    }
  }

  /** Without PX nothing written is ever missing. */
  lemma FatesHold(db: Database, bs: seq<Buffer>)
    requires AllWhole(bs) && AllEach(bs, WithoutPx) && Fates(db, Overlay(AllPairs(bs)))
    ensures Holds(db, Overlay(AllPairs(bs)))
  {
    AllPairsPx(bs);
    OverlayPx(AllPairs(bs));
  }

  lemma {:induction false} RepeatPairs(n: nat, b: Buffer)
    requires n >= 1 || Pairs(b) == []
    ensures Overlay(AllPairs(Repeat(n, [b]))) == Overlay(Pairs(b))
  {
    if n > 0 {
      OnceMore(b, Repeat(n - 1, [b]));
      if n > 1 {
        RepeatPairs(n - 1, b);
        Twice(Overlay(Pairs(b)));
      } else {
        Nothing(Overlay(Pairs(b)));
      }
    }
  }

  lemma OnceMore(b: Buffer, rest: seq<Buffer>)
    ensures Overlay(AllPairs([b] + rest)) == Overlay(Pairs(b)) + Overlay(AllPairs(rest))
  {
    assert ([b] + rest)[1..] == rest;
    OverlayConcat(Pairs(b), AllPairs(rest));
  }

  lemma Twice<V>(m: map<string, V>)
    ensures m + m == m
  {
  }

  lemma Nothing<V>(m: map<string, V>)
    ensures m + map[] == m
  {
  }

  /** Idempotence: repeating each buffer with SETs any positive number of times, in place,
      overlays the same values. */
  lemma {:induction false} CopiesOverlay(bs: seq<Buffer>, copies: seq<nat>)
    requires |copies| == |bs| && Enough(bs, copies)
    ensures Overlay(AllPairs(Copied(bs, copies))) == Overlay(AllPairs(bs))
    decreases |bs|
  {
    if bs != [] {
      var rest := Copied(bs[1..], copies[1..]);
      assert Leading(bs[0]) >= 1 ==> copies[0] >= 1;
      assert forall i :: 0 <= i < |bs| - 1 ==> bs[1..][i] == bs[i + 1] && copies[1..][i] == copies[i + 1];
      CopiesOverlay(bs[1..], copies[1..]);
      RepeatPairs(copies[0], bs[0]);
      AllPairsConcat(Repeat(copies[0], [bs[0]]), rest);
      OverlayConcat(AllPairs(Repeat(copies[0], [bs[0]])), AllPairs(rest));
      OverlayConcat(Pairs(bs[0]), AllPairs(bs[1..]));
    }
  }

  lemma {:induction false} CopiedFrom(bs: seq<Buffer>, copies: seq<nat>)
    requires |copies| == |bs|
    ensures forall b :: b in Copied(bs, copies) ==> b in bs
    decreases |bs|
  {
    if bs != [] {
      CopiedFrom(bs[1..], copies[1..]);
      RepeatLength(copies[0], bs[0]);
      forall b | b in Copied(bs, copies)
        ensures b in bs
      {
        assert b in Repeat(copies[0], [bs[0]]) || b in bs[1..];
      }
    }
  }

  // ---------------------------------------------------------------------------
  // Different frame lists have different encodings, so the bytes determine the buffers.

  lemma {:induction false} EncodeInjective(a: Buffer, b: Buffer)
    requires AllWellFormed(a) && AllWellFormed(b) && Encode(a) == Encode(b)
    ensures a == b
  {
    if a != [] && b != [] {
      var text := Encode(a);
      assert At(text, 0, text);
      AtConcat(text, 0, EncodeArray(a[0]), Encode(a[1..]));
      AtConcat(text, 0, EncodeArray(b[0]), Encode(b[1..]));
      ArrayRoundTrip(text, 0, a[0]);
      ArrayRoundTrip(text, 0, b[0]);
      SameTail(EncodeArray(a[0]), Encode(a[1..]), Encode(b[1..]));
      EncodeInjective(a[1..], b[1..]);
    } else if a != [] {
      EncodeNonEmpty(a);
    } else if b != [] {
      EncodeNonEmpty(b);
    }
  }

  lemma SameTail(head: string, a: string, b: string)
    requires head + a == head + b
    ensures a == b
  {
    assert a == (head + a)[|head|..];
    assert b == (head + b)[|head|..];
  }

  lemma EncodeNonEmpty(a: Buffer)
    requires a != []
    ensures Encode(a) != ""
  {
    assert |EncodeArray(a[0])| > 0;
  }

  lemma EncodeEachInjective(a: seq<Buffer>, b: seq<Buffer>)
    requires AllWhole(a) && AllWhole(b) && EncodeEach(a) == EncodeEach(b)
    ensures a == b
  {
    assert |EncodeEach(a)| == |EncodeEach(b)|;
    forall i | 0 <= i < |a|
      ensures a[i] == b[i]
    {
      assert EncodeEach(a)[i] == EncodeEach(b)[i];
      EncodeInjective(a[i], b[i]);
    }
  }

  lemma {:induction false} ArrivedWhole(arrivals: seq<Arrival>)
    requires AllReadable(arrivals)
    ensures AllWhole(Arrived(arrivals))
  {
    if arrivals != [] {
      ArrivedWhole(arrivals[1..]);
      var g := arrivals[0].group;
      forall i | 0 <= i < |g|
        ensures Whole(g[i])
      {
        if i < |g| - 1 {
          assert g[..|g| - 1][i] == g[i];
        }
      }
    }
  }

  // ---------------------------------------------------------------------------
  // Convergence.

  /** Each task of the master in a receive of its own. */
  function Singly(tasks: seq<E.Task>): seq<Arrival> {
    seq(|tasks|, i requires 0 <= i < |tasks| => Arrival(tasks[i].env, tasks[i].fd, [tasks[i].frames]))
  }

  lemma JoinedOne(b: Buffer)
    ensures Joined([b]) == Encode(b)
  {
    assert [b][1..] == [];
    assert Joined([b]) == Encode(b) + "";
  }

  lemma SinglyReceived(tasks: seq<E.Task>)
    ensures AllBytes(Singly(tasks)) == E.AllReceived(tasks)
  {
    forall i | 0 <= i < |tasks|
      ensures Bytes(Singly(tasks)[i]) == E.Received(tasks[i])
    {
      JoinedOne(tasks[i].frames);
    }
  }

  lemma {:induction false} SinglyArrived(tasks: seq<E.Task>)
    ensures Arrived(Singly(tasks)) == Buffers(tasks)
  {
    if tasks != [] {
      SinglyArrived(tasks[1..]);
      assert Singly(tasks)[1..] == Singly(tasks[1..]);
    }
  }

  /** Everything the master sends to `fd` over a run arrives, several whole sends in one
      receive or not. */
  ghost predicate Delivered(master: World, tasks: seq<E.Task>, fd: int, arrivals: seq<Arrival>) {
    EncodeEach(Arrived(arrivals)) == SentTo(Sends(master, E.AllReceived(tasks)), fd)
  }

  predicate MasterOf(master: World, fd: int) { master.role == "master" && TimesRegistered(master.slaveFds, fd) >= 1 }

  lemma CopiedWhole(tasks: seq<E.Task>, copies: seq<nat>)
    requires E.AllWhole(tasks) && |copies| == |tasks|
    ensures AllWhole(Copied(Buffers(tasks), copies))
  {
    var bs := Copied(Buffers(tasks), copies);
    CopiedFrom(Buffers(tasks), copies);
    forall i | 0 <= i < |bs|
      ensures Whole(bs[i])
    {
      assert bs[i] in Buffers(tasks);
      var j :| 0 <= j < |tasks| && Buffers(tasks)[j] == bs[i];
      assert Whole(tasks[j].frames);
    }
  }

  /** The replica gets exactly copies of the master's buffers, enough of each. */
  lemma WhatArrives(master: World, tasks: seq<E.Task>, fd: int, arrivals: seq<Arrival>)
    requires E.AllWhole(tasks) && MasterOf(master, fd) && AllReadable(arrivals)
    requires Delivered(master, tasks, fd, arrivals)
    ensures Arrived(arrivals) == Copied(Buffers(tasks), AllCopies(master.slaveFds, tasks, fd))
    ensures Overlay(AllPairs(Arrived(arrivals))) == Overlay(AllPairs(Buffers(tasks)))
  {
    var copies := AllCopies(master.slaveFds, tasks, fd);
    SendsAreCopies(master, tasks, fd);
    ArrivedWhole(arrivals);
    CopiedWhole(tasks, copies);
    EncodeEachInjective(Arrived(arrivals), Copied(Buffers(tasks), copies));
    EnoughCopies(master.slaveFds, tasks, fd);
    CopiesOverlay(Buffers(tasks), copies);
  }

  lemma EachCopied(bs: seq<Buffer>, copies: seq<nat>, p: Frame -> bool)
    requires AllEach(bs, p) && |copies| == |bs|
    ensures AllEach(Copied(bs, copies), p)
  {
    CopiedFrom(bs, copies);
    forall i | 0 <= i < |Copied(bs, copies)|
      ensures Each(Copied(bs, copies)[i], p)
    {
      assert Copied(bs, copies)[i] in bs;
    }
  }

  lemma BuffersWhole(tasks: seq<E.Task>)
    requires E.AllWhole(tasks)
    ensures AllWhole(Buffers(tasks)) && AllReadable(Singly(tasks))
  {
  }

  /** Convergence for any commands: after a master with a registered replica has handled
      buffers of SETs, each followed by any other command or none, and everything it sent has
      arrived, a key written since and still present on either side has its last written
      value there, and one that is missing was last written with PX; without PX both sides
      hold every key, without an expiry.  A buffer that ends in another command must be the
      last of its receive. */
  lemma MixedConverges(master: World, tasks: seq<E.Task>, replica: World, fd: int, arrivals: seq<Arrival>)
    returns (m: World, r: World)
    requires E.AllWhole(tasks) && MasterOf(master, fd)
    requires AllReadable(arrivals) && Delivered(master, tasks, fd, arrivals)
    ensures Serve(master, E.AllReceived(tasks)) == Ok(m) && Serve(replica, AllBytes(arrivals)) == Ok(r)
    ensures Fates(m.db, Overlay(AllPairs(Buffers(tasks)))) && Fates(r.db, Overlay(AllPairs(Buffers(tasks))))
    ensures AllEach(Buffers(tasks), WithoutPx) ==>
              Holds(m.db, Overlay(AllPairs(Buffers(tasks)))) && Holds(r.db, Overlay(AllPairs(Buffers(tasks))))
  {
    var written := Overlay(AllPairs(Buffers(tasks)));
    assert map[] + written == written;
    SinglyReceived(tasks);
    SinglyArrived(tasks);
    BuffersWhole(tasks);
    m := ServeFates(master, Singly(tasks), map[]);
    WhatArrives(master, tasks, fd, arrivals);
    r := ServeFates(replica, arrivals, map[]);
    if AllEach(Buffers(tasks), WithoutPx) {
      FatesHold(m.db, Buffers(tasks));
      FatesHold(r.db, Buffers(tasks));
    }
  }

  /** Convergence with PX, for any commands but GET, pure-SET buffers among them in any
      grouping of whole sends into receives: both hold the same value for every key written
      since, with no expiry on either side if no SET had one, and every other key of the
      replica keeps its value. */
  lemma ReplicaConverges(master: World, tasks: seq<E.Task>, replica: World, fd: int, arrivals: seq<Arrival>)
    returns (m: World, r: World)
    requires E.AllWhole(tasks) && AllEach(Buffers(tasks), NotGet) && MasterOf(master, fd)
    requires AllReadable(arrivals) && Delivered(master, tasks, fd, arrivals)
    ensures Serve(master, E.AllReceived(tasks)) == Ok(m) && Serve(replica, AllBytes(arrivals)) == Ok(r)
    ensures var written := Plain(Overlay(AllPairs(Buffers(tasks))));
            && (forall k :: k in written ==> k in m.db && k in r.db && r.db[k].value == m.db[k].value == written[k])
            && (AllEach(Buffers(tasks), WithoutPx) ==>
                  forall k :: k in written ==> Persistent(m.db, k) && Persistent(r.db, k))
            && Values(r.db) - written.Keys == Values(replica.db) - written.Keys
  {
    SinglyReceived(tasks);
    SinglyArrived(tasks);
    BuffersWhole(tasks);
    m := ServeOverlay(master, Singly(tasks));
    WhatArrives(master, tasks, fd, arrivals);
    EachCopied(Buffers(tasks), AllCopies(master.slaveFds, tasks, fd), NotGet);
    r := ServeOverlay(replica, arrivals);
    SameValues(m.db, r.db, master.db, replica.db, Plain(Overlay(AllPairs(Buffers(tasks)))));
    var m', r' := MixedConverges(master, tasks, replica, fd, arrivals);
  }

  /** Any grouping of pure-SET buffers can be read, and they hold no GET. */
  lemma PureIsReadable(group: seq<Buffer>)
    requires group != [] && AllPureSets(group)
    ensures Readable(group) && AllEach(group, NotGet)
  {
    forall i | 0 <= i < |group|
      ensures Each(group[i], NotGet)
    {
      assert PureSets(group[i]);
    }
  }

  lemma SameValues(m: Database, r: Database, m0: Database, r0: Database, written: map<string, string>)
    requires Values(m) == Values(m0) + written && Values(r) == Values(r0) + written
    ensures forall k :: k in written ==> k in m && k in r && r[k].value == m[k].value == written[k]
    ensures Values(r) - written.Keys == Values(r0) - written.Keys
  {
    forall k | k in written
      ensures k in m && k in r && r[k].value == m[k].value == written[k]
    {
      assert k in Values(m) && k in Values(r);
      assert Values(m)[k] == written[k] && Values(r)[k] == written[k];
    }
  }

  /** Such deliveries exist for every run: every send in a receive of its own is one. */
  lemma SingleDelivery(master: World, tasks: seq<E.Task>, fd: int, link: int, env: Env) returns (arrivals: seq<Arrival>)
    requires E.AllWhole(tasks) && master.role == "master"
    ensures AllReadable(arrivals) && Delivered(master, tasks, fd, arrivals)
  {
    var bs := Copied(Buffers(tasks), AllCopies(master.slaveFds, tasks, fd));
    SendsAreCopies(master, tasks, fd);
    CopiedFrom(Buffers(tasks), AllCopies(master.slaveFds, tasks, fd));
    var copies := seq(|bs|, i requires 0 <= i < |bs| => E.Task(env, link, bs[i]));
    assert Buffers(copies) == bs;
    SinglyArrived(copies);
    arrivals := Singly(copies);
    forall i | 0 <= i < |arrivals|
      ensures Readable(arrivals[i].group)
    {
      assert bs[i] in Buffers(tasks);
    }
  }

  // ---------------------------------------------------------------------------
  // Receives that hold replies as well as commands.

  /** Replies that cannot be taken for a command. */
  predicate Inert(reply: string) { reply != "" && reply[0] != '*' }

  datatype Message = Command(frame: Frame) | Answer(reply: string)

  predicate ValidMessages(ms: seq<Message>) {
    forall i :: 0 <= i < |ms| ==> if ms[i].Command? then WellFormed(ms[i].frame) else Inert(ms[i].reply)
  }

  /** The bytes of one receive. */
  function Wire(ms: seq<Message>): string {
    if ms == [] then "" else (if ms[0].Command? then EncodeArray(ms[0].frame) else ms[0].reply) + Wire(ms[1..])
  }

  /** The commands before the first reply. */
  function Head(ms: seq<Message>): seq<Frame> {
    if ms == [] || ms[0].Answer? then [] else [ms[0].frame] + Head(ms[1..])
  }

  lemma {:induction false} HeadBound(ms: seq<Message>)
    requires ValidMessages(ms)
    ensures |Head(ms)| <= |ms| && AllWellFormed(Head(ms))
    ensures forall i :: 0 <= i < |Head(ms)| ==> ms[i] == Command(Head(ms)[i])
    ensures |Head(ms)| < |ms| ==> ms[|Head(ms)|].Answer?
  {
    if ms != [] && ms[0].Command? {
      assert forall i :: 0 <= i < |ms| - 1 ==> ms[1..][i] == ms[i + 1];
      HeadBound(ms[1..]);
    }
  }

  lemma {:induction false} HeadFirst(ms: seq<Message>)
    requires ValidMessages(ms)
    ensures At(Wire(ms), 0, Encode(Head(ms)))
    ensures |Encode(Head(ms))| <= |Wire(ms)| && !StartsWith(Wire(ms), |Encode(Head(ms))|, '*')
  {
    if ms != [] && ms[0].Command? {
      var first := EncodeArray(ms[0].frame);
      HeadFirst(ms[1..]);
      assert Head(ms)[1..] == Head(ms[1..]);
      AtConcat(Wire(ms), 0, first, Encode(Head(ms[1..])));
    }
  }

  /** Every receive of whole messages: the interpreter sees the commands before the first
      reply, of which it runs the leading SETs and one more; nothing else in it has effect. */
  lemma MixedMeaning(env: Env, w: World, fd: int, ms: seq<Message>)
    requires ValidMessages(ms)
    ensures AllWellFormed(Head(ms))
    ensures Interp(env, w, fd, Wire(ms), 0) ==
              if Head(ms) == [] then Ok(Outcome(w, [H.Gate, H.Over], []))
              else Ok(Meaning(env, w, fd, Head(ms), 0, Wire(ms)))
  {
    HeadBound(ms);
    HeadFirst(ms);
    if Head(ms) == [] {
      NotACommand(env, w, fd, Wire(ms));
    } else {
      InterpMeaning(env, w, fd, Wire(ms), 0, Head(ms));
    }
  }

  predicate IsSetMessage(m: Message) { m.Command? && IsSet(m.frame) }

  /** Message `i` is a SET of a key that no other SET of the receive and not the database
      has, and no GET can find it expired. */
  predicate Traceable(w: World, ms: seq<Message>, i: nat)
    requires ValidMessages(ms) && i < |ms| && IsSetMessage(ms[i])
  {
    && ms[i].frame[1] !in w.db
    && (forall j :: 0 <= j < |ms| && j != i && IsSetMessage(ms[j]) ==> ms[j].frame[1] != ms[i].frame[1])
    && (|ms[i].frame| == 3 || forall j :: 0 <= j < |ms| && ms[j].Command? ==> Name(ms[j].frame) != "GET")
  }

  predicate SetsBefore(ms: seq<Message>, i: nat)
    requires i <= |ms|
  {
    forall j :: 0 <= j < i ==> IsSetMessage(ms[j])
  }

  /** The first message that is not a SET is where the interpreter stops applying them. */
  lemma {:induction false} LeadingMessages(ms: seq<Message>, i: nat)
    requires i < |ms| && IsSetMessage(ms[i])
    ensures i < Leading(Head(ms)) <==> SetsBefore(ms, i)
    decreases |ms|
  {
    if !IsSetMessage(ms[0]) {
      assert Leading(Head(ms)) == 0;
    } else {
      assert Head(ms)[1..] == Head(ms[1..]);
      if i > 0 {
        LeadingMessages(ms[1..], i - 1);
        LaterSets(ms, i);
      }
    }
  }

  lemma LaterSets(ms: seq<Message>, i: nat)
    requires 0 < i < |ms| && IsSetMessage(ms[0])
    ensures SetsBefore(ms, i) <==> SetsBefore(ms[1..], i - 1)
  {
    assert forall j :: 0 < j < i ==> ms[1..][j - 1] == ms[j];
  }

  /** A traceable SET is the only one that can write its key. */
  lemma OnlyWriter(w: World, ms: seq<Message>, i: nat)
    requires ValidMessages(ms) && i < |ms| && IsSetMessage(ms[i]) && Traceable(w, ms, i)
    ensures Writes(Head(ms), ms[i].frame[1]) <==> i < Leading(Head(ms))
    ensures forall j :: 0 <= j < |Head(ms)| && IsSet(Head(ms)[j]) && Names(Head(ms)[j], ms[i].frame[1]) ==> j == i
  {
    var head, key := Head(ms), ms[i].frame[1];
    HeadBound(ms);
    LeadingBound(head);
    WritesWhich(head, key);
    forall j | 0 <= j < |head| && IsSet(head[j]) && Names(head[j], key)
      ensures j == i
    {
      assert IsSetMessage(ms[j]);
    }
    assert i < Leading(head) ==> Names(head[i], key);
  }

  /** Exactly which SETs of a receive are applied: those with nothing but SETs before them. */
  lemma SetAppliedExactly(env: Env, w: World, fd: int, ms: seq<Message>, i: nat) returns (o: Outcome)
    requires ValidMessages(ms) && i < |ms| && IsSetMessage(ms[i]) && Traceable(w, ms, i)
    ensures Interp(env, w, fd, Wire(ms), 0) == Ok(o)
    ensures ms[i].frame[1] in o.world.db <==> SetsBefore(ms, i)
  {
    MixedMeaning(env, w, fd, ms);
    LeadingMessages(ms, i);
    if Head(ms) == [] {
      o := Outcome(w, [H.Gate, H.Over], []);
    } else {
      o := Meaning(env, w, fd, Head(ms), 0, Wire(ms));
      KeyInDb(env, w, fd, ms, i);
    }
  }

  lemma KeyInDb(env: Env, w: World, fd: int, ms: seq<Message>, i: nat)
    requires ValidMessages(ms) && i < |ms| && IsSetMessage(ms[i]) && Traceable(w, ms, i)
    requires AllWellFormed(Head(ms))
    ensures ms[i].frame[1] in Last(env, w, fd, Head(ms), 0).0.db <==> i < Leading(Head(ms))
  {
    OnlyWriter(w, ms, i);
    KeyAfterSets(env, w.db, Head(ms), 0, ms[i].frame[1]);
    KeySafe(env, w, ms, i);
    LastKeepsKey(env, w, fd, Head(ms), ms[i].frame[1]);
  }

  /** No GET of the receive can take the key of a traceable SET away. */
  lemma KeySafe(env: Env, w: World, ms: seq<Message>, i: nat)
    requires ValidMessages(ms) && i < |ms| && IsSetMessage(ms[i]) && Traceable(w, ms, i)
    requires AllWellFormed(Head(ms))
    ensures var key, db := ms[i].frame[1], AfterSets(env, w.db, Head(ms), 0);
            || Persistent(db, key) || key !in db
            || forall j :: 0 <= j < |Head(ms)| ==> Name(Head(ms)[j]) != "GET"
  {
    HeadBound(ms);
    OnlyWriter(w, ms, i);
    if |ms[i].frame| == 3 {
      KeyPersists(env, w.db, Head(ms), 0, ms[i].frame[1]);
    }
  }

  predicate Names(f: Frame, key: string) { |f| > 1 && f[1] == key }

  /** One of the leading SETs writes `key`. */
  predicate Writes(b: Buffer, key: string) {
    if b == [] || !IsSet(b[0]) then false else Names(b[0], key) || Writes(b[1..], key)
  }

  lemma {:induction false} WritesWhich(b: Buffer, key: string)
    ensures Writes(b, key) <==> exists j :: 0 <= j < Leading(b) && j < |b| && Names(b[j], key)
  {
    if b != [] && IsSet(b[0]) {
      WritesWhich(b[1..], key);
      LeadingBound(b);
      if j :| 0 <= j < Leading(b) && Names(b[j], key) {
        assert j == 0 || Names(b[1..][j - 1], key);
      }
      if j :| 0 <= j < Leading(b[1..]) && j < |b[1..]| && Names(b[1..][j], key) {
        assert Names(b[j + 1], key);
      }
    }
  }

  lemma {:induction false} KeyAfterSets(env: Env, db: Database, b: Buffer, pos: nat, key: string)
    requires AllWellFormed(b)
    ensures key in AfterSets(env, db, b, pos) <==> key in db || Writes(b, key)
    decreases |b|
  {
    if b != [] && IsSet(b[0]) {
      var db1 := DbSet(db, b[0][1], b[0][2], ExpiryOf(b[0], env.now(pos)));
      KeyAfterSets(env, db1, b[1..], pos + |EncodeArray(b[0])|, key);
    }
  }

  lemma {:induction false} KeyPersists(env: Env, db: Database, b: Buffer, pos: nat, key: string)
    requires AllWellFormed(b) && (key in db ==> Persistent(db, key))
    requires forall j :: 0 <= j < |b| && IsSet(b[j]) && Names(b[j], key) ==> |b[j]| == 3
    ensures key in AfterSets(env, db, b, pos) ==> Persistent(AfterSets(env, db, b, pos), key)
    decreases |b|
  {
    if b != [] && IsSet(b[0]) {
      var db1 := DbSet(db, b[0][1], b[0][2], ExpiryOf(b[0], env.now(pos)));
      KeyPersists(env, db1, b[1..], pos + |EncodeArray(b[0])|, key);
    }
  }

  /** The command after the SETs adds no key, and only GET can take one away. */
  lemma LastKeepsKey(env: Env, w: World, fd: int, b: Buffer, key: string)
    requires AllWellFormed(b)
    requires Persistent(AfterSets(env, w.db, b, 0), key) || key !in AfterSets(env, w.db, b, 0)
             || forall j :: 0 <= j < |b| ==> Name(b[j]) != "GET"
    ensures key in Last(env, w, fd, b, 0).0.db <==> key in AfterSets(env, w.db, b, 0)
  {
    LeadingBound(b);
    var n, w1 := Leading(b), w.(db := AfterSets(env, w.db, b, 0));
    if n < |b| {
      PerformKeepsKey(env, w1, fd, Name(b[n]), b[n][1..1 + Arity(b[n])], env.now(LastStart(b, 0)), key);
    }
  }

  lemma PerformKeepsKey(env: Env, w: World, fd: int, name: string, args: seq<string>, now: int, key: string)
    requires Persistent(w.db, key) || key !in w.db || name != "GET"
    ensures key in Perform(env, w, fd, name, args, now).0.db <==> key in w.db
  {
  }

  function Commands(b: Buffer): seq<Message> { seq(|b|, i requires 0 <= i < |b| => Command(b[i])) }

  lemma {:induction false} WireOfCommands(b: Buffer)
    ensures Wire(Commands(b)) == Encode(b)
  {
    if b != [] {
      WireOfCommands(b[1..]);
      assert Commands(b)[1..] == Commands(b[1..]);
    }
  }

  /** Message alignment matters: a buffer that arrives in the same receive as the snapshot
      the master sends for PSYNC is lost, whatever it holds. */
  lemma SnapshotSwallowsSets(env: Env, w: World, other: Env, replica: World, link: int, b: Buffer)
    requires AllWellFormed(b)
    ensures Interp(other, replica, link, PsyncReplies(env, w)[1] + Encode(b), 0)
         == Ok(Outcome(replica, [H.Gate, H.Over], []))
  {
    var ms := [Answer(PsyncReplies(env, w)[1])] + Commands(b);
    assert ms[1..] == Commands(b);
    WireOfCommands(b);
    MixedMeaning(other, replica, link, ms);
  }

  // ---------------------------------------------------------------------------
  // The exchange ends.

  /** What the other end does with a receive that does not start an array: nothing. */
  lemma NotACommand(env: Env, w: World, fd: int, input: string)
    requires !StartsWith(input, 0, '*')
    ensures Interp(env, w, fd, input, 0) == Ok(Outcome(w, [H.Gate, H.Over], []))
    ensures H.Replies([H.Gate, H.Over]) == []
  {
    assert [H.Gate, H.Over] == [H.Gate] + [] + [H.Over];
    RepliesOfLast([]);
    assert Replying([]) == [];
  }

  /** The commands that answer with an array. */
  predicate SpeaksArrays(name: string, args: seq<string>) {
    || (name == "KEYS" && |args| == 1)
    || (name == "CONFIG" && |args| == 2 && (args[1] == "dir" || args[1] == "dbfile"))
  }

  lemma PerformInert(env: Env, w: World, fd: int, name: string, args: seq<string>, now: int)
    ensures AllInert(Perform(env, w, fd, name, args, now).1) <==> !SpeaksArrays(name, args)
  {
    if SpeaksArrays(name, args) {
      assert !Inert(Perform(env, w, fd, name, args, now).1[0]);
    }
  }

  /** A buffer a server has answered, and the world it found. */
  datatype Answered = Answered(w: World, task: E.Task)

  function LastArgs(frames: seq<Frame>): seq<string>
    requires Whole(frames) && Leading(frames) < |frames|
  {
    frames[Leading(frames)][1..1 + Arity(frames[Leading(frames)])]
  }

  /** The command after the SETs, if any, does not answer with an array. */
  predicate Quiet(a: Answered) {
    var frames := a.task.frames;
    Whole(frames) && (Leading(frames) < |frames| ==> !SpeaksArrays(Name(frames[Leading(frames)]), LastArgs(frames)))
  }

  function AnswersTo(a: Answered): seq<string>
    requires Whole(a.task.frames)
  {
    BufferReplies(a.task.env, a.w, a.task.fd, a.task.frames, 0)
  }

  predicate AllInert(replies: seq<string>) { forall i :: 0 <= i < |replies| ==> Inert(replies[i]) }

  lemma InertAfterOks(n: nat, last: seq<string>)
    ensures AllInert(Repeat(n, [OK_RESPONSE]) + last) <==> AllInert(last)
  {
    var all := Repeat(n, [OK_RESPONSE]) + last;
    RepeatLength(n, OK_RESPONSE);
    assert forall i :: 0 <= i < |last| ==> all[n + i] == last[i];
  }

  /** Exactly which buffers have replies that cannot be taken for a command. */
  lemma AnswersInertExactly(a: Answered)
    requires Whole(a.task.frames)
    ensures AllInert(AnswersTo(a)) <==> Quiet(a)
  {
    var env, w, fd, frames := a.task.env, a.w, a.task.fd, a.task.frames;
    var n := Leading(frames);
    LeadingBound(frames);
    InertAfterOks(n, Last(env, w, fd, frames, 0).1);
    if n < |frames| {
      PerformInert(env, w.(db := AfterSets(env, w.db, frames, 0)), fd, Name(frames[n]), LastArgs(frames),
                   env.now(LastStart(frames, 0)));
    }
  }

  lemma UpperNames()
    ensures Upper("KEYS") == "KEYS" && Upper("SET") == "SET" && "KEYS" != "SET"
  {
    assert |"KEYS"| == 4 && |"SET"| == 3;
  }

  lemma KeysReply(env: Env, w: World, fd: int, pattern: string)
    requires |pattern| <= INT_MAX
    ensures Whole([["KEYS", pattern]])
    ensures BufferReplies(env, w, fd, [["KEYS", pattern]], 0) == [EncodeArray(env.matching(pattern, w.db.Keys))]
  {
    var f := ["KEYS", pattern];
    UpperNames();
    assert Name(f) == "KEYS" && !IsSet(f) && WellFormed(f);
    assert Leading([f]) == 0 && f[1..2] == [pattern];
    assert w.(db := w.db) == w;
  }

  /** An array of strings that is a command is executed as one. */
  lemma ArrayExecuted(env: Env, w: World, fd: int, f: Frame)
    requires WellFormed(f)
    ensures Interp(env, w, fd, EncodeArray(f), 0) == Ok(Meaning(env, w, fd, [f], 0, EncodeArray(f)))
  {
    assert Encode([f]) == EncodeArray(f) + Encode([f][1..]) == EncodeArray(f);
    assert At(EncodeArray(f), 0, EncodeArray(f));
    InterpMeaning(env, w, fd, EncodeArray(f), 0, [f]);
  }

  lemma SetMeaning(env: Env, w: World, fd: int, key: string, value: string, input: string)
    requires |key| <= INT_MAX && |value| <= INT_MAX
    ensures WellFormed(["SET", key, value])
    ensures Meaning(env, w, fd, [["SET", key, value]], 0, input).world == w.(db := DbSet(w.db, key, value, 0))
  {
    var f := ["SET", key, value];
    UpperNames();
    assert Name(f) == "SET" && IsSet(f) && WellFormed(f);
    MeaningStep(env, w, fd, [f], 0, |EncodeArray(f)|, input);
    MeaningOfNothing(env, SetWorld(w, f, env.now(0)), fd, |EncodeArray(f)|, input);
  }

  /** What happens otherwise: an array reply that is a command is executed by the other end.
      When the keys that match are `SET`, a key and a value, the reply to KEYS writes there. */
  lemma KeysReplyExecuted(env: Env, w: World, fd: int, pattern: string, key: string, value: string,
                          other: Env, peer: World, link: int)
    requires |pattern| <= INT_MAX && |key| <= INT_MAX && |value| <= INT_MAX
    requires env.matching(pattern, w.db.Keys) == ["SET", key, value]
    ensures Whole([["KEYS", pattern]])
    ensures var replies := BufferReplies(env, w, fd, [["KEYS", pattern]], 0);
            && |replies| == 1
            && Interp(other, peer, link, replies[0], 0).Ok?
            && Interp(other, peer, link, replies[0], 0).value.world == peer.(db := DbSet(peer.db, key, value, 0))
  {
    var f := ["SET", key, value];
    KeysReply(env, w, fd, pattern);
    SetMeaning(other, peer, link, key, value, EncodeArray(f));
    ArrayExecuted(other, peer, link, f);
  }

  predicate AnswerTo(a: Answered, reply: string) { Whole(a.task.frames) && reply in AnswersTo(a) }

  ghost predicate Answers(served: seq<Answered>, reply: string) {
    exists i :: 0 <= i < |served| && AnswerTo(served[i], reply)
  }

  lemma AnswerInert(a: Answered, reply: string)
    requires Quiet(a) && AnswerTo(a, reply)
    ensures Inert(reply)
  {
    AnswersInertExactly(a);
  }

  /** One hop: whatever a server answers to buffers that ask for no array, any number of
      those replies, to one buffer or to several, arriving together make the other side
      answer nothing, send nothing and change nothing.  This covers a replica's answers to
      propagated buffers and a master's answers to the handshake. */
  lemma FeedbackEnds(served: seq<Answered>, replies: seq<string>, other: Env, peer: World, link: int)
    requires forall i :: 0 <= i < |served| ==> Quiet(served[i])
    requires forall i :: 0 <= i < |replies| ==> Answers(served, replies[i])
    ensures Interp(other, peer, link, H.Concat(replies), 0) == Ok(Outcome(peer, [H.Gate, H.Over], []))
  {
    forall i | 0 <= i < |replies|
      ensures Inert(replies[i])
    {
      var j :| 0 <= j < |served| && AnswerTo(served[j], replies[i]);
      AnswerInert(served[j], replies[i]);
    }
    if replies != [] {
      ConcatInert(replies);
    }
    NotACommand(other, peer, link, H.Concat(replies));
  }

  lemma {:induction false} ConcatInert(replies: seq<string>)
    requires replies != [] && AllInert(replies)
    ensures Inert(H.Concat(replies))
  {
    var n := |replies| - 1;
    if n == 0 {
      assert H.Concat(replies[..0]) == "";
    } else {
      ConcatInert(replies[..n]);
    }
  }
}

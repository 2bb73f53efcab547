/** Buffers handled one after the other, as the pool does. */
module Serial {
  import opened Prelude
  import opened RedisParser
  import opened Pipeline

  /** One received buffer: `env` holds the clock readings made while it is handled. */
  datatype Receive = Receive(env: Env, fd: int, input: string)

  function Handle(w: World, r: Receive): Result<Outcome> { Interp(r.env, w, r.fd, r.input, 0) }

  /** The world after handling the buffers in order; an exception ends the process. */
  function Serve(w: World, receives: seq<Receive>): Result<World>
    decreases |receives|
  {
    if receives == [] then Ok(w) else
    match Handle(w, receives[0])
    case Err(reason) => Err(reason)
    case Ok(o) => Serve(o.world, receives[1..])
  }

  /** What goes to the replicas meanwhile. */
  function Sends(w: World, receives: seq<Receive>): seq<(int, string)>
    decreases |receives|
  {
    if receives == [] then [] else
    match Handle(w, receives[0])
    case Err(_) => []
    case Ok(o) => o.sends + Sends(o.world, receives[1..])
  }

  lemma {:induction false} ServeConcat(w: World, a: seq<Receive>, b: seq<Receive>)
    ensures Serve(w, a + b) ==
              match Serve(w, a) case Err(reason) => Err(reason) case Ok(w1) => Serve(w1, b)
    decreases |a|
  {
    if a == [] {
      assert a + b == b;
    } else {
      assert (a + b)[1..] == a[1..] + b;
      var r := Handle(w, a[0]);
      if r.Ok? {
        ServeConcat(r.value.world, a[1..], b);
      }
    }
  }

  lemma ServeFirst(w: World, r: Receive, rest: seq<Receive>, o: Outcome)
    requires Handle(w, r) == Ok(o)
    ensures Serve(w, [r] + rest) == Serve(o.world, rest)
    ensures Sends(w, [r] + rest) == o.sends + Sends(o.world, rest)
  {
    assert ([r] + rest)[1..] == rest;
  }

  lemma {:induction false} SendsConcat(w: World, a: seq<Receive>, b: seq<Receive>)
    requires Serve(w, a).Ok?
    ensures Sends(w, a + b) == Sends(w, a) + Sends(Serve(w, a).value, b)
    decreases |a|
  {
    if a == [] {
      assert a + b == b;
    } else {
      assert (a + b)[1..] == a[1..] + b;
      SendsConcat(Handle(w, a[0]).value.world, a[1..], b);
    }
  }

  /** One more buffer at the end of a run. */
  lemma ServeOneMore(w: World, past: seq<Receive>, start: World, r: Receive, o: Outcome)
    requires Serve(w, past) == Ok(start) && Handle(start, r) == Ok(o)
    ensures Serve(w, past + [r]) == Ok(o.world) && Sends(w, past + [r]) == Sends(w, past) + o.sends
  {
    ServeConcat(w, past, [r]);
    SendsConcat(w, past, [r]);
    ServeFirst(start, r, [], o);
    assert [r] + [] == [r] && o.sends + [] == o.sends;
  }

  /** Over every serial run, on any inputs, the registry stays consistent and only grows. */
  lemma {:induction false} ServeRegistered(w: World, receives: seq<Receive>)
    requires Registered(w) && Serve(w, receives).Ok?
    ensures RegistryKept(w, Serve(w, receives).value)
    decreases |receives|
  {
    if receives != [] {
      var r := receives[0];
      InterpRegistered(r.env, w, r.fd, r.input, 0);
      ServeRegistered(Handle(w, r).value.world, receives[1..]);
    }
  }
}

/** The lock-free queue of include/redis/non_blocking_queue.hpp as a step machine.

    Every atomic load, store or compare-exchange of `enqueue` and `dequeue` is one
    step, any number of threads interleave their steps, and a compare-exchange may
    fail spuriously.  Steps are sequentially consistent and nodes are never freed:
    the heap is a sequence that only grows. */
module NonBlockingQueue {
  import opened Prelude

  type Tid = nat
  type NodeId = nat

  datatype Node<T> = Node(data: T, next: Option<NodeId>)

  datatype Op<T> = Enqueue(value: T) | Dequeue

  datatype Response<T> = Enqueued | Dequeued(value: T) | WasEmpty

  /** Where a thread stands; the fields are the C++ locals that are live there. */
  datatype Pc<T> =
    | Idle
    | EnqAlloc(value: T)                                      // line 43
    | EnqLoadTail(value: T, node: NodeId)                     // line 47
    | EnqLoadNext(value: T, node: NodeId, tail: NodeId)       // line 48
    | EnqLink(value: T, node: NodeId, tail: NodeId)           // line 52
    | EnqHelp(value: T, node: NodeId, tail: NodeId, next: NodeId)  // line 57
    | EnqSwing(node: NodeId, tail: NodeId)                    // line 62
    | EnqReturn
    | DeqLoadHead                                             // line 70
    | DeqLoadNext(head: NodeId)                               // line 71
    | DeqCas(head: NodeId, next: NodeId)                      // line 79
    | DeqTake(head: NodeId, next: NodeId)                     // line 80
    | DeqFree(head: NodeId, value: T)                         // line 81
    | DeqReturn(result: Option<T>)                            // lines 75 and 82

  datatype State<T> = State(heap: seq<Node<T>>, head: NodeId, tail: NodeId, threads: map<Tid, Pc<T>>)

  /** `spurious` lets a compare-exchange fail although the expected value is there;
      `movedFrom` is what `std::move` leaves behind in the node it empties. */
  datatype Step<T> =
    | Invoke(tid: Tid, op: Op<T>)
    | Run(tid: Tid, spurious: bool, movedFrom: T)
    | Return(tid: Tid)

  function Init<T>(stub: T, tids: set<Tid>): (s: State<T>) {
    State([Node(stub, None)], 0, 0, map t | t in tids :: Idle)
  }

  /** Every node a thread is about to dereference exists. */
  predicate Dereferences<T>(heap: seq<Node<T>>, pc: Pc<T>) {
    match pc
    case EnqLoadNext(_, node, tail) => node < |heap| && tail < |heap|
    case EnqLink(_, node, tail) => node < |heap| && tail < |heap|
    case DeqLoadNext(head) => head < |heap|
    case DeqTake(_, next) => next < |heap|
    case _ => true
  }

  predicate Enabled<T>(s: State<T>, step: Step<T>) {
    && step.tid in s.threads
    && var pc := s.threads[step.tid];
       match step
       case Invoke(_, _) => pc.Idle?
       case Run(_, _, _) => !pc.Idle? && !pc.EnqReturn? && !pc.DeqReturn? && Dereferences(s.heap, pc)
       case Return(_) => pc.EnqReturn? || pc.DeqReturn?
  }

  function Goto<T>(s: State<T>, t: Tid, pc: Pc<T>): State<T> {
    s.(threads := s.threads[t := pc])
  }

  function Apply<T>(s: State<T>, step: Step<T>): State<T>
    requires Enabled(s, step)
  {
    match step
    case Invoke(t, op) => Goto(s, t, if op.Enqueue? then EnqAlloc(op.value) else DeqLoadHead)
    case Return(t) => Goto(s, t, Idle)
    case Run(t, spurious, movedFrom) =>
      match s.threads[t]
      case EnqAlloc(v) =>
        Goto(s.(heap := s.heap + [Node(v, None)]), t, EnqLoadTail(v, |s.heap|))
      case EnqLoadTail(v, node) => Goto(s, t, EnqLoadNext(v, node, s.tail))
      case EnqLoadNext(v, node, tail) =>
        (match s.heap[tail].next
         case None => Goto(s, t, EnqLink(v, node, tail))
         case Some(next) => Goto(s, t, EnqHelp(v, node, tail, next)))
      case EnqLink(v, node, tail) =>
        if !spurious && s.heap[tail].next == None then
          Goto(s.(heap := s.heap[tail := s.heap[tail].(next := Some(node))]), t, EnqSwing(node, tail))
        else
          Goto(s, t, EnqLoadTail(v, node))
      case EnqHelp(v, node, tail, next) =>
        Goto(if !spurious && s.tail == tail then s.(tail := next) else s, t, EnqLoadTail(v, node))
      case EnqSwing(node, tail) =>
        Goto(if !spurious && s.tail == tail then s.(tail := node) else s, t, EnqReturn)
      case DeqLoadHead => Goto(s, t, DeqLoadNext(s.head))
      case DeqLoadNext(head) =>
        (match s.heap[head].next
         case None => Goto(s, t, DeqReturn(None))
         case Some(next) => Goto(s, t, DeqCas(head, next)))
      case DeqCas(head, next) =>
        if !spurious && s.head == head then Goto(s.(head := next), t, DeqTake(head, next))
        else Goto(s, t, DeqLoadHead)
      case DeqTake(head, next) =>
        Goto(s.(heap := s.heap[next := s.heap[next].(data := movedFrom)]), t, DeqFree(head, s.heap[next].data))
      case DeqFree(_, value) => Goto(s, t, DeqReturn(Some(value)))
      case _ => s
  }

  /** `head == tail`, line 38, read as one snapshot. */
  predicate Empty<T>(s: State<T>) { s.head == s.tail }

  predicate Valid<T>(s: State<T>, steps: seq<Step<T>>)
    decreases |steps|
  {
    steps == [] || (Enabled(s, steps[0]) && Valid(Apply(s, steps[0]), steps[1..]))
  }

  function Exec<T>(s: State<T>, steps: seq<Step<T>>): State<T>
    requires Valid(s, steps)
    decreases |steps|
  {
    if steps == [] then s else Exec(Apply(s, steps[0]), steps[1..])
  }

  // ---------------------------------------------------------------------------
  // The specification: one atomic FIFO sequence, each call taking effect at one
  // instant between its invocation and its response.

  datatype Phase<T> = Ready | Pending(op: Op<T>) | Done(response: Response<T>)

  datatype Fifo<T> = Fifo(items: seq<T>, calls: map<Tid, Phase<T>>)

  datatype Label<T> = Call(tid: Tid, op: Op<T>) | Reply(tid: Tid, response: Response<T>) | Silent

  ghost predicate TakesEffect<T>(a: Fifo<T>, b: Fifo<T>, t: Tid) {
    && t in a.calls
    && a.calls[t].Pending?
    && match a.calls[t].op
       case Enqueue(v) => b == Fifo(a.items + [v], a.calls[t := Done(Enqueued)])
       case Dequeue =>
         if a.items == [] then b == Fifo([], a.calls[t := Done(WasEmpty)])
         else b == Fifo(a.items[1..], a.calls[t := Done(Dequeued(a.items[0]))])
  }

  ghost predicate FifoNext<T>(a: Fifo<T>, b: Fifo<T>, event: Label<T>) {
    match event
    case Call(t, op) => t in a.calls && a.calls[t].Ready? && b == a.(calls := a.calls[t := Pending(op)])
    case Reply(t, r) => t in a.calls && a.calls[t] == Done(r) && b == a.(calls := a.calls[t := Ready])
    case Silent => b == a || exists t :: TakesEffect(a, b, t)
  }

  // ---------------------------------------------------------------------------
  // The abstraction: what the pointers mean.

  /** The values found by following `next` from node `n`, at most `fuel` of them. */
  function Walk<T>(heap: seq<Node<T>>, n: NodeId, fuel: nat): seq<T>
    decreases fuel
  {
    if fuel == 0 || n >= |heap| || heap[n].next.None? || heap[n].next.value >= |heap| then []
    else [heap[heap[n].next.value].data] + Walk(heap, heap[n].next.value, fuel - 1)
  }

  function Contents<T>(s: State<T>): seq<T> { Walk(s.heap, s.head, |s.heap|) }

  ghost function PhaseOf<T>(heap: seq<Node<T>>, pc: Pc<T>): Phase<T> {
    match pc
    case Idle => Ready
    case EnqAlloc(v) => Pending(Enqueue(v))
    case EnqLoadTail(v, _) => Pending(Enqueue(v))
    case EnqLoadNext(v, _, _) => Pending(Enqueue(v))
    case EnqLink(v, _, _) => Pending(Enqueue(v))
    case EnqHelp(v, _, _, _) => Pending(Enqueue(v))
    case EnqSwing(_, _) => Done(Enqueued)
    case EnqReturn => Done(Enqueued)
    case DeqLoadHead => Pending(Dequeue)
    case DeqLoadNext(_) => Pending(Dequeue)
    case DeqCas(_, _) => Pending(Dequeue)
    case DeqTake(_, next) => if next < |heap| then Done(Dequeued(heap[next].data)) else Ready
    case DeqFree(_, value) => Done(Dequeued(value))
    case DeqReturn(r) => Done(if r.Some? then Dequeued(r.value) else WasEmpty)
  }

  ghost function Phases<T>(s: State<T>): map<Tid, Phase<T>> {
    map t | t in s.threads :: PhaseOf(s.heap, s.threads[t])
  }

  ghost function Abs<T>(s: State<T>): Fifo<T> {
    Fifo(Contents(s), Phases(s))
  }

  ghost function LabelOf<T>(s: State<T>, step: Step<T>): Label<T>
    requires Enabled(s, step)
  {
    match step
    case Invoke(t, op) => Call(t, op)
    case Return(t) => Reply(t, PhaseOf(s.heap, s.threads[t]).response)
    case Run(_, _, _) => Silent
  }

  // ---------------------------------------------------------------------------
  // The invariant.  A view lists every node ever linked, oldest first, and says
  // where `head` and `tail` stand in that list.

  datatype View = View(chain: seq<NodeId>, hp: nat, tp: nat)

  ghost predicate Reached(chain: seq<NodeId>, n: NodeId, upTo: nat) {
    exists i :: 0 <= i <= upTo && i < |chain| && chain[i] == n
  }

  ghost predicate ChainShape<T>(s: State<T>, v: View) {
    && v.hp < |v.chain| && v.tp < |v.chain|
    && (forall i :: 0 <= i < |v.chain| ==> v.chain[i] < |s.heap|)
    && (forall i, j :: 0 <= i < j < |v.chain| ==> v.chain[i] != v.chain[j])
    && (forall i, j :: 0 <= i < |v.chain| && 0 <= j < |v.chain| && j == i + 1 ==>
          s.heap[v.chain[i]].next == Some(v.chain[j]))
    && s.heap[v.chain[|v.chain| - 1]].next == None
    && s.head == v.chain[v.hp]
    && s.tail == v.chain[v.tp]
    && |v.chain| - 2 <= v.tp
    && v.hp <= v.tp + 1
  }

  /** The node a pending enqueue has allocated and not yet linked. */
  ghost function PrivateNode<T>(pc: Pc<T>): Option<NodeId> {
    match pc
    case EnqLoadTail(_, node) => Some(node)
    case EnqLoadNext(_, node, _) => Some(node)
    case EnqLink(_, node, _) => Some(node)
    case EnqHelp(_, node, _, _) => Some(node)
    case _ => None
  }

  /** `head` has moved past the node. */
  ghost predicate Passed(v: View, n: NodeId) { v.hp > 0 && Reached(v.chain, n, v.hp - 1) }

  /** The dequeue has taken `head` past its node and has not deleted the node yet. */
  predicate Removing<T>(pc: Pc<T>) { pc.DeqTake? || pc.DeqFree? }

  ghost predicate ThreadInv<T>(s: State<T>, v: View, pc: Pc<T>)
    requires ChainShape(s, v)
  {
    && (PrivateNode(pc).Some? ==>
          var n := PrivateNode(pc).value;
          n < |s.heap| && n !in v.chain && s.heap[n] == Node(pc.value, None))
    && match pc
       case EnqLoadNext(_, _, tail) => Reached(v.chain, tail, v.tp)
       case EnqLink(_, _, tail) => Reached(v.chain, tail, v.tp)
       case EnqHelp(_, _, tail, next) =>
         Reached(v.chain, tail, v.tp) && tail < |s.heap| && s.heap[tail].next == Some(next)
       case EnqSwing(node, tail) =>
         Reached(v.chain, tail, v.tp) && tail < |s.heap| && s.heap[tail].next == Some(node)
       case DeqLoadNext(head) => Reached(v.chain, head, v.hp)
       case DeqCas(head, next) =>
         Reached(v.chain, head, v.hp) && head < |s.heap| && s.heap[head].next == Some(next)
       case DeqTake(head, next) => Reached(v.chain, next, v.hp) && Passed(v, head)
       case DeqFree(head, _) => Passed(v, head)
       case _ => true
  }

  /** No two threads own the same unlinked node, and no two dequeues the same value or
      the same old head. */
  ghost predicate Disjoint<T>(a: Pc<T>, b: Pc<T>) {
    && (PrivateNode(a).Some? && PrivateNode(b).Some? ==> PrivateNode(a) != PrivateNode(b))
    && (a.DeqTake? && b.DeqTake? ==> a.next != b.next)
    && (Removing(a) && Removing(b) ==> a.head != b.head)
  }

  ghost predicate Inv<T>(s: State<T>, v: View) {
    && ChainShape(s, v)
    && (forall t :: t in s.threads ==> ThreadInv(s, v, s.threads[t]))
    && (forall t, u :: t in s.threads && u in s.threads && t != u ==> Disjoint(s.threads[t], s.threads[u]))
  }

  /** How a step moves the view: a successful link appends a node, a successful
      compare-exchange of `head` or `tail` advances it by one node. */
  ghost function NextView<T>(s: State<T>, v: View, step: Step<T>): View
    requires Enabled(s, step)
  {
    if !step.Run? || step.spurious then v else
    match s.threads[step.tid]
    case EnqLink(_, node, tail) => if s.heap[tail].next == None then v.(chain := v.chain + [node]) else v
    case EnqHelp(_, _, tail, _) => if s.tail == tail then v.(tp := v.tp + 1) else v
    case EnqSwing(_, tail) => if s.tail == tail then v.(tp := v.tp + 1) else v
    case DeqCas(head, _) => if s.head == head then v.(hp := v.hp + 1) else v
    case _ => v
  }

  // ---------------------------------------------------------------------------
  // Reading the contents off a view.

  ghost function ViewItems<T>(heap: seq<Node<T>>, chain: seq<NodeId>, from: nat): seq<T>
    requires from <= |chain|
    requires forall i :: 0 <= i < |chain| ==> chain[i] < |heap|
  {
    seq(|chain| - from, i requires 0 <= i < |chain| - from => heap[chain[from + i]].data)
  }

  lemma {:induction false} DistinctBounded(chain: seq<NodeId>, bound: nat)
    requires forall i :: 0 <= i < |chain| ==> chain[i] < bound
    requires forall i, j :: 0 <= i < j < |chain| ==> chain[i] != chain[j]
    ensures |chain| <= bound
  {
    assert |chain| > 0 ==> chain[0] < bound;
    if i :| 0 <= i < |chain| && chain[i] == bound - 1 {
      DistinctBounded(chain[..i] + chain[i + 1..], bound - 1);
    } else if bound > 0 {
      DistinctBounded(chain, bound - 1);
    }
  }

  lemma {:induction false} WalkFollowsChain<T>(s: State<T>, v: View, from: nat, fuel: nat)
    requires ChainShape(s, v)
    requires from < |v.chain| && |v.chain| - from <= fuel
    ensures Walk(s.heap, v.chain[from], fuel) == ViewItems(s.heap, v.chain, from + 1)
    decreases fuel
  {
    if from + 1 < |v.chain| {
      WalkFollowsChain(s, v, from + 1, fuel - 1);
    }
  }

  /** Under the invariant, following the pointers from `head` yields the values of
      the linked nodes that `head` has not passed. */
  lemma ContentsAreView<T>(s: State<T>, v: View)
    requires ChainShape(s, v)
    ensures Contents(s) == ViewItems(s.heap, v.chain, v.hp + 1)
  {
    DistinctBounded(v.chain, |s.heap|);
    WalkFollowsChain(s, v, v.hp, |s.heap|);
  }

  // ---------------------------------------------------------------------------
  // Every step keeps the invariant.

  /** What another thread relies on survives when linked nodes stay linked, `head` and
      `tail` only move forward, and its own unlinked node is left alone. */
  lemma ThreadInvKept<T>(s: State<T>, v: View, s': State<T>, v': View, pc: Pc<T>)
    requires ChainShape(s, v) && ChainShape(s', v') && ThreadInv(s, v, pc)
    requires |s.heap| <= |s'.heap| && v.chain <= v'.chain && v.hp <= v'.hp && v.tp <= v'.tp
    requires forall n :: 0 <= n < |s.heap| && s.heap[n].next.Some? ==> s'.heap[n].next == s.heap[n].next
    requires PrivateNode(pc).Some? ==>
               var n := PrivateNode(pc).value; n < |s.heap| && n !in v'.chain && s'.heap[n] == s.heap[n]
    ensures ThreadInv(s', v', pc)
  {
    ReachedKept(v.chain, v'.chain, v.tp, v'.tp);
    ReachedKept(v.chain, v'.chain, v.hp, v'.hp);
    if v.hp > 0 {
      ReachedKept(v.chain, v'.chain, v.hp - 1, v'.hp - 1);
    }
  }

  lemma ReachedKept(chain: seq<NodeId>, chain': seq<NodeId>, upTo: nat, upTo': nat)
    requires chain <= chain' && upTo <= upTo'
    ensures forall n :: Reached(chain, n, upTo) ==> Reached(chain', n, upTo')
  {
    forall n | Reached(chain, n, upTo)
      ensures Reached(chain', n, upTo')
    {
      var i :| 0 <= i <= upTo && i < |chain| && chain[i] == n;
      assert chain'[i] == n;
    }
  }

  /** A step that only moves thread `t` to a place whose facts already hold. */
  lemma GotoKeepsInv<T>(s: State<T>, v: View, t: Tid, pc: Pc<T>)
    requires Inv(s, v) && t in s.threads
    requires ThreadInv(s, v, pc)
    requires PrivateNode(pc).None? || PrivateNode(pc) == PrivateNode(s.threads[t])
    requires !Removing(pc)
    ensures Inv(Goto(s, t, pc), v)
  {
    var s' := Goto(s, t, pc);
    assert ChainShape(s', v);
    forall u | u in s'.threads
      ensures ThreadInv(s', v, s'.threads[u])
    {
      ThreadInvKept(s, v, s', v, s'.threads[u]);
    }
  }

  lemma AllocKeepsInv<T>(s: State<T>, v: View, t: Tid, value: T)
    requires Inv(s, v) && t in s.threads
    ensures Inv(Goto(s.(heap := s.heap + [Node(value, None)]), t, EnqLoadTail(value, |s.heap|)), v)
  {
    var s' := Goto(s.(heap := s.heap + [Node(value, None)]), t, EnqLoadTail(value, |s.heap|));
    assert ChainShape(s', v);
    forall u | u in s'.threads
      ensures ThreadInv(s', v, s'.threads[u])
      ensures u != t ==> Disjoint(s'.threads[u], s'.threads[t]) && Disjoint(s'.threads[t], s'.threads[u])
    {
      if u != t {
        ThreadInvKept(s, v, s', v, s.threads[u]);
      }
    }
  }

  lemma NextOf<T>(s: State<T>, v: View, i: nat)
    requires ChainShape(s, v) && i < |v.chain|
    ensures i < |v.chain| - 1 ==> s.heap[v.chain[i]].next == Some(v.chain[i + 1])
  {
  }

  /** A node with no successor is the last one. */
  lemma LastIsReached<T>(s: State<T>, v: View, n: NodeId, upTo: nat)
    requires ChainShape(s, v)
    requires upTo < |v.chain| && Reached(v.chain, n, upTo) && n < |s.heap| && s.heap[n].next == None
    ensures upTo == |v.chain| - 1 && n == v.chain[upTo]
  {
    var i :| 0 <= i <= upTo && v.chain[i] == n;
    NextOf(s, v, i);
  }

  /** A node with a successor is followed by it in the chain. */
  lemma SuccessorInChain<T>(s: State<T>, v: View, i: nat, next: NodeId)
    requires ChainShape(s, v)
    requires i < |v.chain| && s.heap[v.chain[i]].next == Some(next)
    ensures i + 1 < |v.chain| && v.chain[i + 1] == next
  {
  }

  ghost function Link<T>(s: State<T>, t: Tid): State<T>
    requires t in s.threads && s.threads[t].EnqLink? && s.threads[t].tail < |s.heap|
  {
    var pc := s.threads[t];
    Goto(s.(heap := s.heap[pc.tail := s.heap[pc.tail].(next := Some(pc.node))]), t, EnqSwing(pc.node, pc.tail))
  }

  lemma LinkKeepsChain<T>(s: State<T>, v: View, t: Tid)
    requires Inv(s, v) && t in s.threads && s.threads[t].EnqLink?
    requires s.threads[t].tail < |s.heap| && s.heap[s.threads[t].tail].next == None
    ensures ChainShape(Link(s, t), v.(chain := v.chain + [s.threads[t].node]))
    ensures v.tp == |v.chain| - 1 && s.threads[t].tail == v.chain[v.tp]
  {
    assert ThreadInv(s, v, s.threads[t]);
    LastIsReached(s, v, s.threads[t].tail, v.tp);
  }

  lemma LinkKeepsInv<T>(s: State<T>, v: View, t: Tid)
    requires Inv(s, v) && t in s.threads && s.threads[t].EnqLink?
    requires s.threads[t].tail < |s.heap| && s.heap[s.threads[t].tail].next == None
    ensures Inv(Link(s, t), v.(chain := v.chain + [s.threads[t].node]))
  {
    var pc := s.threads[t];
    var s' := Link(s, t);
    var v' := v.(chain := v.chain + [pc.node]);
    LinkKeepsChain(s, v, t);
    forall u | u in s'.threads
      ensures ThreadInv(s', v', s'.threads[u])
    {
      if u != t {
        assert ThreadInv(s, v, s.threads[u]) && Disjoint(s.threads[t], s.threads[u]);
        ThreadInvKept(s, v, s', v', s.threads[u]);
      } else {
        assert v'.chain[v.tp] == pc.tail;
      }
    }
  }

  lemma TailMoveKeepsInv<T>(s: State<T>, v: View, t: Tid, next: NodeId, pc: Pc<T>)
    requires Inv(s, v) && t in s.threads
    requires s.heap[s.tail].next == Some(next)
    requires pc.EnqReturn? || (pc.EnqLoadTail? && ThreadInv(s, v, pc) && PrivateNode(pc) == PrivateNode(s.threads[t]))
    ensures Inv(Goto(s.(tail := next), t, pc), v.(tp := v.tp + 1))
  {
    var s' := Goto(s.(tail := next), t, pc);
    var v' := v.(tp := v.tp + 1);
    SuccessorInChain(s, v, v.tp, next);
    assert ChainShape(s', v');
    forall u | u in s'.threads
      ensures ThreadInv(s', v', s'.threads[u])
    {
      ThreadInvKept(s, v, s', v', s'.threads[u]);
    }
  }

  ghost function MoveHead<T>(s: State<T>, t: Tid, next: NodeId): State<T> {
    Goto(s.(head := next), t, DeqTake(s.head, next))
  }

  lemma HeadMoveKeepsChain<T>(s: State<T>, v: View, t: Tid, next: NodeId)
    requires Inv(s, v) && t in s.threads
    requires s.heap[s.head].next == Some(next)
    ensures ChainShape(MoveHead(s, t, next), v.(hp := v.hp + 1))
    ensures !Reached(v.chain, next, v.hp) && !Passed(v, s.head)
    ensures ThreadInv(MoveHead(s, t, next), v.(hp := v.hp + 1), DeqTake(s.head, next))
  {
    var v' := v.(hp := v.hp + 1);
    SuccessorInChain(s, v, v.hp, next);
    assert v'.chain[v'.hp] == next && v'.chain[v'.hp - 1] == s.head;
  }

  lemma HeadMoveKeepsInv<T>(s: State<T>, v: View, t: Tid, next: NodeId)
    requires Inv(s, v) && t in s.threads
    requires s.heap[s.head].next == Some(next)
    ensures Inv(MoveHead(s, t, next), v.(hp := v.hp + 1))
  {
    var s', v' := MoveHead(s, t, next), v.(hp := v.hp + 1);
    HeadMoveKeepsChain(s, v, t, next);
    forall u | u in s'.threads
      ensures ThreadInv(s', v', s'.threads[u])
      ensures u != t ==> Disjoint(s'.threads[u], s'.threads[t]) && Disjoint(s'.threads[t], s'.threads[u])
    {
      if u != t {
        assert ThreadInv(s, v, s.threads[u]);
        ThreadInvKept(s, v, s', v', s.threads[u]);
      }
    }
  }

  ghost function Take<T>(s: State<T>, t: Tid, movedFrom: T): State<T>
    requires t in s.threads && s.threads[t].DeqTake? && s.threads[t].next < |s.heap|
  {
    var n := s.threads[t].next;
    Goto(s.(heap := s.heap[n := s.heap[n].(data := movedFrom)]), t, DeqFree(s.threads[t].head, s.heap[n].data))
  }

  lemma TakeKeepsInv<T>(s: State<T>, v: View, t: Tid, movedFrom: T)
    requires Inv(s, v) && t in s.threads && s.threads[t].DeqTake? && s.threads[t].next < |s.heap|
    ensures Inv(Take(s, t, movedFrom), v)
  {
    var s' := Take(s, t, movedFrom);
    assert ThreadInv(s, v, s.threads[t]);
    assert ChainShape(s', v);
    forall u | u in s'.threads
      ensures ThreadInv(s', v, s'.threads[u])
      ensures u != t ==> Disjoint(s'.threads[u], s'.threads[t]) && Disjoint(s'.threads[t], s'.threads[u])
    {
      if u != t {
        assert ThreadInv(s, v, s.threads[u]) && Disjoint(s.threads[u], s.threads[t]);
        ThreadInvKept(s, v, s', v, s.threads[u]);
      }
    }
  }

  lemma EnqueueKeepsInv<T>(s: State<T>, v: View, step: Step<T>)
    requires Inv(s, v) && Enabled(s, step) && step.Run?
    requires var pc := s.threads[step.tid]; pc.EnqAlloc? || pc.EnqLoadTail? || pc.EnqLoadNext? || pc.EnqLink?
    ensures Inv(Apply(s, step), NextView(s, v, step))
  {
    var t := step.tid;
    assert ThreadInv(s, v, s.threads[t]);
    match s.threads[t]
    case EnqAlloc(value) => AllocKeepsInv(s, v, t, value);
    case EnqLoadTail(value, node) => GotoKeepsInv(s, v, t, EnqLoadNext(value, node, s.tail));
    case EnqLoadNext(value, node, tail) =>
      if s.heap[tail].next == None {
        GotoKeepsInv(s, v, t, EnqLink(value, node, tail));
      } else {
        GotoKeepsInv(s, v, t, EnqHelp(value, node, tail, s.heap[tail].next.value));
      }
    case EnqLink(value, node, tail) =>
      if !step.spurious && s.heap[tail].next == None {
        LinkKeepsInv(s, v, t);
      } else {
        GotoKeepsInv(s, v, t, EnqLoadTail(value, node));
      }
  }

  lemma HelpEffect<T>(s: State<T>, v: View, step: Step<T>)
    requires Enabled(s, step) && step.Run? && s.threads[step.tid].EnqHelp?
    ensures var pc, moves := s.threads[step.tid], !step.spurious && s.tail == s.threads[step.tid].tail;
            && Apply(s, step) ==
                 Goto(if moves then s.(tail := pc.next) else s, step.tid, EnqLoadTail(pc.value, pc.node))
            && NextView(s, v, step) == if moves then v.(tp := v.tp + 1) else v
  {
  }

  lemma HelpKeepsInv<T>(s: State<T>, v: View, step: Step<T>)
    requires Inv(s, v) && Enabled(s, step) && step.Run? && s.threads[step.tid].EnqHelp?
    ensures Inv(Apply(s, step), NextView(s, v, step))
  {
    var pc := s.threads[step.tid];
    HelpEffect(s, v, step);
    assert ThreadInv(s, v, pc);
    if !step.spurious && s.tail == pc.tail {
      TailMoveKeepsInv(s, v, step.tid, pc.next, EnqLoadTail(pc.value, pc.node));
    } else {
      GotoKeepsInv(s, v, step.tid, EnqLoadTail(pc.value, pc.node));
    }
  }

  lemma SwingEffect<T>(s: State<T>, v: View, step: Step<T>)
    requires Enabled(s, step) && step.Run? && s.threads[step.tid].EnqSwing?
    ensures var pc, moves := s.threads[step.tid], !step.spurious && s.tail == s.threads[step.tid].tail;
            && Apply(s, step) == Goto(if moves then s.(tail := pc.node) else s, step.tid, EnqReturn)
            && NextView(s, v, step) == if moves then v.(tp := v.tp + 1) else v
  {
  }

  lemma SwingKeepsInv<T>(s: State<T>, v: View, step: Step<T>)
    requires Inv(s, v) && Enabled(s, step) && step.Run? && s.threads[step.tid].EnqSwing?
    ensures Inv(Apply(s, step), NextView(s, v, step))
  {
    var pc := s.threads[step.tid];
    SwingEffect(s, v, step);
    if !step.spurious && s.tail == pc.tail {
      assert ThreadInv(s, v, pc);
      TailMoveKeepsInv(s, v, step.tid, pc.node, EnqReturn);
    } else {
      GotoKeepsInv(s, v, step.tid, EnqReturn);
    }
  }

  lemma DequeueLoadKeepsInv<T>(s: State<T>, v: View, step: Step<T>)
    requires Inv(s, v) && Enabled(s, step) && step.Run?
    requires s.threads[step.tid].DeqLoadHead? || s.threads[step.tid].DeqLoadNext?
    ensures Inv(Apply(s, step), NextView(s, v, step))
  {
    assert ThreadInv(s, v, s.threads[step.tid]);
    match s.threads[step.tid]
    case DeqLoadHead => GotoKeepsInv(s, v, step.tid, DeqLoadNext(s.head));
    case DeqLoadNext(head) =>
      var next := s.heap[head].next;
      GotoKeepsInv(s, v, step.tid, if next == None then DeqReturn(None) else DeqCas(head, next.value));
  }

  lemma DequeueCasEffect<T>(s: State<T>, v: View, step: Step<T>)
    requires Enabled(s, step) && step.Run? && s.threads[step.tid].DeqCas?
    ensures var pc, moves := s.threads[step.tid], !step.spurious && s.head == s.threads[step.tid].head;
            && Apply(s, step) == (if moves then Goto(s.(head := pc.next), step.tid, DeqTake(pc.head, pc.next))
                                  else Goto(s, step.tid, DeqLoadHead))
            && NextView(s, v, step) == if moves then v.(hp := v.hp + 1) else v
  {
  }

  lemma DequeueCasKeepsInv<T>(s: State<T>, v: View, step: Step<T>)
    requires Inv(s, v) && Enabled(s, step) && step.Run? && s.threads[step.tid].DeqCas?
    ensures Inv(Apply(s, step), NextView(s, v, step))
  {
    var pc := s.threads[step.tid];
    DequeueCasEffect(s, v, step);
    if !step.spurious && s.head == pc.head {
      assert ThreadInv(s, v, pc);
      HeadMoveKeepsInv(s, v, step.tid, pc.next);
    } else {
      GotoKeepsInv(s, v, step.tid, DeqLoadHead);
    }
  }

  /** Preservation: the nodes stay one acyclic chain, `head` and `tail` stay on it and
      only move forward, and a linked node is never unlinked. */
  lemma StepKeepsInv<T>(s: State<T>, v: View, step: Step<T>)
    requires Inv(s, v) && Enabled(s, step)
    ensures Inv(Apply(s, step), NextView(s, v, step))
    ensures v.chain <= NextView(s, v, step).chain
    ensures v.hp <= NextView(s, v, step).hp <= v.hp + 1
    ensures v.tp <= NextView(s, v, step).tp <= v.tp + 1
  {
    var pc := s.threads[step.tid];
    match step
    case Invoke(t, op) => GotoKeepsInv(s, v, t, if op.Enqueue? then EnqAlloc(op.value) else DeqLoadHead);
    case Return(t) => GotoKeepsInv(s, v, t, Idle);
    case Run(_, _, _) =>
      if pc.DeqLoadHead? || pc.DeqLoadNext? {
        DequeueLoadKeepsInv(s, v, step);
      } else if pc.DeqCas? {
        DequeueCasKeepsInv(s, v, step);
      } else if pc.DeqTake? {
        TakeKeepsInv(s, v, step.tid, step.movedFrom);
      } else if pc.DeqFree? {
        GotoKeepsInv(s, v, step.tid, DeqReturn(Some(pc.value)));
      } else if pc.EnqHelp? {
        HelpKeepsInv(s, v, step);
      } else if pc.EnqSwing? {
        SwingKeepsInv(s, v, step);
      } else {
        EnqueueKeepsInv(s, v, step);
      }
  }

  // ---------------------------------------------------------------------------
  // Every step refines the atomic sequence.

  ghost predicate LinksNode<T>(s: State<T>, step: Step<T>)
    requires Enabled(s, step)
  {
    step.Run? && !step.spurious && s.threads[step.tid].EnqLink? && s.heap[s.threads[step.tid].tail].next == None
  }

  ghost predicate MovesHead<T>(s: State<T>, step: Step<T>)
    requires Enabled(s, step)
  {
    step.Run? && !step.spurious && s.threads[step.tid].DeqCas? && s.threads[step.tid].head == s.head
  }

  lemma SameContents<T>(s: State<T>, s': State<T>, v: View, v': View)
    requires ChainShape(s, v) && ChainShape(s', v')
    requires v'.chain == v.chain && v'.hp == v.hp
    requires forall i :: v.hp < i < |v.chain| ==> s'.heap[v.chain[i]].data == s.heap[v.chain[i]].data
    ensures Contents(s') == Contents(s)
  {
    ContentsAreView(s, v);
    ContentsAreView(s', v');
  }

  lemma LinkAppends<T>(s: State<T>, v: View, t: Tid)
    requires Inv(s, v) && t in s.threads && s.threads[t].EnqLink?
    requires s.threads[t].tail < |s.heap| && s.heap[s.threads[t].tail].next == None
    ensures Contents(Link(s, t)) == Contents(s) + [s.threads[t].value]
  {
    assert ThreadInv(s, v, s.threads[t]);
    LinkKeepsChain(s, v, t);
    ContentsAreView(s, v);
    ContentsAreView(Link(s, t), v.(chain := v.chain + [s.threads[t].node]));
  }

  lemma HeadMoveRemoves<T>(s: State<T>, v: View, s': State<T>)
    requires ChainShape(s, v) && ChainShape(s', v.(hp := v.hp + 1)) && s'.heap == s.heap
    ensures Contents(s) != [] && Contents(s') == Contents(s)[1..]
  {
    ContentsAreView(s, v);
    ContentsAreView(s', v.(hp := v.hp + 1));
  }

  lemma QuietStep<T>(s: State<T>, v: View, step: Step<T>)
    requires Inv(s, v) && Enabled(s, step) && !LinksNode(s, step) && !MovesHead(s, step)
    ensures Contents(Apply(s, step)) == Contents(s)
  {
    StepKeepsInv(s, v, step);
    assert ThreadInv(s, v, s.threads[step.tid]);
    SameContents(s, Apply(s, step), v, NextView(s, v, step));
  }

  /** The queue changes at exactly two kinds of step: a successful link appends the
      enqueued value, a successful head exchange removes the first value. */
  lemma LinearizationPoints<T>(s: State<T>, v: View, step: Step<T>)
    requires Inv(s, v) && Enabled(s, step)
    ensures LinksNode(s, step) ==> Contents(Apply(s, step)) == Contents(s) + [s.threads[step.tid].value]
    ensures MovesHead(s, step) ==> Contents(s) != [] && Contents(Apply(s, step)) == Contents(s)[1..]
    ensures !LinksNode(s, step) && !MovesHead(s, step) ==> Contents(Apply(s, step)) == Contents(s)
  {
    if LinksNode(s, step) {
      LinkAppends(s, v, step.tid);
    } else if MovesHead(s, step) {
      StepKeepsInv(s, v, step);
      HeadMoveRemoves(s, v, Apply(s, step));
    } else {
      QuietStep(s, v, step);
    }
  }

  /** What a dequeue is about to hand out, or an empty answer, is right at its step. */
  lemma DequeueAnswers<T>(s: State<T>, v: View, step: Step<T>)
    requires Inv(s, v) && Enabled(s, step) && step.Run?
    ensures MovesHead(s, step) ==>
              Contents(s) != [] && s.threads[step.tid].next < |s.heap|
              && s.heap[s.threads[step.tid].next].data == Contents(s)[0]
    ensures FindsEmpty(s, step) ==> Contents(s) == []
  {
    ContentsAreView(s, v);
    var pc := s.threads[step.tid];
    assert ThreadInv(s, v, pc);
    if MovesHead(s, step) {
      SuccessorInChain(s, v, v.hp, pc.next);
    } else if pc.DeqLoadNext? && s.heap[pc.head].next == None {
      LastIsReached(s, v, pc.head, v.hp);
    }
  }

  /** Only the dequeue that owns a node empties it. */
  lemma DataKept<T>(s: State<T>, step: Step<T>, n: NodeId)
    requires Enabled(s, step) && n < |s.heap| && !(s.threads[step.tid].DeqTake? && s.threads[step.tid].next == n)
    ensures n < |Apply(s, step).heap| && Apply(s, step).heap[n].data == s.heap[n].data
  {
  }

  /** A step changes the phase of its own thread only. */
  lemma OtherPhasesKept<T>(s: State<T>, v: View, step: Step<T>, u: Tid)
    requires Inv(s, v) && Enabled(s, step) && u in s.threads && u != step.tid
    ensures u in Apply(s, step).threads
    ensures PhaseOf(Apply(s, step).heap, Apply(s, step).threads[u]) == PhaseOf(s.heap, s.threads[u])
  {
    if s.threads[u].DeqTake? {
      assert ThreadInv(s, v, s.threads[u]) && Disjoint(s.threads[u], s.threads[step.tid]);
      DataKept(s, step, s.threads[u].next);
    }
  }

  lemma OneChanged<T>(a: map<Tid, Phase<T>>, b: map<Tid, Phase<T>>, t: Tid)
    requires a.Keys == b.Keys && t in b && forall u :: u in a && u != t ==> a[u] == b[u]
    ensures b == a[t := b[t]]
  {
  }

  lemma OnlyOwnPhaseChanges<T>(s: State<T>, v: View, step: Step<T>)
    requires Inv(s, v) && Enabled(s, step)
    ensures step.tid in Apply(s, step).threads
    ensures Phases(Apply(s, step)) == Phases(s)[step.tid := Phases(Apply(s, step))[step.tid]]
  {
    var s' := Apply(s, step);
    StepKeepsThreads(s, step);
    forall u | u in Phases(s) && u != step.tid
      ensures Phases(s)[u] == Phases(s')[u]
    {
      OtherPhasesKept(s, v, step, u);
    }
    OneChanged(Phases(s), Phases(s'), step.tid);
  }

  ghost predicate FindsEmpty<T>(s: State<T>, step: Step<T>)
    requires Enabled(s, step)
  {
    step.Run? && s.threads[step.tid].DeqLoadNext? && s.heap[s.threads[step.tid].head].next == None
  }

  lemma PhaseStep<T>(s: State<T>, step: Step<T>)
    requires Enabled(s, step) && step.Run?
    ensures var pc, p := s.threads[step.tid], PhaseOf(s.heap, s.threads[step.tid]);
            var p' := PhaseOf(Apply(s, step).heap, Apply(s, step).threads[step.tid]);
            && (LinksNode(s, step) ==> p == Pending(Enqueue(pc.value)) && p' == Done(Enqueued))
            && (MovesHead(s, step) ==>
                  p == Pending(Dequeue) && (pc.next < |s.heap| ==> p' == Done(Dequeued(s.heap[pc.next].data))))
            && (FindsEmpty(s, step) ==> p == Pending(Dequeue) && p' == Done(WasEmpty))
            && (!LinksNode(s, step) && !MovesHead(s, step) && !FindsEmpty(s, step) ==> p' == p)
  {
  }

  /** The phase of the stepping thread: done at its linearization point, unchanged otherwise. */
  lemma OwnPhase<T>(s: State<T>, v: View, step: Step<T>)
    requires Inv(s, v) && Enabled(s, step) && step.Run?
    ensures var p := PhaseOf(s.heap, s.threads[step.tid]);
            var p' := PhaseOf(Apply(s, step).heap, Apply(s, step).threads[step.tid]);
            && (LinksNode(s, step) ==> p == Pending(Enqueue(s.threads[step.tid].value)) && p' == Done(Enqueued))
            && (MovesHead(s, step) ==>
                  p == Pending(Dequeue) && Contents(s) != [] && p' == Done(Dequeued(Contents(s)[0])))
            && (FindsEmpty(s, step) ==> p == Pending(Dequeue) && Contents(s) == [] && p' == Done(WasEmpty))
            && (!LinksNode(s, step) && !MovesHead(s, step) && !FindsEmpty(s, step) ==> p' == p)
  {
    PhaseStep(s, step);
    DequeueAnswers(s, v, step);
  }

  lemma PointRefines<T>(s: State<T>, v: View, step: Step<T>)
    requires Inv(s, v) && Enabled(s, step) && step.Run?
    requires LinksNode(s, step) || MovesHead(s, step) || FindsEmpty(s, step)
    ensures TakesEffect(Abs(s), Abs(Apply(s, step)), step.tid)
  {
    LinearizationPoints(s, v, step);
    OnlyOwnPhaseChanges(s, v, step);
    OwnPhase(s, v, step);
  }

  lemma CallRefines<T>(s: State<T>, v: View, step: Step<T>)
    requires Inv(s, v) && Enabled(s, step) && !step.Run?
    ensures FifoNext(Abs(s), Abs(Apply(s, step)), LabelOf(s, step))
  {
    LinearizationPoints(s, v, step);
    OnlyOwnPhaseChanges(s, v, step);
  }

  lemma QuietRefines<T>(s: State<T>, v: View, step: Step<T>)
    requires Inv(s, v) && Enabled(s, step) && step.Run?
    requires !LinksNode(s, step) && !MovesHead(s, step) && !FindsEmpty(s, step)
    ensures Abs(Apply(s, step)) == Abs(s)
  {
    LinearizationPoints(s, v, step);
    OnlyOwnPhaseChanges(s, v, step);
    OwnPhase(s, v, step);
    assert Abs(Apply(s, step)).calls == Abs(s).calls;
  }

  /** Refinement, one step: each step of the pointers is a step of the atomic FIFO with
      the same visible label, so every call takes effect once, between call and reply. */
  lemma StepRefines<T>(s: State<T>, v: View, step: Step<T>)
    requires Inv(s, v) && Enabled(s, step)
    ensures FifoNext(Abs(s), Abs(Apply(s, step)), LabelOf(s, step))
  {
    if !step.Run? {
      CallRefines(s, v, step);
    } else if LinksNode(s, step) || MovesHead(s, step) || FindsEmpty(s, step) {
      PointRefines(s, v, step);
    } else {
      QuietRefines(s, v, step);
    }
  }

  // ---------------------------------------------------------------------------
  // Whole runs.

  lemma InitInv<T>(stub: T, tids: set<Tid>)
    ensures Inv(Init(stub, tids), View([0], 0, 0))
    ensures Abs(Init(stub, tids)) == Fifo([], map t | t in tids :: Ready)
  {
    var s := Init(stub, tids);
    ContentsAreView(s, View([0], 0, 0));
  }

  /** Linearizability: the states of every run, for any set of threads, map to a run of
      the atomic FIFO with the same calls and replies. */
  ghost predicate Linearizable<T>(s: State<T>, steps: seq<Step<T>>)
    requires Valid(s, steps)
    decreases |steps|
  {
    steps == [] ||
    (&& FifoNext(Abs(s), Abs(Apply(s, steps[0])), LabelOf(s, steps[0]))
     && Linearizable(Apply(s, steps[0]), steps[1..]))
  }

  lemma {:induction false} RunRefines<T>(s: State<T>, v: View, steps: seq<Step<T>>) returns (v': View)
    requires Inv(s, v) && Valid(s, steps)
    ensures Linearizable(s, steps)
    ensures Inv(Exec(s, steps), v')
    ensures v.chain <= v'.chain && v.hp <= v'.hp && v.tp <= v'.tp
    decreases |steps|
  {
    v' := v;
    if steps != [] {
      StepKeepsInv(s, v, steps[0]);
      StepRefines(s, v, steps[0]);
      v' := RunRefines(Apply(s, steps[0]), NextView(s, v, steps[0]), steps[1..]);
    }
  }

  lemma QueueIsLinearizable<T>(stub: T, tids: set<Tid>, steps: seq<Step<T>>)
    requires Valid(Init(stub, tids), steps)
    ensures Abs(Init(stub, tids)) == Fifo([], map t | t in tids :: Ready)
    ensures Linearizable(Init(stub, tids), steps)
  {
    InitInv(stub, tids);
    var _ := RunRefines(Init(stub, tids), View([0], 0, 0), steps);
  }

  lemma ReachableChain<T>(stub: T, tids: set<Tid>, steps: seq<Step<T>>) returns (v: View)
    requires Valid(Init(stub, tids), steps)
    ensures ChainShape(Exec(Init(stub, tids), steps), v)
    ensures v.chain[0] == 0
  {
    InitInv(stub, tids);
    v := RunRefines(Init(stub, tids), View([0], 0, 0), steps);
  }

  /** Values in the order their links succeeded, and in the order `head` passed them. */
  ghost function Linked<T>(s: State<T>, steps: seq<Step<T>>): seq<T>
    requires Valid(s, steps)
    decreases |steps|
  {
    if steps == [] then [] else
    (if LinksNode(s, steps[0]) then [s.threads[steps[0].tid].value] else []) + Linked(Apply(s, steps[0]), steps[1..])
  }

  ghost function Unlinked<T>(s: State<T>, steps: seq<Step<T>>): seq<T>
    requires Valid(s, steps)
    decreases |steps|
  {
    if steps == [] then [] else
    (if MovesHead(s, steps[0]) && Contents(s) != [] then [Contents(s)[0]] else [])
    + Unlinked(Apply(s, steps[0]), steps[1..])
  }

  lemma {:induction false} ConservedFrom<T>(s: State<T>, v: View, steps: seq<Step<T>>)
    requires Inv(s, v) && Valid(s, steps)
    ensures Unlinked(s, steps) + Contents(Exec(s, steps)) == Contents(s) + Linked(s, steps)
    decreases |steps|
  {
    if steps != [] {
      var s' := Apply(s, steps[0]);
      StepKeepsInv(s, v, steps[0]);
      LinearizationPoints(s, v, steps[0]);
      ConservedFrom(s', NextView(s, v, steps[0]), steps[1..]);
      ConsOnto(Contents(s), Contents(s'), if MovesHead(s, steps[0]) then [Contents(s)[0]] else [],
               if LinksNode(s, steps[0]) then [s.threads[steps[0].tid].value] else [],
               Unlinked(s', steps[1..]), Contents(Exec(s', steps[1..])), Linked(s', steps[1..]));
    }
  }

  lemma ConsOnto<T>(before: seq<T>, after: seq<T>, gone: seq<T>, added: seq<T>, out: seq<T>, left: seq<T>,
                    linked: seq<T>)
    requires gone + after == before + added
    requires out + left == after + linked
    ensures (gone + out) + left == before + (added + linked)
  {
    calc {
      (gone + out) + left;
      gone + (out + left);
      gone + (after + linked);
      (gone + after) + linked;
      (before + added) + linked;
      before + (added + linked);
    }
  }

  /** Conservation: nothing is lost, duplicated or reordered over a whole run. */
  lemma ValuesConserved<T>(stub: T, tids: set<Tid>, steps: seq<Step<T>>)
    requires Valid(Init(stub, tids), steps)
    ensures var s := Init(stub, tids);
            Unlinked(s, steps) + Contents(Exec(s, steps)) == Linked(s, steps)
  {
    InitInv(stub, tids);
    ConservedFrom(Init(stub, tids), View([0], 0, 0), steps);
  }

  // ---------------------------------------------------------------------------
  // Memory safety: the guard of `Enabled` excludes no run.

  lemma NeverDangles<T>(s: State<T>, v: View, t: Tid)
    requires Inv(s, v) && t in s.threads
    ensures Dereferences(s.heap, s.threads[t])
  {
    assert ThreadInv(s, v, s.threads[t]);
  }

  lemma StepKeepsThreads<T>(s: State<T>, step: Step<T>)
    requires Enabled(s, step)
    ensures Apply(s, step).threads.Keys == s.threads.Keys
  {
  }

  lemma {:induction false} RunKeepsThreads<T>(s: State<T>, steps: seq<Step<T>>)
    requires Valid(s, steps)
    ensures Exec(s, steps).threads.Keys == s.threads.Keys
    decreases |steps|
  {
    if steps != [] {
      StepKeepsThreads(s, steps[0]);
      RunKeepsThreads(Apply(s, steps[0]), steps[1..]);
    }
  }

  /** In every reachable state every thread has a step: an idle one can start either call,
      one inside a call finds every node it is about to dereference. */
  lemma ReachableNeverDangles<T>(stub: T, tids: set<Tid>, steps: seq<Step<T>>, t: Tid)
    requires Valid(Init(stub, tids), steps) && t in tids
    ensures var s := Exec(Init(stub, tids), steps);
            && t in s.threads && Dereferences(s.heap, s.threads[t])
            && (forall op :: s.threads[t].Idle? ==> Enabled(s, Invoke(t, op)))
            && (forall b, x :: !s.threads[t].Idle? ==> Enabled(s, Run(t, b, x)) || Enabled(s, Return(t)))
  {
    InitInv(stub, tids);
    var v := RunRefines(Init(stub, tids), View([0], 0, 0), steps);
    RunKeepsThreads(Init(stub, tids), steps);
    NeverDangles(Exec(Init(stub, tids), steps), v, t);
  }

  // ---------------------------------------------------------------------------
  // Progress: a call that runs alone finishes.

  /** The next step of a thread whose compare-exchanges do not fail spuriously. */
  function Alone<T>(s: State<T>, t: Tid, movedFrom: T): Step<T>
    requires t in s.threads
  {
    if s.threads[t].EnqReturn? || s.threads[t].DeqReturn? then Return(t) else Run(t, false, movedFrom)
  }

  function HasNext<T>(heap: seq<Node<T>>, n: NodeId): bool { n < |heap| && heap[n].next.Some? }

  /** Steps from a fresh load of `tail`, and of `head`, to the end of the call. */
  function FromLoadTail<T>(s: State<T>): nat { if HasNext(s.heap, s.tail) then 8 else 5 }

  function FromLoadHead<T>(s: State<T>): nat { if HasNext(s.heap, s.head) then 6 else 3 }

  /** How many steps of its own the call still needs, nobody else moving. */
  function Remaining<T>(s: State<T>, pc: Pc<T>): nat {
    match pc
    case Idle => 0
    case EnqAlloc(_) => 1 + FromLoadTail(s)
    case EnqLoadTail(_, _) => FromLoadTail(s)
    case EnqLoadNext(_, _, tail) => if tail == s.tail then FromLoadTail(s) - 1 else 2 + FromLoadTail(s)
    case EnqLink(_, _, tail) => if HasNext(s.heap, tail) then 1 + FromLoadTail(s) else 3
    case EnqHelp(_, _, tail, _) => if tail == s.tail then 6 else 1 + FromLoadTail(s)
    case EnqSwing(_, _) => 2
    case EnqReturn => 1
    case DeqLoadHead => FromLoadHead(s)
    case DeqLoadNext(head) => if head == s.head then FromLoadHead(s) - 1 else 2 + FromLoadHead(s)
    case DeqCas(head, _) => if head == s.head then 4 else 1 + FromLoadHead(s)
    case DeqTake(_, _) => 3
    case DeqFree(_, _) => 2
    case DeqReturn(_) => 1
  }

  /** A node a thread has read and that is no longer `tail`, or `head`, has a successor. */
  lemma StaleHasNext<T>(s: State<T>, v: View, n: NodeId, at: nat)
    requires ChainShape(s, v) && at < |v.chain| && Reached(v.chain, n, at) && n != v.chain[at]
    ensures HasNext(s.heap, n)
  {
    var i :| 0 <= i <= at && v.chain[i] == n;
    NextOf(s, v, i);
  }

  /** Helping moves `tail` to the last node, because it lags by one at most. */
  lemma HelpedTailIsLast<T>(s: State<T>, v: View, next: NodeId)
    requires ChainShape(s, v) && s.heap[s.tail].next == Some(next)
    ensures next < |s.heap| && s.heap[next].next == None
  {
    SuccessorInChain(s, v, v.tp, next);
  }

  ghost predicate OneNearer<T>(s: State<T>, s': State<T>, t: Tid) {
    t in s.threads && t in s'.threads && Remaining(s', s'.threads[t]) == Remaining(s, s.threads[t]) - 1
  }

  lemma EnqueueAlone<T>(s: State<T>, v: View, t: Tid, movedFrom: T)
    requires Inv(s, v) && t in s.threads && Enabled(s, Run(t, false, movedFrom))
    requires var pc := s.threads[t];
             pc.EnqAlloc? || pc.EnqLoadTail? || pc.EnqLoadNext? || pc.EnqLink? || pc.EnqHelp? || pc.EnqSwing?
    ensures OneNearer(s, Apply(s, Run(t, false, movedFrom)), t)
  {
    assert ThreadInv(s, v, s.threads[t]);
    match s.threads[t]
    case EnqLoadNext(_, _, tail) => if tail != s.tail { StaleHasNext(s, v, tail, v.tp); }
    case EnqLink(_, _, tail) => if s.heap[tail].next == None { LastIsReached(s, v, tail, v.tp); }
    case EnqHelp(_, _, tail, next) => if tail == s.tail { HelpedTailIsLast(s, v, next); }
    case _ =>
  }

  lemma DequeueAlone<T>(s: State<T>, v: View, t: Tid, movedFrom: T)
    requires Inv(s, v) && t in s.threads && Enabled(s, Run(t, false, movedFrom))
    requires s.threads[t].DeqLoadHead? || s.threads[t].DeqLoadNext?
    ensures OneNearer(s, Apply(s, Run(t, false, movedFrom)), t)
  {
    assert ThreadInv(s, v, s.threads[t]);
    if s.threads[t].DeqLoadNext? && s.threads[t].head != s.head {
      StaleHasNext(s, v, s.threads[t].head, v.hp);
    }
  }

  lemma RemoveAlone<T>(s: State<T>, t: Tid, movedFrom: T)
    requires t in s.threads && Enabled(s, Run(t, false, movedFrom))
    requires s.threads[t].DeqCas? || Removing(s.threads[t])
    ensures OneNearer(s, Apply(s, Run(t, false, movedFrom)), t)
  {
  }

  /** Each step alone brings the end of the call exactly one step nearer. */
  lemma AloneStepCounts<T>(s: State<T>, v: View, t: Tid, movedFrom: T)
    requires Inv(s, v) && t in s.threads && !s.threads[t].Idle?
    ensures Enabled(s, Alone(s, t, movedFrom)) && OneNearer(s, Apply(s, Alone(s, t, movedFrom)), t)
  {
    NeverDangles(s, v, t);
    var pc := s.threads[t];
    if pc.EnqAlloc? || pc.EnqLoadTail? || pc.EnqLoadNext? || pc.EnqLink? || pc.EnqHelp? || pc.EnqSwing? {
      EnqueueAlone(s, v, t, movedFrom);
    } else if pc.DeqLoadHead? || pc.DeqLoadNext? {
      DequeueAlone(s, v, t, movedFrom);
    } else if !pc.EnqReturn? && !pc.DeqReturn? {
      RemoveAlone(s, t, movedFrom);
    }
  }

  /** Steps of `t` only, none of them failing spuriously, that bring its call to an end. */
  ghost predicate ReturnsAlone<T>(s: State<T>, t: Tid, more: seq<Step<T>>) {
    && (forall i :: 0 <= i < |more| ==> more[i].tid == t && (more[i].Run? ==> !more[i].spurious))
    && Valid(s, more)
    && t in Exec(s, more).threads && Exec(s, more).threads[t].Idle?
  }

  lemma AtMostTen<T>(s: State<T>, pc: Pc<T>)
    ensures Remaining(s, pc) <= 10
  {
  }

  lemma {:induction false} AloneFinishes<T>(s: State<T>, v: View, t: Tid, movedFrom: T) returns (more: seq<Step<T>>)
    requires Inv(s, v) && t in s.threads
    ensures ReturnsAlone(s, t, more) && |more| == Remaining(s, s.threads[t])
    decreases Remaining(s, s.threads[t])
  {
    more := [];
    if !s.threads[t].Idle? {
      var step := Alone(s, t, movedFrom);
      AloneStepCounts(s, v, t, movedFrom);
      StepKeepsInv(s, v, step);
      var rest := AloneFinishes(Apply(s, step), NextView(s, v, step), t, movedFrom);
      more := [step] + rest;
      assert more[1..] == rest;
    }
  }

  /** Obstruction freedom: from every reachable state, a pending call that runs alone and
      whose exchanges do not fail spuriously returns within ten steps. */
  lemma FinishesAlone<T>(stub: T, tids: set<Tid>, steps: seq<Step<T>>, t: Tid, movedFrom: T)
    returns (more: seq<Step<T>>)
    requires Valid(Init(stub, tids), steps) && t in tids
    ensures ReturnsAlone(Exec(Init(stub, tids), steps), t, more) && |more| <= 10
  {
    InitInv(stub, tids);
    var v := RunRefines(Init(stub, tids), View([0], 0, 0), steps);
    RunKeepsThreads(Init(stub, tids), steps);
    var s := Exec(Init(stub, tids), steps);
    more := AloneFinishes(s, v, t, movedFrom);
    AtMostTen(s, s.threads[t]);
  }

  // ---------------------------------------------------------------------------
  // Progress under contention.

  ghost predicate MovesTail<T>(s: State<T>, step: Step<T>)
    requires Enabled(s, step)
  {
    && step.Run? && !step.spurious && (s.threads[step.tid].EnqHelp? || s.threads[step.tid].EnqSwing?)
    && s.threads[step.tid].tail == s.tail
  }

  /** The step is an exchange that succeeds. */
  ghost predicate Succeeds<T>(s: State<T>, step: Step<T>)
    requires Enabled(s, step)
  {
    LinksNode(s, step) || MovesHead(s, step) || MovesTail(s, step)
  }

  /** How many exchanges have succeeded, read off the view. */
  function Successes(v: View): nat { |v.chain| + v.hp + v.tp }

  lemma SuccessCounts<T>(s: State<T>, v: View, step: Step<T>)
    requires Inv(s, v) && Enabled(s, step)
    ensures Successes(NextView(s, v, step)) == Successes(v) + if Succeeds(s, step) then 1 else 0
  {
  }

  /** What decides how long a call still takes. */
  ghost predicate SameShape<T>(s: State<T>, s': State<T>) {
    s'.head == s.head && s'.tail == s.tail && forall n :: HasNext(s'.heap, n) == HasNext(s.heap, n)
  }

  lemma FailureKeepsShape<T>(s: State<T>, step: Step<T>)
    requires Enabled(s, step) && !Succeeds(s, step)
    ensures SameShape(s, Apply(s, step))
  {
  }

  /** An exchange fails, other than spuriously, only because another one has succeeded since
      the load: without a success nothing it compares with can have changed. */
  lemma {:induction false} FailureMeansSuccess<T>(s: State<T>, steps: seq<Step<T>>)
    requires Valid(s, steps) && !SameShape(s, Exec(s, steps))
    ensures exists i :: 0 <= i < |steps| && SucceedsAt(s, steps, i)
    decreases |steps|
  {
    if Succeeds(s, steps[0]) {
      assert SucceedsAt(s, steps, 0);
    } else {
      FailureKeepsShape(s, steps[0]);
      FailureMeansSuccess(Apply(s, steps[0]), steps[1..]);
      var i :| 0 <= i < |steps| - 1 && SucceedsAt(Apply(s, steps[0]), steps[1..], i);
      assert SucceedsAt(s, steps, i + 1);
    }
  }

  ghost predicate SucceedsAt<T>(s: State<T>, steps: seq<Step<T>>, i: nat)
    requires Valid(s, steps) && i < |steps|
    decreases |steps|
  {
    if i == 0 then Succeeds(s, steps[0]) else SucceedsAt(Apply(s, steps[0]), steps[1..], i - 1)
  }

  ghost function Sum(f: Tid -> nat, n: nat): nat { if n == 0 then 0 else Sum(f, n - 1) + f(n - 1) }

  lemma {:induction false} SumBound(f: Tid -> nat, n: nat, bound: nat)
    requires forall t: Tid :: f(t) <= bound
    ensures Sum(f, n) <= bound * n
  {
    if n > 0 {
      SumBound(f, n - 1, bound);
    }
  }

  lemma {:induction false} SumAgrees(f: Tid -> nat, g: Tid -> nat, n: nat)
    requires forall u: Tid :: u < n ==> f(u) == g(u)
    ensures Sum(f, n) == Sum(g, n)
  {
    if n > 0 {
      SumAgrees(f, g, n - 1);
    }
  }

  lemma {:induction false} SumChange(f: Tid -> nat, g: Tid -> nat, n: nat, t: Tid)
    requires t < n && forall u: Tid :: u != t ==> f(u) == g(u)
    ensures Sum(g, n) + f(t) == Sum(f, n) + g(t)
  {
    if t == n - 1 {
      SumAgrees(f, g, n - 1);
    } else {
      SumChange(f, g, n - 1, t);
    }
  }

  ghost function Left<T>(s: State<T>): Tid -> nat {
    t => if t in s.threads then Remaining(s, s.threads[t]) else 0
  }

  lemma SameShapeSameRemaining<T>(s: State<T>, s': State<T>, pc: Pc<T>)
    requires SameShape(s, s')
    ensures Remaining(s', pc) == Remaining(s, pc)
  {
  }

  lemma LeftBound<T>(s: State<T>, n: nat)
    ensures Sum(Left(s), n) <= 10 * n
  {
    forall t: Tid
      ensures Left(s)(t) <= 10
    {
      if t in s.threads {
        AtMostTen(s, s.threads[t]);
      }
    }
    SumBound(Left(s), n, 10);
  }

  /** A step of a call that is no success brings the sum of what is left down by one. */
  lemma FailureCountsDown<T>(s: State<T>, v: View, step: Step<T>, n: nat)
    requires Inv(s, v) && Enabled(s, step) && step.tid < n
    requires !step.Invoke? && !Succeeds(s, step) && (step.Run? ==> !step.spurious)
    ensures Sum(Left(Apply(s, step)), n) == Sum(Left(s), n) - 1
  {
    var s', t := Apply(s, step), step.tid;
    FailureKeepsShape(s, step);
    OwnStepNearer(s, v, step);
    forall u: Tid | u != t
      ensures Left(s)(u) == Left(s')(u)
    {
      if u in s.threads {
        SameShapeSameRemaining(s, s', s.threads[u]);
      }
    }
    SumChange(Left(s), Left(s'), n, t);
  }

  lemma OwnStepNearer<T>(s: State<T>, v: View, step: Step<T>)
    requires Inv(s, v) && Enabled(s, step) && !step.Invoke? && (step.Run? ==> !step.spurious)
    ensures OneNearer(s, Apply(s, step), step.tid)
  {
    if step.Run? {
      AloneStepCounts(s, v, step.tid, step.movedFrom);
      assert step == Alone(s, step.tid, step.movedFrom);
    }
  }

  function Calls<T>(steps: seq<Step<T>>): nat {
    if steps == [] then 0 else (if steps[0].Invoke? then 1 else 0) + Calls(steps[1..])
  }

  predicate Contended<T>(steps: seq<Step<T>>, n: nat) {
    forall i :: 0 <= i < |steps| ==> steps[i].tid < n && (steps[i].Run? ==> !steps[i].spurious)
  }

  /** What `k` calls and successes pay for. */
  function Budget(n: nat, k: nat): nat { (10 * n + 1) * k }

  lemma BudgetSum(n: nat, a: nat, b: nat)
    ensures Budget(n, a + b) == Budget(n, a) + Budget(n, b)
  {
    assert (10 * n + 1) * (a + b) == (10 * n + 1) * a + (10 * n + 1) * b;
  }

  /** The calls and successes of one step. */
  ghost function Paying<T>(s: State<T>, step: Step<T>): nat
    requires Enabled(s, step)
  {
    (if step.Invoke? then 1 else 0) + (if Succeeds(s, step) then 1 else 0)
  }

  lemma StepPaid<T>(s: State<T>, v: View, step: Step<T>, n: nat)
    requires Inv(s, v) && Enabled(s, step) && step.tid < n && (step.Run? ==> !step.spurious)
    ensures 1 + Sum(Left(Apply(s, step)), n) <= Sum(Left(s), n) + Budget(n, Paying(s, step))
  {
    if Paying(s, step) == 0 {
      FailureCountsDown(s, v, step, n);
    } else {
      LeftBound(Apply(s, step), n);
      BudgetSum(n, 1, Paying(s, step) - 1);
      assert Budget(n, 1) == 10 * n + 1;
    }
  }

  ghost function AllPaying<T>(s: State<T>, steps: seq<Step<T>>): nat
    requires Valid(s, steps)
    decreases |steps|
  {
    if steps == [] then 0 else Paying(s, steps[0]) + AllPaying(Apply(s, steps[0]), steps[1..])
  }

  lemma Pay(n: nat, rest: nat, mid: nat, start: nat, now: nat, later: nat)
    requires 1 + mid <= start + Budget(n, now) && rest <= mid + Budget(n, later)
    ensures rest + 1 <= start + Budget(n, now + later)
  {
    BudgetSum(n, now, later);
  }

  /** Each step of a run is paid for. */
  ghost predicate AllPaid<T>(s: State<T>, steps: seq<Step<T>>, n: nat)
    requires Valid(s, steps)
    decreases |steps|
  {
    steps == [] ||
    (&& 1 + Sum(Left(Apply(s, steps[0])), n) <= Sum(Left(s), n) + Budget(n, Paying(s, steps[0]))
     && AllPaid(Apply(s, steps[0]), steps[1..], n))
  }

  lemma {:induction false} EachPaid<T>(s: State<T>, v: View, steps: seq<Step<T>>, n: nat)
    requires Inv(s, v) && Valid(s, steps) && Contended(steps, n)
    ensures AllPaid(s, steps, n)
    decreases |steps|
  {
    if steps != [] {
      assert steps[0].tid < n && Contended(steps[1..], n);
      StepPaid(s, v, steps[0], n);
      StepKeepsInv(s, v, steps[0]);
      EachPaid(Apply(s, steps[0]), NextView(s, v, steps[0]), steps[1..], n);
    }
  }

  lemma {:induction false} StepsPaid<T>(s: State<T>, steps: seq<Step<T>>, n: nat)
    requires Valid(s, steps) && AllPaid(s, steps, n)
    ensures |steps| <= Sum(Left(s), n) + Budget(n, AllPaying(s, steps))
    decreases |steps|
  {
    if steps != [] {
      var rest, s1 := steps[1..], Apply(s, steps[0]);
      StepsPaid(s1, rest, n);
      Pay(n, |rest|, Sum(Left(s1), n), Sum(Left(s), n), Paying(s, steps[0]), AllPaying(s1, rest));
    }
  }

  lemma {:induction false} PayingCounts<T>(s: State<T>, v: View, steps: seq<Step<T>>) returns (v': View)
    requires Inv(s, v) && Valid(s, steps)
    ensures Inv(Exec(s, steps), v') && |v'.chain| == |v.chain| + |Linked(s, steps)|
    ensures AllPaying(s, steps) + Successes(v) == Calls(steps) + Successes(v')
    decreases |steps|
  {
    v' := v;
    if steps != [] {
      StepKeepsInv(s, v, steps[0]);
      SuccessCounts(s, v, steps[0]);
      v' := PayingCounts(Apply(s, steps[0]), NextView(s, v, steps[0]), steps[1..]);
    }
  }

  // Links, in turn, are paid by calls.

  ghost function Unlinkeds<T>(s: State<T>): Tid -> nat {
    t => if t in s.threads && PhaseOf(s.heap, s.threads[t]).Pending?
            && PhaseOf(s.heap, s.threads[t]).op.Enqueue? then 1 else 0
  }

  lemma OthersUnlinked<T>(s: State<T>, step: Step<T>, u: Tid)
    requires Enabled(s, step) && u != step.tid
    ensures Unlinkeds(Apply(s, step))(u) == Unlinkeds(s)(u)
  {
    OtherThreads(s, step, u);
  }

  lemma OwnUnlinked<T>(s: State<T>, step: Step<T>)
    requires Enabled(s, step)
    ensures var before, after := Unlinkeds(s)(step.tid), Unlinkeds(Apply(s, step))(step.tid);
            after + (if LinksNode(s, step) then 1 else 0) <= before + if step.Invoke? then 1 else 0
  {
  }

  lemma {:induction false} LinksPaid<T>(s: State<T>, steps: seq<Step<T>>, n: nat)
    requires Valid(s, steps) && Contended(steps, n)
    ensures |Linked(s, steps)| + Sum(Unlinkeds(Exec(s, steps)), n) <= Sum(Unlinkeds(s), n) + Calls(steps)
    decreases |steps|
  {
    if steps != [] {
      var step, s1 := steps[0], Apply(s, steps[0]);
      assert step.tid < n && Contended(steps[1..], n);
      LinksPaid(s1, steps[1..], n);
      forall u: Tid | u != step.tid
        ensures Unlinkeds(s)(u) == Unlinkeds(s1)(u)
      {
        OthersUnlinked(s, step, u);
      }
      SumChange(Unlinkeds(s), Unlinkeds(s1), n, step.tid);
      OwnUnlinked(s, step);
    }
  }

  lemma {:induction false} SumZero(f: Tid -> nat, n: nat)
    requires forall t: Tid :: f(t) == 0
    ensures Sum(f, n) == 0
  {
    if n > 0 {
      SumZero(f, n - 1);
    }
  }

  lemma NothingAtStart<T>(stub: T, tids: set<Tid>, n: nat)
    ensures Sum(Left(Init(stub, tids)), n) == 0 && Sum(Unlinkeds(Init(stub, tids)), n) == 0
  {
    SumZero(Left(Init(stub, tids)), n);
    SumZero(Unlinkeds(Init(stub, tids)), n);
  }

  lemma {:induction false} LinksWithinCalls<T>(stub: T, tids: set<Tid>, steps: seq<Step<T>>, n: nat)
    requires Valid(Init(stub, tids), steps) && Contended(steps, n)
    ensures |Linked(Init(stub, tids), steps)| <= Calls(steps)
  {
    NothingAtStart(stub, tids, n);
    LinksPaid(Init(stub, tids), steps, n);
  }

  lemma {:induction false} StepsWithinBudget<T>(stub: T, tids: set<Tid>, steps: seq<Step<T>>, n: nat)
    requires Valid(Init(stub, tids), steps) && Contended(steps, n)
    ensures |steps| <= Budget(n, AllPaying(Init(stub, tids), steps))
  {
    InitInv(stub, tids);
    NothingAtStart(stub, tids, n);
    EachPaid(Init(stub, tids), View([0], 0, 0), steps, n);
    StepsPaid(Init(stub, tids), steps, n);
  }

  /** Lock freedom, with a bound: whatever the scheduler does, `n` threads that start `k` calls
      take at most 4 * k * (10 * n + 1) steps, as long as no exchange fails spuriously.  Every
      thread inside a call always has a step, so all calls return. */
  lemma {:induction false} CallsBoundSteps<T>(stub: T, tids: set<Tid>, steps: seq<Step<T>>, n: nat)
    requires Valid(Init(stub, tids), steps) && Contended(steps, n)
    ensures |steps| <= 4 * Calls(steps) * (10 * n + 1)
  {
    InitInv(stub, tids);
    LinksWithinCalls(stub, tids, steps, n);
    StepsWithinBudget(stub, tids, steps, n);
    var v := PayingCounts(Init(stub, tids), View([0], 0, 0), steps);
    AtMostFour(|steps|, n, Calls(steps), Successes(v) - 1, |v.chain| - 1);
  }

  lemma AtMostFour(steps: nat, n: nat, calls: nat, successes: nat, links: nat)
    requires steps <= Budget(n, calls + successes) && successes <= 3 * links && links <= calls
    ensures steps <= 4 * calls * (10 * n + 1)
  {
    assert (10 * n + 1) * (calls + successes) <= (10 * n + 1) * (4 * calls);
  }

  // ---------------------------------------------------------------------------
  // `empty()`.

  /** `empty()` is wrong exactly while `tail` lags and `head` is on one of the last two nodes. */
  lemma EmptyExactly<T>(s: State<T>, v: View)
    requires ChainShape(s, v)
    ensures (Empty(s) <==> Contents(s) == [])
       <==> (s.heap[s.tail].next == None || (s.head != s.tail && Some(s.head) != s.heap[s.tail].next))
  {
    ContentsAreView(s, v);
    NextOf(s, v, v.tp);
  }

  lemma Then<T>(s: State<T>, first: Step<T>, rest: seq<Step<T>>)
    requires Enabled(s, first) && Valid(Apply(s, first), rest)
    ensures Valid(s, [first] + rest) && Exec(s, [first] + rest) == Exec(Apply(s, first), rest)
  {
    assert ([first] + rest)[1..] == rest;
  }

  predicate OnlyBy<T>(steps: seq<Step<T>>, t: Tid) { forall i :: 0 <= i < |steps| ==> steps[i].tid == t }

  /** Enqueuing alone, up to the successful link. */
  lemma LinkRun<T>(stub: T, x: T, t: Tid, u: Tid) returns (steps: seq<Step<T>>, s: State<T>)
    requires t != u
    ensures Valid(Init(stub, {t, u}), steps) && s == Exec(Init(stub, {t, u}), steps)
    ensures OnlyBy(steps, t)
    ensures s == State([Node(stub, Some(1)), Node(x, None)], 0, 0, map[t := EnqSwing(1, 0), u := Idle])
  {
    var s0 := Init(stub, {t, u});
    var run := Run(t, false, stub);
    var s1 := Apply(s0, Invoke(t, Enqueue(x)));
    var s2 := Apply(s1, run);
    var s3 := Apply(s2, run);
    var s4 := Apply(s3, run);
    s := Apply(s4, run);
    Then(s4, run, []);
    Then(s3, run, [run] + []);
    Then(s2, run, [run] + ([run] + []));
    Then(s1, run, [run] + ([run] + ([run] + [])));
    Then(s0, Invoke(t, Enqueue(x)), [run] + ([run] + ([run] + ([run] + []))));
    steps := [Invoke(t, Enqueue(x))] + ([run] + ([run] + ([run] + ([run] + []))));
  }

  /** Reachable: `empty()` answers true although a value is in the queue. */
  lemma EmptyHidesValue<T>(stub: T, x: T, t: Tid, u: Tid) returns (steps: seq<Step<T>>)
    requires t != u
    ensures Valid(Init(stub, {t, u}), steps)
    ensures var s := Exec(Init(stub, {t, u}), steps); Empty(s) && Contents(s) == [x]
  {
    var s;
    steps, s := LinkRun(stub, x, t, u);
    ContentsAreView(s, View([0, 1], 0, 0));
  }

  lemma {:induction false} Append<T>(s: State<T>, a: seq<Step<T>>, b: seq<Step<T>>)
    requires Valid(s, a) && Valid(Exec(s, a), b)
    ensures Valid(s, a + b) && Exec(s, a + b) == Exec(Exec(s, a), b)
    decreases |a|
  {
    if a == [] {
      assert a + b == b;
    } else {
      Append(Apply(s, a[0]), a[1..], b);
      assert (a + b)[1..] == a[1..] + b;
    }
  }

  /** Reachable: `empty()` answers false although the queue is empty. */
  lemma EmptyMissesDrained<T>(stub: T, x: T, t: Tid, u: Tid) returns (steps: seq<Step<T>>)
    requires t != u
    ensures Valid(Init(stub, {t, u}), steps)
    ensures var s := Exec(Init(stub, {t, u}), steps); !Empty(s) && Contents(s) == []
  {
    var link, s := LinkRun(stub, x, t, u);
    var run := Run(u, false, stub);
    var s1 := Apply(s, Invoke(u, Dequeue));
    var s2 := Apply(s1, run);
    var s3 := Apply(s2, run);
    var s4 := Apply(s3, run);
    Then(s3, run, []);
    Then(s2, run, [run] + []);
    Then(s1, run, [run] + ([run] + []));
    Then(s, Invoke(u, Dequeue), [run] + ([run] + ([run] + [])));
    var drain := [Invoke(u, Dequeue)] + ([run] + ([run] + ([run] + [])));
    Append(Init(stub, {t, u}), link, drain);
    steps := link + drain;
    assert s4.heap == s.heap && s4.head == 1 && s4.tail == 0;
    ContentsAreView(s4, View([0, 1], 1, 0));
  }

  lemma {:induction false} ViewCounts<T>(s: State<T>, v: View, steps: seq<Step<T>>) returns (v': View)
    requires Inv(s, v) && Valid(s, steps)
    ensures Inv(Exec(s, steps), v') && v.chain <= v'.chain && v.tp <= v'.tp
    ensures |v'.chain| == |v.chain| + |Linked(s, steps)| && v'.hp == v.hp + |Unlinked(s, steps)|
    decreases |steps|
  {
    v' := v;
    if steps != [] {
      StepKeepsInv(s, v, steps[0]);
      LinearizationPoints(s, v, steps[0]);
      v' := ViewCounts(Apply(s, steps[0]), NextView(s, v, steps[0]), steps[1..]);
    }
  }

  /** The two loads of `head == tail`, in either order, with any steps in between: a true
      answer means that of the values present at the first load at most one is still there
      at the second. */
  lemma EmptyTwoLoads<T>(stub: T, tids: set<Tid>, before: seq<Step<T>>, between: seq<Step<T>>)
    requires Valid(Init(stub, tids), before) && Valid(Exec(Init(stub, tids), before), between)
    ensures var s := Exec(Init(stub, tids), before);
            (s.head == Exec(s, between).tail || s.tail == Exec(s, between).head) ==>
              |Contents(s)| <= |Unlinked(s, between)| + 1
  {
    InitInv(stub, tids);
    var v := RunRefines(Init(stub, tids), View([0], 0, 0), before);
    var s := Exec(Init(stub, tids), before);
    var v' := ViewCounts(s, v, between);
    ContentsAreView(s, v);
    assert v'.chain[v.hp] == v.chain[v.hp] && v'.chain[v.tp] == v.chain[v.tp];
  }

  // ---------------------------------------------------------------------------
  // Where the deletes of line 81 would bite.  Nodes stay in the heap of the model; this is
  // the set of those the run has passed to `delete`.

  ghost predicate Frees<T>(s: State<T>, step: Step<T>)
    requires Enabled(s, step)
  {
    step.Run? && s.threads[step.tid].DeqFree?
  }

  ghost function FreedBy<T>(s: State<T>, step: Step<T>): set<NodeId>
    requires Enabled(s, step)
  {
    if Frees(s, step) then {s.threads[step.tid].head} else {}
  }

  ghost function Freed<T>(s: State<T>, steps: seq<Step<T>>): set<NodeId>
    requires Valid(s, steps)
    decreases |steps|
  {
    if steps == [] then {} else FreedBy(s, steps[0]) + Freed(Apply(s, steps[0]), steps[1..])
  }

  ghost predicate BeingRemoved<T>(s: State<T>, n: NodeId) {
    exists t :: Removes(s, t, n)
  }

  ghost predicate DeletedSoFar<T>(s: State<T>, v: View, freed: set<NodeId>) {
    forall n :: n in freed <==> Passed(v, n) && !BeingRemoved(s, n)
  }

  lemma PassedStep<T>(s: State<T>, v: View, step: Step<T>, n: NodeId)
    requires Inv(s, v) && Enabled(s, step)
    ensures Passed(NextView(s, v, step), n) <==> Passed(v, n) || (MovesHead(s, step) && n == s.head)
  {
    var v' := NextView(s, v, step);
    if MovesHead(s, step) {
      assert v'.chain[v'.hp - 1] == s.head;
    }
    if v.hp > 0 && Reached(v.chain, n, v.hp - 1) {
      var i :| 0 <= i < v.hp && v.chain[i] == n;
      assert v'.chain[i] == n;
    }
  }

  ghost predicate Removes<T>(s: State<T>, u: Tid, n: NodeId) {
    u in s.threads && Removing(s.threads[u]) && s.threads[u].head == n
  }

  lemma OtherThreads<T>(s: State<T>, step: Step<T>, u: Tid)
    requires Enabled(s, step) && u != step.tid
    ensures u in Apply(s, step).threads <==> u in s.threads
    ensures u in s.threads ==> Apply(s, step).threads[u] == s.threads[u]
  {
  }

  lemma OtherRemoval<T>(s: State<T>, v: View, step: Step<T>, u: Tid, n: NodeId)
    requires Inv(s, v) && Enabled(s, step) && u != step.tid
    ensures Removes(Apply(s, step), u, n) <==> Removes(s, u, n)
    ensures Removes(s, u, n) ==> n !in FreedBy(s, step)
  {
    OtherThreads(s, step, u);
    if Removes(s, u, n) {
      assert Disjoint(s.threads[u], s.threads[step.tid]);
    }
  }

  lemma RemovedStep<T>(s: State<T>, v: View, step: Step<T>, n: NodeId)
    requires Inv(s, v) && Enabled(s, step)
    ensures BeingRemoved(Apply(s, step), n)
       <==> (BeingRemoved(s, n) && n !in FreedBy(s, step)) || (MovesHead(s, step) && n == s.head)
  {
    OwnRemoval(s, step);
    if u :| Removes(Apply(s, step), u, n) && u != step.tid {
      OtherRemoval(s, v, step, u, n);
    }
    if u :| Removes(s, u, n) && u != step.tid {
      OtherRemoval(s, v, step, u, n);
    }
    assert Removes(Apply(s, step), step.tid, n)
       <==> (Removes(s, step.tid, n) && n !in FreedBy(s, step)) || (MovesHead(s, step) && n == s.head);
  }

  lemma OwnRemoval<T>(s: State<T>, step: Step<T>)
    requires Enabled(s, step)
    ensures var pc, pc' := s.threads[step.tid], Apply(s, step).threads[step.tid];
            && (Removing(pc') <==> (Removing(pc) && !Frees(s, step)) || MovesHead(s, step))
            && (Removing(pc') ==> pc'.head == if Removing(pc) then pc.head else s.head)
            && !(Removing(pc) && MovesHead(s, step))
  {
  }

  lemma {:induction false} DeletedFrom<T>(s: State<T>, v: View, steps: seq<Step<T>>, freed: set<NodeId>)
    returns (v': View)
    requires Inv(s, v) && Valid(s, steps) && DeletedSoFar(s, v, freed)
    ensures Inv(Exec(s, steps), v') && v.chain <= v'.chain
    ensures DeletedSoFar(Exec(s, steps), v', freed + Freed(s, steps))
    decreases |steps|
  {
    v' := v;
    if steps == [] {
      assert freed + {} == freed;
    } else {
      StepKeepsInv(s, v, steps[0]);
      DeletedStep(s, v, steps[0], freed);
      v' := DeletedFrom(Apply(s, steps[0]), NextView(s, v, steps[0]), steps[1..], freed + FreedBy(s, steps[0]));
      assert freed + FreedBy(s, steps[0]) + Freed(Apply(s, steps[0]), steps[1..]) == freed + Freed(s, steps);
    }
  }

  lemma DeletedStep<T>(s: State<T>, v: View, step: Step<T>, freed: set<NodeId>)
    requires Inv(s, v) && Enabled(s, step) && DeletedSoFar(s, v, freed)
    ensures DeletedSoFar(Apply(s, step), NextView(s, v, step), freed + FreedBy(s, step))
  {
    forall n
      ensures n in freed + FreedBy(s, step)
         <==> Passed(NextView(s, v, step), n) && !BeingRemoved(Apply(s, step), n)
    {
      PassedStep(s, v, step, n);
      RemovedStep(s, v, step, n);
      HeadNotPassed(s, v);
      assert ThreadInv(s, v, s.threads[step.tid]);
    }
  }

  lemma HeadNotPassed<T>(s: State<T>, v: View)
    requires ChainShape(s, v)
    ensures !Passed(v, s.head)
  {
  }

  /** The node a thread is about to dereference. */
  function Touched<T>(pc: Pc<T>): Option<NodeId> {
    match pc
    case EnqLoadNext(_, _, tail) => Some(tail)
    case EnqLink(_, _, tail) => Some(tail)
    case DeqLoadNext(head) => Some(head)
    case DeqTake(_, next) => Some(next)
    case _ => None
  }

  /** Exactly which nodes are deleted in a reachable state: those `head` has passed and whose
      remover is through.  So a dereference meets a deleted node exactly when the thread still
      holds such a node, and `tail` itself is deleted exactly when `head` is past it and its
      remover is through. */
  lemma DeletedExactly<T>(stub: T, tids: set<Tid>, steps: seq<Step<T>>) returns (v: View)
    requires Valid(Init(stub, tids), steps)
    ensures var s, freed := Exec(Init(stub, tids), steps), Freed(Init(stub, tids), steps);
            && Inv(s, v) && v.chain[0] == 0
            && (forall n :: n in freed <==> Passed(v, n) && !BeingRemoved(s, n))
            && (s.tail in freed <==> v.hp == v.tp + 1 && !BeingRemoved(s, s.tail))
  {
    InitInv(stub, tids);
    v := DeletedFrom(Init(stub, tids), View([0], 0, 0), steps, {});
    assert {} + Freed(Init(stub, tids), steps) == Freed(Init(stub, tids), steps);
    assert v.hp > 0 ==> v.chain[v.hp - 1] == v.chain[v.hp - 1];
    TailPassed(Exec(Init(stub, tids), steps), v);
  }

  /** Exactly when a thread is about to dereference a deleted node. */
  lemma TouchesDeletedExactly<T>(stub: T, tids: set<Tid>, steps: seq<Step<T>>, t: Tid) returns (v: View)
    requires Valid(Init(stub, tids), steps) && t in Exec(Init(stub, tids), steps).threads
    ensures var s, freed := Exec(Init(stub, tids), steps), Freed(Init(stub, tids), steps);
            var n := Touched(s.threads[t]);
            && Inv(s, v)
            && (n.Some? && n.value in freed <==> n.Some? && Passed(v, n.value) && !BeingRemoved(s, n.value))
  {
    v := DeletedExactly(stub, tids, steps);
  }

  /** An enqueue that starts now dereferences the node `tail` points to. */
  lemma EnqueueTouchesTail<T>(s: State<T>, t: Tid, x: T, movedFrom: T)
    requires t in s.threads && s.threads[t].Idle?
    ensures var steps := [Invoke(t, Enqueue(x)), Run(t, false, movedFrom), Run(t, false, movedFrom)];
            && Valid(s, steps) && t in Exec(s, steps).threads
            && Touched(Exec(s, steps).threads[t]) == Some(s.tail)
  {
    var run := Run(t, false, movedFrom);
    var s1 := Apply(s, Invoke(t, Enqueue(x)));
    var s2 := Apply(s1, run);
    Then(s2, run, []);
    Then(s1, run, [run] + []);
    Then(s, Invoke(t, Enqueue(x)), [run] + ([run] + []));
    assert [Invoke(t, Enqueue(x))] + ([run] + ([run] + [])) == [Invoke(t, Enqueue(x)), run, run];
  }

  lemma TailPassed<T>(s: State<T>, v: View)
    requires ChainShape(s, v)
    ensures Passed(v, s.tail) <==> v.hp == v.tp + 1
  {
    assert v.hp == v.tp + 1 ==> v.chain[v.hp - 1] == s.tail;
  }

  /** After the link: the exchange of `tail` fails spuriously, the call returns, and the
      same thread dequeues. */
  lemma DequeueRun<T>(s1: State<T>, x: T, t: Tid, stub: T) returns (steps: seq<Step<T>>)
    requires t in s1.threads && s1.threads[t] == EnqSwing(1, 0)
    requires s1.heap == [Node(stub, Some(1)), Node(x, None)] && s1.head == 0 && s1.tail == 0
    ensures Valid(s1, steps) && OnlyBy(steps, t)
    ensures Exec(s1, steps) == State([Node(stub, Some(1)), Node(stub, None)], 1, 0, s1.threads[t := Idle])
  {
    var s2 := Apply(s1, Run(t, true, stub));
    var s3 := Apply(s2, Return(t));
    var s4 := Apply(s3, Invoke(t, Dequeue));
    var rest := RemoveRun(s4, x, t, stub);
    Then(s3, Invoke(t, Dequeue), rest);
    Then(s2, Return(t), [Invoke(t, Dequeue)] + rest);
    Then(s1, Run(t, true, stub), [Return(t)] + ([Invoke(t, Dequeue)] + rest));
    steps := [Run(t, true, stub)] + ([Return(t)] + ([Invoke(t, Dequeue)] + rest));
  }

  lemma RemoveRun<T>(s4: State<T>, x: T, t: Tid, stub: T) returns (steps: seq<Step<T>>)
    requires t in s4.threads && s4.threads[t] == DeqLoadHead
    requires s4.heap == [Node(stub, Some(1)), Node(x, None)] && s4.head == 0 && s4.tail == 0
    ensures Valid(s4, steps) && OnlyBy(steps, t)
    ensures Exec(s4, steps) == State([Node(stub, Some(1)), Node(stub, None)], 1, 0, s4.threads[t := Idle])
  {
    var run := Run(t, false, stub);
    var s5 := Apply(s4, run);
    var s6 := Apply(s5, run);
    var s7 := Apply(s6, run);
    var s8 := Apply(s7, run);
    var s9 := Apply(s8, run);
    Then(s9, Return(t), []);
    Then(s8, run, [Return(t)] + []);
    Then(s7, run, [run] + ([Return(t)] + []));
    Then(s6, run, [run] + ([run] + ([Return(t)] + [])));
    Then(s5, run, [run] + ([run] + ([run] + ([Return(t)] + []))));
    Then(s4, run, [run] + ([run] + ([run] + ([run] + ([Return(t)] + [])))));
    steps := [run] + ([run] + ([run] + ([run] + ([run] + ([Return(t)] + [])))));
  }

  /** One thread `t` alone gets there: an enqueue whose last exchange fails spuriously, then a
      dequeue.  No call is pending, and the node `tail` points to is deleted, so the next
      enqueue dereferences it. */
  lemma TailDeleted<T>(stub: T, x: T, t: Tid, u: Tid) returns (steps: seq<Step<T>>)
    requires t != u
    ensures Valid(Init(stub, {t, u}), steps) && OnlyBy(steps, t)
    ensures var s := Exec(Init(stub, {t, u}), steps);
            && s.threads == map[t := Idle, u := Idle]
            && s.tail in Freed(Init(stub, {t, u}), steps)
  {
    var link, s1 := LinkRun(stub, x, t, u);
    var more := DequeueRun(s1, x, t, stub);
    Append(Init(stub, {t, u}), link, more);
    steps := link + more;
    var v := DeletedExactly(stub, {t, u}, steps);
    NothingRemoved(Exec(s1, more), s1.threads[t := Idle]);
    HeadPastTail(Exec(s1, more), v);
  }

  lemma NothingRemoved<T>(s: State<T>, threads: map<Tid, Pc<T>>)
    requires s.threads == threads && forall u :: u in threads ==> threads[u].Idle?
    ensures forall n :: !BeingRemoved(s, n)
  {
  }

  lemma HeadPastTail<T>(s: State<T>, v: View)
    requires ChainShape(s, v) && s.tail == v.chain[0] && s.head != s.tail
    ensures v.hp == v.tp + 1
  {
  }
}

/**
 The multi-producer single-consumer queue as a step system: any number of producers, one consumer,
 one atomic access per step.

 A node is named by its place in head-exchange order, the sentinel first; it is private before its
 exchange.  Node.freed and State.taken are history, read by no step.
 */
module MpscQueue {

  const NULL := -1

  datatype Node<T> = Node(value: T, next: int, freed: bool)

  datatype Producer<T> = Idle | Exchange(value: T) | Link(me: nat, prev: int)

  // Which of dequeue, removeFront and peek the consumer is in.
  datatype Call = Dequeue | RemoveFront | Peek

  datatype Consumer =
    | Resting
    | LoadTail(call: Call)
    | LoadNext(call: Call, tail: int)
    | StoreTail(tail: int, next: int)
    | Free(tail: int)
    | Succeeded(call: Call, front: int)
    | Failed(tail: int)

  datatype State<T> = State(head: int, tail: int, nodes: seq<Node<T>>, producers: seq<Producer<T>>, consumer: Consumer, taken: seq<T>)

  datatype Choice<T> = Enqueue(value: T) | Consume(call: Call) | Proceed

  predicate IsNode<T>(s: State<T>, n: int) {
    0 <= n < |s.nodes|
  }

  predicate Holds<T>(s: State<T>, p: Producer<T>) {
    p.Link? ==> IsNode(s, p.prev)
  }

  function Produce<T>(s: State<T>, t: nat, c: Choice<T>): State<T>
    requires t < |s.producers| && Holds(s, s.producers[t])
  {
    match s.producers[t]
    case Idle => if c.Enqueue? then s.(producers := s.producers[t := Exchange(c.value)]) else s
    case Exchange(value) =>
      s.(head := |s.nodes|, nodes := s.nodes + [Node(value, NULL, false)], producers := s.producers[t := Link(|s.nodes|, s.head)])
    case Link(me, prev) => s.(nodes := s.nodes[prev := s.nodes[prev].(next := me)], producers := s.producers[t := Idle])
  }

  predicate Reads<T>(s: State<T>) {
    match s.consumer
    case LoadNext(_, tail) => IsNode(s, tail)
    case StoreTail(tail, next) => IsNode(s, next)
    case Free(tail) => IsNode(s, tail)
    case _ => true
  }

  function ConsumerStep<T>(s: State<T>, c: Choice<T>): State<T>
    requires Reads(s)
  {
    match s.consumer
    case Resting => if c.Consume? then s.(consumer := LoadTail(c.call)) else s
    case LoadTail(call) => s.(consumer := LoadNext(call, s.tail))
    case LoadNext(call, tail) =>
      var next := s.nodes[tail].next;
      s.(consumer :=
        if next == NULL then Failed(tail)
        else if call == Peek then Succeeded(Peek, next)
        else StoreTail(tail, next))
    // The value is moved out and destroyed before the next node becomes the sentinel.
    case StoreTail(tail, next) => s.(tail := next, consumer := Free(tail), taken := s.taken + [s.nodes[next].value])
    case Free(tail) => s.(nodes := s.nodes[tail := s.nodes[tail].(freed := true)], consumer := Succeeded(Dequeue, tail + 1))
    case Succeeded(_, _) => s.(consumer := Resting)
    case Failed(_) => s.(consumer := Resting)
  }

  function Values<T>(nodes: seq<Node<T>>): (r: seq<T>)
    ensures |r| == |nodes| && forall i :: 0 <= i < |r| ==> r[i] == nodes[i].value
  {
    seq(|nodes|, i requires 0 <= i < |nodes| => nodes[i].value)
  }

  ghost predicate Pending<T>(s: State<T>, n: int) {
    exists t :: 0 <= t < |s.producers| && s.producers[t].Link? && s.producers[t].me == n
  }

  ghost predicate ConsumerKnows<T>(s: State<T>) {
    match s.consumer
    case LoadNext(_, tail) => tail == s.tail
    case StoreTail(tail, next) => tail == s.tail && next == tail + 1 && IsNode(s, tail) && IsNode(s, next) && s.nodes[tail].next == next
    case Free(tail) => tail + 1 == s.tail
    case Succeeded(call, front) => front == if call == Peek then s.tail + 1 else s.tail
    case Failed(tail) => tail == s.tail
    case _ => true
  }

  // Each node leads to the next one or nowhere yet; up to the sentinel all are linked.
  ghost predicate Chained<T>(s: State<T>) {
    && s.head == |s.nodes| - 1 && 0 <= s.tail <= s.head
    && forall n :: IsNode(s, n) ==>
         && (s.nodes[n].next == NULL || s.nodes[n].next == n + 1 < |s.nodes|)
         && (n < s.tail ==> s.nodes[n].next != NULL)
  }

  predicate Missing<T>(s: State<T>, n: int) {
    IsNode(s, n) && n < s.head && s.nodes[n].next == NULL
  }

  // A missing link is some producer's to make,
  ghost predicate Awaited<T>(s: State<T>) {
    forall n :: Missing(s, n) ==> Pending(s, n + 1)
  }

  // and producers that have a link to make make different ones, all still missing.
  ghost predicate Linking<T>(s: State<T>) {
    && (forall t :: 0 <= t < |s.producers| && s.producers[t].Link? ==>
          var p := s.producers[t]; p.prev == p.me - 1 && IsNode(s, p.me) && IsNode(s, p.prev) && s.nodes[p.prev].next == NULL)
    && (forall t, u :: 0 <= t < u < |s.producers| && s.producers[t].Link? && s.producers[u].Link? ==>
          s.producers[t].me != s.producers[u].me)
  }

  // Freed nodes are those before the sentinel, but for the one about to be freed.
  ghost predicate Freed<T>(s: State<T>) {
    forall n :: IsNode(s, n) ==> (s.nodes[n].freed <==> n < s.tail && s.consumer != Free(n))
  }

  ghost predicate Inv<T>(s: State<T>) {
    Chained(s) && Awaited(s) && Linking(s) && Freed(s) && ConsumerKnows(s) && s.taken == Values(s.nodes)[1..s.tail + 1]
  }

  ghost predicate Initial<T>(s: State<T>) {
    && s.head == 0 && s.tail == 0 && |s.nodes| == 1 && s.nodes[0].next == NULL && !s.nodes[0].freed && s.taken == []
    && s.consumer == Resting && forall t :: 0 <= t < |s.producers| ==> s.producers[t] == Idle
  }

  ghost predicate Next<T(!new)>(s: State<T>, s': State<T>) {
    || (exists t: nat, c :: t < |s.producers| && Holds(s, s.producers[t]) && s' == Produce(s, t, c))
    || (exists c :: Reads(s) && s' == ConsumerStep(s, c))
  }

  ghost predicate Run<T(!new)>(run: seq<State<T>>) {
    run != [] && Initial(run[0]) && forall i :: 0 < i < |run| ==> Next(run[i - 1], run[i])
  }

  lemma ProduceChained<T>(s: State<T>, t: nat, c: Choice<T>)
    requires Chained(s) && Linking(s) && t < |s.producers| && Holds(s, s.producers[t])
    ensures Chained(Produce(s, t, c)) && Linking(Produce(s, t, c))
  {}

  lemma ProduceAwaited<T>(s: State<T>, t: nat, c: Choice<T>)
    requires Chained(s) && Linking(s) && Awaited(s) && t < |s.producers| && Holds(s, s.producers[t])
    ensures Awaited(Produce(s, t, c))
  {
    hide Chained;
    assert s.head == |s.nodes| - 1 by { ChainedBounds(s); }
    var s' := Produce(s, t, c);
    forall n | Missing(s', n) ensures Pending(s', n + 1) {
      if n < s.head {
        assert Missing(s, n);
        var u :| 0 <= u < |s.producers| && s.producers[u].Link? && s.producers[u].me == n + 1;
        assert s'.producers[u] == s.producers[u];
      } else {
        assert s'.producers[t].me == n + 1;
      }
    }
  }

  lemma ProduceKeepsInv<T>(s: State<T>, t: nat, c: Choice<T>)
    requires Inv(s) && t < |s.producers| && Holds(s, s.producers[t])
    ensures Inv(Produce(s, t, c))
  {
    hide Awaited, Linking;
    var s' := Produce(s, t, c);
    ProduceChained(s, t, c);
    ProduceAwaited(s, t, c);
    assert Values(s'.nodes)[1..s.tail + 1] == Values(s.nodes)[1..s.tail + 1];
  }

  lemma ConsumeChained<T>(s: State<T>, c: Choice<T>)
    requires Chained(s) && Awaited(s) && Linking(s) && ConsumerKnows(s) && Reads(s)
    ensures var s' := ConsumerStep(s, c); Chained(s') && Awaited(s') && Linking(s') && Values(s'.nodes) == Values(s.nodes)
  {
    var s' := ConsumerStep(s, c);
    forall n | Missing(s', n) ensures Pending(s', n + 1) {
      assert Missing(s, n);
    }
  }

  lemma ConsumeKeepsInv<T>(s: State<T>, c: Choice<T>)
    requires Inv(s) && Reads(s)
    ensures Inv(ConsumerStep(s, c))
  {
    hide Awaited, Linking;
    ConsumeChained(s, c);
    if s.consumer.StoreTail? { assert Values(s.nodes)[1..s.tail + 2] == Values(s.nodes)[1..s.tail + 1] + [s.nodes[s.tail + 1].value]; }
  }

  lemma {:induction false} RunKeepsInv<T(!new)>(run: seq<State<T>>, i: nat)
    requires Run(run) && i < |run|
    ensures Inv(run[i])
  {
    hide Inv, Produce, ConsumerStep;
    if i == 0 {
      InitialInv(run[0]);
    } else {
      RunKeepsInv(run, i - 1);
      var s, s' := run[i - 1], run[i];
      if t: nat, c :| t < |s.producers| && Holds(s, s.producers[t]) && s' == Produce(s, t, c) {
        ProduceKeepsInv(s, t, c);
      } else {
        var c :| Reads(s) && s' == ConsumerStep(s, c);
        ConsumeKeepsInv(s, c);
      }
    }
  }

  lemma InitialInv<T>(s: State<T>)
    requires Initial(s)
    ensures Inv(s)
  {}

  /** First in, first out: what has been taken is the first values in head-exchange order. */
  lemma TakenInOrder<T(!new)>(run: seq<State<T>>, i: nat)
    requires Run(run) && i < |run|
    ensures 0 <= run[i].tail < |run[i].nodes| && run[i].taken == Values(run[i].nodes)[1..run[i].tail + 1]
    ensures run[i].taken <= Values(run[i].nodes)[1..]
  {
    hide Run, Chained, Freed;
    RunKeepsInv(run, i);
    ChainedBounds(run[i]);
  }

  lemma ChainedBounds<T>(s: State<T>)
    requires Chained(s)
    ensures 0 <= s.tail <= s.head == |s.nodes| - 1
  {}

  // A node once exchanged keeps its value and its place.
  lemma {:induction false} OrderFixed<T(!new)>(run: seq<State<T>>, i: nat, j: nat)
    requires Run(run) && i <= j < |run|
    ensures Values(run[i].nodes) <= Values(run[j].nodes) && run[i].taken <= run[j].taken
    decreases j
  {
    hide Inv;
    if i < j {
      OrderFixed(run, i, j - 1);
      var s, s' := run[j - 1], run[j];
      assert Next(s, s');
      assert Values(s.nodes) <= Values(s'.nodes);
    }
  }

  /** A dequeue that fails read the oldest node's link when the queue was empty or its producer still had to link it. */
  lemma FailsOnlyWhenDue<T(!new)>(run: seq<State<T>>, i: nat, call: Call)
    requires Run(run) && 0 < i < |run| && run[i - 1].consumer == LoadNext(call, run[i - 1].tail) && run[i].consumer.Failed?
    ensures run[i].tail == run[i].head || Pending(run[i], run[i].tail + 1)
  {
    hide Pending, Linking, Freed;
    RunKeepsInv(run, i - 1);
    RunKeepsInv(run, i);
    assert Next(run[i - 1], run[i]);
    ChainedBounds(run[i]);
    assert run[i].tail < run[i].head ==> Missing(run[i], run[i].tail);
  }

  /** No thread touches a freed node: neither a producer linking through it nor the consumer. */
  lemma NoUseAfterFree<T(!new)>(run: seq<State<T>>, i: nat, t: nat)
    requires Run(run) && i < |run| && t < |run[i].producers|
    ensures run[i].producers[t].Link? ==> IsNode(run[i], run[i].producers[t].prev) && !run[i].nodes[run[i].producers[t].prev].freed
    ensures run[i].consumer.LoadNext? ==> IsNode(run[i], run[i].consumer.tail) && !run[i].nodes[run[i].consumer.tail].freed
    ensures run[i].consumer.StoreTail? ==> IsNode(run[i], run[i].consumer.next) && !run[i].nodes[run[i].consumer.next].freed
  {
    hide Run;
    RunKeepsInv(run, i);
  }

  // ── What a call does ────────────────────────────────────────────

  // The value passed to an enqueue is what its exchange stores.
  predicate Enqueues<T(==)>(s: State<T>, p: Producer<T>, value: T) {
    match p
    case Idle => false
    case Exchange(v) => v == value
    case Link(me, _) => IsNode(s, me) && s.nodes[me].value == value
  }

  /** Between its call and its return an enqueue is about to store the value passed, or has stored it. */
  lemma {:induction false} EnqueueStores<T(!new)>(run: seq<State<T>>, t: nat, value: T, i: nat, j: nat)
    requires Run(run) && i < j < |run| && t < |run[i].producers| && run[i].producers[t] == Idle
    requires run[i + 1] == Produce(run[i], t, Enqueue(value))
    requires forall k :: i < k <= j ==> t < |run[k].producers| && run[k].producers[t] != Idle
    ensures Enqueues(run[j], run[j].producers[t], value)
    decreases j
  {
    hide Inv, Next;
    if i + 1 < j {
      EnqueueStores(run, t, value, i, j - 1);
      hide Enqueues;
      EnqueueStays(run[j - 1], run[j], t, value);
    }
  }

  lemma EnqueueStays<T(!new)>(s: State<T>, s': State<T>, t: nat, value: T)
    requires Next(s, s') && t < |s.producers| && t < |s'.producers| && Enqueues(s, s.producers[t], value)
    ensures s'.producers[t] == Idle || Enqueues(s', s'.producers[t], value)
  {}

  /** Whatever the others do, two accesses of its own complete an enqueue: it is next in order, then linked. */
  lemma EnqueueCompletes<T(!new)>(run: seq<State<T>>, i: nat, t: nat, c: Choice<T>)
    requires Run(run) && i < |run| && t < |run[i].producers| && Holds(run[i], run[i].producers[t])
    ensures var s, s' := run[i], Produce(run[i], t, c);
            && (s.producers[t] == Idle && c.Enqueue? ==> s'.producers[t] == Exchange(c.value))
            && (s.producers[t].Exchange? ==>
                  && s'.producers[t] == Link(|s.nodes|, |s.nodes| - 1) && Values(s'.nodes) == Values(s.nodes) + [s.producers[t].value])
            && (s.producers[t].Link? ==> s'.producers[t] == Idle && IsNode(s', s.producers[t].prev) && s'.nodes[s.producers[t].prev].next == s.producers[t].me)
  {
    hide Run, Awaited, Freed;
    RunKeepsInv(run, i);
  }

  // Where a call of the consumer stands that began in s0.
  ghost predicate Consuming<T>(s0: State<T>, s: State<T>, call: Call) {
    && |s0.nodes| <= |s.nodes| && 0 <= s0.tail < |s0.nodes| && (s0.nodes[s0.tail].next != NULL ==> s.nodes[s0.tail].next == s0.nodes[s0.tail].next)
    && match s.consumer
       case LoadTail(c) => c == call && Untaken(s0, s)
       case LoadNext(c, tail) => c == call && tail == s0.tail && Untaken(s0, s)
       case StoreTail(tail, next) => call != Peek && tail == s0.tail && Untaken(s0, s)
       case Free(tail) => call != Peek && tail == s0.tail && TakenOne(s0, s)
       case Succeeded(_, front) =>
         front == s0.tail + 1 < |s.nodes| && if call == Peek then Untaken(s0, s) else TakenOne(s0, s) && s.nodes[s0.tail].freed
       case Failed(_) => s0.nodes[s0.tail].next == NULL && Untaken(s0, s)
       case Resting => false
  }

  ghost predicate Untaken<T>(s0: State<T>, s: State<T>) {
    s.tail == s0.tail && s.taken == s0.taken
  }

  ghost predicate TakenOne<T>(s0: State<T>, s: State<T>) {
    s.tail == s0.tail + 1 && IsNode(s, s.tail) && s.taken == s0.taken + [s.nodes[s.tail].value]
  }

  function Accesses(c: Consumer): nat {
    match c
    case LoadTail(_) => 4
    case LoadNext(_, _) => 3
    case StoreTail(_, _) => 2
    case Free(_) => 1
    case _ => 0
  }

  lemma ConsumingProduce<T>(s0: State<T>, s: State<T>, call: Call, t: nat, c: Choice<T>)
    requires Inv(s) && Consuming(s0, s, call) && t < |s.producers| && Holds(s, s.producers[t])
    ensures Consuming(s0, Produce(s, t, c), call)
  {
    hide Awaited, Freed, Chained;
  }

  lemma ConsumingStep<T>(s0: State<T>, s: State<T>, call: Call, c: Choice<T>)
    requires Inv(s) && Consuming(s0, s, call) && Reads(s) && !s.consumer.Succeeded? && !s.consumer.Failed?
    ensures Consuming(s0, ConsumerStep(s, c), call) && Accesses(ConsumerStep(s, c).consumer) < Accesses(s.consumer)
  {
    hide Awaited, Freed, Linking;
  }

  lemma {:induction false} ConsumingOn<T(!new)>(run: seq<State<T>>, call: Call, i: nat, j: nat)
    requires Run(run) && i <= j < |run| && run[i].consumer == LoadTail(call)
    requires forall k :: i <= k <= j ==> run[k].consumer != Resting
    ensures Consuming(run[i], run[j], call)
    decreases j
  {
    hide Inv, Produce, ConsumerStep, Consuming;
    if i == j {
      RunKeepsInv(run, i);
      ConsumeBegins(run[i], call);
    } else {
      ConsumingOn(run, call, i, j - 1);
      RunKeepsInv(run, j - 1);
      var s, s' := run[j - 1], run[j];
      assert Next(s, s');
      if t: nat, c :| t < |s.producers| && Holds(s, s.producers[t]) && s' == Produce(s, t, c) {
        ConsumingProduce(run[i], s, call, t, c);
      } else {
        var c :| Reads(s) && s' == ConsumerStep(s, c);
        if s.consumer.Succeeded? || s.consumer.Failed? {
          ConsumeEnds(s, c);
        } else {
          ConsumingStep(run[i], s, call, c);
        }
      }
    }
  }

  lemma ConsumeBegins<T>(s: State<T>, call: Call)
    requires Inv(s) && s.consumer == LoadTail(call)
    ensures Consuming(s, s, call)
  {}

  lemma ConsumeEnds<T>(s: State<T>, c: Choice<T>)
    requires Reads(s) && (s.consumer.Succeeded? || s.consumer.Failed?)
    ensures ConsumerStep(s, c).consumer == Resting
  {}

  /**
   A call that begins with the oldest element linked succeeds, whatever producers do: dequeue and
   removeFront take just that element and free the old sentinel, peek shows it and takes none.  A call
   that fails takes nothing.
   */
  lemma ConsumeTakes<T(!new)>(run: seq<State<T>>, call: Call, i: nat, j: nat)
    requires Run(run) && i < j < |run| && run[i].consumer == LoadTail(call)
    requires forall k :: i <= k <= j ==> run[k].consumer != Resting
    requires run[j].consumer.Succeeded? || run[j].consumer.Failed?
    ensures 0 <= run[i].tail < |run[i].nodes| <= |run[j].nodes|
    ensures run[i].nodes[run[i].tail].next != NULL ==> run[j].consumer.Succeeded?
    ensures run[j].consumer.Failed? || call == Peek ==> run[j].tail == run[i].tail && run[j].taken == run[i].taken
    ensures run[j].consumer.Succeeded? ==>
      && run[j].consumer.front == run[i].tail + 1 < |run[j].nodes|
      && (call != Peek ==>
            && run[j].tail == run[i].tail + 1 && run[j].nodes[run[i].tail].freed
            && run[j].taken == run[i].taken + [run[j].nodes[run[i].tail + 1].value])
  {
    hide Run, Awaited, Linking, Freed;
    ConsumingOn(run, call, i, j);
    RunKeepsInv(run, j);
  }

  /** And within four accesses of the consumer's own. */
  lemma ConsumeAdvances<T(!new)>(run: seq<State<T>>, call: Call, i: nat, j: nat, c: Choice<T>)
    requires Run(run) && i <= j < |run| && run[i].consumer == LoadTail(call)
    requires forall k :: i <= k <= j ==> run[k].consumer != Resting
    requires !run[j].consumer.Succeeded? && !run[j].consumer.Failed?
    ensures Reads(run[j]) && Accesses(ConsumerStep(run[j], c).consumer) < Accesses(run[j].consumer) <= 4
  {
    hide Run, Awaited, Linking, Freed;
    ConsumingOn(run, call, i, j);
    RunKeepsInv(run, j);
    ConsumingStep(run[i], run[j], call, c);
  }

  // At rest, the consumer begins the call it is asked for and nothing else happens.
  lemma AtRestBegins<T>(s: State<T>, call: Call)
    requires s.consumer == Resting
    ensures ConsumerStep(s, Consume(call)) == s.(consumer := LoadTail(call))
  {}
}

/**
 The bucket chains of the lock-free map as a step system: any number of threads, one atomic access
 per step, sequential consistency.

 A node is named by its place in link order, so identities are never reused and a chain always runs
 from newer to older names.  A node under construction is private to its thread and is not in the
 state yet.  Three values are history, read by no step: Node.settled, and since in a search or a lookup.
 */
module BucketChain {
  import opened Powers

  const NULL := -1

  // A key carries its hash: equal keys hash alike.
  datatype Key = Key(name: nat, hash: nat)

  datatype Node = Node(key: Key, next: int, deleted: bool, settled: bool)

  // What follows the attempt to unlink a node.
  datatype After = RetryInsert(key: Key) | GiveUp | ReportRemoved

  datatype Lookup = ForInsert | ForRemove

  datatype Pc =
    | Idle
    | Returned(ok: bool)
    // find
    | FindHead(key: Key)
    | FindNode(key: Key, curr: int, since: nat)
    | FindNext(key: Key, curr: int, since: nat)
    | Found(key: Key, node: int)
    | NotFound(key: Key, since: nat)
    // find_in_bucket
    | LookupHead(why: Lookup, key: Key)
    | LookupNode(why: Lookup, key: Key, curr: int, since: nat)
    // insert
    | InsertCheck(key: Key, node: int)
    | InsertHead(key: Key)
    | InsertCas(key: Key, oldHead: int)
    | ScanFirst(me: int)
    | ScanNode(me: int, curr: int)
    | ScanNext(me: int, curr: int)
    | BackOff(me: int)
    // remove
    | RemoveCas(key: Key, node: int, since: nat)
    // try_unlink_from_bucket
    | UnlinkHead(node: int, after: After)
    | UnlinkNode(node: int, prev: int, curr: int, after: After)
    | UnlinkCas(node: int, prev: int, next: int, after: After)
    // the collector's bucket sweep
    | SweepHead(bucket: nat)
    | SweepNode(bucket: nat, prev: int, curr: int)
    | SweepCheck(bucket: nat, prev: int, curr: int, next: int)
    | SweepCas(bucket: nat, prev: int, curr: int, next: int)

  datatype Memory = Memory(heads: seq<int>, nodes: seq<Node>)

  datatype State = State(memory: Memory, threads: seq<Pc>)

  datatype Choice =
    | StartFind(key: Key)
    | StartInsert(key: Key)
    | StartRemove(key: Key)
    | StartSweep
    | Continue(spurious: bool)

  function Index(key: Key, count: nat): (index: nat)
    requires count > 0
    ensures index < count
  {
    key.hash % count
  }

  function Bucket(s: Memory, key: Key): (bucket: nat)
    requires |s.heads| > 0
    ensures bucket < |s.heads|
  {
    Index(key, |s.heads|)
  }

  predicate IsNode(s: Memory, n: int) {
    0 <= n < |s.nodes|
  }

  // ── One atomic access ───────────────────────────────────────────

  // prev names the pointer a traversal came through: a node's next, or the head of the bucket.
  function Load(s: Memory, bucket: nat, prev: int): int
    requires bucket < |s.heads| && (prev == NULL || IsNode(s, prev))
  {
    if prev == NULL then s.heads[bucket] else s.nodes[prev].next
  }

  function CompareExchange(s: Memory, bucket: nat, prev: int, expected: int, next: int): Memory
    requires bucket < |s.heads| && (prev == NULL || IsNode(s, prev))
  {
    if Load(s, bucket, prev) != expected then s
    else if prev == NULL then s.(heads := s.heads[bucket := next])
    else s.(nodes := s.nodes[prev := s.nodes[prev].(next := next)])
  }

  function Delete(s: Memory, n: int): Memory
    requires IsNode(s, n)
  {
    s.(nodes := s.nodes[n := s.nodes[n].(deleted := true)])
  }

  function Settle(s: Memory, n: int): Memory
    requires IsNode(s, n)
  {
    s.(nodes := s.nodes[n := s.nodes[n].(settled := true)])
  }

  function Link(s: Memory, key: Key, oldHead: int): Memory
    requires |s.heads| > 0
  {
    s.(heads := s.heads[Bucket(s, key) := |s.nodes|], nodes := s.nodes + [Node(key, oldHead, false, false)])
  }

  function Finish(after: After): Pc {
    match after
    case RetryInsert(key) => LookupHead(ForInsert, key)
    case GiveUp => Returned(false)
    case ReportRemoved => Returned(true)
  }

  function Started(c: Choice): Pc {
    match c
    case StartFind(key) => FindHead(key)
    case StartInsert(key) => LookupHead(ForInsert, key)
    case StartRemove(key) => LookupHead(ForRemove, key)
    case StartSweep => SweepHead(0)
    case Continue(_) => Idle
  }

  // The pointers a thread holds name nodes, of the bucket it walks.
  predicate Held(s: Memory, bucket: nat, n: int)
    requires |s.heads| > 0
  {
    n == NULL || (IsNode(s, n) && Bucket(s, s.nodes[n].key) == bucket)
  }

  predicate HeldBy(s: Memory, pc: Pc)
    requires |s.heads| > 0
  {
    match pc
    case FindNode(key, curr, _) => Held(s, Bucket(s, key), curr)
    case FindNext(key, curr, _) => IsNode(s, curr) && s.nodes[curr].key == key
    case LookupNode(_, key, curr, _) => Held(s, Bucket(s, key), curr)
    case InsertCheck(key, node) => IsNode(s, node) && s.nodes[node].key == key
    case InsertCas(key, oldHead) => Held(s, Bucket(s, key), oldHead)
    case ScanFirst(me) => IsNode(s, me)
    case ScanNode(me, curr) => IsNode(s, me) && Held(s, Bucket(s, s.nodes[me].key), curr)
    case ScanNext(me, curr) => IsNode(s, me) && IsNode(s, curr) && s.nodes[curr].key == s.nodes[me].key
    case BackOff(me) => IsNode(s, me)
    case RemoveCas(key, node, _) => IsNode(s, node) && s.nodes[node].key == key
    case UnlinkHead(node, _) => IsNode(s, node)
    case UnlinkNode(node, prev, curr, _) =>
      IsNode(s, node) && Held(s, Bucket(s, s.nodes[node].key), prev) && Held(s, Bucket(s, s.nodes[node].key), curr)
    case UnlinkCas(node, prev, next, _) =>
      IsNode(s, node) && Held(s, Bucket(s, s.nodes[node].key), prev) && Held(s, Bucket(s, s.nodes[node].key), next)
    case SweepHead(bucket) => bucket < |s.heads|
    case SweepNode(bucket, prev, curr) => bucket < |s.heads| && Held(s, bucket, prev) && Held(s, bucket, curr)
    case SweepCheck(bucket, prev, curr, next) =>
      bucket < |s.heads| && Held(s, bucket, prev) && curr != NULL && Held(s, bucket, curr) && Held(s, bucket, next)
    case SweepCas(bucket, prev, curr, next) =>
      bucket < |s.heads| && Held(s, bucket, prev) && curr != NULL && Held(s, bucket, curr) && Held(s, bucket, next)
    case _ => true
  }

  // The next access of a thread at pc, with its effect on shared memory and where it leads.
  function Access(s: Memory, pc: Pc, spurious: bool): (Memory, Pc)
    requires |s.heads| > 0 && HeldBy(s, pc)
  {
    match pc
    case Idle => (s, Idle)
    case Returned(_) => (s, Idle)
    case Found(_, _) => (s, Idle)
    case NotFound(_, _) => (s, Idle)

    case FindHead(key) => (s, FindNode(key, s.heads[Bucket(s, key)], |s.nodes|))
    case FindNode(key, curr, since) =>
      if curr == NULL then (s, NotFound(key, since))
      else if s.nodes[curr].key != key then (s, FindNode(key, s.nodes[curr].next, since))
      else if !s.nodes[curr].deleted then (s, Found(key, curr))
      else (s, FindNext(key, curr, since))
    case FindNext(key, curr, since) => (s, FindNode(key, s.nodes[curr].next, since))

    case LookupHead(why, key) => (s, LookupNode(why, key, s.heads[Bucket(s, key)], |s.nodes|))
    case LookupNode(why, key, curr, since) =>
      if curr == NULL then (s, if why == ForInsert then InsertHead(key) else Returned(false))
      else if s.nodes[curr].key == key then (s, if why == ForInsert then InsertCheck(key, curr) else RemoveCas(key, curr, since))
      else (s, LookupNode(why, key, s.nodes[curr].next, since))

    case InsertCheck(key, node) =>
      (s, if !s.nodes[node].deleted then Returned(false) else UnlinkHead(node, RetryInsert(key)))
    case InsertHead(key) => (s, InsertCas(key, s.heads[Bucket(s, key)]))
    case InsertCas(key, oldHead) =>
      if spurious || s.heads[Bucket(s, key)] != oldHead then (s, LookupHead(ForInsert, key))
      else (Link(s, key, oldHead), ScanFirst(|s.nodes|))
    case ScanFirst(me) => (s, ScanNode(me, s.nodes[me].next))
    case ScanNode(me, curr) =>
      if curr == NULL then (Settle(s, me), Returned(true))
      else if s.nodes[curr].key != s.nodes[me].key then (s, ScanNode(me, s.nodes[curr].next))
      else if !s.nodes[curr].deleted then (s, BackOff(me))
      else (s, ScanNext(me, curr))
    case ScanNext(me, curr) => (s, ScanNode(me, s.nodes[curr].next))
    case BackOff(me) => (Delete(s, me), UnlinkHead(me, GiveUp))

    case RemoveCas(key, node, _) =>
      if s.nodes[node].deleted then (s, Returned(false))
      else if spurious then (s, LookupHead(ForRemove, key))
      else (Delete(s, node), UnlinkHead(node, ReportRemoved))

    case UnlinkHead(node, after) => (s, UnlinkNode(node, NULL, s.heads[Bucket(s, s.nodes[node].key)], after))
    case UnlinkNode(node, prev, curr, after) =>
      if curr == NULL then (s, Finish(after))
      else if curr == node then (s, UnlinkCas(node, prev, s.nodes[node].next, after))
      else (s, UnlinkNode(node, curr, s.nodes[curr].next, after))
    case UnlinkCas(node, prev, next, after) =>
      (CompareExchange(s, Bucket(s, s.nodes[node].key), prev, node, next), Finish(after))

    case SweepHead(bucket) => (s, SweepNode(bucket, NULL, s.heads[bucket]))
    case SweepNode(bucket, prev, curr) =>
      if curr != NULL then (s, SweepCheck(bucket, prev, curr, s.nodes[curr].next))
      else (s, if bucket + 1 < |s.heads| then SweepHead(bucket + 1) else Idle)
    case SweepCheck(bucket, prev, curr, next) =>
      (s, if s.nodes[curr].deleted then SweepCas(bucket, prev, curr, next) else SweepNode(bucket, curr, next))
    case SweepCas(bucket, prev, curr, next) =>
      (CompareExchange(s, bucket, prev, curr, next),
       if Load(s, bucket, prev) == curr then SweepNode(bucket, prev, next) else SweepHead(bucket))
  }

  // ── The invariant ───────────────────────────────────────────────

  // Every node of the bucket strictly between two places in link order is deleted.
  ghost predicate Dead(s: Memory, bucket: nat, older: int, newer: int)
    requires |s.heads| > 0
  {
    forall m :: older < m < newer && IsNode(s, m) && Bucket(s, s.nodes[m].key) == bucket ==> s.nodes[m].deleted
  }

  // Every node with the key strictly between the places is deleted.
  ghost predicate DeadKey(s: Memory, key: Key, older: int, newer: int) {
    forall m :: older < m < newer && IsNode(s, m) && s.nodes[m].key == key ==> s.nodes[m].deleted
  }

  // Each pointer skips only deleted nodes.
  ghost predicate Chain(s: Memory) {
    && |s.heads| > 0
    && (forall b :: 0 <= b < |s.heads| ==> Held(s, b, s.heads[b]) && Dead(s, b, s.heads[b], |s.nodes|))
    && (forall n :: IsNode(s, n) ==>
          && s.nodes[n].next < n && Held(s, Bucket(s, s.nodes[n].key), s.nodes[n].next)
          && Dead(s, Bucket(s, s.nodes[n].key), s.nodes[n].next, n))
  }

  // A node past its duplicate scan has no older live namesake.
  ghost predicate Unrivalled(s: Memory) {
    forall n :: IsNode(s, n) && s.nodes[n].settled ==> DeadKey(s, s.nodes[n].key, NULL, n)
  }

  // What a thread may rely on.
  ghost predicate Knows(s: Memory, pc: Pc)
    requires |s.heads| > 0
  {
    && HeldBy(s, pc)
    && match pc
       case FindNode(key, curr, since) => since <= |s.nodes| && DeadKey(s, key, curr, since)
       case FindNext(key, curr, since) => since <= |s.nodes| && DeadKey(s, key, curr - 1, since)
       case NotFound(key, since) => since <= |s.nodes| && DeadKey(s, key, NULL, since)
       case Found(key, node) => IsNode(s, node) && s.nodes[node].key == key
       case LookupNode(_, key, curr, since) => since <= |s.nodes| && DeadKey(s, key, curr, since)
       case RemoveCas(key, node, since) => since <= |s.nodes| && DeadKey(s, key, node, since)
       case ScanNode(me, curr) => curr < me && DeadKey(s, s.nodes[me].key, curr, me)
       case ScanNext(me, curr) => curr < me && DeadKey(s, s.nodes[me].key, curr - 1, me)
       case UnlinkHead(node, _) => s.nodes[node].deleted
       case UnlinkNode(node, _, _, _) => s.nodes[node].deleted
       case UnlinkCas(node, _, next, _) =>
         s.nodes[node].deleted && next < node && Dead(s, Bucket(s, s.nodes[node].key), next, node)
       case SweepCheck(bucket, _, curr, next) => next < curr && Dead(s, bucket, next, curr)
       case SweepCas(bucket, _, curr, next) => s.nodes[curr].deleted && next < curr && Dead(s, bucket, next, curr)
       case _ => true
  }

  ghost predicate Inv(s: State) {
    Chain(s.memory) && Unrivalled(s.memory) && forall t :: 0 <= t < |s.threads| ==> Knows(s.memory, s.threads[t])
  }

  // Thread t makes its next access, or starts a call.
  function Step(s: State, t: nat, c: Choice): State
    requires |s.memory.heads| > 0 && t < |s.threads| && HeldBy(s.memory, s.threads[t])
  {
    if s.threads[t] == Idle then s.(threads := s.threads[t := Started(c)])
    else
      var r := Access(s.memory, s.threads[t], c.Continue? && c.spurious);
      State(r.0, s.threads[t := r.1])
  }

  ghost predicate Initial(s: State) {
    && |s.memory.heads| > 0 && s.memory.nodes == []
    && (forall b :: 0 <= b < |s.memory.heads| ==> s.memory.heads[b] == NULL)
    && (forall t :: 0 <= t < |s.threads| ==> s.threads[t] == Idle)
  }

  ghost predicate Next(s: State, s': State) {
    exists t: nat, c :: |s.memory.heads| > 0 && t < |s.threads| && HeldBy(s.memory, s.threads[t]) && s' == Step(s, t, c)
  }

  ghost predicate Run(run: seq<State>) {
    run != [] && Initial(run[0]) && forall i :: 0 < i < |run| ==> Next(run[i - 1], run[i])
  }

  // ── Every step keeps it ─────────────────────────────────────────

  // Nodes stay, keep their keys, and stay deleted.
  ghost predicate Grows(s: Memory, s': Memory) {
    && |s'.heads| == |s.heads| && |s.nodes| <= |s'.nodes|
    && forall n :: IsNode(s, n) ==> s'.nodes[n].key == s.nodes[n].key && (s.nodes[n].deleted ==> s'.nodes[n].deleted)
  }

  lemma DeadGrows(s: Memory, s': Memory, bucket: nat, older: int, newer: int)
    requires |s.heads| > 0 && Grows(s, s') && newer <= |s.nodes| && Dead(s, bucket, older, newer)
    ensures Dead(s', bucket, older, newer)
  {
    forall m | older < m < newer && IsNode(s', m) && Bucket(s', s'.nodes[m].key) == bucket ensures s'.nodes[m].deleted {
      assert IsNode(s, m) && Bucket(s, s.nodes[m].key) == bucket;
    }
  }

  lemma DeadKeyGrows(s: Memory, s': Memory, key: Key, older: int, newer: int)
    requires Grows(s, s') && newer <= |s.nodes| && DeadKey(s, key, older, newer)
    ensures DeadKey(s', key, older, newer)
  {
    forall m | older < m < newer && IsNode(s', m) && s'.nodes[m].key == key ensures s'.nodes[m].deleted {
      assert IsNode(s, m);
    }
  }

  // Nobody else's step takes away what a thread relies on.
  lemma KnowsGrows(s: Memory, s': Memory, pc: Pc)
    requires |s.heads| > 0 && Grows(s, s') && Knows(s, pc)
    ensures Knows(s', pc)
  {
    hide Index, Dead, DeadKey;
    match pc
    case FindNode(key, curr, since) => DeadKeyGrows(s, s', key, curr, since);
    case FindNext(key, curr, since) => DeadKeyGrows(s, s', key, curr - 1, since);
    case NotFound(key, since) => DeadKeyGrows(s, s', key, NULL, since);
    case LookupNode(_, key, curr, since) => DeadKeyGrows(s, s', key, curr, since);
    case RemoveCas(key, node, since) => DeadKeyGrows(s, s', key, node, since);
    case ScanNode(me, curr) => DeadKeyGrows(s, s', s.nodes[me].key, curr, me);
    case ScanNext(me, curr) => DeadKeyGrows(s, s', s.nodes[me].key, curr - 1, me);
    case UnlinkCas(node, _, next, _) => DeadGrows(s, s', Bucket(s, s.nodes[node].key), next, node);
    case SweepCheck(bucket, _, curr, next) => DeadGrows(s, s', bucket, next, curr);
    case SweepCas(bucket, _, curr, next) => DeadGrows(s, s', bucket, next, curr);
    case _ =>
  }

  // Stepping over a node that does not carry the key, or is deleted.
  lemma Passed(s: Memory, key: Key, curr: int, newer: int)
    requires Chain(s) && IsNode(s, curr) && Bucket(s, s.nodes[curr].key) == Bucket(s, key)
    requires DeadKey(s, key, curr, newer) && (s.nodes[curr].key == key ==> s.nodes[curr].deleted)
    ensures DeadKey(s, key, s.nodes[curr].next, newer)
  {
    assert Dead(s, Bucket(s, key), s.nodes[curr].next, curr);
  }

  lemma DeletedKeepsInv(s: Memory, n: int)
    requires Chain(s) && Unrivalled(s) && IsNode(s, n)
    ensures Grows(s, Delete(s, n)) && Chain(Delete(s, n)) && Unrivalled(Delete(s, n))
  {
    PointersGrow(s, Delete(s, n));
  }

  // Deleting or settling moves no pointer.
  lemma PointersGrow(s: Memory, s': Memory)
    requires Chain(s) && Unrivalled(s) && Grows(s, s') && s'.heads == s.heads && |s'.nodes| == |s.nodes|
    requires forall n :: IsNode(s, n) ==> s'.nodes[n].next == s.nodes[n].next
    ensures Chain(s')
    ensures (forall n :: IsNode(s, n) ==> s'.nodes[n].settled == s.nodes[n].settled) ==> Unrivalled(s')
  {
    hide Index, Dead, DeadKey;
    forall b | 0 <= b < |s'.heads| ensures Held(s', b, s'.heads[b]) && Dead(s', b, s'.heads[b], |s'.nodes|) {
      DeadGrows(s, s', b, s.heads[b], |s.nodes|);
    }
    forall n | IsNode(s', n)
      ensures Held(s', Bucket(s', s'.nodes[n].key), s'.nodes[n].next) && Dead(s', Bucket(s', s'.nodes[n].key), s'.nodes[n].next, n)
      ensures s'.nodes[n].next < n
      ensures s.nodes[n].settled ==> DeadKey(s', s'.nodes[n].key, NULL, n)
    {
      assert IsNode(s, n);
      DeadGrows(s, s', Bucket(s, s.nodes[n].key), s.nodes[n].next, n);
      if s.nodes[n].settled { DeadKeyGrows(s, s', s.nodes[n].key, NULL, n); }
    }
  }

  lemma SettledKeepsInv(s: Memory, n: int)
    requires Chain(s) && Unrivalled(s) && IsNode(s, n) && DeadKey(s, s.nodes[n].key, NULL, n)
    ensures Grows(s, Settle(s, n)) && Chain(Settle(s, n)) && Unrivalled(Settle(s, n))
  {
    hide Index, Dead, DeadKey;
    var s' := Settle(s, n);
    PointersGrow(s, s');
    forall m | IsNode(s', m) && s'.nodes[m].settled ensures DeadKey(s', s'.nodes[m].key, NULL, m) {
      assert IsNode(s, m);
      DeadKeyGrows(s, s', s.nodes[m].key, NULL, m);
    }
  }

  // Unlinking a deleted node to what its next once was: that may bring deleted nodes back into the
  // chain, never drop a live one.
  lemma UnlinkedKeepsInv(s: Memory, bucket: nat, prev: int, node: int, next: int)
    requires Chain(s) && Unrivalled(s) && bucket < |s.heads|
    requires Held(s, bucket, prev) && node != NULL && Held(s, bucket, node) && Held(s, bucket, next)
    requires s.nodes[node].deleted && next < node && Dead(s, bucket, next, node)
    ensures var s' := CompareExchange(s, bucket, prev, node, next); Grows(s, s') && Chain(s') && Unrivalled(s')
  {
    hide Index, Dead, DeadKey;
    var s' := CompareExchange(s, bucket, prev, node, next);
    forall b | 0 <= b < |s'.heads| ensures Held(s', b, s'.heads[b]) && Dead(s', b, s'.heads[b], |s'.nodes|) {
      DeadGrows(s, s', b, s.heads[b], |s.nodes|);
      if s'.heads[b] != s.heads[b] { Bridged(s, s', bucket, next, node, |s.nodes|); }
    }
    forall n | IsNode(s', n)
      ensures s'.nodes[n].next < n && Held(s', Bucket(s', s'.nodes[n].key), s'.nodes[n].next)
      ensures Dead(s', Bucket(s', s'.nodes[n].key), s'.nodes[n].next, n)
      ensures s'.nodes[n].settled ==> DeadKey(s', s'.nodes[n].key, NULL, n)
    {
      assert IsNode(s, n);
      DeadGrows(s, s', Bucket(s, s.nodes[n].key), s.nodes[n].next, n);
      if s'.nodes[n].next != s.nodes[n].next { Bridged(s, s', bucket, next, node, n); }
      if s.nodes[n].settled { DeadKeyGrows(s, s', s.nodes[n].key, NULL, n); }
    }
  }

  lemma Bridged(s: Memory, s': Memory, bucket: nat, older: int, node: int, newer: int)
    requires |s.heads| > 0 && Grows(s, s') && IsNode(s, node) && s.nodes[node].deleted && node < newer <= |s.nodes|
    requires Dead(s, bucket, older, node) && Dead(s, bucket, node, newer)
    ensures Dead(s', bucket, older, newer)
  {
    assert Dead(s, bucket, older, newer);
    DeadGrows(s, s', bucket, older, newer);
  }

  lemma LinkedKeepsInv(s: Memory, key: Key)
    requires Chain(s) && Unrivalled(s)
    ensures var s' := Link(s, key, s.heads[Bucket(s, key)]); Grows(s, s') && Chain(s') && Unrivalled(s')
  {
    hide Index, Dead, DeadKey;
    var bucket := Bucket(s, key);
    var s' := Link(s, key, s.heads[bucket]);
    forall b | 0 <= b < |s'.heads| ensures Held(s', b, s'.heads[b]) && Dead(s', b, s'.heads[b], |s'.nodes|) {
      DeadGrows(s, s', b, s.heads[b], |s.nodes|);
      NewestDead(s', b, s'.heads[b], |s.nodes|);
    }
    forall n | IsNode(s', n)
      ensures s'.nodes[n].next < n && Held(s', Bucket(s', s'.nodes[n].key), s'.nodes[n].next)
      ensures Dead(s', Bucket(s', s'.nodes[n].key), s'.nodes[n].next, n)
      ensures s'.nodes[n].settled ==> DeadKey(s', s'.nodes[n].key, NULL, n)
    {
      if n == |s.nodes| {
        DeadGrows(s, s', bucket, s.heads[bucket], |s.nodes|);
      } else {
        assert IsNode(s, n);
        DeadGrows(s, s', Bucket(s, s.nodes[n].key), s.nodes[n].next, n);
        if s.nodes[n].settled { DeadKeyGrows(s, s', s.nodes[n].key, NULL, n); }
      }
    }
  }

  // Past the newest node there is nothing; before it, another bucket's head still skips only the dead.
  lemma NewestDead(s: Memory, b: nat, head: int, newest: nat)
    requires |s.heads| > 0 && |s.nodes| == newest + 1
    requires head == newest || (Dead(s, b, head, newest) && Bucket(s, s.nodes[newest].key) != b)
    ensures Dead(s, b, head, |s.nodes|)
  {}

  // One access keeps the chains.
  lemma AccessKeeps(s: Memory, pc: Pc, spurious: bool)
    requires Chain(s) && Unrivalled(s) && Knows(s, pc)
    ensures var s' := Access(s, pc, spurious).0; Grows(s, s') && Chain(s') && Unrivalled(s')
  {
    hide Index, Dead, DeadKey, Unrivalled;
    match pc
    case InsertCas(key, oldHead) => LinkedKeepsInv(s, key);
    case ScanNode(me, curr) => if curr == NULL { SettledKeepsInv(s, me); }
    case BackOff(me) => DeletedKeepsInv(s, me);
    case RemoveCas(_, node, _) => DeletedKeepsInv(s, node);
    case UnlinkCas(node, prev, next, _) => UnlinkedKeepsInv(s, Bucket(s, s.nodes[node].key), prev, node, next);
    case SweepCas(bucket, prev, curr, next) => UnlinkedKeepsInv(s, bucket, prev, curr, next);
    case _ =>
  }

  // And it gives a search or a scan what its next place relies on.
  lemma WalkLearns(s: Memory, pc: Pc, spurious: bool)
    requires Chain(s) && Knows(s, pc)
    requires Walks(pc)
    ensures var r := Access(s, pc, spurious); Grows(s, r.0) ==> Knows(r.0, r.1)
  {
    hide Index, Dead, DeadKey, Grows;
    match pc
    case FindHead(key) => HeadPassed(s, key);
    case FindNode(key, curr, since) =>
      if curr != NULL && s.nodes[curr].key != key { Passed(s, key, curr, since); }
      if curr != NULL && s.nodes[curr].key == key && s.nodes[curr].deleted { AlsoDeleted(s, key, curr, since); }
    case FindNext(key, curr, since) => NextPassed(s, key, curr, since);
    case LookupHead(_, key) => HeadPassed(s, key);
    case LookupNode(_, key, curr, since) => if curr != NULL && s.nodes[curr].key != key { Passed(s, key, curr, since); }
    case ScanFirst(me) => FirstPassed(s, me);
    case ScanNode(me, curr) =>
      if curr != NULL && s.nodes[curr].key != s.nodes[me].key { Passed(s, s.nodes[me].key, curr, me); }
      if curr != NULL && s.nodes[curr].key == s.nodes[me].key && s.nodes[curr].deleted { AlsoDeleted(s, s.nodes[me].key, curr, me); }
    case ScanNext(me, curr) => NextPassed(s, s.nodes[me].key, curr, me);
  }

  predicate Walks(pc: Pc) {
    || pc.FindHead? || pc.FindNode? || pc.FindNext? || pc.ScanFirst? || pc.ScanNode? || pc.ScanNext?
    || pc.LookupHead? || pc.LookupNode?
  }

  predicate Unlinks(pc: Pc) {
    pc.UnlinkHead? || pc.UnlinkNode? || pc.UnlinkCas?
  }

  predicate Sweeps(pc: Pc) {
    pc.SweepHead? || pc.SweepNode? || pc.SweepCheck? || pc.SweepCas?
  }

  lemma UnlinkLearns(s: Memory, pc: Pc, spurious: bool)
    requires Chain(s) && Knows(s, pc) && Unlinks(pc)
    ensures var r := Access(s, pc, spurious); Grows(s, r.0) ==> Knows(r.0, r.1)
  {
    hide Index, Dead, DeadKey, Grows;
    if pc.UnlinkCas? { SwapLeaves(s, Bucket(s, s.nodes[pc.node].key), pc.prev, pc.node, pc.next); }
  }

  lemma SweepLearns(s: Memory, pc: Pc, spurious: bool)
    requires Chain(s) && Knows(s, pc) && Sweeps(pc)
    ensures var r := Access(s, pc, spurious); Grows(s, r.0) ==> Knows(r.0, r.1)
  {
    hide Index, Dead, DeadKey, Grows;
    if pc.SweepCas? { SwapLeaves(s, pc.bucket, pc.prev, pc.curr, pc.next); }
  }

  lemma CallLearns(s: Memory, pc: Pc, spurious: bool)
    requires Chain(s) && Knows(s, pc) && !Walks(pc) && !Unlinks(pc) && !Sweeps(pc)
    ensures var r := Access(s, pc, spurious); Grows(s, r.0) ==> Knows(r.0, r.1)
  {
    hide Index, Dead, DeadKey, Grows;
  }

  lemma AccessLearns(s: Memory, pc: Pc, spurious: bool)
    requires Chain(s) && Knows(s, pc)
    ensures var r := Access(s, pc, spurious); Grows(s, r.0) ==> Knows(r.0, r.1)
  {
    hide Index, Access, Knows, Chain, Grows;
    SomeHead(s, pc);
    if Walks(pc) {
      WalkLearns(s, pc, spurious);
    } else if Unlinks(pc) {
      UnlinkLearns(s, pc, spurious);
    } else if Sweeps(pc) {
      SweepLearns(s, pc, spurious);
    } else {
      CallLearns(s, pc, spurious);
    }
  }

  lemma SwapLeaves(s: Memory, bucket: nat, prev: int, expected: int, next: int)
    requires bucket < |s.heads| && (prev == NULL || IsNode(s, prev))
    ensures var s' := CompareExchange(s, bucket, prev, expected, next);
            |s'.heads| == |s.heads| && |s'.nodes| == |s.nodes| && forall n :: IsNode(s, n) ==> s'.nodes[n].key == s.nodes[n].key
  {}

  lemma HeadPassed(s: Memory, key: Key)
    requires Chain(s)
    ensures DeadKey(s, key, s.heads[Bucket(s, key)], |s.nodes|)
  {
    assert Dead(s, Bucket(s, key), s.heads[Bucket(s, key)], |s.nodes|);
  }

  lemma FirstPassed(s: Memory, me: int)
    requires Chain(s) && IsNode(s, me)
    ensures DeadKey(s, s.nodes[me].key, s.nodes[me].next, me)
  {
    assert Dead(s, Bucket(s, s.nodes[me].key), s.nodes[me].next, me);
  }

  lemma AlsoDeleted(s: Memory, key: Key, curr: int, newer: int)
    requires IsNode(s, curr) && s.nodes[curr].deleted && DeadKey(s, key, curr, newer)
    ensures DeadKey(s, key, curr - 1, newer)
  {}

  lemma NextPassed(s: Memory, key: Key, curr: int, newer: int)
    requires Chain(s) && IsNode(s, curr) && s.nodes[curr].key == key && DeadKey(s, key, curr - 1, newer)
    ensures DeadKey(s, key, s.nodes[curr].next, newer)
  {
    assert Dead(s, Bucket(s, key), s.nodes[curr].next, curr);
  }

  // A thread at rest only starts a call.
  lemma StartedKnows(s: Memory, c: Choice)
    requires |s.heads| > 0
    ensures Knows(s, Started(c))
  {}

  /** Whatever thread moves, and however the calls are interleaved, the invariant is kept. */
  lemma StepKeepsInv(s: State, t: nat, c: Choice)
    requires Inv(s) && t < |s.threads|
    ensures Inv(Step(s, t, c)) && Grows(s.memory, Step(s, t, c).memory)
  {
    hide Index, Unrivalled, Knows, Access, Chain, Grows;
    SomeHead(s.memory, s.threads[t]);
    var s' := Step(s, t, c);
    if s.threads[t] == Idle {
      StartedKnows(s.memory, c);
      SameGrows(s.memory);
    } else {
      AccessKeeps(s.memory, s.threads[t], c.Continue? && c.spurious);
      AccessLearns(s.memory, s.threads[t], c.Continue? && c.spurious);
    }
    SomeHead(s'.memory, Idle);
    forall u | 0 <= u < |s'.threads| ensures Knows(s'.memory, s'.threads[u]) {
      if u != t { KnowsGrows(s.memory, s'.memory, s.threads[u]); }
    }
  }

  lemma SomeHead(m: Memory, pc: Pc)
    requires Chain(m)
    ensures |m.heads| > 0 && (Knows(m, pc) ==> HeldBy(m, pc))
  {}

  lemma SameGrows(m: Memory)
    ensures Grows(m, m)
  {}

  // ── Over whole runs ─────────────────────────────────────────────

  lemma InitialInv(s: State)
    requires Initial(s)
    ensures Inv(s)
  {}

  lemma GrowsTrans(a: Memory, b: Memory, c: Memory)
    requires Grows(a, b) && Grows(b, c)
    ensures Grows(a, c)
  {}

  lemma {:induction false} RunKeepsInv(run: seq<State>, i: nat)
    requires Run(run) && i < |run|
    ensures Inv(run[i])
  {
    hide Inv, Step;
    if i == 0 {
      InitialInv(run[0]);
    } else {
      RunKeepsInv(run, i - 1);
      NextKeepsInv(run[i - 1], run[i]);
    }
  }

  lemma NextKeepsInv(s: State, s': State)
    requires Inv(s) && Next(s, s')
    ensures Inv(s') && Grows(s.memory, s'.memory) && |s'.threads| == |s.threads|
  {
    hide Inv;
    var t: nat, c :| |s.memory.heads| > 0 && t < |s.threads| && HeldBy(s.memory, s.threads[t]) && s' == Step(s, t, c);
    StepKeepsInv(s, t, c);
  }

  lemma {:induction false} RunGrows(run: seq<State>, i: nat, j: nat)
    requires Run(run) && i <= j < |run|
    ensures Grows(run[i].memory, run[j].memory) && |run[j].threads| == |run[i].threads|
    decreases j
  {
    hide Inv, Step, Grows, Next;
    if i == j {
      SameGrows(run[i].memory);
    } else {
      RunGrows(run, i, j - 1);
      RunKeepsInv(run, j - 1);
      NextKeepsInv(run[j - 1], run[j]);
      GrowsTrans(run[i].memory, run[j - 1].memory, run[j].memory);
    }
  }

  predicate InFind(pc: Pc, key: Key) {
    || pc == FindHead(key) || (pc.FindNode? && pc.key == key) || (pc.FindNext? && pc.key == key)
    || (pc.Found? && pc.key == key) || (pc.NotFound? && pc.key == key)
  }

  // The search has yet to start walking, or started when the nodes now below since were linked.
  predicate WalksSince(pc: Pc, key: Key, linked: nat) {
    && InFind(pc, key)
    && (pc.FindNode? ==> linked <= pc.since) && (pc.FindNext? ==> linked <= pc.since) && (pc.NotFound? ==> linked <= pc.since)
  }

  lemma WalkStep(s: State, s': State, t: nat, key: Key, linked: nat)
    requires Inv(s) && Next(s, s') && t < |s.threads| && linked <= |s.memory.nodes|
    requires WalksSince(s.threads[t], key, linked) && s'.threads[t] != Idle
    ensures WalksSince(s'.threads[t], key, linked)
  {
    hide Inv, Chain, Unrivalled, Knows, HeldBy;
    var u: nat, c :| |s.memory.heads| > 0 && u < |s.threads| && HeldBy(s.memory, s.threads[u]) && s' == Step(s, u, c);
  }

  lemma {:induction false} WalkOn(run: seq<State>, t: nat, key: Key, i: nat, j: nat)
    requires Run(run) && i <= j < |run| && t < |run[i].threads| && run[i].threads[t] == FindHead(key)
    requires forall k :: i <= k <= j ==> t < |run[k].threads| && run[k].threads[t] != Idle
    ensures WalksSince(run[j].threads[t], key, |run[i].memory.nodes|)
    decreases j
  {
    hide Inv, Step, Next;
    if i < j {
      WalkOn(run, t, key, i, j - 1);
      RunKeepsInv(run, j - 1);
      RunGrows(run, i, j - 1);
      WalkStep(run[j - 1], run[j], t, key, |run[i].memory.nodes|);
    }
  }

  /**
   A find that answers "absent" passed only deleted nodes: a node with the key that was linked
   before the walk began and is still live when it ends would have been found.
   */
  lemma FindNeverMisses(run: seq<State>, t: nat, key: Key, i: nat, j: nat, n: int)
    requires Run(run) && i <= j < |run| && t < |run[i].threads| && run[i].threads[t] == Started(StartFind(key))
    requires forall k :: i <= k <= j ==> t < |run[k].threads| && run[k].threads[t] != Idle
    requires run[j].threads[t].NotFound?
    requires IsNode(run[i].memory, n) && run[i].memory.nodes[n].key == key
    ensures IsNode(run[j].memory, n) && run[j].memory.nodes[n].deleted
  {
    hide Chain, Unrivalled, Run;
    WalkOn(run, t, key, i, j);
    RunKeepsInv(run, j);
    RunGrows(run, i, j);
    SomeHead(run[j].memory, run[j].threads[t]);
    assert Knows(run[j].memory, run[j].threads[t]);
  }

  /** And one that answers "present" names a node with the key that was live at some moment of the call. */
  lemma {:induction false} FoundIsLive(run: seq<State>, t: nat, key: Key, i: nat, j: nat) returns (k: nat)
    requires Run(run) && i <= j < |run| && t < |run[i].threads| && run[i].threads[t] == Started(StartFind(key))
    requires forall k :: i <= k <= j ==> t < |run[k].threads| && run[k].threads[t] != Idle
    requires run[j].threads[t].Found?
    ensures i < k <= j
    ensures var node := run[j].threads[t].node;
            IsNode(run[k].memory, node) && run[k].memory.nodes[node].key == key && !run[k].memory.nodes[node].deleted
    decreases j
  {
    hide Inv, Next;
    WalkOn(run, t, key, i, j);
    if run[j - 1].threads[t] == run[j].threads[t] {
      k := FoundIsLive(run, t, key, i, j - 1);
    } else {
      RunKeepsInv(run, j - 1);
      FoundStep(run[j - 1], run[j], t);
      k := j;
    }
  }

  lemma FoundStep(s: State, s': State, t: nat)
    requires Inv(s) && Next(s, s') && t < |s.threads| && t < |s'.threads| && s'.threads[t].Found? && s.threads[t] != s'.threads[t]
    ensures var node := s'.threads[t].node;
            IsNode(s'.memory, node) && s'.memory.nodes[node].key == s'.threads[t].key && !s'.memory.nodes[node].deleted
  {
    hide Chain, Unrivalled;
    var u: nat, c :| |s.memory.heads| > 0 && u < |s.threads| && HeldBy(s.memory, s.threads[u]) && s' == Step(s, u, c);
    assert Knows(s.memory, s.threads[t]);
  }

  /** Of the inserts of one key that passed their duplicate scan, at most one has a live node. */
  lemma OneWinner(run: seq<State>, i: nat, a: int, b: int)
    requires Run(run) && i < |run| && IsNode(run[i].memory, a) && IsNode(run[i].memory, b)
    requires var nodes := run[i].memory.nodes;
             && nodes[a].key == nodes[b].key && nodes[a].settled && nodes[b].settled && !nodes[a].deleted && !nodes[b].deleted
    ensures a == b
  {
    hide Run, Chain;
    RunKeepsInv(run, i);
    var m := run[i].memory;
    assert DeadKey(m, m.nodes[a].key, NULL, a) && DeadKey(m, m.nodes[b].key, NULL, b);
  }

  // Whether following next from curr meets n.
  ghost predicate Reaches(m: Memory, curr: int, n: int)
    requires Chain(m) && (curr == NULL || IsNode(m, curr))
    decreases curr
  {
    curr != NULL && (curr == n || Reaches(m, m.nodes[curr].next, n))
  }

  lemma {:induction false} ReachesFrom(m: Memory, curr: int, n: int, newer: int)
    requires Chain(m) && IsNode(m, n) && !m.nodes[n].deleted && n < newer
    requires Held(m, Bucket(m, m.nodes[n].key), curr) && Dead(m, Bucket(m, m.nodes[n].key), curr, newer)
    ensures Reaches(m, curr, n)
    decreases curr
  {
    assert n <= curr;
    if n < curr { ReachesFrom(m, m.nodes[curr].next, n, curr); }
  }

  /** No live node is ever lost: in every reachable state its bucket's chain leads to it. */
  lemma NoLiveNodeLost(run: seq<State>, i: nat, n: int)
    requires Run(run) && i < |run| && IsNode(run[i].memory, n) && !run[i].memory.nodes[n].deleted
    ensures Chain(run[i].memory)
    ensures var m := run[i].memory; Reaches(m, m.heads[Bucket(m, m.nodes[n].key)], n)
  {
    hide Run, Unrivalled, Index;
    RunKeepsInv(run, i);
    var m := run[i].memory;
    var bucket := Bucket(m, m.nodes[n].key);
    ReachesFrom(m, m.heads[bucket], n, |m.nodes|);
  }

  // ── What a sweep achieves ───────────────────────────────────────

  // The memory after the collector has swept from curr on, prev leading there, if nobody else moves.
  ghost function Swept(m: Memory, bucket: nat, prev: int, curr: int): Memory
    requires Chain(m) && Unrivalled(m) && bucket < |m.heads| && Held(m, bucket, prev) && Held(m, bucket, curr)
    requires Load(m, bucket, prev) == curr
    decreases curr
  {
    if curr == NULL then m
    else if m.nodes[curr].deleted then
      UnlinkedKeepsInv(m, bucket, prev, curr, m.nodes[curr].next);
      Swept(CompareExchange(m, bucket, prev, curr, m.nodes[curr].next), bucket, prev, m.nodes[curr].next)
    else Swept(m, bucket, curr, m.nodes[curr].next)
  }

  ghost predicate AllLive(m: Memory, curr: int)
    requires Chain(m) && (curr == NULL || IsNode(m, curr))
    decreases curr
  {
    curr == NULL || (!m.nodes[curr].deleted && AllLive(m, m.nodes[curr].next))
  }

  // A sweep deletes nothing and moves no pointer but prev and those of the nodes it passes.
  ghost predicate SweptFrame(m: Memory, m': Memory, bucket: nat, prev: int, curr: int) {
    && |m'.heads| == |m.heads| && |m'.nodes| == |m.nodes| && bucket < |m.heads|
    && (forall n :: IsNode(m, n) ==> m'.nodes[n].deleted == m.nodes[n].deleted && m'.nodes[n].key == m.nodes[n].key)
    && (forall n :: IsNode(m, n) && ((n > curr && n != prev) || Bucket(m, m.nodes[n].key) != bucket) ==>
          m'.nodes[n].next == m.nodes[n].next)
    && (forall b :: 0 <= b < |m.heads| && (b != bucket || prev != NULL) ==> m'.heads[b] == m.heads[b])
  }

  lemma {:induction false} SweptShape(m: Memory, bucket: nat, prev: int, curr: int)
    requires Chain(m) && Unrivalled(m) && bucket < |m.heads| && Held(m, bucket, prev) && Held(m, bucket, curr)
    requires Load(m, bucket, prev) == curr && (prev != NULL ==> curr < prev)
    ensures var m' := Swept(m, bucket, prev, curr);
            && Chain(m') && SweptFrame(m, m', bucket, prev, curr)
            && Held(m', bucket, prev) && Held(m', bucket, Load(m', bucket, prev)) && AllLive(m', Load(m', bucket, prev))
    decreases curr
  {
    hide Index, Dead, Unrivalled;
    if curr != NULL {
      var next := m.nodes[curr].next;
      var m' := Swept(m, bucket, prev, curr);
      if m.nodes[curr].deleted {
        UnlinkedKeepsInv(m, bucket, prev, curr, next);
        SweptShape(CompareExchange(m, bucket, prev, curr, next), bucket, prev, next);
      } else {
        SweptShape(m, bucket, curr, next);
        assert Load(m', bucket, prev) == curr;
      }
    }
  }

  // Where the collector stands on its own way from memory m0: what is left to do leads to the same end.
  ghost predicate OnTheWay(m0: Memory, m: Memory, bucket: nat, prev: int, curr: int)
    requires Chain(m0) && Unrivalled(m0) && bucket < |m0.heads|
  {
    && Chain(m) && Unrivalled(m) && bucket < |m.heads| && Held(m, bucket, prev) && Held(m, bucket, curr)
    && Load(m, bucket, prev) == curr && Swept(m, bucket, prev, curr) == Swept(m0, bucket, NULL, m0.heads[bucket])
  }

  ghost predicate Sweeping(m0: Memory, s: State, t: nat, bucket: nat)
    requires Chain(m0) && Unrivalled(m0) && bucket < |m0.heads| && t < |s.threads|
  {
    match s.threads[t]
    case SweepHead(b) => b == bucket && s.memory == m0
    case SweepNode(b, prev, curr) => b == bucket && OnTheWay(m0, s.memory, bucket, prev, curr)
    case SweepCheck(b, prev, curr, next) =>
      b == bucket && OnTheWay(m0, s.memory, bucket, prev, curr) && curr != NULL && next == s.memory.nodes[curr].next
    case SweepCas(b, prev, curr, next) =>
      && b == bucket && OnTheWay(m0, s.memory, bucket, prev, curr) && curr != NULL && next == s.memory.nodes[curr].next
      && s.memory.nodes[curr].deleted
    case _ => s.memory == Swept(m0, bucket, NULL, m0.heads[bucket])
  }

  predicate InBucket(pc: Pc, bucket: nat) {
    (pc.SweepHead? || pc.SweepNode? || pc.SweepCheck? || pc.SweepCas?) && pc.bucket == bucket
  }

  // Thread t is the one that moves.
  ghost predicate MovesBy(s: State, s': State, t: nat) {
    exists c :: |s.memory.heads| > 0 && t < |s.threads| && HeldBy(s.memory, s.threads[t]) && s' == Step(s, t, c)
  }

  ghost predicate Alone(run: seq<State>, t: nat, i: nat, j: nat)
    requires i <= j < |run|
  {
    forall k :: i < k <= j ==> MovesBy(run[k - 1], run[k], t)
  }

  // At most how many accesses are left of the bucket's sweep, n nodes being there.
  function LeftOfSweep(n: nat, pc: Pc): nat {
    match pc
    case SweepHead(_) => 3 * n + 5
    case SweepNode(_, _, curr) => 3 * Max(curr, NULL) + 5
    case SweepCheck(_, _, curr, _) => 3 * Max(curr, NULL) + 4
    case SweepCas(_, _, curr, _) => 3 * Max(curr, NULL) + 3
    case _ => 0
  }

  // Where a sweep goes from a bucket.
  function AfterBucket(m: Memory, bucket: nat): Pc {
    if bucket + 1 < |m.heads| then SweepHead(bucket + 1) else Idle
  }

  lemma SweepStep(m0: Memory, s: State, s': State, t: nat, bucket: nat)
    requires Chain(m0) && Unrivalled(m0) && bucket < |m0.heads| && t < |s.threads|
    requires Inv(s) && MovesBy(s, s', t) && Sweeping(m0, s, t, bucket) && InBucket(s.threads[t], bucket)
    ensures t < |s'.threads|
    ensures if InBucket(s'.threads[t], bucket) then Sweeping(m0, s', t, bucket)
            else s'.memory == Swept(m0, bucket, NULL, m0.heads[bucket])
    ensures |s'.memory.nodes| == |s.memory.nodes|
    ensures !InBucket(s'.threads[t], bucket) ==> s'.threads[t] == AfterBucket(s.memory, bucket)
    ensures InBucket(s'.threads[t], bucket) ==>
      0 < LeftOfSweep(|s.memory.nodes|, s'.threads[t]) < LeftOfSweep(|s.memory.nodes|, s.threads[t])
  {
    hide Index, Dead, DeadKey, Unrivalled, SweptFrame;
    var c :| |s.memory.heads| > 0 && HeldBy(s.memory, s.threads[t]) && s' == Step(s, t, c);
    if s.threads[t].SweepCas? {
      var pc := s.threads[t];
      UnlinkedKeepsInv(s.memory, bucket, pc.prev, pc.curr, pc.next);
    }
  }

  lemma {:induction false} SweepOn(run: seq<State>, t: nat, bucket: nat, i: nat, j: nat)
    requires Run(run) && i <= j < |run| && t < |run[i].threads| && bucket < |run[i].memory.heads|
    requires Chain(run[i].memory) && Unrivalled(run[i].memory)
    requires Alone(run, t, i, j) && run[i].threads[t] == SweepHead(bucket)
    requires forall k :: i <= k < j ==> t < |run[k].threads| && InBucket(run[k].threads[t], bucket)
    ensures t < |run[j].threads|
    ensures if InBucket(run[j].threads[t], bucket) then Sweeping(run[i].memory, run[j], t, bucket)
            else run[j].memory == Swept(run[i].memory, bucket, NULL, run[i].memory.heads[bucket])
    ensures |run[j].memory.nodes| == |run[i].memory.nodes|
    ensures InBucket(run[j].threads[t], bucket) || run[j].threads[t] == AfterBucket(run[i].memory, bucket)
    ensures InBucket(run[j].threads[t], bucket) ==>
      0 < LeftOfSweep(|run[i].memory.nodes|, run[j].threads[t]) <= 3 * |run[i].memory.nodes| + 5 - (j - i)
    ensures j - i <= 3 * |run[i].memory.nodes| + 5
    decreases j
  {
    hide Inv, Chain, Unrivalled, Next, Sweeping, MovesBy, Swept;
    if i < j {
      SweepOn(run, t, bucket, i, j - 1);
      RunKeepsInv(run, j - 1);
      RunGrows(run, i, j - 1);
      SweepStep(run[i].memory, run[j - 1], run[j], t, bucket);
    } else {
      SweepBegins(run[i], t, bucket);
    }
  }

  lemma SweepBegins(s: State, t: nat, bucket: nat)
    requires Chain(s.memory) && Unrivalled(s.memory) && bucket < |s.memory.heads| && t < |s.threads|
    requires s.threads[t] == SweepHead(bucket)
    ensures Sweeping(s.memory, s, t, bucket)
  {}

  /**
   A sweep of a bucket that nobody disturbs leaves it for the next within three accesses a node and five.
   Then every deleted node is unlinked from it, every live one still linked, and no node was marked.
   */
  lemma SweepCleans(run: seq<State>, t: nat, bucket: nat, i: nat, j: nat)
    requires Run(run) && i < j < |run| && t < |run[i].threads| && run[i].threads[t] == SweepHead(bucket)
    requires Alone(run, t, i, j)
    requires forall k :: i <= k < j ==> t < |run[k].threads| && InBucket(run[k].threads[t], bucket)
    ensures t < |run[j].threads| && j - i <= 3 * |run[i].memory.nodes| + 5
    ensures InBucket(run[j].threads[t], bucket) ==> j - i < 3 * |run[i].memory.nodes| + 5
    ensures !InBucket(run[j].threads[t], bucket) ==>
      var m, m' := run[i].memory, run[j].memory;
      && run[j].threads[t] == AfterBucket(m, bucket)
      && Chain(m') && bucket < |m.heads| == |m'.heads| && AllLive(m', m'.heads[bucket])
      && SweptFrame(m, m', bucket, NULL, m.heads[bucket])
  {
    hide Next, MovesBy, Dead;
    RunKeepsInv(run, i);
    assert Knows(run[i].memory, run[i].threads[t]);
    SweepOn(run, t, bucket, i, j);
    SweptShape(run[i].memory, bucket, NULL, run[i].memory.heads[bucket]);
  }

  // The buckets below are clean.
  ghost predicate CleanBelow(m: Memory, bucket: nat)
    requires Chain(m)
  {
    bucket <= |m.heads| && forall b :: 0 <= b < bucket ==> AllLive(m, m.heads[b])
  }

  ghost predicate NodesMarkedAlike(m: Memory, m': Memory) {
    && |m'.heads| == |m.heads| && |m'.nodes| == |m.nodes|
    && forall n :: IsNode(m, n) ==> m'.nodes[n].deleted == m.nodes[n].deleted && m'.nodes[n].key == m.nodes[n].key
  }

  // Sweeping one bucket leaves the chains of the others alone.
  lemma {:induction false} LiveElsewhere(m: Memory, m': Memory, bucket: nat, b: nat, curr: int)
    requires Chain(m) && Chain(m') && bucket < |m.heads| && SweptFrame(m, m', bucket, NULL, m.heads[bucket]) && b != bucket
    requires b < |m.heads| && Held(m, b, curr) && AllLive(m, curr)
    ensures AllLive(m', curr)
    decreases curr
  {
    hide Index, Dead;
    if curr != NULL { LiveElsewhere(m, m', bucket, b, m.nodes[curr].next); }
  }

  lemma CleanStays(m: Memory, m': Memory, bucket: nat)
    requires Chain(m) && Chain(m') && bucket < |m.heads| && SweptFrame(m, m', bucket, NULL, m.heads[bucket])
    requires CleanBelow(m, bucket) && AllLive(m', m'.heads[bucket])
    ensures CleanBelow(m', bucket + 1)
  {
    hide AllLive, Dead;
    forall b | 0 <= b < bucket ensures AllLive(m', m'.heads[b]) { LiveElsewhere(m, m', bucket, b, m.heads[b]); }
  }

  // When the bucket's sweep is left, if that is by j.
  lemma BucketLeft(run: seq<State>, t: nat, bucket: nat, i: nat, j: nat) returns (k: nat)
    requires i < j < |run| && t < |run[i].threads| && InBucket(run[i].threads[t], bucket)
    requires forall k :: i <= k < j ==> t < |run[k].threads|
    ensures i < k <= j && (forall x :: i <= x < k ==> t < |run[x].threads| && InBucket(run[x].threads[t], bucket))
    ensures k == j || !InBucket(run[k].threads[t], bucket)
  {
    k := i + 1;
    while k < j && InBucket(run[k].threads[t], bucket)
      invariant i < k <= j && forall x :: i <= x < k ==> InBucket(run[x].threads[t], bucket)
    {
      k := k + 1;
    }
  }

  // One bucket more is clean.
  lemma BucketDone(run: seq<State>, t: nat, bucket: nat, i: nat, k: nat)
    requires Run(run) && i < k < |run| && t < |run[i].threads| && run[i].threads[t] == SweepHead(bucket)
    requires Chain(run[i].memory) && CleanBelow(run[i].memory, bucket) && Alone(run, t, i, k)
    requires forall x :: i <= x < k ==> t < |run[x].threads| && InBucket(run[x].threads[t], bucket)
    requires t < |run[k].threads| && !InBucket(run[k].threads[t], bucket)
    ensures var m, m' := run[i].memory, run[k].memory;
            && run[k].threads[t] == AfterBucket(m, bucket) && bucket < |m.heads| && k - i <= 3 * |m.nodes| + 5
            && Chain(m') && CleanBelow(m', bucket + 1) && NodesMarkedAlike(m, m')
  {
    hide MovesBy, AllLive, Dead, Chain, Next;
    SweepCleans(run, t, bucket, i, k);
    CleanStays(run[i].memory, run[k].memory, bucket);
  }

  lemma {:induction false} SweepsFrom(run: seq<State>, t: nat, bucket: nat, i: nat, j: nat)
    requires Run(run) && i <= j < |run| && t < |run[i].threads| && run[i].threads[t] == SweepHead(bucket)
    requires Chain(run[i].memory) && bucket < |run[i].memory.heads| && CleanBelow(run[i].memory, bucket) && Alone(run, t, i, j)
    requires forall k :: i <= k < j ==> t < |run[k].threads| && Sweeps(run[k].threads[t])
    ensures t < |run[j].threads| && Chain(run[j].memory)
    ensures var most := (|run[i].memory.heads| - bucket) * (3 * |run[i].memory.nodes| + 5);
            j - i <= most && (Sweeps(run[j].threads[t]) ==> j - i < most)
    ensures !Sweeps(run[j].threads[t]) ==>
      && run[j].threads[t] == Idle && CleanBelow(run[j].memory, |run[j].memory.heads|)
      && NodesMarkedAlike(run[i].memory, run[j].memory)
    decreases |run[i].memory.heads| - bucket
  {
    hide MovesBy, AllLive, Dead, Chain, Next, CleanBelow, Run;
    var m, most := run[i].memory, 3 * |run[i].memory.nodes| + 5;
    MulMono(1, |m.heads| - bucket, most);
    if i < j {
      var k := BucketLeft(run, t, bucket, i, j);
      SweepCleans(run, t, bucket, i, k);
      if !InBucket(run[k].threads[t], bucket) {
        BucketDone(run, t, bucket, i, k);
        if bucket + 1 < |m.heads| {
          SweepsFrom(run, t, bucket + 1, k, j);
          Distribute(most, |m.heads| - bucket - 1, 1);
          Commute(most, |m.heads| - bucket - 1);
          Commute(most, |m.heads| - bucket);
        }
      } else {
        RunKeepsInv(run, j);
      }
    }
  }

  lemma {:induction false} OnlyLiveReached(m: Memory, curr: int, n: int)
    requires Chain(m) && (curr == NULL || IsNode(m, curr)) && AllLive(m, curr) && IsNode(m, n) && m.nodes[n].deleted
    ensures !Reaches(m, curr, n)
    decreases curr
  {
    hide Dead;
    if curr != NULL { OnlyLiveReached(m, m.nodes[curr].next, n); }
  }

  /**
   A whole sweep that nobody disturbs ends, within three accesses a node and five for every bucket.  Then
   no deleted node is linked in any bucket, every live one is, and no node was marked.
   */
  lemma WholeSweepCleans(run: seq<State>, t: nat, i: nat, j: nat, n: int)
    requires Run(run) && i < j < |run| && t < |run[i].threads| && run[i].threads[t] == Started(StartSweep) && Alone(run, t, i, j)
    requires forall k :: i <= k < j ==> t < |run[k].threads| && Sweeps(run[k].threads[t])
    ensures t < |run[j].threads|
    ensures Sweeps(run[j].threads[t]) ==> j - i < |run[i].memory.heads| * (3 * |run[i].memory.nodes| + 5)
    ensures !Sweeps(run[j].threads[t]) ==>
      var m := run[j].memory;
      && run[j].threads[t] == Idle && Chain(m) && NodesMarkedAlike(run[i].memory, m)
      && (IsNode(m, n) ==> (Reaches(m, m.heads[Bucket(m, m.nodes[n].key)], n) <==> !m.nodes[n].deleted))
  {
    hide MovesBy, Dead, Next;
    RunKeepsInv(run, i);
    RunKeepsInv(run, j);
    SweepsFrom(run, t, 0, i, j);
    var m := run[j].memory;
    if !Sweeps(run[j].threads[t]) && IsNode(m, n) {
      var b := Bucket(m, m.nodes[n].key);
      if m.nodes[n].deleted {
        OnlyLiveReached(m, m.heads[b], n);
      } else {
        NoLiveNodeLost(run, j, n);
      }
    }
  }

  // ── When remove fails ───────────────────────────────────────────

  predicate InRemove(pc: Pc, key: Key, linked: nat) {
    match pc
    case LookupHead(why, k) => why == ForRemove && k == key
    case LookupNode(why, k, _, since) => why == ForRemove && k == key && linked <= since
    case RemoveCas(k, _, since) => k == key && linked <= since
    case UnlinkHead(_, after) => after == ReportRemoved
    case UnlinkNode(_, _, _, after) => after == ReportRemoved
    case UnlinkCas(_, _, _, after) => after == ReportRemoved
    case Returned(_) => true
    case _ => false
  }

  lemma RemoveStep(s: State, s': State, t: nat, key: Key, linked: nat)
    requires Inv(s) && Next(s, s') && t < |s.threads| && linked <= |s.memory.nodes|
    requires InRemove(s.threads[t], key, linked) && s'.threads[t] != Idle
    ensures InRemove(s'.threads[t], key, linked)
  {
    hide Inv, Chain, Unrivalled, Knows, HeldBy;
    var u: nat, c :| |s.memory.heads| > 0 && u < |s.threads| && HeldBy(s.memory, s.threads[u]) && s' == Step(s, u, c);
  }

  lemma {:induction false} RemoveOn(run: seq<State>, t: nat, key: Key, i: nat, j: nat)
    requires Run(run) && i <= j < |run| && t < |run[i].threads| && run[i].threads[t] == LookupHead(ForRemove, key)
    requires forall k :: i <= k <= j ==> t < |run[k].threads| && run[k].threads[t] != Idle
    ensures InRemove(run[j].threads[t], key, |run[i].memory.nodes|)
    decreases j
  {
    hide Inv, Step, Next;
    if i < j {
      RemoveOn(run, t, key, i, j - 1);
      RunGrows(run, i, j - 1);
      RunKeepsInv(run, j - 1);
      RemoveStep(run[j - 1], run[j], t, key, |run[i].memory.nodes|);
    }
  }

  lemma FailStep(s: State, s': State, t: nat, key: Key, linked: nat, n: int)
    requires Inv(s) && Next(s, s') && t < |s.threads| && t < |s'.threads|
    requires InRemove(s.threads[t], key, linked) && !s.threads[t].Returned? && s'.threads[t] == Returned(false)
    requires 0 <= n < linked && IsNode(s.memory, n) && s.memory.nodes[n].key == key && !s.memory.nodes[n].deleted
    ensures var pc := s.threads[t];
            && pc.RemoveCas? && pc.key == key && IsNode(s.memory, pc.node) && s.memory.nodes[pc.node].key == key
            && s.memory.nodes[pc.node].deleted && n < pc.node
  {
    hide Chain, Unrivalled;
    var u: nat, c :| |s.memory.heads| > 0 && u < |s.threads| && HeldBy(s.memory, s.threads[u]) && s' == Step(s, u, c);
    assert Knows(s.memory, s.threads[t]);
  }

  /**
   A remove that answers false beside a live node linked before it began has met a newer node with
   the key, marked deleted and still linked, and stopped there.
   */
  lemma RemoveFailsOnlyAt(run: seq<State>, t: nat, key: Key, i: nat, j: nat, n: int)
    requires Run(run) && i < j < |run| && t < |run[i].threads| && run[i].threads[t] == Started(StartRemove(key))
    requires forall k :: i <= k <= j ==> t < |run[k].threads| && run[k].threads[t] != Idle
    requires run[j].threads[t] == Returned(false) && !run[j - 1].threads[t].Returned?
    requires IsNode(run[i].memory, n) && run[i].memory.nodes[n].key == key
    requires IsNode(run[j].memory, n) && !run[j].memory.nodes[n].deleted
    ensures var m, pc := run[j - 1].memory, run[j - 1].threads[t];
            && pc.RemoveCas? && pc.key == key && IsNode(m, pc.node) && m.nodes[pc.node].key == key
            && m.nodes[pc.node].deleted && n < pc.node
  {
    hide Inv, Next, Step, InRemove;
    assert Next(run[j - 1], run[j]);
    RemoveOn(run, t, key, i, j - 1);
    RunGrows(run, i, j - 1);
    RunGrows(run, j - 1, j);
    RunKeepsInv(run, j - 1);
    FailStep(run[j - 1], run[j], t, key, |run[i].memory.nodes|, n);
  }

  /** So while no newer node with the key is marked, a remove misses no live one. */
  lemma RemoveNeverMisses(run: seq<State>, t: nat, key: Key, i: nat, j: nat, n: int)
    requires Run(run) && i < j < |run| && t < |run[i].threads| && run[i].threads[t] == Started(StartRemove(key))
    requires forall k :: i <= k <= j ==> t < |run[k].threads| && run[k].threads[t] != Idle
    requires run[j].threads[t] == Returned(false) && !run[j - 1].threads[t].Returned?
    requires IsNode(run[i].memory, n) && run[i].memory.nodes[n].key == key
    requires forall m :: IsNode(run[j].memory, m) && n < m && run[j].memory.nodes[m].key == key ==> !run[j].memory.nodes[m].deleted
    ensures IsNode(run[j].memory, n) && run[j].memory.nodes[n].deleted
  {
    hide Inv, Run;
    RunGrows(run, i, j);
    RunGrows(run, j - 1, j);
    if !run[j].memory.nodes[n].deleted { RemoveFailsOnlyAt(run, t, key, i, j, n); }
  }

  // The first node with the key from curr on.
  ghost function First(m: Memory, curr: int, key: Key): int
    requires Chain(m) && (curr == NULL || IsNode(m, curr))
    decreases curr
  {
    if curr == NULL || m.nodes[curr].key == key then curr else First(m, m.nodes[curr].next, key)
  }

  ghost function FirstOf(m: Memory, key: Key): int
    requires Chain(m)
  {
    First(m, m.heads[Bucket(m, key)], key)
  }

  lemma {:induction false} FirstIsNode(m: Memory, curr: int, key: Key)
    requires Chain(m) && (curr == NULL || IsNode(m, curr))
    ensures First(m, curr, key) == NULL || (IsNode(m, First(m, curr, key)) && m.nodes[First(m, curr, key)].key == key)
    decreases curr
  {
    if curr != NULL && m.nodes[curr].key != key { FirstIsNode(m, m.nodes[curr].next, key); }
  }

  lemma {:induction false} FirstMeets(m: Memory, curr: int, n: int)
    requires Chain(m) && (curr == NULL || IsNode(m, curr)) && IsNode(m, n) && Reaches(m, curr, n)
    ensures First(m, curr, m.nodes[n].key) != NULL
    decreases curr
  {
    if curr != n { FirstMeets(m, m.nodes[curr].next, n); }
  }

  lemma InvChain(s: State)
    requires Inv(s)
    ensures Chain(s.memory) && |s.memory.heads| > 0
    ensures forall b :: 0 <= b < |s.memory.heads| ==> s.memory.heads[b] == NULL || IsNode(s.memory, s.memory.heads[b])
  {}

  // ── When insert fails ───────────────────────────────────────────

  // A call of insert for the key, up to here.
  predicate InInsert(s: Memory, pc: Pc, key: Key) {
    match pc
    case LookupHead(why, k) => why == ForInsert && k == key
    case LookupNode(why, k, _, _) => why == ForInsert && k == key
    case InsertCheck(k, _) => k == key
    case InsertHead(k) => k == key
    case InsertCas(k, _) => k == key
    case ScanFirst(me) => IsNode(s, me) && s.nodes[me].key == key
    case ScanNode(me, _) => IsNode(s, me) && s.nodes[me].key == key
    case ScanNext(me, _) => IsNode(s, me) && s.nodes[me].key == key
    case BackOff(me) => IsNode(s, me) && s.nodes[me].key == key
    case UnlinkHead(_, after) => after == RetryInsert(key) || after == GiveUp
    case UnlinkNode(_, _, _, after) => after == RetryInsert(key) || after == GiveUp
    case UnlinkCas(_, _, _, after) => after == RetryInsert(key) || after == GiveUp
    case Returned(_) => true
    case _ => false
  }

  // The insert has given up.
  predicate GivesUp(pc: Pc) {
    || pc.BackOff? || pc == Returned(false) || (pc.UnlinkHead? && pc.after == GiveUp)
    || (pc.UnlinkNode? && pc.after == GiveUp) || (pc.UnlinkCas? && pc.after == GiveUp)
  }

  // Thread t looks at n, a live node with the key that another call linked.
  ghost predicate MeetsLive(s: State, t: nat, key: Key, n: int) {
    && t < |s.threads| && IsNode(s.memory, n) && s.memory.nodes[n].key == key && !s.memory.nodes[n].deleted
    && (s.threads[t] == InsertCheck(key, n) || (s.threads[t].ScanNode? && s.threads[t].curr == n < s.threads[t].me))
  }

  // What a thread that may give up is looking at.
  function Looked(pc: Pc): int {
    match pc
    case InsertCheck(_, node) => node
    case ScanNode(_, curr) => curr
    case _ => NULL
  }

  lemma InsertAccess(s: Memory, pc: Pc, spurious: bool, key: Key)
    requires Chain(s) && Knows(s, pc) && InInsert(s, pc, key) && !pc.Returned?
    ensures var r := Access(s, pc, spurious);
            && InInsert(r.0, r.1, key)
            && (GivesUp(r.1) && !GivesUp(pc) ==>
                  var n := Looked(pc);
                  && IsNode(s, n) && s.nodes[n].key == key && !s.nodes[n].deleted
                  && (pc == InsertCheck(key, n) || (pc.ScanNode? && n < pc.me)))
  {
    hide Index, Dead, DeadKey;
  }

  lemma InInsertGrows(s: Memory, s': Memory, pc: Pc, key: Key)
    requires Grows(s, s') && InInsert(s, pc, key)
    ensures InInsert(s', pc, key)
  {}

  lemma InsertStep(s: State, s': State, t: nat, key: Key)
    requires Inv(s) && Next(s, s') && t < |s.threads| && InInsert(s.memory, s.threads[t], key) && s'.threads[t] != Idle
    ensures InInsert(s'.memory, s'.threads[t], key)
    ensures GivesUp(s'.threads[t]) && !GivesUp(s.threads[t]) ==> MeetsLive(s, t, key, Looked(s.threads[t]))
  {
    NextKeepsInv(s, s');
    hide Chain, Unrivalled, Knows, HeldBy, Access, Grows, InInsert, GivesUp, Looked;
    var u: nat, c :| |s.memory.heads| > 0 && u < |s.threads| && HeldBy(s.memory, s.threads[u]) && s' == Step(s, u, c);
    assert Knows(s.memory, s.threads[t]);
    if u == t {
      InsertMoves(s.memory, s.threads[t], c.Continue? && c.spurious, key);
    } else {
      InInsertGrows(s.memory, s'.memory, s.threads[t], key);
    }
  }

  // The same with the call's end left out.
  lemma InsertMoves(s: Memory, pc: Pc, spurious: bool, key: Key)
    requires Chain(s) && Knows(s, pc) && InInsert(s, pc, key)
    ensures pc != Idle
    ensures HeldBy(s, pc) && |s.heads| > 0
    ensures var r := Access(s, pc, spurious);
            r.1 != Idle ==>
              && InInsert(r.0, r.1, key)
              && (GivesUp(r.1) && !GivesUp(pc) ==>
                    var n := Looked(pc);
                    && IsNode(s, n) && s.nodes[n].key == key && !s.nodes[n].deleted
                    && (pc == InsertCheck(key, n) || (pc.ScanNode? && pc.curr == n < pc.me)))
  {
    SomeHead(s, pc);
    hide Chain, Knows, Index;
    if !pc.Returned? { InsertAccess(s, pc, spurious, key); }
  }

  lemma {:induction false} InsertOn(run: seq<State>, t: nat, key: Key, i: nat, j: nat)
    requires Run(run) && i <= j < |run| && t < |run[i].threads| && run[i].threads[t] == LookupHead(ForInsert, key)
    requires forall k :: i <= k <= j ==> t < |run[k].threads| && run[k].threads[t] != Idle
    ensures InInsert(run[j].memory, run[j].threads[t], key)
    decreases j
  {
    hide Inv, Step, Next;
    if i < j {
      InsertOn(run, t, key, i, j - 1);
      RunKeepsInv(run, j - 1);
      InsertStep(run[j - 1], run[j], t, key);
    }
  }

  /** An insert that answers false has met, at a moment of its call, a live node with the key that another call linked. */
  lemma {:induction false} InsertFailsOnlyAt(run: seq<State>, t: nat, key: Key, i: nat, j: nat) returns (h: nat, n: int)
    requires Run(run) && i < j < |run| && t < |run[i].threads| && run[i].threads[t] == Started(StartInsert(key))
    requires forall k :: i <= k <= j ==> t < |run[k].threads| && run[k].threads[t] != Idle
    requires GivesUp(run[j].threads[t])
    ensures i <= h < j && MeetsLive(run[h], t, key, n)
    decreases j
  {
    hide Inv, Step, Next, MeetsLive;
    InsertOn(run, t, key, i, j - 1);
    RunKeepsInv(run, j - 1);
    InsertStep(run[j - 1], run[j], t, key);
    if GivesUp(run[j - 1].threads[t]) {
      h, n := InsertFailsOnlyAt(run, t, key, i, j - 1);
    } else {
      h, n := j - 1, Looked(run[j - 1].threads[t]);
    }
  }

  // ── An insert that nobody disturbs ──────────────────────────────

  // Thread t is the one that moves, and no exchange fails spuriously.
  ghost predicate MovesSurely(s: State, s': State, t: nat) {
    exists c :: |s.memory.heads| > 0 && t < |s.threads| && HeldBy(s.memory, s.threads[t]) && c != Continue(true) && s' == Step(s, t, c)
  }

  ghost predicate Undisturbed(run: seq<State>, t: nat, i: nat, j: nat)
    requires i <= j < |run|
  {
    forall k :: i < k <= j ==> MovesSurely(run[k - 1], run[k], t)
  }

  // Only pointers differ.
  ghost predicate Pruned(m0: Memory, m: Memory) {
    && |m.heads| == |m0.heads| && |m.nodes| == |m0.nodes|
    && forall n :: IsNode(m0, n) ==> m.nodes[n] == m0.nodes[n].(next := m.nodes[n].next)
  }

  // Only pointers differ, and one live node with the key is new.
  ghost predicate Extended(m0: Memory, m: Memory, key: Key, settled: bool) {
    && |m.heads| == |m0.heads| && |m.nodes| == |m0.nodes| + 1
    && (forall n :: IsNode(m0, n) ==> m.nodes[n] == m0.nodes[n].(next := m.nodes[n].next))
    && m.nodes[|m0.nodes|] == Node(key, m.nodes[|m0.nodes|].next, false, settled)
  }

  ghost predicate NoneLive(m: Memory, key: Key) {
    forall n :: IsNode(m, n) && m.nodes[n].key == key ==> m.nodes[n].deleted
  }

  // Where an undisturbed insert that began in memory m0 stands.
  ghost predicate Inserting(m0: Memory, m: Memory, pc: Pc, key: Key)
    requires Chain(m)
  {
    var first, bucket := FirstOf(m, key), Bucket(m, key);
    match pc
    case LookupHead(why, k) => why == ForInsert && k == key && Pruned(m0, m)
    case LookupNode(why, k, curr, _) => why == ForInsert && k == key && Pruned(m0, m) && Held(m, bucket, curr) && First(m, curr, key) == first
    case InsertCheck(k, node) => k == key && Pruned(m0, m) && node == first && IsNode(m, node)
    case UnlinkHead(node, after) => after == RetryInsert(key) && Pruned(m0, m) && node == first && IsNode(m, node)
    case UnlinkNode(node, prev, curr, after) =>
      && after == RetryInsert(key) && Pruned(m0, m) && node == first && IsNode(m, node) && OnWay(m, bucket, prev, curr)
      && First(m, curr, key) == node
    case UnlinkCas(node, prev, next, after) =>
      && after == RetryInsert(key) && Pruned(m0, m) && IsNode(m, node) && OnWay(m, bucket, prev, node)
      && Bucket(m, m.nodes[node].key) == bucket && next == m.nodes[node].next
    case InsertHead(k) => k == key && Pruned(m0, m) && first == NULL && NoneLive(m0, key)
    case InsertCas(k, oldHead) => k == key && Pruned(m0, m) && first == NULL && NoneLive(m0, key) && oldHead == m.heads[bucket]
    case ScanFirst(me) => me == |m0.nodes| && Scans(m0, m, key) && First(m, m.nodes[me].next, key) == NULL
    case ScanNode(me, curr) => me == |m0.nodes| && Scans(m0, m, key) && curr < me && Held(m, bucket, curr) && First(m, curr, key) == NULL
    case Returned(ok) => if ok then NoneLive(m0, key) && Extended(m0, m, key, true) else !NoneLive(m0, key) && Pruned(m0, m)
    case _ => false
  }

  ghost predicate Scans(m0: Memory, m: Memory, key: Key) {
    NoneLive(m0, key) && Extended(m0, m, key, false)
  }

  // prev is on the bucket's chain, or its head, and leads to curr.
  ghost predicate OnWay(m: Memory, bucket: nat, prev: int, curr: int)
    requires Chain(m) && bucket < |m.heads|
  {
    Held(m, bucket, prev) && Held(m, bucket, curr) && Load(m, bucket, prev) == curr && (prev != NULL ==> Reaches(m, m.heads[bucket], prev))
  }

  // How many nodes the chain still has.
  ghost function Length(m: Memory, curr: int): nat
    requires Chain(m) && (curr == NULL || IsNode(m, curr))
    decreases curr
  {
    if curr == NULL then 0 else 1 + Length(m, m.nodes[curr].next)
  }

  // At most how many accesses are left of this try, n nodes being there.
  function LeftOfTry(n: nat, pc: Pc): nat {
    match pc
    case LookupHead(_, _) => 4 * n + 19
    case LookupNode(_, _, curr, _) => 3 * n + 18 + Max(curr, -1)
    case InsertCheck(_, _) => 3 * n + 16
    case UnlinkHead(_, _) => 3 * n + 15
    case UnlinkNode(_, _, curr, _) => 2 * n + 14 + Max(curr, -1)
    case UnlinkCas(_, _, _, _) => 2 * n + 12
    case InsertHead(_) => 2 * n + 11
    case InsertCas(_, _) => 2 * n + 10
    case ScanFirst(_) => 2 * n + 6
    case ScanNode(_, curr) => 2 * Max(curr, -1) + 3
    case _ => 0
  }

  predicate MayRetry(pc: Pc) {
    pc.LookupHead? || pc.LookupNode? || pc.InsertCheck? || pc.UnlinkHead? || pc.UnlinkNode? || pc.UnlinkCas?
  }

  // And with its retries, of which every one unlinks a node.
  ghost function Left(m: Memory, pc: Pc, key: Key): nat
    requires Chain(m)
  {
    (if MayRetry(pc) then Times(Length(m, m.heads[Bucket(m, key)]), 4 * |m.nodes| + 20) else 0) + LeftOfTry(|m.nodes|, pc)
  }

  function Times(a: nat, b: nat): nat {
    MulMono(0, a, b);
    a * b
  }

  lemma NoFirst(m: Memory, key: Key)
    requires Chain(m) && FirstOf(m, key) == NULL
    ensures NoneLive(m, key)
  {
    hide Index, Dead, Reaches, First;
    forall n | IsNode(m, n) && m.nodes[n].key == key ensures m.nodes[n].deleted {
      if !m.nodes[n].deleted {
        NewestReaches(m, n);
        FirstMeets(m, m.heads[Bucket(m, key)], n);
      }
    }
  }

  lemma NewestReaches(m: Memory, n: int)
    requires Chain(m) && IsNode(m, n) && !m.nodes[n].deleted
    ensures Reaches(m, m.heads[Bucket(m, m.nodes[n].key)], n)
  {
    var bucket := Bucket(m, m.nodes[n].key);
    ReachesFrom(m, m.heads[bucket], n, |m.nodes|);
  }

  lemma PrunedLive(m0: Memory, m: Memory, key: Key)
    requires Pruned(m0, m)
    ensures NoneLive(m0, key) <==> NoneLive(m, key)
  {
    if NoneLive(m0, key) {
      forall n | IsNode(m, n) && m.nodes[n].key == key ensures m.nodes[n].deleted { assert IsNode(m0, n); }
    }
    if NoneLive(m, key) {
      forall n | IsNode(m0, n) && m0.nodes[n].key == key ensures m0.nodes[n].deleted { assert IsNode(m, n); }
    }
  }

  // Looking for the key.
  lemma LooksOn(m0: Memory, m: Memory, pc: Pc, key: Key)
    requires Chain(m) && Knows(m, pc) && (pc.LookupHead? || pc.LookupNode? || pc.InsertCheck?) && Inserting(m0, m, pc, key)
    ensures var r := Access(m, pc, false);
            r.0 == m && Inserting(m0, m, r.1, key) && Left(m, r.1, key) < Left(m, pc, key)
  {
    hide Index, Dead, DeadKey, Length, NoneLive, Pruned, Times;
    if pc.LookupNode? {
      if pc.curr == NULL {
        NoFirst(m, key);
        PrunedLive(m0, m, key);
      }
    } else if pc.InsertCheck? && !m.nodes[pc.node].deleted {
      assert !NoneLive(m, key) by { OneLive(m, pc.node); }
      PrunedLive(m0, m, key);
    }
  }

  lemma OneLive(m: Memory, n: int)
    requires IsNode(m, n) && !m.nodes[n].deleted
    ensures !NoneLive(m, m.nodes[n].key)
  {}

  lemma {:induction false} ReachesNext(m: Memory, curr: int, n: int)
    requires Chain(m) && (curr == NULL || IsNode(m, curr)) && IsNode(m, n) && Reaches(m, curr, n) && m.nodes[n].next != NULL
    ensures Reaches(m, curr, m.nodes[n].next)
    decreases curr
  {
    hide Dead, Index;
    if curr != n { ReachesNext(m, m.nodes[curr].next, n); } else { assert Reaches(m, m.nodes[n].next, m.nodes[n].next); }
  }

  // The walk to the node to unlink, a step further.
  lemma WayOn(m: Memory, bucket: nat, prev: int, curr: int)
    requires Chain(m) && bucket < |m.heads| && OnWay(m, bucket, prev, curr) && curr != NULL
    ensures OnWay(m, bucket, curr, m.nodes[curr].next)
  {
    hide Dead, Index;
    if prev != NULL { ReachesNext(m, m.heads[bucket], prev); }
  }

  lemma {:induction false} LengthSame(m: Memory, m': Memory, curr: int)
    requires Chain(m) && Chain(m') && (curr == NULL || (IsNode(m, curr) && IsNode(m', curr)))
    requires forall n :: IsNode(m, n) && n <= curr ==> IsNode(m', n) && m'.nodes[n].next == m.nodes[n].next
    ensures Length(m', curr) == Length(m, curr)
    decreases curr
  {
    hide Dead, Index;
    if curr != NULL { LengthSame(m, m', m.nodes[curr].next); }
  }

  // Unlinking the node that prev leads to shortens the chain by one.
  lemma {:induction false} LengthCut(m: Memory, m': Memory, curr: int, prev: int)
    requires Chain(m) && Chain(m') && IsNode(m, curr) && IsNode(m, prev) && Reaches(m, curr, prev)
    requires var node := m.nodes[prev].next; IsNode(m, node) && m' == m.(nodes := m.nodes[prev := m.nodes[prev].(next := m.nodes[node].next)])
    ensures Length(m', curr) == Length(m, curr) - 1
    decreases curr
  {
    hide Dead, Index;
    if curr == prev {
      LengthSame(m, m', m.nodes[m.nodes[prev].next].next);
    } else {
      LengthCut(m, m', m.nodes[curr].next, prev);
    }
  }

  lemma CutShortens(m: Memory, m': Memory, bucket: nat, prev: int, node: int)
    requires Chain(m) && Chain(m') && bucket < |m.heads| && OnWay(m, bucket, prev, node) && IsNode(m, node)
    requires m' == CompareExchange(m, bucket, prev, node, m.nodes[node].next)
    ensures Length(m', m'.heads[bucket]) + 1 == Length(m, m.heads[bucket])
  {
    hide Dead, Index;
    if prev == NULL {
      LengthSame(m, m', m.nodes[node].next);
    } else {
      LengthCut(m, m', m.heads[bucket], prev);
    }
  }

  // Unlinking the marked node.
  lemma UnlinksOn(m0: Memory, m: Memory, pc: Pc, key: Key)
    requires Chain(m) && Knows(m, pc) && (pc.UnlinkHead? || pc.UnlinkNode?) && Inserting(m0, m, pc, key)
    ensures var r := Access(m, pc, false);
            r.0 == m && Inserting(m0, m, r.1, key) && Left(m, r.1, key) < Left(m, pc, key)
  {
    hide Index, Dead, DeadKey, Length, NoneLive, Pruned, Times, Reaches;
    FirstIsNode(m, m.heads[Bucket(m, key)], key);
    if pc.UnlinkNode? && pc.curr != NULL { WayOn(m, Bucket(m, key), pc.prev, pc.curr); }
  }

  lemma UnlinksAway(m0: Memory, m: Memory, pc: Pc, key: Key)
    requires Chain(m) && Unrivalled(m) && Knows(m, pc) && pc.UnlinkCas? && Inserting(m0, m, pc, key)
    ensures var r := Access(m, pc, false);
            Chain(r.0) && Inserting(m0, r.0, r.1, key) && Left(r.0, r.1, key) < Left(m, pc, key)
  {
    hide Index, Dead, DeadKey, Length, NoneLive, Times, Reaches, First;
    var bucket := Bucket(m, key);
    var m' := CompareExchange(m, bucket, pc.prev, pc.node, pc.next);
    UnlinkedKeepsInv(m, bucket, pc.prev, pc.node, pc.next);
    CutShortens(m, m', bucket, pc.prev, pc.node);
    var before, after := Length(m, m.heads[bucket]), Length(m', m'.heads[bucket]);
    TimesNext(after, 4 * |m.nodes| + 20);
  }

  lemma TimesNext(a: nat, b: nat)
    ensures Times(a + 1, b) == Times(a, b) + b
  {}

  lemma {:induction false} FirstSame(m: Memory, m': Memory, curr: int, key: Key)
    requires Chain(m) && Chain(m') && (curr == NULL || (IsNode(m, curr) && IsNode(m', curr)))
    requires forall n :: IsNode(m, n) && n <= curr ==> IsNode(m', n) && m'.nodes[n].next == m.nodes[n].next && m'.nodes[n].key == m.nodes[n].key
    ensures First(m', curr, key) == First(m, curr, key)
    decreases curr
  {
    hide Dead, Index;
    if curr != NULL && m.nodes[curr].key != key { FirstSame(m, m', m.nodes[curr].next, key); }
  }

  // Linking the new node.
  lemma LinksOn(m0: Memory, m: Memory, pc: Pc, key: Key)
    requires Chain(m) && Unrivalled(m) && Knows(m, pc) && (pc.InsertHead? || pc.InsertCas?) && Inserting(m0, m, pc, key)
    ensures var r := Access(m, pc, false);
            Chain(r.0) && Inserting(m0, r.0, r.1, key) && Left(r.0, r.1, key) < Left(m, pc, key)
  {
    hide Index, Dead, DeadKey, Length, NoneLive, Times, Reaches, First, Unrivalled;
    if pc.InsertCas? {
      LinkedKeepsInv(m, key);
      FirstSame(m, Link(m, key, pc.oldHead), pc.oldHead, key);
    }
  }

  // And looking for a rival behind it.
  lemma ScansOn(m0: Memory, m: Memory, pc: Pc, key: Key)
    requires Chain(m) && Unrivalled(m) && Knows(m, pc) && (pc.ScanFirst? || pc.ScanNode?) && Inserting(m0, m, pc, key)
    ensures var r := Access(m, pc, false);
            Chain(r.0) && Inserting(m0, r.0, r.1, key) && Left(r.0, r.1, key) < Left(m, pc, key)
  {
    hide Index, Dead, DeadKey, Length, NoneLive, Times, Reaches, Unrivalled;
    if pc.ScanNode? && pc.curr == NULL { SettledKeepsInv(m, pc.me); }
  }

  lemma InsertingOn(m0: Memory, m: Memory, pc: Pc, key: Key)
    requires Chain(m) && Unrivalled(m) && Knows(m, pc) && !pc.Returned? && Inserting(m0, m, pc, key)
    ensures var r := Access(m, pc, false);
            Chain(r.0) && Inserting(m0, r.0, r.1, key) && Left(r.0, r.1, key) < Left(m, pc, key)
  {
    hide Index, Access, Unrivalled, Knows, Left;
    SomeHead(m, pc);
    if pc.LookupHead? || pc.LookupNode? || pc.InsertCheck? {
      LooksOn(m0, m, pc, key);
    } else if pc.UnlinkHead? || pc.UnlinkNode? {
      UnlinksOn(m0, m, pc, key);
    } else if pc.UnlinkCas? {
      UnlinksAway(m0, m, pc, key);
    } else if pc.InsertHead? || pc.InsertCas? {
      LinksOn(m0, m, pc, key);
    } else {
      ScansOn(m0, m, pc, key);
    }
  }

  lemma {:induction false} InsertedOn(run: seq<State>, t: nat, key: Key, i: nat, j: nat)
    requires Run(run) && i <= j < |run| && t < |run[i].threads| && Chain(run[i].memory) && Chain(run[j].memory)
    requires Undisturbed(run, t, i, j) && run[i].threads[t] == LookupHead(ForInsert, key)
    requires forall k :: i <= k < j ==> t < |run[k].threads| && !run[k].threads[t].Returned?
    ensures t < |run[j].threads| && Inserting(run[i].memory, run[j].memory, run[j].threads[t], key)
    ensures j - i + Left(run[j].memory, run[j].threads[t], key) <= Left(run[i].memory, run[i].threads[t], key)
    decreases j
  {
    hide Inv, Chain, Next, Step, Inserting, Left, MovesSurely;
    if i == j {
      InsertBegins(run[i].memory, key);
    } else {
      RunKeepsInv(run, j - 1);
      InvChain(run[j - 1]);
      InsertedOn(run, t, key, i, j - 1);
      assert MovesSurely(run[j - 1], run[j], t);
      InsertedStep(run[i].memory, run[j - 1], run[j], t, key);
    }
  }

  lemma InsertBegins(m: Memory, key: Key)
    requires Chain(m)
    ensures Inserting(m, m, LookupHead(ForInsert, key), key)
  {
    hide Chain;
  }

  lemma InsertedStep(m0: Memory, s: State, s': State, t: nat, key: Key)
    requires Inv(s) && MovesSurely(s, s', t) && t < |s.threads| && !s.threads[t].Returned? && Inserting(m0, s.memory, s.threads[t], key)
    ensures t < |s'.threads| && Chain(s'.memory) && Inserting(m0, s'.memory, s'.threads[t], key)
    ensures Left(s'.memory, s'.threads[t], key) < Left(s.memory, s.threads[t], key)
  {
    hide Chain, Unrivalled, Knows, Inserting, Left, Access, HeldBy;
    var c :| |s.memory.heads| > 0 && HeldBy(s.memory, s.threads[t]) && c != Continue(true) && s' == Step(s, t, c);
    NotIdle(m0, s.memory, s.threads[t], key);
    InsertingOn(m0, s.memory, s.threads[t], key);
  }

  lemma NotIdle(m0: Memory, m: Memory, pc: Pc, key: Key)
    requires Chain(m) && Inserting(m0, m, pc, key)
    ensures pc != Idle && (!pc.Returned? ==> Left(m, pc, key) > 0)
  {
    hide Chain, Times;
  }

  lemma {:induction false} LengthBound(m: Memory, curr: int)
    requires Chain(m) && (curr == NULL || IsNode(m, curr))
    ensures Length(m, curr) <= curr + 1
    decreases curr
  {
    hide Dead, Index;
    if curr != NULL { LengthBound(m, m.nodes[curr].next); }
  }

  lemma LeftAtFirst(m: Memory, key: Key)
    requires Chain(m)
    ensures Left(m, LookupHead(ForInsert, key), key) < (|m.nodes| + 1) * (4 * |m.nodes| + 20)
  {
    var head, n := m.heads[Bucket(m, key)], |m.nodes|;
    LengthBound(m, head);
    hide Chain, Length;
    MulMono(Length(m, head), n, 4 * n + 20);
    Distribute(4 * n + 20, n, 1);
  }

  /**
   An insert that nobody disturbs, and whose exchanges do not fail for no reason, answers true if and
   only if no live node has the key; and then one new node, live, settled and linked, has it.  Whatever
   marked nodes with the key stand before, it unlinks and tries again.  It is done within a bound.
   */
  lemma UndisturbedInsert(run: seq<State>, t: nat, key: Key, i: nat, j: nat)
    requires Run(run) && i < j < |run| && t < |run[i].threads| && Undisturbed(run, t, i, j)
    requires run[i].threads[t] == Started(StartInsert(key))
    requires forall k :: i <= k < j ==> t < |run[k].threads| && !run[k].threads[t].Returned?
    ensures t < |run[j].threads| && Chain(run[j].memory)
    ensures var n := |run[i].memory.nodes|;
            j - i < (n + 1) * (4 * n + 20) && (j - i == (n + 1) * (4 * n + 20) - 1 ==> run[j].threads[t].Returned?)
    ensures run[j].threads[t].Returned? ==>
      var m, m', n := run[i].memory, run[j].memory, |run[i].memory.nodes|;
      && (run[j].threads[t].ok <==> forall x :: IsNode(m, x) && m.nodes[x].key == key ==> m.nodes[x].deleted)
      && |m'.nodes| == (if run[j].threads[t].ok then n + 1 else n)
      && (forall x :: IsNode(m, x) ==> m'.nodes[x] == m.nodes[x].(next := m'.nodes[x].next))
      && (run[j].threads[t].ok ==>
            m'.nodes[n].key == key && !m'.nodes[n].deleted && m'.nodes[n].settled && Reaches(m', m'.heads[Bucket(m', key)], n))
  {
    hide Inv, Chain, Next, MovesSurely, Left, Reaches, Index;
    RunKeepsInv(run, i);
    RunKeepsInv(run, j);
    InvChain(run[i]);
    InvChain(run[j]);
    InsertedOn(run, t, key, i, j);
    LeftAtFirst(run[i].memory, key);
    NotIdle(run[i].memory, run[j].memory, run[j].threads[t], key);
    if run[j].threads[t] == Returned(true) { NewestReaches(run[j].memory, |run[i].memory.nodes|); }
  }

  // ── Unlinking and removing, undisturbed ─────────────────────────

  predicate UnlinksNode(pc: Pc, node: int, after: After) {
    (pc.UnlinkHead? || pc.UnlinkNode? || pc.UnlinkCas?) && pc.node == node && pc.after == after
  }

  // Where an undisturbed attempt to unlink node that began in memory m0 stands.
  ghost predicate Unlinking(m0: Memory, m: Memory, pc: Pc, node: int, after: After)
    requires Chain(m0) && Chain(m)
  {
    && IsNode(m0, node) && Pruned(m0, m)
    && var bucket := Bucket(m0, m0.nodes[node].key);
       match pc
       case UnlinkHead(n, a) => n == node && a == after && m == m0
       case UnlinkNode(n, prev, curr, a) =>
         && n == node && a == after && m == m0 && OnWay(m, bucket, prev, curr)
         && (Reaches(m, m.heads[bucket], node) ==> Reaches(m, curr, node))
       case UnlinkCas(n, prev, next, a) => n == node && a == after && m == m0 && OnWay(m, bucket, prev, node) && next == m.nodes[node].next
       case _ => pc == Finish(after) && !Reaches(m, m.heads[bucket], node)
  }

  lemma {:induction false} ReachesOlder(m: Memory, curr: int, n: int)
    requires Chain(m) && (curr == NULL || IsNode(m, curr)) && Reaches(m, curr, n)
    ensures n <= curr
    decreases curr
  {
    hide Dead, Index;
    if curr != n { ReachesOlder(m, m.nodes[curr].next, n); }
  }

  // After the cut the node is not met any more.
  lemma {:induction false} CutLoses(m: Memory, m': Memory, curr: int, prev: int)
    requires Chain(m) && Chain(m') && IsNode(m, curr) && IsNode(m, prev) && Reaches(m, curr, prev)
    requires var node := m.nodes[prev].next; IsNode(m, node) && m' == m.(nodes := m.nodes[prev := m.nodes[prev].(next := m.nodes[node].next)])
    ensures !Reaches(m', curr, m.nodes[prev].next)
    decreases curr
  {
    hide Dead, Index;
    var node := m.nodes[prev].next;
    ReachesOlder(m, curr, prev);
    if curr == prev {
      if Reaches(m', m.nodes[node].next, node) { ReachesOlder(m', m.nodes[node].next, node); }
    } else {
      CutLoses(m, m', m.nodes[curr].next, prev);
    }
  }

  lemma CutUnlinks(m: Memory, m': Memory, bucket: nat, prev: int, node: int)
    requires Chain(m) && Chain(m') && bucket < |m.heads| && OnWay(m, bucket, prev, node) && IsNode(m, node)
    requires m' == CompareExchange(m, bucket, prev, node, m.nodes[node].next)
    ensures Pruned(m, m') && !Reaches(m', m'.heads[bucket], node)
  {
    hide Dead, Index;
    if prev == NULL {
      if Reaches(m', m.nodes[node].next, node) { ReachesOlder(m', m.nodes[node].next, node); }
    } else {
      CutLoses(m, m', m.heads[bucket], prev);
    }
  }

  lemma UnlinkingOn(m0: Memory, m: Memory, pc: Pc, node: int, after: After)
    requires Chain(m0) && Chain(m) && Unrivalled(m) && Knows(m, pc) && UnlinksNode(pc, node, after) && Unlinking(m0, m, pc, node, after)
    ensures var r := Access(m, pc, false);
            Chain(r.0) && Unlinking(m0, r.0, r.1, node, after) && (UnlinksNode(r.1, node, after) || r.1 == Finish(after))
  {
    hide Index, Dead, DeadKey, Unrivalled;
    var bucket := Bucket(m0, m0.nodes[node].key);
    if pc.UnlinkNode? {
      if pc.curr != NULL { WayOn(m, bucket, pc.prev, pc.curr); }
    } else if pc.UnlinkCas? {
      UnlinkedKeepsInv(m, bucket, pc.prev, node, pc.next);
      CutUnlinks(m, CompareExchange(m, bucket, pc.prev, node, pc.next), bucket, pc.prev, node);
    }
  }

  lemma {:induction false} UnlinkOn(run: seq<State>, t: nat, node: int, after: After, i: nat, j: nat)
    requires Run(run) && i <= j < |run| && t < |run[i].threads| && Chain(run[i].memory) && Chain(run[j].memory)
    requires Alone(run, t, i, j) && run[i].threads[t] == UnlinkHead(node, after) && IsNode(run[i].memory, node)
    requires forall k :: i <= k < j ==> t < |run[k].threads| && UnlinksNode(run[k].threads[t], node, after)
    ensures t < |run[j].threads| && Unlinking(run[i].memory, run[j].memory, run[j].threads[t], node, after)
    decreases j
  {
    hide Inv, Chain, Next, Step, Unlinking, MovesBy;
    if i == j {
      UnlinkBegins(run[i].memory, node, after);
    } else {
      RunKeepsInv(run, j - 1);
      InvChain(run[j - 1]);
      UnlinkOn(run, t, node, after, i, j - 1);
      assert MovesBy(run[j - 1], run[j], t);
      UnlinkedStep(run[i].memory, run[j - 1], run[j], t, node, after);
    }
  }

  lemma UnlinkBegins(m: Memory, node: int, after: After)
    requires Chain(m) && IsNode(m, node)
    ensures Unlinking(m, m, UnlinkHead(node, after), node, after)
  {
    hide Chain;
  }

  lemma UnlinkedStep(m0: Memory, s: State, s': State, t: nat, node: int, after: After)
    requires Chain(m0) && Inv(s) && MovesBy(s, s', t) && t < |s.threads| && UnlinksNode(s.threads[t], node, after)
    requires Unlinking(m0, s.memory, s.threads[t], node, after)
    ensures t < |s'.threads| && Chain(s'.memory) && Unlinking(m0, s'.memory, s'.threads[t], node, after)
  {
    hide Chain, Unrivalled, Knows, Unlinking, Access, HeldBy;
    var c :| |s.memory.heads| > 0 && HeldBy(s.memory, s.threads[t]) && s' == Step(s, t, c);
    NoChance(s.memory, s.threads[t], c.Continue? && c.spurious);
    UnlinkingOn(m0, s.memory, s.threads[t], node, after);
  }

  // Only two exchanges are weak.
  lemma NoChance(m: Memory, pc: Pc, spurious: bool)
    requires |m.heads| > 0 && HeldBy(m, pc) && !pc.InsertCas? && !pc.RemoveCas?
    ensures Access(m, pc, spurious) == Access(m, pc, false)
  {
    hide HeldBy;
  }

  /** An attempt to unlink a node that nobody disturbs leaves it unlinked, and moves nothing but pointers. */
  lemma UndisturbedUnlink(run: seq<State>, t: nat, node: int, after: After, i: nat, j: nat)
    requires Run(run) && i < j < |run| && t < |run[i].threads| && Alone(run, t, i, j)
    requires run[i].threads[t] == UnlinkHead(node, after)
    requires forall k :: i <= k < j ==> t < |run[k].threads| && UnlinksNode(run[k].threads[t], node, after)
    requires t < |run[j].threads| && !UnlinksNode(run[j].threads[t], node, after)
    ensures IsNode(run[i].memory, node) && Chain(run[j].memory) && Pruned(run[i].memory, run[j].memory)
    ensures var m := run[j].memory; run[j].threads[t] == Finish(after) && !Reaches(m, m.heads[Bucket(m, m.nodes[node].key)], node)
  {
    hide Chain, Unrivalled, Next, MovesBy, Reaches, Index;
    RunKeepsInv(run, i);
    RunKeepsInv(run, j);
    InvChain(run[i]);
    assert Knows(run[i].memory, run[i].threads[t]);
    UnlinkOn(run, t, node, after, i, j);
  }

  // Where an undisturbed remove that began in memory m0 stands.
  ghost predicate Removing(m0: Memory, m: Memory, pc: Pc, key: Key)
    requires Chain(m0) && Chain(m)
  {
    var first := FirstOf(m0, key);
    var takes := IsNode(m0, first) && !m0.nodes[first].deleted;
    match pc
    case LookupHead(why, k) => why == ForRemove && k == key && m == m0
    case LookupNode(why, k, curr, _) =>
      why == ForRemove && k == key && m == m0 && (curr == NULL || IsNode(m0, curr)) && First(m0, curr, key) == first
    case RemoveCas(k, node, _) => k == key && m == m0 && node == first && IsNode(m0, first)
    case Returned(ok) => if takes then ok && Removed(m0, m, first) else !ok && m == m0
    case _ =>
      UnlinksNode(pc, first, ReportRemoved) && takes && Chain(Delete(m0, first)) && Unlinking(Delete(m0, first), m, pc, first, ReportRemoved)
  }

  // The node is marked and unlinked; otherwise only pointers moved.
  ghost predicate Removed(m0: Memory, m: Memory, node: int)
    requires Chain(m)
  {
    && IsNode(m0, node) && Pruned(Delete(m0, node), m) && IsNode(m, node)
    && !Reaches(m, m.heads[Bucket(m, m.nodes[node].key)], node)
  }

  lemma RemovingUnlinks(m0: Memory, m: Memory, pc: Pc, spurious: bool, key: Key)
    requires Chain(m0) && Chain(m) && Unrivalled(m) && Knows(m, pc) && Removing(m0, m, pc, key)
    requires pc.UnlinkHead? || pc.UnlinkNode? || pc.UnlinkCas?
    ensures var r := Access(m, pc, spurious); Chain(r.0) && Removing(m0, r.0, r.1, key)
  {
    hide Index, Dead, DeadKey, Unrivalled, First;
    FirstIsNode(m0, m0.heads[Bucket(m0, key)], key);
    NoChance(m, pc, spurious);
    UnlinkingOn(Delete(m0, FirstOf(m0, key)), m, pc, FirstOf(m0, key), ReportRemoved);
    hide Access, Chain, Knows;
  }

  lemma RemovingMarks(m0: Memory, m: Memory, pc: Pc, spurious: bool, key: Key)
    requires Chain(m0) && Chain(m) && Unrivalled(m) && Knows(m, pc) && Removing(m0, m, pc, key) && pc.RemoveCas?
    ensures var r := Access(m, pc, spurious); Chain(r.0) && Removing(m0, r.0, r.1, key)
  {
    hide Index, Dead, DeadKey, Unrivalled, First, Reaches;
    FirstIsNode(m0, m0.heads[Bucket(m0, key)], key);
    DeletedKeepsInv(m, FirstOf(m0, key));
  }

  lemma RemovingLooks(m0: Memory, m: Memory, pc: Pc, spurious: bool, key: Key)
    requires Chain(m0) && Chain(m) && Knows(m, pc) && Removing(m0, m, pc, key) && (pc.LookupHead? || pc.LookupNode?)
    ensures var r := Access(m, pc, spurious); Chain(r.0) && Removing(m0, r.0, r.1, key)
  {
    hide Index, Dead, DeadKey, Reaches, Pruned, Unlinking;
    FirstIsNode(m0, m0.heads[Bucket(m0, key)], key);
  }

  lemma RemovingOn(m0: Memory, m: Memory, pc: Pc, spurious: bool, key: Key)
    requires Chain(m0) && Chain(m) && Unrivalled(m) && Knows(m, pc) && !pc.Returned? && Removing(m0, m, pc, key)
    ensures var r := Access(m, pc, spurious); Chain(r.0) && Removing(m0, r.0, r.1, key)
  {
    hide Chain, Unrivalled, Knows, Access;
    if pc.UnlinkHead? || pc.UnlinkNode? || pc.UnlinkCas? {
      RemovingUnlinks(m0, m, pc, spurious, key);
    } else if pc.RemoveCas? {
      RemovingMarks(m0, m, pc, spurious, key);
    } else {
      RemovingLooks(m0, m, pc, spurious, key);
    }
  }

  lemma RemovedStep(m0: Memory, s: State, s': State, t: nat, key: Key)
    requires Chain(m0) && Inv(s) && MovesBy(s, s', t) && t < |s.threads| && !s.threads[t].Returned? && Removing(m0, s.memory, s.threads[t], key)
    ensures t < |s'.threads| && Chain(s'.memory) && Removing(m0, s'.memory, s'.threads[t], key)
  {
    hide Chain, Unrivalled, Knows, Removing, Access, HeldBy;
    var c :| |s.memory.heads| > 0 && HeldBy(s.memory, s.threads[t]) && s' == Step(s, t, c);
    RemovingBusy(m0, s.memory, s.threads[t], key);
    RemovingOn(m0, s.memory, s.threads[t], c.Continue? && c.spurious, key);
  }

  lemma RemovingBusy(m0: Memory, m: Memory, pc: Pc, key: Key)
    requires Chain(m0) && Chain(m) && Removing(m0, m, pc, key)
    ensures pc != Idle
  {
    hide Chain, Unlinking;
  }

  lemma {:induction false} RemovedOn(run: seq<State>, t: nat, key: Key, i: nat, j: nat)
    requires Run(run) && i <= j < |run| && t < |run[i].threads| && Chain(run[i].memory) && Chain(run[j].memory) && Alone(run, t, i, j)
    requires run[i].threads[t] == LookupHead(ForRemove, key)
    requires forall k :: i <= k < j ==> t < |run[k].threads| && !run[k].threads[t].Returned?
    ensures t < |run[j].threads| && Removing(run[i].memory, run[j].memory, run[j].threads[t], key)
    decreases j
  {
    hide Inv, Chain, Next, Step, Removing, MovesBy;
    if i == j {
      RemoveBegins(run[i].memory, key);
    } else {
      RunKeepsInv(run, j - 1);
      InvChain(run[j - 1]);
      RemovedOn(run, t, key, i, j - 1);
      assert MovesBy(run[j - 1], run[j], t);
      RemovedStep(run[i].memory, run[j - 1], run[j], t, key);
    }
  }

  lemma RemoveBegins(m: Memory, key: Key)
    requires Chain(m)
    ensures Removing(m, m, LookupHead(ForRemove, key), key)
  {
    hide Chain;
  }

  /**
   A remove that nobody disturbs answers true exactly when the first node with the key on its bucket's
   chain is not marked; it has then marked and unlinked that node and no other, and else changed
   nothing.  So beside a live node it answers false if and only if that first node is marked.
   */
  lemma UndisturbedRemove(run: seq<State>, t: nat, key: Key, i: nat, j: nat, n: int)
    requires Run(run) && i < j < |run| && t < |run[i].threads| && Alone(run, t, i, j)
    requires run[i].threads[t] == Started(StartRemove(key))
    requires forall k :: i <= k < j ==> t < |run[k].threads| && !run[k].threads[t].Returned?
    requires t < |run[j].threads| && run[j].threads[t].Returned?
    ensures Chain(run[i].memory) && Chain(run[j].memory)
    ensures var m, first := run[i].memory, FirstOf(run[i].memory, key);
            && (run[j].threads[t].ok <==> IsNode(m, first) && !m.nodes[first].deleted)
            && (if run[j].threads[t].ok then Removed(m, run[j].memory, first) && m.nodes[first].key == key else run[j].memory == m)
            && (IsNode(m, n) && m.nodes[n].key == key && !m.nodes[n].deleted ==>
                  IsNode(m, first) && (!run[j].threads[t].ok <==> m.nodes[first].deleted))
  {
    hide Inv, Chain, Next, MovesBy, First, Index, Removed;
    RunKeepsInv(run, i);
    RunKeepsInv(run, j);
    InvChain(run[i]);
    InvChain(run[j]);
    RemovedOn(run, t, key, i, j);
    var m := run[i].memory;
    FirstIsNode(m, m.heads[Bucket(m, key)], key);
    if IsNode(m, n) && m.nodes[n].key == key && !m.nodes[n].deleted {
      NoLiveNodeLost(run, i, n);
      FirstMeets(m, m.heads[Bucket(m, key)], n);
    }
  }

  // ── What becomes of a node its inserter linked ──────────────────

  // The inserter of node me, still at it or through.
  predicate InsertsNode(m: Memory, pc: Pc, me: int) {
    match pc
    case ScanFirst(n) => n == me
    case ScanNode(n, _) => n == me
    case ScanNext(n, _) => n == me
    case BackOff(n) => n == me
    case UnlinkHead(n, after) => n == me && after == GiveUp && IsNode(m, me) && m.nodes[me].deleted
    case UnlinkNode(n, _, _, after) => n == me && after == GiveUp && IsNode(m, me) && m.nodes[me].deleted
    case UnlinkCas(n, _, _, after) => n == me && after == GiveUp && IsNode(m, me) && m.nodes[me].deleted
    case Returned(ok) => IsNode(m, me) && if ok then m.nodes[me].settled else m.nodes[me].deleted
    case _ => false
  }

  // Settled nodes stay settled too.
  ghost predicate Settles(m: Memory, m': Memory) {
    |m.nodes| <= |m'.nodes| && forall n :: IsNode(m, n) ==> (m.nodes[n].settled ==> m'.nodes[n].settled) && (m.nodes[n].deleted ==> m'.nodes[n].deleted)
  }

  lemma AccessSettles(m: Memory, pc: Pc, spurious: bool, me: int)
    requires |m.heads| > 0 && HeldBy(m, pc)
    ensures var r := Access(m, pc, spurious);
            Settles(m, r.0) && (InsertsNode(m, pc, me) && r.1 != Idle ==> InsertsNode(r.0, r.1, me))
  {
    hide Index;
  }

  lemma FateStep(s: State, s': State, t: nat, me: int)
    requires Next(s, s') && t < |s.threads| && InsertsNode(s.memory, s.threads[t], me)
    ensures t < |s'.threads| && (s'.threads[t] == Idle || InsertsNode(s'.memory, s'.threads[t], me))
  {
    hide Access, HeldBy;
    var u: nat, c :| |s.memory.heads| > 0 && u < |s.threads| && HeldBy(s.memory, s.threads[u]) && s' == Step(s, u, c);
    AccessSettles(s.memory, s.threads[u], c.Continue? && c.spurious, me);
  }

  /** An insert that has linked a node answers true with the node settled, or false with the node marked. */
  lemma {:induction false} InsertersFate(run: seq<State>, t: nat, me: int, i: nat, j: nat)
    requires Run(run) && i <= j < |run| && t < |run[i].threads| && run[i].threads[t] == ScanFirst(me)
    requires forall k :: i <= k <= j ==> t < |run[k].threads| && run[k].threads[t] != Idle
    ensures InsertsNode(run[j].memory, run[j].threads[t], me)
    ensures run[j].threads[t].Returned? ==>
      IsNode(run[j].memory, me) && if run[j].threads[t].ok then run[j].memory.nodes[me].settled else run[j].memory.nodes[me].deleted
    decreases j
  {
    hide Next;
    if i < j {
      InsertersFate(run, t, me, i, j - 1);
      assert Next(run[j - 1], run[j]);
      FateStep(run[j - 1], run[j], t, me);
    }
  }

  // ── No waiting ──────────────────────────────────────────────────

  // In a find, a remove, or an insert that has linked its node, not yet answered.
  predicate Searches(pc: Pc) {
    || pc.FindHead? || pc.FindNode? || pc.FindNext? || pc.RemoveCas?
    || pc.ScanFirst? || pc.ScanNode? || pc.ScanNext? || pc.BackOff?
    || ((pc.LookupHead? || pc.LookupNode?) && pc.why == ForRemove)
    || ((pc.UnlinkHead? || pc.UnlinkNode? || pc.UnlinkCas?) && !pc.after.RetryInsert?)
  }

  predicate Answered(pc: Pc) {
    pc.Found? || pc.NotFound? || pc.Returned?
  }

  // At most how many accesses are left of it, n nodes being there.
  function LeftOfSearch(n: nat, pc: Pc): nat {
    match pc
    case FindHead(_) => 2 * n + 3
    case FindNode(_, curr, _) => 2 * Max(curr, NULL) + 4
    case FindNext(_, curr, _) => 2 * Max(curr, NULL) + 3
    case LookupHead(_, _) => 2 * n + 7
    case LookupNode(_, _, curr, _) => n + 7 + Max(curr, NULL)
    case RemoveCas(_, _, _) => n + 6
    case ScanFirst(_) => 3 * n + 4
    case ScanNode(_, curr) => n + 7 + 2 * Max(curr, NULL)
    case ScanNext(_, curr) => n + 6 + 2 * Max(curr, NULL)
    case BackOff(_) => n + 5
    case UnlinkHead(_, _) => n + 4
    case UnlinkNode(_, _, curr, _) => Max(curr, NULL) + 3
    case UnlinkCas(_, _, _, _) => 1
    case _ => 0
  }

  predicate ScansBack(pc: Pc) {
    pc.ScanFirst? || pc.ScanNode? || pc.ScanNext? || pc.BackOff?
  }

  predicate Nearer(m: Memory, pc: Pc)
    requires |m.heads| > 0 && HeldBy(m, pc)
  {
    var r := Access(m, pc, false);
    && (Searches(r.1) || Answered(r.1))
    && LeftOfSearch(|r.0.nodes|, r.1) < LeftOfSearch(|m.nodes|, pc) <= 3 * |m.nodes| + 7
  }

  lemma SearchNearer(m: Memory, pc: Pc)
    requires Chain(m) && Knows(m, pc) && Searches(pc) && !ScansBack(pc)
    ensures Nearer(m, pc)
  {
    hide Dead, DeadKey, Index;
  }

  lemma ScanNearer(m: Memory, pc: Pc)
    requires Chain(m) && Knows(m, pc) && ScansBack(pc)
    ensures Nearer(m, pc)
  {
    hide Dead, DeadKey, Index;
  }

  /**
   A find, a remove and an insert that has linked its node never wait: whatever the others do, each
   access of its own brings it nearer its answer, within three times as many accesses as there are nodes
   at its start, and seven; but for an exchange that fails for no reason.
   */
  lemma SearchAdvances(run: seq<State>, i: nat, t: nat, c: Choice)
    requires Run(run) && i < |run| && t < |run[i].threads| && Searches(run[i].threads[t]) && c != Continue(true)
    ensures |run[i].memory.heads| > 0 && HeldBy(run[i].memory, run[i].threads[t])
    ensures var s, s' := run[i], Step(run[i], t, c);
            && (Searches(s'.threads[t]) || Answered(s'.threads[t]))
            && LeftOfSearch(|s'.memory.nodes|, s'.threads[t]) < LeftOfSearch(|s.memory.nodes|, s.threads[t]) <= 3 * |s.memory.nodes| + 7
  {
    hide Run, Chain, Unrivalled, Access, Searches, LeftOfSearch, Knows, Answered;
    RunKeepsInv(run, i);
    var m, pc := run[i].memory, run[i].threads[t];
    SearchingIs(run[i], t);
    if ScansBack(pc) { ScanNearer(m, pc); } else { SearchNearer(m, pc); }
  }

  lemma SearchingIs(s: State, t: nat)
    requires Inv(s) && t < |s.threads| && Searches(s.threads[t])
    ensures Chain(s.memory) && |s.memory.heads| > 0 && Knows(s.memory, s.threads[t]) && HeldBy(s.memory, s.threads[t])
    ensures s.threads[t] != Idle
  {}

  // ── And that it does ────────────────────────────────────────────

  // Two inserts of one key race: the loser is linked, marks itself deleted, and before it is
  // unlinked a remove meets it first.
  function Racing(nodes: seq<Node>, winner: Pc, loser: Pc, remover: Pc): State {
    State(Memory([|nodes| - 1], nodes), [winner, loser, remover])
  }

  function Race(key: Key, i: nat): State {
    var first, settled := Node(key, NULL, false, false), Node(key, NULL, false, true);
    var second, marked := Node(key, 0, false, false), Node(key, 0, true, false);
    match i
    case 0 => Racing([], Idle, Idle, Idle)
    case 1 => Racing([], LookupHead(ForInsert, key), Idle, Idle)
    case 2 => Racing([], LookupNode(ForInsert, key, NULL, 0), Idle, Idle)
    case 3 => Racing([], InsertHead(key), Idle, Idle)
    case 4 => Racing([], InsertHead(key), LookupHead(ForInsert, key), Idle)
    case 5 => Racing([], InsertHead(key), LookupNode(ForInsert, key, NULL, 0), Idle)
    case 6 => Racing([], InsertHead(key), InsertHead(key), Idle)
    case 7 => Racing([], InsertCas(key, NULL), InsertHead(key), Idle)
    case 8 => Racing([first], ScanFirst(0), InsertHead(key), Idle)
    case 9 => Racing([first], ScanNode(0, NULL), InsertHead(key), Idle)
    case 10 => Racing([settled], Returned(true), InsertHead(key), Idle)
    case 11 => Racing([settled], Returned(true), InsertCas(key, 0), Idle)
    case 12 => Racing([settled, second], Returned(true), ScanFirst(1), Idle)
    case 13 => Racing([settled, second], Returned(true), ScanNode(1, 0), Idle)
    case 14 => Racing([settled, second], Returned(true), BackOff(1), Idle)
    case 15 => Racing([settled, marked], Returned(true), UnlinkHead(1, GiveUp), Idle)
    case 16 => Racing([settled, marked], Returned(true), UnlinkHead(1, GiveUp), LookupHead(ForRemove, key))
    case 17 => Racing([settled, marked], Returned(true), UnlinkHead(1, GiveUp), LookupNode(ForRemove, key, 1, 2))
    case 18 => Racing([settled, marked], Returned(true), UnlinkHead(1, GiveUp), RemoveCas(key, 1, 2))
    case _ => Racing([settled, marked], Returned(true), UnlinkHead(1, GiveUp), Returned(false))
  }

  // Who moves, and how.
  function Mover(key: Key, i: nat): (nat, Choice) {
    if i == 0 then (0, StartInsert(key))
    else if i == 3 then (1, StartInsert(key))
    else if i == 15 then (2, StartRemove(key))
    else (if i < 3 || 6 <= i < 10 then 0 else if i < 15 then 1 else 2, Continue(false))
  }

  lemma Moved(s: State, s': State, t: nat, c: Choice)
    requires |s.memory.heads| > 0 && t < |s.threads| && HeldBy(s.memory, s.threads[t]) && s' == Step(s, t, c)
    ensures Next(s, s')
  {}

  lemma RaceOpens(key: Key, i: nat)
    requires i < 7
    ensures Next(Race(key, i), Race(key, i + 1))
  {
    hide Index, Next;
    OneBucket(key);
    Moved(Race(key, i), Race(key, i + 1), Mover(key, i).0, Mover(key, i).1);
  }

  lemma RaceLinks(key: Key, i: nat)
    requires 7 <= i < 14
    ensures Next(Race(key, i), Race(key, i + 1))
  {
    hide Index, Next;
    OneBucket(key);
    Moved(Race(key, i), Race(key, i + 1), Mover(key, i).0, Mover(key, i).1);
  }

  lemma RaceCloses(key: Key, i: nat)
    requires 14 <= i < 19
    ensures Next(Race(key, i), Race(key, i + 1))
  {
    hide Index, Next;
    OneBucket(key);
    Moved(Race(key, i), Race(key, i + 1), Mover(key, i).0, Mover(key, i).1);
  }

  lemma OneBucket(key: Key)
    ensures Index(key, 1) == 0
  {}

  /**
   A remove can answer "absent" though a settled node with the key was live all along: the lookup
   stops at the first node with the key, here one that lost the race to insert and is marked deleted.
   */
  lemma RemoveMissesLive(key: Key) returns (run: seq<State>)
    ensures Run(run) && |run| == 20
    ensures forall i :: 16 <= i < 20 ==>
      && |run[i].threads| == 3 && |run[i].memory.nodes| == 2
      && run[i].memory.nodes[0] == Node(key, NULL, false, true)
    ensures run[16].threads[2] == LookupHead(ForRemove, key) && run[19].threads[2] == Returned(false)
  {
    hide Next;
    run := seq(20, i requires 0 <= i < 20 => Race(key, i));
    forall i | 0 < i < 20 ensures Next(run[i - 1], run[i]) {
      if i <= 7 {
        RaceOpens(key, i - 1);
      } else if i <= 14 {
        RaceLinks(key, i - 1);
      } else {
        RaceCloses(key, i - 1);
      }
    }
  }
}

/**
 The insertion-order list of the lock-free map as a step system: a Michael & Scott list that starts
 out empty, with removers marking nodes, collectors unlinking them and snapshots walking past, one
 atomic access per step.

 An element is named by its place in append order.  A node not appended yet is private to its
 inserter but for its mark, which a remover may set: it is already in a bucket chain.  Element.owner
 and since are history, read by no step.
 */
module OrderList {

  const NULL := -1

  // owner: the inserting thread and which of its calls it was.
  datatype Element = Element(key: int, next: int, deleted: bool, owner: (int, nat))

  datatype Memory = Memory(head: int, tail: int, list: seq<Element>)

  datatype Pc =
    | Idle
    // the second phase of insert, for a node with this key; dead when it has been removed already
    | LoadTail(key: int, dead: bool)
    | HeadCas(key: int, dead: bool)
    | FirstTailCas(me: int)
    | LoadNext(key: int, dead: bool, tail: int)
    | Recheck(key: int, dead: bool, tail: int, next: int)
    | HelpTail(key: int, dead: bool, tail: int, next: int)
    | NextCas(key: int, dead: bool, tail: int)
    | SwingTail(me: int, tail: int)
    | Inserted(me: int)
    // the collector's order sweep
    | SweepLoad(prev: int)
    | SweepNext(prev: int, curr: int)
    | SweepCheck(prev: int, curr: int, next: int)
    | SweepCas(prev: int, curr: int, next: int)
    // a snapshot
    | WalkHead
    | WalkNode(curr: int, taken: seq<int>, since: nat)
    | WalkNext(curr: int, taken: seq<int>, since: nat)
    | Walked(taken: seq<int>, since: nat)

  datatype Thread = Thread(pc: Pc, call: nat)

  datatype State = State(memory: Memory, threads: seq<Thread>)

  datatype Choice =
    | StartAppend(key: int)
    | StartSweep
    | StartWalk
    | Proceed(spurious: bool)

  predicate IsElement(m: Memory, i: int) {
    0 <= i < |m.list|
  }

  predicate Place(m: Memory, i: int) {
    i == NULL || IsElement(m, i)
  }

  function Follow(m: Memory, prev: int): int
    requires Place(m, prev)
  {
    if prev == NULL then m.head else m.list[prev].next
  }

  function Redirect(m: Memory, prev: int, next: int): Memory
    requires Place(m, prev)
  {
    if prev == NULL then m.(head := next) else m.(list := m.list[prev := m.list[prev].(next := next)])
  }

  function Delete(m: Memory, i: int): Memory
    requires IsElement(m, i)
  {
    m.(list := m.list[i := m.list[i].(deleted := true)])
  }

  // Linking the new node after the element that was last, or as the first.
  function Append(m: Memory, prev: int, key: int, dead: bool, owner: (int, nat)): Memory
    requires Place(m, prev)
  {
    var r := Redirect(m, prev, |m.list|);
    r.(list := r.list + [Element(key, NULL, dead, owner)])
  }

  // Places a thread holds exist.
  predicate HeldBy(m: Memory, pc: Pc) {
    && Place(m, m.head) && Place(m, m.tail)
    && match pc
       case FirstTailCas(me) => IsElement(m, me)
       case LoadNext(_, _, tail) => IsElement(m, tail)
       case Recheck(_, _, tail, next) => IsElement(m, tail) && Place(m, next)
       case HelpTail(_, _, tail, next) => IsElement(m, tail) && IsElement(m, next)
       case NextCas(_, _, tail) => IsElement(m, tail)
       case SwingTail(me, tail) => IsElement(m, me) && IsElement(m, tail)
       case Inserted(me) => IsElement(m, me)
       case SweepLoad(prev) => Place(m, prev)
       case SweepNext(prev, curr) => Place(m, prev) && Place(m, curr)
       case SweepCheck(prev, curr, next) => Place(m, prev) && IsElement(m, curr) && Place(m, next)
       case SweepCas(prev, curr, next) => Place(m, prev) && IsElement(m, curr) && IsElement(m, next)
       case WalkNode(curr, _, _) => Place(m, curr)
       case WalkNext(curr, _, _) => IsElement(m, curr)
       case _ => true
  }

  function Access(m: Memory, pc: Pc, owner: (int, nat), spurious: bool): (Memory, Pc)
    requires HeldBy(m, pc)
  {
    match pc
    case Idle => (m, Idle)
    case LoadTail(key, dead) => (m, if m.tail == NULL then HeadCas(key, dead) else LoadNext(key, dead, m.tail))
    case HeadCas(key, dead) =>
      if spurious || m.head != NULL then (m, LoadTail(key, dead))
      else (Append(m, NULL, key, dead, owner), FirstTailCas(|m.list|))
    case FirstTailCas(me) => (if m.tail == NULL then m.(tail := me) else m, Inserted(me))
    case LoadNext(key, dead, tail) => (m, Recheck(key, dead, tail, m.list[tail].next))
    case Recheck(key, dead, tail, next) =>
      (m, if m.tail != tail then LoadTail(key, dead)
          else if next != NULL then HelpTail(key, dead, tail, next)
          else NextCas(key, dead, tail))
    case HelpTail(key, dead, tail, next) =>
      (if !spurious && m.tail == tail then m.(tail := next) else m, LoadTail(key, dead))
    case NextCas(key, dead, tail) =>
      if spurious || m.list[tail].next != NULL then (m, LoadTail(key, dead))
      else (Append(m, tail, key, dead, owner), SwingTail(|m.list|, tail))
    case SwingTail(me, tail) => (if m.tail == tail then m.(tail := me) else m, Inserted(me))
    case Inserted(_) => (m, Idle)

    case SweepLoad(prev) => (m, SweepNext(prev, Follow(m, prev)))
    case SweepNext(prev, curr) =>
      (m, if curr == NULL then Idle else SweepCheck(prev, curr, m.list[curr].next))
    case SweepCheck(prev, curr, next) =>
      (m, if m.list[curr].deleted && next != NULL then SweepCas(prev, curr, next) else SweepNext(curr, next))
    case SweepCas(prev, curr, next) =>
      if Follow(m, prev) == curr then (Redirect(m, prev, next), SweepNext(prev, next)) else (m, SweepLoad(prev))

    case WalkHead => (m, WalkNode(m.head, [], |m.list|))
    case WalkNode(curr, taken, since) =>
      (m, if curr == NULL then Walked(taken, since)
          else WalkNext(curr, if m.list[curr].deleted then taken else taken + [curr], since))
    case WalkNext(curr, taken, since) => (m, WalkNode(m.list[curr].next, taken, since))
    case Walked(_, _) => (m, Idle)
  }

  // ── The invariant ───────────────────────────────────────────────

  // Every element strictly between two places is deleted.
  ghost predicate Dead(m: Memory, from: int, to: int) {
    forall i :: from < i < to && IsElement(m, i) ==> m.list[i].deleted
  }

  // Each pointer leads on and skips only deleted elements; the last alone has none.
  ghost predicate Ordered(m: Memory) {
    && (m.head == NULL <==> m.list == [])
    && Place(m, m.head) && Place(m, m.tail) && (m.tail == NULL ==> |m.list| <= 1)
    && Dead(m, NULL, m.head)
    && forall i :: IsElement(m, i) ==>
         if i == |m.list| - 1 then m.list[i].next == NULL
         else i < m.list[i].next < |m.list| && Dead(m, i, m.list[i].next)
  }

  ghost predicate Increasing(taken: seq<int>) {
    forall i, j :: 0 <= i < j < |taken| ==> taken[i] < taken[j]
  }

  // taken holds every live element before to that was there when the walk began, in order.
  ghost predicate Taken(m: Memory, taken: seq<int>, to: int, since: nat) {
    && since <= |m.list| && Increasing(taken)
    && (forall i <- taken :: IsElement(m, i) && i < to)
    && (forall i :: 0 <= i < to && i < since && !m.list[i].deleted ==> i in taken)
  }

  function End(m: Memory, curr: int): int {
    if curr == NULL then |m.list| else curr
  }

  ghost predicate Knows(m: Memory, pc: Pc) {
    && HeldBy(m, pc)
    && match pc
       case FirstTailCas(me) => me == 0
       case LoadNext(_, _, _) => m.tail != NULL
       case Recheck(_, _, tail, next) => m.tail != NULL && (next != NULL ==> tail < next)
       case HelpTail(_, _, tail, next) => m.tail != NULL && tail < next
       case NextCas(_, _, _) => m.tail != NULL
       case SwingTail(me, tail) => m.tail != NULL && tail < me
       case SweepCheck(_, curr, next) => next != NULL ==> curr < next && Dead(m, curr, next)
       case SweepCas(_, curr, next) => m.list[curr].deleted && curr < next && Dead(m, curr, next)
       case WalkNode(curr, taken, since) => Taken(m, taken, End(m, curr), since)
       case WalkNext(curr, taken, since) => Taken(m, taken, curr + 1, since)
       case Walked(taken, since) => Taken(m, taken, |m.list|, since)
       case _ => true
  }

  predicate Pending(pc: Pc) {
    pc.LoadTail? || pc.HeadCas? || pc.LoadNext? || pc.Recheck? || pc.HelpTail? || pc.NextCas?
  }

  predicate Done(pc: Pc) {
    pc.FirstTailCas? || pc.SwingTail? || pc.Inserted?
  }

  // Which elements a thread's current call has appended.
  ghost predicate Owns(m: Memory, t: int, thread: Thread) {
    && (Pending(thread.pc) ==> forall i :: IsElement(m, i) ==> m.list[i].owner != (t, thread.call))
    && (Done(thread.pc) ==> IsElement(m, thread.pc.me) && m.list[thread.pc.me].owner == (t, thread.call))
    && (forall i :: IsElement(m, i) && m.list[i].owner.0 == t ==> m.list[i].owner.1 <= thread.call)
  }

  ghost predicate OwnersDiffer(m: Memory) {
    forall i, j :: IsElement(m, i) && IsElement(m, j) && i < j ==> m.list[i].owner != m.list[j].owner
  }

  ghost predicate Inv(s: State) {
    && Ordered(s.memory) && OwnersDiffer(s.memory)
    && (forall t :: 0 <= t < |s.threads| ==> Knows(s.memory, s.threads[t].pc) && Owns(s.memory, t, s.threads[t]))
  }

  function Started(c: Choice): Pc {
    match c
    case StartAppend(key) => LoadTail(key, false)
    case StartSweep => SweepLoad(NULL)
    case StartWalk => WalkHead
    case Proceed(_) => Idle
  }

  // Thread t makes its next access, or starts a call.
  function Step(s: State, t: nat, c: Choice): State
    requires t < |s.threads| && HeldBy(s.memory, s.threads[t].pc)
  {
    if s.threads[t].pc == Idle then s.(threads := s.threads[t := Thread(Started(c), s.threads[t].call + 1)])
    else
      var r := Access(s.memory, s.threads[t].pc, (t, s.threads[t].call), c.Proceed? && c.spurious);
      State(r.0, s.threads[t := s.threads[t].(pc := r.1)])
  }

  // A remover marks an appended node, or the node of a call still under way.
  function Remove(s: State, i: int): State
    requires IsElement(s.memory, i)
  {
    s.(memory := Delete(s.memory, i))
  }

  function RemovePending(s: State, t: nat): State
    requires t < |s.threads| && Pending(s.threads[t].pc)
  {
    s.(threads := s.threads[t := s.threads[t].(pc := s.threads[t].pc.(dead := true))])
  }

  ghost predicate Initial(s: State) {
    && s.memory == Memory(NULL, NULL, [])
    && forall t :: 0 <= t < |s.threads| ==> s.threads[t] == Thread(Idle, 0)
  }

  ghost predicate Next(s: State, s': State) {
    || (exists t: nat, c :: t < |s.threads| && HeldBy(s.memory, s.threads[t].pc) && s' == Step(s, t, c))
    || (exists i :: IsElement(s.memory, i) && s' == Remove(s, i))
    || (exists t: nat :: t < |s.threads| && Pending(s.threads[t].pc) && s' == RemovePending(s, t))
  }

  ghost predicate Run(run: seq<State>) {
    run != [] && Initial(run[0]) && forall i :: 0 < i < |run| ==> Next(run[i - 1], run[i])
  }

  // ── Every step keeps it ─────────────────────────────────────────

  // Elements stay, with their keys and owners; marks stay; a tail once set stays set.
  ghost predicate Grows(m: Memory, m': Memory) {
    && |m.list| <= |m'.list| && (m.tail != NULL ==> m'.tail != NULL)
    && forall i :: IsElement(m, i) ==>
         && m'.list[i].key == m.list[i].key && m'.list[i].owner == m.list[i].owner
         && (m.list[i].deleted ==> m'.list[i].deleted)
  }

  lemma DeadGrows(m: Memory, m': Memory, from: int, to: int)
    requires Grows(m, m') && to <= |m.list| && Dead(m, from, to)
    ensures Dead(m', from, to)
  {
    forall i | from < i < to && IsElement(m', i) ensures m'.list[i].deleted { assert IsElement(m, i); }
  }

  lemma TakenGrows(m: Memory, m': Memory, taken: seq<int>, to: int, to': int, since: nat)
    requires Grows(m, m') && Taken(m, taken, to, since) && (to' == to || (to == |m.list| && to <= to'))
    ensures Taken(m', taken, to', since)
  {
    forall i | 0 <= i < to' && i < since && !m'.list[i].deleted ensures i in taken { assert IsElement(m, i); }
    forall i <- taken ensures IsElement(m', i) && i < to' { assert IsElement(m, i); }
  }

  lemma KnowsGrows(m: Memory, m': Memory, pc: Pc)
    requires Grows(m, m') && Ordered(m') && Knows(m, pc)
    ensures Knows(m', pc)
  {
    hide Dead, Taken;
    match pc
    case SweepCheck(_, curr, next) => if next != NULL { DeadGrows(m, m', curr, next); }
    case SweepCas(_, curr, next) => DeadGrows(m, m', curr, next);
    case WalkNode(curr, taken, since) => TakenGrows(m, m', taken, End(m, curr), End(m', curr), since);
    case WalkNext(curr, taken, since) => TakenGrows(m, m', taken, curr + 1, curr + 1, since);
    case Walked(taken, since) => TakenGrows(m, m', taken, |m.list|, |m'.list|, since);
    case _ =>
  }

  lemma DeletedOrdered(m: Memory, i: int)
    requires Ordered(m) && IsElement(m, i)
    ensures Ordered(Delete(m, i)) && Grows(m, Delete(m, i))
  {
    hide Dead;
    var m' := Delete(m, i);
    DeadGrows(m, m', NULL, m.head);
    forall k | IsElement(m', k) && k < |m'.list| - 1 ensures Dead(m', k, m'.list[k].next) {
      DeadGrows(m, m', k, m.list[k].next);
    }
  }

  lemma Bridged(m: Memory, from: int, curr: int, to: int)
    requires IsElement(m, curr) && m.list[curr].deleted && Dead(m, from, curr) && Dead(m, curr, to)
    ensures Dead(m, from, to)
  {}

  // Unlinking a deleted element that is not the last.
  lemma RedirectedOrdered(m: Memory, prev: int, curr: int, next: int)
    requires Ordered(m) && Place(m, prev) && IsElement(m, curr) && IsElement(m, next) && Follow(m, prev) == curr
    requires m.list[curr].deleted && curr < next && Dead(m, curr, next)
    ensures Ordered(Redirect(m, prev, next)) && Grows(m, Redirect(m, prev, next))
  {
    hide Dead;
    var m' := Redirect(m, prev, next);
    Bridged(m, prev, curr, next);
    DeadGrows(m, m', prev, next);
    DeadGrows(m, m', NULL, m.head);
    forall k | IsElement(m', k) && k < |m'.list| - 1 && k != prev ensures Dead(m', k, m'.list[k].next) {
      DeadGrows(m, m', k, m.list[k].next);
    }
  }

  // An element without a next is the last, so the new one goes to the end.
  lemma AppendedOrdered(m: Memory, prev: int, key: int, dead: bool, owner: (int, nat))
    requires Ordered(m) && Place(m, prev) && Follow(m, prev) == NULL && (prev != NULL ==> m.tail != NULL)
    ensures Ordered(Append(m, prev, key, dead, owner)) && Grows(m, Append(m, prev, key, dead, owner))
    ensures prev == NULL ==> m.list == []
  {
    hide Dead;
    var m' := Append(m, prev, key, dead, owner);
    if prev != NULL { DeadGrows(m, m', NULL, m.head); } else { NothingDead(m', NULL); }
    forall k | IsElement(m', k) && k < |m'.list| - 1 ensures Dead(m', k, m'.list[k].next) {
      if k == prev { NothingDead(m', k); } else { DeadGrows(m, m', k, m.list[k].next); }
    }
  }

  lemma NothingDead(m: Memory, k: int)
    ensures Dead(m, k, k + 1)
  {}

  lemma WalkStarts(m: Memory)
    requires Ordered(m)
    ensures Taken(m, [], End(m, m.head), |m.list|)
  {}

  lemma WalkTakes(m: Memory, curr: int, taken: seq<int>, since: nat)
    requires IsElement(m, curr) && Taken(m, taken, curr, since)
    ensures Taken(m, if m.list[curr].deleted then taken else taken + [curr], curr + 1, since)
  {
    var taken' := if m.list[curr].deleted then taken else taken + [curr];
    assert !m.list[curr].deleted ==> taken'[|taken|] == curr;
    forall i <- taken' ensures IsElement(m, i) && i < curr + 1 { assert i in taken || i == curr; }
    forall i | i in taken ensures i in taken' { var k :| 0 <= k < |taken| && taken[k] == i; assert taken'[k] == i; }
    if !m.list[curr].deleted { IncreasingAppend(taken, curr); }
  }

  lemma IncreasingAppend(taken: seq<int>, curr: int)
    requires Increasing(taken) && forall i <- taken :: i < curr
    ensures Increasing(taken + [curr])
  {
    var t := taken + [curr];
    forall i, j | 0 <= i < j < |t| ensures t[i] < t[j] {
      assert taken[i] in taken;
    }
  }

  lemma WalkMoves(m: Memory, curr: int, taken: seq<int>, since: nat)
    requires Ordered(m) && IsElement(m, curr) && Taken(m, taken, curr + 1, since)
    ensures Taken(m, taken, End(m, m.list[curr].next), since)
  {
    if curr < |m.list| - 1 { assert Dead(m, curr, m.list[curr].next); }
  }

  lemma InsertAccess(m: Memory, pc: Pc, owner: (int, nat), spurious: bool)
    requires Ordered(m) && Knows(m, pc) && (pc.HeadCas? || pc.NextCas?)
    ensures var r := Access(m, pc, owner, spurious); Ordered(r.0) && Grows(m, r.0) && Knows(r.0, r.1)
  {
    hide Dead, Taken;
    match pc
    case HeadCas(key, dead) => if m.head == NULL { AppendedOrdered(m, NULL, key, dead, owner); }
    case NextCas(key, dead, tail) => if m.list[tail].next == NULL { AppendedOrdered(m, tail, key, dead, owner); }
  }

  lemma TailAccess(m: Memory, pc: Pc, owner: (int, nat), spurious: bool)
    requires Ordered(m) && Knows(m, pc) && (Pending(pc) || Done(pc)) && !pc.HeadCas? && !pc.NextCas?
    ensures var r := Access(m, pc, owner, spurious); Ordered(r.0) && Grows(m, r.0) && Knows(r.0, r.1)
  {
    hide Dead, Taken;
    match pc
    case FirstTailCas(_) => TailMoved(m, 0);
    case HelpTail(_, _, _, next) => TailMoved(m, next);
    case SwingTail(me, _) => TailMoved(m, me);
    case _ =>
  }

  predicate Sweeps(pc: Pc) {
    pc.SweepLoad? || pc.SweepNext? || pc.SweepCheck? || pc.SweepCas?
  }

  lemma SweepAccess(m: Memory, pc: Pc, owner: (int, nat), spurious: bool)
    requires Ordered(m) && Knows(m, pc) && Sweeps(pc)
    ensures var r := Access(m, pc, owner, spurious); Ordered(r.0) && Grows(m, r.0) && Knows(r.0, r.1)
  {
    hide Dead, Taken;
    if pc.SweepCas? && Follow(m, pc.prev) == pc.curr { RedirectedOrdered(m, pc.prev, pc.curr, pc.next); }
  }

  lemma WalkAccess(m: Memory, pc: Pc, owner: (int, nat), spurious: bool)
    requires Ordered(m) && Knows(m, pc) && !Pending(pc) && !Done(pc) && !Sweeps(pc)
    ensures var r := Access(m, pc, owner, spurious); Ordered(r.0) && Grows(m, r.0) && Knows(r.0, r.1)
  {
    hide Dead, Taken;
    match pc
    case WalkHead => WalkStarts(m);
    case WalkNode(curr, taken, since) => if curr != NULL { WalkTakes(m, curr, taken, since); }
    case WalkNext(curr, taken, since) => WalkMoves(m, curr, taken, since);
    case _ =>
  }

  lemma AccessKeeps(m: Memory, pc: Pc, owner: (int, nat), spurious: bool)
    requires Ordered(m) && Knows(m, pc)
    ensures var r := Access(m, pc, owner, spurious); Ordered(r.0) && Grows(m, r.0) && Knows(r.0, r.1)
  {
    hide Ordered, Access, Knows, Grows;
    assert HeldBy(m, pc) by { KnowsHeld(m, pc); }
    if pc.HeadCas? || pc.NextCas? {
      InsertAccess(m, pc, owner, spurious);
    } else if Pending(pc) || Done(pc) {
      TailAccess(m, pc, owner, spurious);
    } else if Sweeps(pc) {
      SweepAccess(m, pc, owner, spurious);
    } else {
      WalkAccess(m, pc, owner, spurious);
    }
  }

  lemma KnowsHeld(m: Memory, pc: Pc)
    requires Knows(m, pc)
    ensures HeldBy(m, pc)
  {}

  lemma TailMoved(m: Memory, tail: int)
    requires Ordered(m) && IsElement(m, tail)
    ensures Ordered(m.(tail := tail)) && Grows(m, m.(tail := tail))
  {
    hide Dead;
    var m' := m.(tail := tail);
    DeadGrows(m, m', NULL, m.head);
    forall k | IsElement(m', k) && k < |m'.list| - 1 ensures Dead(m', k, m'.list[k].next) {
      DeadGrows(m, m', k, m.list[k].next);
    }
  }

  // Only a successful append adds an element, and it is the call's own.
  lemma AccessOwns(m: Memory, t: int, thread: Thread, spurious: bool)
    requires HeldBy(m, thread.pc) && Owns(m, t, thread) && thread.pc != Idle
    ensures var r := Access(m, thread.pc, (t, thread.call), spurious); Owns(r.0, t, thread.(pc := r.1))
    ensures var m' := Access(m, thread.pc, (t, thread.call), spurious).0;
            || (|m'.list| == |m.list|)
            || (Pending(thread.pc) && |m'.list| == |m.list| + 1 && m'.list[|m.list|].owner == (t, thread.call))
    ensures var m' := Access(m, thread.pc, (t, thread.call), spurious).0;
            forall i :: IsElement(m, i) ==> IsElement(m', i) && m'.list[i].owner == m.list[i].owner
  {}

  lemma OwnsGrows(m: Memory, m': Memory, u: int, thread: Thread, t: int)
    requires Owns(m, u, thread) && Grows(m, m') && u != t
    requires forall i :: IsElement(m', i) && !IsElement(m, i) ==> m'.list[i].owner.0 == t
    ensures Owns(m', u, thread)
  {
    forall i | IsElement(m', i) && m'.list[i].owner.0 == u ensures IsElement(m, i) && m.list[i].owner == m'.list[i].owner {}
  }

  lemma StepKeepsInv(s: State, t: nat, c: Choice)
    requires Inv(s) && t < |s.threads| && HeldBy(s.memory, s.threads[t].pc)
    ensures Inv(Step(s, t, c))
  {
    hide Ordered, Knows, Owns, Access, HeldBy, Grows;
    var s' := Step(s, t, c);
    var m, m', thread := s.memory, s'.memory, s.threads[t];
    if thread.pc == Idle {
      StartedKeeps(m, t, thread, c);
    } else {
      AccessKeeps(m, thread.pc, (t, thread.call), c.Proceed? && c.spurious);
      AccessOwns(m, t, thread, c.Proceed? && c.spurious);
      NewOwner(m, m', t, thread);
      forall u | 0 <= u < |s'.threads| ensures Knows(m', s'.threads[u].pc) && Owns(m', u, s'.threads[u]) {
        if u != t {
          KnowsGrows(m, m', s.threads[u].pc);
          OwnsGrows(m, m', u, s.threads[u], t);
        }
      }
    }
  }

  lemma StartedKeeps(m: Memory, t: int, thread: Thread, c: Choice)
    requires Ordered(m) && Owns(m, t, thread) && thread.pc == Idle
    ensures Knows(m, Started(c)) && Owns(m, t, Thread(Started(c), thread.call + 1))
  {}

  lemma NewOwner(m: Memory, m': Memory, t: int, thread: Thread)
    requires OwnersDiffer(m) && Owns(m, t, thread)
    requires |m'.list| == |m.list|
          || (Pending(thread.pc) && |m'.list| == |m.list| + 1 && m'.list[|m.list|].owner == (t, thread.call))
    requires forall i :: IsElement(m, i) ==> m'.list[i].owner == m.list[i].owner
    ensures OwnersDiffer(m')
    ensures forall i :: IsElement(m', i) && !IsElement(m, i) ==> m'.list[i].owner.0 == t
  {}

  lemma RemoveKeepsInv(s: State, i: int)
    requires Inv(s) && IsElement(s.memory, i)
    ensures Inv(Remove(s, i))
  {
    hide Ordered, Knows, Dead;
    var m, m' := s.memory, Delete(s.memory, i);
    DeletedOrdered(m, i);
    forall u | 0 <= u < |s.threads| ensures Knows(m', s.threads[u].pc) && Owns(m', u, s.threads[u]) { KnowsGrows(m, m', s.threads[u].pc); }
  }

  lemma RemovePendingKeepsInv(s: State, t: nat)
    requires Inv(s) && t < |s.threads| && Pending(s.threads[t].pc)
    ensures Inv(RemovePending(s, t))
  {
    hide Ordered, Dead, Taken;
  }

  // ── Over whole runs ─────────────────────────────────────────────

  lemma {:induction false} RunKeepsInv(run: seq<State>, i: nat)
    requires Run(run) && i < |run|
    ensures Inv(run[i])
  {
    hide Inv, Step, Remove, RemovePending;
    if i == 0 {
      InitialInv(run[0]);
    } else {
      RunKeepsInv(run, i - 1);
      NextKeepsInv(run[i - 1], run[i]);
    }
  }

  lemma InitialInv(s: State)
    requires Initial(s)
    ensures Inv(s)
  {}

  lemma NextKeepsInv(s: State, s': State)
    requires Inv(s) && Next(s, s')
    ensures Inv(s')
  {
    hide Inv, Step, Remove, RemovePending;
    if t: nat, c :| t < |s.threads| && HeldBy(s.memory, s.threads[t].pc) && s' == Step(s, t, c) {
      StepKeepsInv(s, t, c);
    } else if i :| IsElement(s.memory, i) && s' == Remove(s, i) {
      RemoveKeepsInv(s, i);
    } else {
      var t: nat :| t < |s.threads| && Pending(s.threads[t].pc) && s' == RemovePending(s, t);
      RemovePendingKeepsInv(s, t);
    }
  }

  /** An insert about to return true has appended exactly one element. */
  lemma AppendedOnce(run: seq<State>, i: nat, t: nat, a: int)
    requires Run(run) && i < |run| && t < |run[i].threads| && run[i].threads[t].pc.Inserted?
    ensures var m, me := run[i].memory, run[i].threads[t].pc.me;
            && IsElement(m, me) && m.list[me].owner == (t, run[i].threads[t].call)
            && (IsElement(m, a) && m.list[a].owner == (t, run[i].threads[t].call) ==> a == me)
  {
    hide Run, Ordered;
    RunKeepsInv(run, i);
    assert Knows(run[i].memory, run[i].threads[t].pc);
  }

  ghost predicate Leads(m: Memory, i: int, j: int)
    requires Ordered(m) && IsElement(m, i)
    decreases |m.list| - i
  {
    i == j || (i < |m.list| - 1 && Leads(m, m.list[i].next, j))
  }

  lemma {:induction false} LeadsToLast(m: Memory, i: int)
    requires Ordered(m) && IsElement(m, i)
    ensures Leads(m, i, |m.list| - 1)
    decreases |m.list| - i
  {
    if i < |m.list| - 1 { LeadsToLast(m, m.list[i].next); }
  }

  lemma TailStep(s: State, s': State)
    requires Inv(s) && Next(s, s')
    ensures s.memory.tail <= s'.memory.tail && |s.memory.list| <= |s'.memory.list|
  {
    hide Ordered, OwnersDiffer, Owns, Dead, Taken;
    if t: nat, c :| t < |s.threads| && HeldBy(s.memory, s.threads[t].pc) && s' == Step(s, t, c) {
      assert Knows(s.memory, s.threads[t].pc);
    }
  }

  /** The tail never goes back, whoever helps it on, and the list never gets shorter. */
  lemma {:induction false} TailAdvances(run: seq<State>, i: nat, j: nat)
    requires Run(run) && i <= j < |run|
    ensures run[i].memory.tail <= run[j].memory.tail && |run[i].memory.list| <= |run[j].memory.list|
    decreases j
  {
    hide Inv, Next;
    if i < j {
      TailAdvances(run, i, j - 1);
      RunKeepsInv(run, j - 1);
      TailStep(run[j - 1], run[j]);
    }
  }

  /** One element, the last, has no next, and the tail leads to it once there is a tail. */
  lemma LastReachable(run: seq<State>, i: nat, k: int)
    requires Run(run) && i < |run| && IsElement(run[i].memory, k)
    ensures var m := run[i].memory;
            && Ordered(m)
            && (m.list[k].next == NULL <==> k == |m.list| - 1)
            && (m.tail != NULL ==> Leads(m, m.tail, |m.list| - 1))
  {
    hide Run;
    RunKeepsInv(run, i);
    if run[i].memory.tail != NULL { LeadsToLast(run[i].memory, run[i].memory.tail); }
  }

  // The keys of the live elements from a place on.
  function LiveKeys(list: seq<Element>): seq<int> {
    if list == [] then [] else (if list[0].deleted then [] else [list[0].key]) + LiveKeys(list[1..])
  }

  // What a snapshot walking from a place collects when nobody else moves.
  ghost function Snapshot(m: Memory, curr: int): seq<int>
    requires Ordered(m) && Place(m, curr)
    decreases |m.list| - End(m, curr)
  {
    if curr == NULL then [] else (if m.list[curr].deleted then [] else [m.list[curr].key]) + Snapshot(m, m.list[curr].next)
  }

  lemma {:induction false} SnapshotIsLive(m: Memory, from: int, curr: int)
    requires Ordered(m) && Place(m, curr) && 0 <= from <= End(m, curr)
    requires Dead(m, from - 1, End(m, curr))
    ensures Snapshot(m, curr) == LiveKeys(m.list[from..])
    decreases |m.list| - from
  {
    if from < |m.list| {
      assert m.list[from..][1..] == m.list[from + 1..];
      if from < End(m, curr) {
        SnapshotIsLive(m, from + 1, curr);
      } else {
        SnapshotIsLive(m, from + 1, m.list[curr].next);
      }
    }
  }

  function Keys(list: seq<Element>, taken: seq<int>): (keys: seq<int>)
    requires forall i <- taken :: 0 <= i < |list|
    ensures |keys| == |taken|
  {
    seq(|taken|, k requires 0 <= k < |taken| => assert taken[k] in taken; list[taken[k]].key)
  }

  lemma KeysAppend(list: seq<Element>, taken: seq<int>, i: int)
    requires (forall k <- taken :: 0 <= k < |list|) && 0 <= i < |list|
    ensures forall k <- taken + [i] :: 0 <= k < |list|
    ensures Keys(list, taken + [i]) == Keys(list, taken) + [list[i].key]
  {}

  // What a walk over still memory has taken, with what it has yet to take, is the whole snapshot.
  ghost predicate WalkedSoFar(m: Memory, pc: Pc)
    requires Ordered(m)
  {
    match pc
    case WalkHead => true
    case WalkNode(curr, taken, _) =>
      (forall i <- taken :: IsElement(m, i)) && Place(m, curr) && Keys(m.list, taken) + Snapshot(m, curr) == Snapshot(m, m.head)
    case WalkNext(curr, taken, _) =>
      && (forall i <- taken :: IsElement(m, i)) && IsElement(m, curr)
      && Keys(m.list, taken) + Snapshot(m, m.list[curr].next) == Snapshot(m, m.head)
    case Walked(taken, _) => (forall i <- taken :: IsElement(m, i)) && Keys(m.list, taken) == Snapshot(m, m.head)
    case _ => false
  }

  lemma WalkAdvances(m: Memory, pc: Pc, owner: (int, nat), spurious: bool)
    requires Ordered(m) && HeldBy(m, pc) && WalkedSoFar(m, pc) && !pc.Walked?
    ensures WalkedSoFar(m, Access(m, pc, owner, spurious).1)
  {
    hide Dead, Keys;
    match pc
    case WalkHead => NoKeys(m.list);
    case WalkNode(curr, taken, _) => if curr != NULL { KeysAppend(m.list, taken, curr); }
    case _ =>
  }

  lemma NoKeys(list: seq<Element>)
    ensures Keys(list, []) == []
  {}

  lemma WalkStep(s: State, s': State, t: nat)
    requires Inv(s) && Next(s, s') && s'.memory == s.memory && t < |s.threads| && t < |s'.threads|
    requires WalkedSoFar(s.memory, s.threads[t].pc) && s'.threads[t].pc != Idle
    ensures WalkedSoFar(s.memory, s'.threads[t].pc)
  {
    hide Ordered, Knows, Owns, OwnersDiffer, WalkedSoFar, Access;
    WalkPlaces(s.memory, s.threads[t].pc);
    if u: nat, c :| u < |s.threads| && HeldBy(s.memory, s.threads[u].pc) && s' == Step(s, u, c) {
      if u == t {
        if s.threads[t].pc.Walked? {
          WalkEnds(s.memory, s.threads[t].pc, (t, s.threads[t].call), c.Proceed? && c.spurious);
        } else {
          WalkAdvances(s.memory, s.threads[t].pc, (t, s.threads[t].call), c.Proceed? && c.spurious);
        }
      }
    }
  }

  lemma WalkEnds(m: Memory, pc: Pc, owner: (int, nat), spurious: bool)
    requires HeldBy(m, pc) && pc.Walked?
    ensures Access(m, pc, owner, spurious).1 == Idle
  {}

  lemma WalkPlaces(m: Memory, pc: Pc)
    requires Ordered(m) && WalkedSoFar(m, pc)
    ensures pc != Idle && !Pending(pc)
  {}

  lemma {:induction false} WalkOn(run: seq<State>, t: nat, i: nat, j: nat)
    requires Run(run) && i <= j < |run| && Ordered(run[i].memory)
    requires forall k :: i <= k <= j ==> run[k].memory == run[i].memory && t < |run[k].threads| && run[k].threads[t].pc != Idle
    requires run[i].threads[t].pc == WalkHead
    ensures WalkedSoFar(run[i].memory, run[j].threads[t].pc)
    decreases j
  {
    hide Inv, Next, Ordered;
    if i < j {
      WalkOn(run, t, i, j - 1);
      RunKeepsInv(run, j - 1);
      hide WalkedSoFar;
      WalkStep(run[j - 1], run[j], t);
    }
  }

  /** A snapshot taken while the memory stands still is exactly the live appended keys, in append order. */
  lemma QuiescentSnapshot(run: seq<State>, t: nat, i: nat, j: nat)
    requires Run(run) && i <= j < |run|
    requires forall k :: i <= k <= j ==> run[k].memory == run[i].memory && t < |run[k].threads| && run[k].threads[t].pc != Idle
    requires run[i].threads[t].pc == Started(StartWalk) && run[j].threads[t].pc.Walked?
    ensures var m, taken := run[i].memory, run[j].threads[t].pc.taken;
            (forall n <- taken :: IsElement(m, n)) && Keys(m.list, taken) == LiveKeys(m.list)
  {
    hide Run, Keys;
    RunKeepsInv(run, i);
    var m := run[i].memory;
    WalkOn(run, t, i, j);
    SnapshotIsLive(m, 0, m.head);
    assert m.list[0..] == m.list;
  }

  // In a snapshot that began when the list had at least n elements.
  predicate WalkedSince(pc: Pc, n: nat) {
    match pc
    case WalkHead => true
    case WalkNode(_, _, since) => since >= n
    case WalkNext(_, _, since) => since >= n
    case Walked(_, since) => since >= n
    case _ => false
  }

  function TakenBy(pc: Pc): seq<int> {
    match pc
    case WalkNode(_, taken, _) => taken
    case WalkNext(_, taken, _) => taken
    case Walked(taken, _) => taken
    case _ => []
  }

  predicate LiveIn(m: Memory, k: int) {
    IsElement(m, k) && !m.list[k].deleted
  }

  ghost predicate LiveOnce(run: seq<State>, i: nat, j: nat, k: int)
    requires i <= j < |run|
  {
    exists h :: i <= h <= j && LiveIn(run[h].memory, k)
  }

  // A snapshot takes only what is live as it takes it.
  lemma TakesLive(s: State, s': State, t: nat, n: nat) returns (more: seq<int>)
    requires Inv(s) && Next(s, s') && t < |s.threads| && t < |s'.threads| && s'.threads[t].pc != Idle
    requires WalkedSince(s.threads[t].pc, n) && n <= |s.memory.list|
    ensures WalkedSince(s'.threads[t].pc, n) && TakenBy(s'.threads[t].pc) == TakenBy(s.threads[t].pc) + more
    ensures forall k <- more :: LiveIn(s.memory, k)
  {
    hide Ordered, Owns, OwnersDiffer, Dead, Taken;
    var pc := s.threads[t].pc;
    more := if pc.WalkNode? && LiveIn(s.memory, pc.curr) && s'.threads[t].pc != pc then [pc.curr] else [];
    if u: nat, c :| u < |s.threads| && HeldBy(s.memory, s.threads[u].pc) && s' == Step(s, u, c) {
      assert u == t || s'.threads[t] == s.threads[t];
    }
  }

  lemma {:induction false} WalkFound(run: seq<State>, t: nat, i: nat, j: nat, k: int)
    requires Run(run) && i <= j < |run|
    requires forall x :: i <= x <= j ==> t < |run[x].threads| && run[x].threads[t].pc != Idle
    requires run[i].threads[t].pc == WalkHead
    ensures WalkedSince(run[j].threads[t].pc, |run[i].memory.list|)
    ensures k in TakenBy(run[j].threads[t].pc) ==> LiveOnce(run, i, j, k)
    decreases j
  {
    hide Inv, Next, WalkedSince, LiveIn;
    if i < j {
      WalkFound(run, t, i, j - 1, k);
      RunKeepsInv(run, j - 1);
      TailAdvances(run, i, j - 1);
      var more := TakesLive(run[j - 1], run[j], t, |run[i].memory.list|);
    } else {
      WalkAtStart(run[i].memory);
    }
  }

  lemma WalkAtStart(m: Memory)
    ensures WalkedSince(WalkHead, |m.list|) && TakenBy(WalkHead) == []
  {}

  /**
   A concurrent one is in order, misses no element that was there when it began and is live when it
   ends, and has none that was not live at some moment in between.
   */
  lemma ConcurrentSnapshot(run: seq<State>, t: nat, i: nat, j: nat, k: int)
    requires Run(run) && i <= j < |run|
    requires forall x :: i <= x <= j ==> t < |run[x].threads| && run[x].threads[t].pc != Idle
    requires run[i].threads[t].pc == Started(StartWalk) && run[j].threads[t].pc.Walked?
    ensures Increasing(run[j].threads[t].pc.taken)
    ensures IsElement(run[i].memory, k) ==>
      IsElement(run[j].memory, k) && (run[j].memory.list[k].deleted || k in run[j].threads[t].pc.taken)
    ensures k in run[j].threads[t].pc.taken ==> LiveOnce(run, i, j, k)
  {
    hide Run, Ordered, Increasing, LiveIn;
    RunKeepsInv(run, j);
    assert Knows(run[j].memory, run[j].threads[t].pc);
    WalkFound(run, t, i, j, k);
  }

  // ── What a sweep achieves ───────────────────────────────────────

  // The memory after the collector has swept from curr on, prev leading there, if nobody else moves.
  ghost function Swept(m: Memory, prev: int, curr: int): Memory
    requires Ordered(m) && Place(m, prev) && Place(m, curr) && Follow(m, prev) == curr
    decreases |m.list| - End(m, curr)
  {
    if curr == NULL then m
    else
      var next := m.list[curr].next;
      if m.list[curr].deleted && next != NULL then
        RedirectedOrdered(m, prev, curr, next);
        Swept(Redirect(m, prev, next), prev, next)
      else Swept(m, curr, next)
  }

  // Every element from a place on is live, but perhaps the last.
  ghost predicate AllLive(m: Memory, curr: int)
    requires Ordered(m) && Place(m, curr)
    decreases |m.list| - End(m, curr)
  {
    curr == NULL || ((!m.list[curr].deleted || m.list[curr].next == NULL) && AllLive(m, m.list[curr].next))
  }

  // A sweep deletes nothing and moves no pointer before prev.
  ghost predicate SweptFrame(m: Memory, m': Memory, prev: int, curr: int) {
    && |m'.list| == |m.list| && (prev != NULL ==> m'.head == m.head)
    && (forall n :: IsElement(m, n) ==> m'.list[n].deleted == m.list[n].deleted && m'.list[n].key == m.list[n].key)
    && (forall n :: IsElement(m, n) && n < End(m, curr) && n != prev ==> m'.list[n].next == m.list[n].next)
  }

  lemma {:induction false} SweptShape(m: Memory, prev: int, curr: int)
    requires Ordered(m) && Place(m, prev) && Place(m, curr) && Follow(m, prev) == curr
    ensures var m' := Swept(m, prev, curr);
            Ordered(m') && SweptFrame(m, m', prev, curr) && Place(m', Follow(m', prev)) && AllLive(m', Follow(m', prev))
    decreases |m.list| - End(m, curr)
  {
    hide Dead;
    if curr != NULL {
      var next := m.list[curr].next;
      if m.list[curr].deleted && next != NULL {
        RedirectedOrdered(m, prev, curr, next);
        SweptShape(Redirect(m, prev, next), prev, next);
      } else {
        SweptShape(m, curr, next);
        assert Follow(Swept(m, prev, curr), prev) == curr;
      }
    }
  }

  // Where the collector stands on its own way from memory m0: what is left to do leads to the same end.
  ghost predicate OnTheWay(m0: Memory, m: Memory, prev: int, curr: int)
    requires Ordered(m0)
  {
    && Ordered(m) && Place(m, prev) && Place(m, curr) && Follow(m, prev) == curr
    && Swept(m, prev, curr) == Swept(m0, NULL, m0.head)
  }

  ghost predicate Sweeping(m0: Memory, m: Memory, pc: Pc)
    requires Ordered(m0)
  {
    match pc
    case SweepLoad(prev) => prev == NULL && m == m0
    case SweepNext(prev, curr) => OnTheWay(m0, m, prev, curr)
    case SweepCheck(prev, curr, next) => OnTheWay(m0, m, prev, curr) && curr != NULL && next == m.list[curr].next
    case SweepCas(prev, curr, next) =>
      && OnTheWay(m0, m, prev, curr) && curr != NULL && next == m.list[curr].next
      && m.list[curr].deleted && next != NULL
    case _ => m == Swept(m0, NULL, m0.head)
  }

  // Thread t is the one that moves.
  ghost predicate MovesBy(s: State, s': State, t: nat) {
    exists c :: t < |s.threads| && HeldBy(s.memory, s.threads[t].pc) && s' == Step(s, t, c)
  }

  // At most how many accesses are left of a sweep or a walk over n elements.
  function LeftOf(m: Memory, pc: Pc): int {
    var n := |m.list|;
    match pc
    case SweepLoad(_) => 3 * n + 2
    case SweepNext(_, curr) => 3 * (n - End(m, curr)) + 1
    case SweepCheck(_, curr, _) => 3 * (n - curr)
    case SweepCas(_, curr, _) => 3 * (n - curr) - 1
    case WalkHead => 2 * n + 2
    case WalkNode(curr, _, _) => 2 * (n - End(m, curr)) + 1
    case WalkNext(curr, _, _) => 2 * (n - curr)
    case _ => 0
  }

  lemma SweepStep(m0: Memory, m: Memory, pc: Pc, owner: (int, nat), spurious: bool)
    requires Ordered(m0) && HeldBy(m, pc) && Sweeping(m0, m, pc) && Sweeps(pc)
    ensures var r := Access(m, pc, owner, spurious); Sweeping(m0, r.0, r.1) && (Sweeps(r.1) || r.1 == Idle)
    ensures var r := Access(m, pc, owner, spurious);
            |r.0.list| == |m.list| && (Sweeps(r.1) ==> 0 < LeftOf(r.0, r.1) < LeftOf(m, pc))
  {
    hide Dead;
    if pc.SweepCas? { RedirectedOrdered(m, pc.prev, pc.curr, pc.next); }
  }

  lemma {:induction false} SweepOn(run: seq<State>, t: nat, i: nat, j: nat)
    requires Run(run) && i <= j < |run| && t < |run[i].threads| && Ordered(run[i].memory)
    requires forall k :: i < k <= j ==> MovesBy(run[k - 1], run[k], t)
    requires run[i].threads[t].pc == SweepLoad(NULL)
    requires forall k :: i <= k < j ==> t < |run[k].threads| && Sweeps(run[k].threads[t].pc)
    ensures t < |run[j].threads| && Sweeping(run[i].memory, run[j].memory, run[j].threads[t].pc)
    ensures |run[j].memory.list| == |run[i].memory.list|
    ensures Sweeps(run[j].threads[t].pc) ==>
      0 < LeftOf(run[j].memory, run[j].threads[t].pc) <= 3 * |run[i].memory.list| + 2 - (j - i)
    decreases j
  {
    hide Inv, Ordered, Next, Access, HeldBy;
    if i < j {
      SweepOn(run, t, i, j - 1);
      hide Sweeping;
      var s, s' := run[j - 1], run[j];
      assert MovesBy(s, s', t);
      var c :| t < |s.threads| && HeldBy(s.memory, s.threads[t].pc) && s' == Step(s, t, c);
      SweepStep(run[i].memory, s.memory, s.threads[t].pc, (t, s.threads[t].call), c.Proceed? && c.spurious);
    }
  }

  /**
   A sweep that nobody disturbs is through within three accesses an element and two.  Then every deleted
   element but the last is unlinked, and no element was marked.
   */
  lemma SweepCleans(run: seq<State>, t: nat, i: nat, j: nat)
    requires Run(run) && i < j < |run| && t < |run[i].threads| && run[i].threads[t].pc == Started(StartSweep)
    requires forall k :: i < k <= j ==> MovesBy(run[k - 1], run[k], t)
    requires forall k :: i <= k < j ==> t < |run[k].threads| && Sweeps(run[k].threads[t].pc)
    ensures t < |run[j].threads| && (Sweeps(run[j].threads[t].pc) ==> j - i < 3 * |run[i].memory.list| + 2)
    ensures !Sweeps(run[j].threads[t].pc) ==>
      var m, m' := run[i].memory, run[j].memory;
      Ordered(m') && Place(m', m'.head) && AllLive(m', m'.head) && SweptFrame(m, m', NULL, m.head)
  {
    hide Run, Dead, MovesBy;
    RunKeepsInv(run, i);
    SweepOn(run, t, i, j);
    SweptShape(run[i].memory, NULL, run[i].memory.head);
  }

  // ── Progress of a snapshot ──────────────────────────────────────

  predicate Walking(pc: Pc) {
    pc.WalkHead? || pc.WalkNode? || pc.WalkNext?
  }

  /** Each access of a snapshot takes it further on, and it never touches the list: over n elements it makes at most twice as many and two. */
  lemma WalkGoesOn(run: seq<State>, i: nat, t: nat, c: Choice)
    requires Run(run) && i < |run| && t < |run[i].threads| && Walking(run[i].threads[t].pc)
    ensures HeldBy(run[i].memory, run[i].threads[t].pc)
    ensures var s, s' := run[i], Step(run[i], t, c);
            var pc, pc' := s.threads[t].pc, s'.threads[t].pc;
            && s'.memory == s.memory && (Walking(pc') || pc'.Walked?)
            && 0 <= LeftOf(s.memory, pc') < LeftOf(s.memory, pc) <= 2 * |s.memory.list| + 2
  {
    hide Run, Dead, Taken, Owns, OwnersDiffer;
    RunKeepsInv(run, i);
    assert Knows(run[i].memory, run[i].threads[t].pc);
  }

  // ── An append that nobody disturbs ──────────────────────────────

  // Thread t is the one that moves, and no exchange fails spuriously.
  ghost predicate MovesSurely(s: State, s': State, t: nat) {
    exists c :: t < |s.threads| && HeldBy(s.memory, s.threads[t].pc) && c != Proceed(true) && s' == Step(s, t, c)
  }

  ghost predicate Undisturbed(run: seq<State>, t: nat, i: nat, j: nat)
    requires i <= j < |run|
  {
    forall k :: i < k <= j ==> MovesSurely(run[k - 1], run[k], t)
  }

  // The list with one element more, linked behind the last.
  function Extended(list: seq<Element>, element: Element): seq<Element> {
    var n := |list|;
    (if n == 0 then [] else list[n - 1 := list[n - 1].(next := n)]) + [element]
  }

  // Somebody has linked the first element and not yet set the tail to it.
  predicate Stalled(m: Memory) {
    m.tail == NULL && m.list != []
  }

  // Where an undisturbed append that began in memory m0 stands.
  ghost predicate Appending(m0: Memory, m: Memory, pc: Pc, key: int, dead: bool, owner: (int, nat)) {
    var n := |m0.list|;
    match pc
    case LoadTail(k, d) => k == key && d == dead && m == m0.(tail := m.tail) && !Stalled(m)
    case HeadCas(k, d) => k == key && d == dead && m == m0.(tail := NULL) && m.list == []
    case LoadNext(k, d, tail) => k == key && d == dead && m == m0.(tail := tail) && tail != NULL
    case Recheck(k, d, tail, next) => k == key && d == dead && m == m0.(tail := tail) && IsElement(m, tail) && next == m.list[tail].next
    case HelpTail(k, d, tail, next) =>
      k == key && d == dead && m == m0.(tail := tail) && IsElement(m, tail) && next == m.list[tail].next && next != NULL
    case NextCas(k, d, tail) => k == key && d == dead && m == m0.(tail := tail) && IsElement(m, tail) && m.list[tail].next == NULL
    case FirstTailCas(me) => me == n == 0 && m == Memory(0, NULL, Extended(m0.list, Element(key, NULL, dead, owner)))
    case SwingTail(me, tail) =>
      me == n > 0 && tail == m.tail && m == Memory(m0.head, tail, Extended(m0.list, Element(key, NULL, dead, owner)))
    case Inserted(me) =>
      me == n == m.tail && m == Memory(if n == 0 then 0 else m0.head, n, Extended(m0.list, Element(key, NULL, dead, owner)))
    case _ => false
  }

  // At most how many accesses are left of it: four to help the tail on by an element, and five.
  function LeftOfAppend(m: Memory, pc: Pc): int {
    var gap := if m.tail == NULL then 0 else |m.list| - 1 - m.tail;
    match pc
    case LoadTail(_, _) => 4 * gap + 5
    case HeadCas(_, _) => 2
    case LoadNext(_, _, _) => 4 * gap + 4
    case Recheck(_, _, _, _) => 4 * gap + 3
    case HelpTail(_, _, _, _) => 4 * gap + 2
    case NextCas(_, _, _) => 2
    case FirstTailCas(_) => 1
    case SwingTail(_, _) => 1
    case _ => 0
  }

  lemma AppendAccess(m0: Memory, m: Memory, pc: Pc, key: int, dead: bool, owner: (int, nat))
    requires Ordered(m) && HeldBy(m, pc) && Appending(m0, m, pc, key, dead, owner) && !pc.Inserted?
    ensures var r := Access(m, pc, owner, false);
            Appending(m0, r.0, r.1, key, dead, owner) && 0 <= LeftOfAppend(r.0, r.1) < LeftOfAppend(m, pc)
  {
    if pc.HeadCas? || pc.NextCas? { LinkExtends(m, if pc.HeadCas? then NULL else pc.tail, key, dead, owner); }
    hide Dead, Append, Extended;
  }

  lemma LinkExtends(m: Memory, prev: int, key: int, dead: bool, owner: (int, nat))
    requires Ordered(m) && Place(m, prev) && Follow(m, prev) == NULL && (prev == NULL ==> m.list == [])
    ensures var n := |m.list|;
            Append(m, prev, key, dead, owner)
              == m.(head := if n == 0 then 0 else m.head, list := Extended(m.list, Element(key, NULL, dead, owner)))
  {}

  lemma AppendStep(m0: Memory, s: State, s': State, t: nat, key: int, dead: bool, call: nat)
    requires Inv(s) && MovesSurely(s, s', t) && t < |s.threads| && s.threads[t].call == call && !s.threads[t].pc.Inserted?
    requires Appending(m0, s.memory, s.threads[t].pc, key, dead, (t, call))
    ensures t < |s'.threads| && s'.threads[t].call == call && Appending(m0, s'.memory, s'.threads[t].pc, key, dead, (t, call))
    ensures 0 <= LeftOfAppend(s'.memory, s'.threads[t].pc) < LeftOfAppend(s.memory, s.threads[t].pc)
  {
    hide Ordered, Knows, Owns, OwnersDiffer, Access, HeldBy, LeftOfAppend;
    var c :| t < |s.threads| && HeldBy(s.memory, s.threads[t].pc) && c != Proceed(true) && s' == Step(s, t, c);
    AppendAccess(m0, s.memory, s.threads[t].pc, key, dead, (t, call));
  }

  lemma {:induction false} AppendOn(run: seq<State>, t: nat, i: nat, j: nat)
    requires Run(run) && i <= j < |run| && Undisturbed(run, t, i, j) && t < |run[i].threads|
    requires run[i].threads[t].pc.LoadTail? && !Stalled(run[i].memory)
    requires forall k :: i <= k < j ==> t < |run[k].threads| && !run[k].threads[t].pc.Inserted?
    ensures t < |run[j].threads| && run[j].threads[t].call == run[i].threads[t].call
    ensures var pc := run[i].threads[t].pc;
            Appending(run[i].memory, run[j].memory, run[j].threads[t].pc, pc.key, pc.dead, (t, run[i].threads[t].call))
    ensures 0 <= LeftOfAppend(run[j].memory, run[j].threads[t].pc) <= LeftOfAppend(run[i].memory, run[i].threads[t].pc) - (j - i)
    decreases j
  {
    hide Inv, Next, Step, LeftOfAppend;
    if i == j {
      RunKeepsInv(run, i);
      AppendBegins(run[i], t);
    } else {
      AppendOn(run, t, i, j - 1);
      RunKeepsInv(run, j - 1);
      hide Appending, MovesSurely;
      assert MovesSurely(run[j - 1], run[j], t);
      AppendStep(run[i].memory, run[j - 1], run[j], t, run[i].threads[t].pc.key, run[i].threads[t].pc.dead, run[i].threads[t].call);
    }
  }

  lemma AppendBegins(s: State, t: nat)
    requires Inv(s) && t < |s.threads| && s.threads[t].pc.LoadTail?
    ensures 0 < LeftOfAppend(s.memory, s.threads[t].pc) <= 4 * |s.memory.list| + 5
  {
    hide Knows, Owns, OwnersDiffer, Dead;
  }

  /**
   An append that nobody disturbs, unless it begins while another insert has linked the first element
   and not yet set the tail, is done within four accesses an element and five.  It has put one element
   with the call's key and mark behind the last, and the tail leads to it.
   */
  lemma UndisturbedAppend(run: seq<State>, t: nat, i: nat, j: nat)
    requires Run(run) && i < j < |run| && Undisturbed(run, t, i, j) && t < |run[i].threads|
    requires run[i].threads[t].pc.LoadTail? && !Stalled(run[i].memory)
    requires forall k :: i <= k < j ==> t < |run[k].threads| && !run[k].threads[t].pc.Inserted?
    ensures j - i <= 4 * |run[i].memory.list| + 5
    ensures j - i == 4 * |run[i].memory.list| + 5 ==> t < |run[j].threads| && run[j].threads[t].pc.Inserted?
    ensures t < |run[j].threads| && run[j].threads[t].pc.Inserted? ==>
      var m, m', pc, n := run[i].memory, run[j].memory, run[i].threads[t].pc, |run[i].memory.list|;
      && run[j].threads[t].pc.me == n == m'.tail && |m'.list| == n + 1
      && m'.list[n] == Element(pc.key, NULL, pc.dead, (t, run[i].threads[t].call))
      && (forall k :: 0 <= k < n - 1 ==> m'.list[k] == m.list[k])
      && (if n == 0 then m'.head == 0 else m'.head == m.head && m'.list[n - 1] == m.list[n - 1].(next := n))
  {
    hide Run;
    AppendOn(run, t, i, j);
    RunKeepsInv(run, i);
    AppendBegins(run[i], t);
    RunKeepsInv(run, j);
    AppendEnds(run[j].memory, run[j].threads[t].pc, run[i].memory, run[i].threads[t], t);
  }

  lemma AppendEnds(m: Memory, pc: Pc, m0: Memory, thread: Thread, t: nat)
    requires thread.pc.LoadTail? && Appending(m0, m, pc, thread.pc.key, thread.pc.dead, (t, thread.call))
    requires Place(m, m.tail)
    ensures !pc.Inserted? ==> 0 < LeftOfAppend(m, pc)
  {
    hide Extended;
  }

  lemma StalledStep(s: State, s': State, t: nat)
    requires MovesSurely(s, s', t) && Inv(s) && Stalled(s.memory) && t < |s.threads| && (s.threads[t].pc.LoadTail? || s.threads[t].pc.HeadCas?)
    ensures s'.memory == s.memory && t < |s'.threads| && (s'.threads[t].pc.LoadTail? || s'.threads[t].pc.HeadCas?)
  {
    hide Knows, Owns, OwnersDiffer, Dead;
  }

  /** But one that begins there alone never ends: the list is not lock-free until its first tail is set. */
  lemma {:induction false} StalledAppend(run: seq<State>, t: nat, i: nat, j: nat)
    requires Run(run) && i <= j < |run| && Undisturbed(run, t, i, j) && t < |run[i].threads|
    requires run[i].threads[t].pc.LoadTail? && Stalled(run[i].memory)
    ensures run[j].memory == run[i].memory && t < |run[j].threads|
    ensures run[j].threads[t].pc.LoadTail? || run[j].threads[t].pc.HeadCas?
    decreases j
  {
    hide Inv, Next, MovesSurely, Stalled;
    if i < j {
      StalledAppend(run, t, i, j - 1);
      RunKeepsInv(run, j - 1);
      assert MovesSurely(run[j - 1], run[j], t);
      StalledStep(run[j - 1], run[j], t);
    }
  }

  // One insert links the first element and stops; another begins.
  function Stall(key: int, i: nat): State {
    var first := Memory(0, NULL, [Element(key, NULL, false, (0, 1))]);
    match i
    case 0 => State(Memory(NULL, NULL, []), [Thread(Idle, 0), Thread(Idle, 0)])
    case 1 => State(Memory(NULL, NULL, []), [Thread(LoadTail(key, false), 1), Thread(Idle, 0)])
    case 2 => State(Memory(NULL, NULL, []), [Thread(HeadCas(key, false), 1), Thread(Idle, 0)])
    case 3 => State(first, [Thread(FirstTailCas(0), 1), Thread(Idle, 0)])
    case _ => State(first, [Thread(FirstTailCas(0), 1), Thread(LoadTail(key, false), 1)])
  }

  lemma Moved(s: State, s': State, t: nat, c: Choice)
    requires t < |s.threads| && HeldBy(s.memory, s.threads[t].pc) && s' == Step(s, t, c)
    ensures Next(s, s')
  {}

  /** And such a state is reached. */
  lemma StallIsReached(key: int) returns (run: seq<State>)
    ensures Run(run) && |run| == 5 && Stalled(run[4].memory) && |run[4].threads| == 2 && run[4].threads[1].pc == LoadTail(key, false)
  {
    hide Next;
    run := seq(5, i requires 0 <= i < 5 => Stall(key, i));
    Moved(Stall(key, 0), Stall(key, 1), 0, StartAppend(key));
    Moved(Stall(key, 1), Stall(key, 2), 0, Proceed(false));
    Moved(Stall(key, 2), Stall(key, 3), 0, Proceed(false));
    Moved(Stall(key, 3), Stall(key, 4), 1, StartAppend(key));
    forall i | 0 < i < 5 ensures Next(run[i - 1], run[i]) {
      assert i == 1 || i == 2 || i == 3 || i == 4;
    }
  }
}

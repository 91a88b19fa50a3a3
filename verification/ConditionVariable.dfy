/**
 The sequence-counter condition variable as a step system: any number of waiters and notifiers over
 one mutex, one atomic access or kernel call per step, sleeps that may end for no reason.  The
 sequence is unbounded.

 The predicate is a bit of the shared data, which only the holder of the lock changes.  Three values
 are history, read by no step: State.version, which counts those changes, log, which holds the
 version at each advance of the sequence, and saw, the version a waiter last evaluated it at.
 */
module ConditionVariable {

  const NONE := -1

  datatype Pc =
    | Idle
    | LockWanted
    | Locked
    // Wait
    | Check
    | LoadSeq(saw: nat)
    | Unlock(sequence: nat, saw: nat)
    | Register(sequence: nat, saw: nat)
    | Sleep(sequence: nat, saw: nat)
    | Sleeping(sequence: nat, saw: nat)
    | Deregister
    | Relock
    | Returned
    // NotifyOne and NotifyAll; held tells whether the notifier holds the lock
    | Advance(all: bool, held: bool)
    | LoadWaiters(all: bool, held: bool, version: nat, sequence: nat)
    | WakeUp(all: bool, held: bool, version: nat, sequence: nat)
    | Notified(all: bool, held: bool, version: nat, sequence: nat)

  datatype State = State(lock: int, ready: bool, sequence: nat, waiters: nat, threads: seq<Pc>, version: nat, log: seq<nat>)

  datatype Choice =
    | Lock
    | Change(ready: bool)
    | Wait
    | Release
    | Notify(all: bool)
    | Wake(sleeper: int)
    | Proceed(spurious: bool)

  function Put(s: State, t: nat, pc: Pc): State
    requires t < |s.threads|
  {
    s.(threads := s.threads[t := pc])
  }

  predicate Asleep(s: State, u: int) {
    0 <= u < |s.threads| && s.threads[u].Sleeping?
  }

  // Registered as a waiter: between adding itself to the count and taking itself out.
  predicate Registered(pc: Pc) {
    pc.Sleep? || pc.Sleeping? || pc.Deregister?
  }

  function Awake(threads: seq<Pc>): (r: seq<Pc>)
    ensures |r| == |threads|
    ensures forall u :: 0 <= u < |r| ==> r[u] == if threads[u].Sleeping? then Deregister else threads[u]
  {
    seq(|threads|, u requires 0 <= u < |threads| => if threads[u].Sleeping? then Deregister else threads[u])
  }

  // The kernel wakes some sleeper if there is one.
  predicate WakesRight(s: State, t: nat, c: Choice)
    requires t < |s.threads|
  {
    s.threads[t].WakeUp? && !s.threads[t].all ==> (c.Wake? && Asleep(s, c.sleeper)) || forall u :: 0 <= u < |s.threads| ==> !Asleep(s, u)
  }

  function Step(s: State, t: nat, c: Choice): State
    requires t < |s.threads|
  {
    match s.threads[t]
    case Idle =>
      if c.Lock? then Put(s, t, LockWanted) else if c.Notify? then Put(s, t, Advance(c.all, false)) else s
    case LockWanted => if s.lock == NONE then Put(s.(lock := t), t, Locked) else s
    case Locked =>
      (match c
       case Change(ready) => s.(ready := ready, version := s.version + 1)
       case Wait => Put(s, t, Check)
       case Release => Put(s.(lock := NONE), t, Idle)
       case Notify(all) => Put(s, t, Advance(all, true))
       case _ => s)

    case Check => if s.ready then Put(s, t, Returned) else Put(s, t, LoadSeq(s.version))
    case LoadSeq(saw) => Put(s, t, Unlock(s.sequence, saw))
    case Unlock(sequence, saw) => Put(s.(lock := NONE), t, Register(sequence, saw))
    case Register(sequence, saw) => Put(s.(waiters := s.waiters + 1), t, Sleep(sequence, saw))
    case Sleep(sequence, saw) => if s.sequence == sequence then Put(s, t, Sleeping(sequence, saw)) else Put(s, t, Deregister)
    case Sleeping(_, _) => if c.Proceed? && c.spurious then Put(s, t, Deregister) else s
    case Deregister => Put(s.(waiters := if s.waiters > 0 then s.waiters - 1 else 0), t, Relock)
    case Relock => if s.lock == NONE then Put(s.(lock := t), t, Check) else s
    case Returned => Put(s, t, Locked)

    case Advance(all, held) =>
      Put(s.(sequence := s.sequence + 1, log := s.log + [s.version]), t, LoadWaiters(all, held, s.version, s.sequence + 1))
    case LoadWaiters(all, held, version, sequence) =>
      Put(s, t, if s.waiters != 0 then WakeUp(all, held, version, sequence) else Notified(all, held, version, sequence))
    case WakeUp(all, held, version, sequence) =>
      if all then Put(s.(threads := Awake(s.threads)), t, Notified(all, held, version, sequence))
      else if c.Wake? && Asleep(s, c.sleeper) then
        Put(s.(threads := s.threads[c.sleeper := Deregister]), t, Notified(all, held, version, sequence))
      else Put(s, t, Notified(all, held, version, sequence))
    case Notified(_, held, _, _) => Put(s, t, if held then Locked else Idle)
  }

  ghost predicate Initial(s: State) {
    && s.lock == NONE && s.sequence == 0 && s.waiters == 0 && s.version == 0 && s.log == []
    && forall t :: 0 <= t < |s.threads| ==> s.threads[t] == Idle
  }

  ghost predicate Next(s: State, s': State) {
    exists t: nat, c :: t < |s.threads| && WakesRight(s, t, c) && s' == Step(s, t, c)
  }

  ghost predicate Run(run: seq<State>) {
    run != [] && Initial(run[0]) && forall i :: 0 < i < |run| ==> Next(run[i - 1], run[i])
  }

  // ── The invariant ───────────────────────────────────────────────

  function Count(threads: seq<Pc>): nat {
    if threads == [] then 0 else Count(threads[..|threads| - 1]) + if Registered(threads[|threads| - 1]) then 1 else 0
  }

  predicate Holding(pc: Pc) {
    || pc.Locked? || pc.Check? || pc.LoadSeq? || pc.Unlock? || pc.Returned?
    || ((pc.Advance? || pc.LoadWaiters? || pc.WakeUp? || pc.Notified?) && pc.held)
  }

  // A waiter that read the sequence evaluated the predicate no earlier than the advances it counts.
  ghost predicate Fresh(s: State, sequence: nat, saw: nat) {
    sequence <= s.sequence && forall k :: 0 <= k < sequence && k < |s.log| ==> s.log[k] <= saw
  }

  // The advance to sequence happened at this version.
  ghost predicate Logged(s: State, sequence: nat, version: nat) {
    0 < sequence <= |s.log| && s.log[sequence - 1] == version
  }

  // No thread sleeps on a sequence older than sequence.
  ghost predicate NoneOlder(s: State, sequence: nat) {
    sequence <= s.sequence && forall u :: 0 <= u < |s.threads| && s.threads[u].Sleeping? ==> sequence <= s.threads[u].sequence
  }

  ghost predicate Knows(s: State, t: int, pc: Pc) {
    && (Holding(pc) ==> s.lock == t)
    && match pc
       case LoadSeq(saw) => saw == s.version
       case Unlock(sequence, saw) => Fresh(s, sequence, saw)
       case Register(sequence, saw) => Fresh(s, sequence, saw)
       case Sleep(sequence, saw) => Fresh(s, sequence, saw)
       case Sleeping(sequence, saw) => Fresh(s, sequence, saw)
       case Returned => s.ready
       case LoadWaiters(_, _, version, sequence) => Logged(s, sequence, version) && sequence <= s.sequence
       case WakeUp(_, _, version, sequence) => Logged(s, sequence, version) && sequence <= s.sequence
       case Notified(all, _, version, sequence) =>
         Logged(s, sequence, version) && sequence <= s.sequence && (all ==> NoneOlder(s, sequence))
       case _ => true
  }

  ghost predicate Inv(s: State) {
    && |s.log| == s.sequence && (forall k :: 0 <= k < |s.log| ==> s.log[k] <= s.version)
    && s.waiters == Count(s.threads)
    && forall t :: 0 <= t < |s.threads| ==> Knows(s, t, s.threads[t])
  }

  // ── Counting ────────────────────────────────────────────────────

  lemma {:induction false} CountUpdate(threads: seq<Pc>, t: nat, pc: Pc)
    requires t < |threads|
    ensures Count(threads[t := pc]) - (if Registered(pc) then 1 else 0) == Count(threads) - (if Registered(threads[t]) then 1 else 0)
  {
    var n := |threads| - 1;
    var after := threads[t := pc];
    if t == n {
      assert after[..n] == threads[..n];
    } else {
      assert after[..n] == threads[..n][t := pc];
      CountUpdate(threads[..n], t, pc);
    }
  }

  lemma {:induction false} CountSame(a: seq<Pc>, b: seq<Pc>)
    requires |a| == |b| && forall u :: 0 <= u < |a| ==> Registered(a[u]) == Registered(b[u])
    ensures Count(a) == Count(b)
  {
    if a != [] { CountSame(a[..|a| - 1], b[..|b| - 1]); }
  }

  lemma {:induction false} CountZero(threads: seq<Pc>, u: nat)
    requires Count(threads) == 0 && u < |threads|
    ensures !Registered(threads[u])
  {
    if u < |threads| - 1 { CountZero(threads[..|threads| - 1], u); }
  }

  lemma {:induction false} CountNone(threads: seq<Pc>)
    requires forall u :: 0 <= u < |threads| ==> !Registered(threads[u])
    ensures Count(threads) == 0
  {
    if threads != [] { CountNone(threads[..|threads| - 1]); }
  }

  // ── Every step keeps it ─────────────────────────────────────────

  lemma StepCount(s: State, t: nat, c: Choice)
    requires s.waiters == Count(s.threads) && t < |s.threads|
    ensures Step(s, t, c).waiters == Count(Step(s, t, c).threads)
  {
    hide Count;
    var s' := Step(s, t, c);
    CountUpdate(s.threads, t, s'.threads[t]);
    if s.threads[t].WakeUp? {
      CountSame(s.threads, s'.threads);
    } else if s.threads[t].Deregister? {
      if Count(s.threads) == 0 { CountZero(s.threads, t); }
    }
  }

  // The sequence and its log only grow, and the data changes only under the lock.
  lemma StepShared(s: State, t: nat, c: Choice)
    requires Inv(s) && t < |s.threads|
    ensures var s' := Step(s, t, c);
            && |s'.log| == s'.sequence && s.log <= s'.log && s.version <= s'.version
            && (forall k :: 0 <= k < |s'.log| ==> s'.log[k] <= s'.version)
            && (s'.version != s.version || s'.ready != s.ready ==> s.lock == t)
            && (s'.lock != s.lock ==> s.lock == t || (s.lock == NONE && s'.lock == t))
  {
    hide Count, Fresh, NoneOlder;
    assert Knows(s, t, s.threads[t]);
  }

  lemma StepThreads(s: State, t: nat, c: Choice, u: nat)
    requires t < |s.threads| && u < |s.threads| && u != t
    ensures var s' := Step(s, t, c);
            |s'.threads| == |s.threads| && (s'.threads[u] == s.threads[u] || (s.threads[u].Sleeping? && s'.threads[u] == Deregister))
  {
    if s.threads[t].WakeUp? {
      assert Awake(s.threads)[u] == if s.threads[u].Sleeping? then Deregister else s.threads[u];
    }
  }

  lemma FreshKept(s: State, s': State, sequence: nat, saw: nat)
    requires Fresh(s, sequence, saw) && |s.log| == s.sequence && |s'.log| == s'.sequence && s.log <= s'.log
    ensures Fresh(s', sequence, saw)
  {}

  // Whoever falls asleep does so on the current sequence.
  lemma NoneOlderKept(s: State, t: nat, c: Choice, sequence: nat)
    requires Inv(s) && t < |s.threads| && NoneOlder(s, sequence)
    ensures NoneOlder(Step(s, t, c), sequence)
  {
    hide Count, Fresh, Knows;
    var s' := Step(s, t, c);
    forall u | 0 <= u < |s'.threads| && s'.threads[u].Sleeping? ensures sequence <= s'.threads[u].sequence {
      if u != t { StepThreads(s, t, c, u); }
    }
  }

  lemma OthersKnow(s: State, t: nat, c: Choice, u: nat)
    requires Inv(s) && t < |s.threads| && u < |s.threads| && u != t
    ensures Knows(Step(s, t, c), u, Step(s, t, c).threads[u])
  {
    hide Step, Count, Fresh, NoneOlder;
    var s', pc := Step(s, t, c), s.threads[u];
    StepThreads(s, t, c, u);
    StepShared(s, t, c);
    assert Knows(s, u, pc);
    match pc
    case Unlock(sequence, saw) => FreshKept(s, s', sequence, saw);
    case Register(sequence, saw) => FreshKept(s, s', sequence, saw);
    case Sleep(sequence, saw) => FreshKept(s, s', sequence, saw);
    case Sleeping(sequence, saw) => FreshKept(s, s', sequence, saw);
    case Notified(all, _, _, sequence) => if all { NoneOlderKept(s, t, c, sequence); }
    case _ =>
  }

  predicate Notifies(pc: Pc) {
    pc.Advance? || pc.LoadWaiters? || pc.WakeUp? || pc.Notified?
  }

  lemma NotifierKnows(s: State, t: nat, c: Choice)
    requires Inv(s) && t < |s.threads| && Notifies(s.threads[t])
    ensures Knows(Step(s, t, c), t, Step(s, t, c).threads[t])
  {
    hide Count, Fresh;
    assert Knows(s, t, s.threads[t]);
    if s.threads[t].LoadWaiters? && s.waiters == 0 {
      forall u | 0 <= u < |s.threads| ensures !Registered(s.threads[u]) { CountZero(s.threads, u); }
    }
  }

  lemma WaiterKnows(s: State, t: nat, c: Choice)
    requires Inv(s) && t < |s.threads| && !Notifies(s.threads[t])
    ensures Knows(Step(s, t, c), t, Step(s, t, c).threads[t])
  {
    hide Count, NoneOlder, Awake, Logged;
    assert Knows(s, t, s.threads[t]);
  }

  lemma StepKeepsInv(s: State, t: nat, c: Choice)
    requires Inv(s) && t < |s.threads|
    ensures Inv(Step(s, t, c))
  {
    hide Step, Count, Knows;
    var s' := Step(s, t, c);
    StepCount(s, t, c);
    StepShared(s, t, c);
    StepSize(s, t, c);
    forall u | 0 <= u < |s'.threads| ensures Knows(s', u, s'.threads[u]) {
      if u != t {
        OthersKnow(s, t, c, u);
      } else if Notifies(s.threads[t]) {
        NotifierKnows(s, t, c);
      } else {
        WaiterKnows(s, t, c);
      }
    }
  }

  lemma StepSize(s: State, t: nat, c: Choice)
    requires t < |s.threads|
    ensures |Step(s, t, c).threads| == |s.threads|
  {}

  lemma InitialInv(s: State)
    requires Initial(s)
    ensures Inv(s)
  {
    CountNone(s.threads);
  }

  lemma {:induction false} RunKeepsInv(run: seq<State>, i: nat)
    requires Run(run) && i < |run|
    ensures Inv(run[i])
  {
    hide Inv, Step, WakesRight;
    if i == 0 {
      InitialInv(run[0]);
    } else {
      RunKeepsInv(run, i - 1);
      var s, s' := run[i - 1], run[i];
      var t: nat, c :| t < |s.threads| && WakesRight(s, t, c) && s' == Step(s, t, c);
      StepKeepsInv(s, t, c);
    }
  }

  /** Wait returns only with the lock held and the predicate true. */
  lemma WaitReturnsReady(run: seq<State>, i: nat, t: nat)
    requires Run(run) && i < |run| && t < |run[i].threads| && run[i].threads[t].Returned?
    ensures run[i].lock == t && run[i].ready
  {
    hide Run, Count;
    RunKeepsInv(run, i);
    assert Knows(run[i], t, run[i].threads[t]);
  }

  /**
   When NotifyAll completes, every thread asleep read the sequence after its advance, and so
   evaluated the predicate after every change made before that advance: none was missed.
   */
  lemma NoMissedChange(run: seq<State>, i: nat, t: nat, u: nat)
    requires Run(run) && i < |run| && t < |run[i].threads| && u < |run[i].threads|
    requires run[i].threads[t].Notified? && run[i].threads[t].all && run[i].threads[u].Sleeping?
    ensures run[i].threads[t].sequence <= run[i].threads[u].sequence
    ensures run[i].threads[t].version <= run[i].threads[u].saw
  {
    hide Run, Count;
    RunKeepsInv(run, i);
    assert Knows(run[i], t, run[i].threads[t]) && Knows(run[i], u, run[i].threads[u]);
    assert run[i].log[run[i].threads[t].sequence - 1] <= run[i].threads[u].saw;
  }

  /** A notifier that may find a sleeper goes on to the wake, and one that finds no waiter need not. */
  lemma WakesWhenSomeSleep(run: seq<State>, i: nat, t: nat, c: Choice)
    requires Run(run) && i < |run| && t < |run[i].threads| && run[i].threads[t].LoadWaiters?
    ensures Step(run[i], t, c).threads[t].WakeUp? <==> exists u :: 0 <= u < |run[i].threads| && Registered(run[i].threads[u])
  {
    hide Run, Knows, Count;
    RunKeepsInv(run, i);
    var threads := run[i].threads;
    if run[i].waiters == 0 {
      forall u | 0 <= u < |threads| ensures !Registered(threads[u]) { CountZero(threads, u); }
    } else if forall u :: 0 <= u < |threads| ==> !Registered(threads[u]) {
      CountNone(threads);
    }
  }

  // Thread t is inside one call of NotifyOne from i to j.
  ghost predicate NotifyingOne(run: seq<State>, t: nat, i: nat, j: nat)
    requires i <= j < |run|
  {
    forall k :: i <= k <= j ==> t < |run[k].threads| && Notifies(run[k].threads[t]) && !run[k].threads[t].all
  }

  ghost predicate SleepsThrough(run: seq<State>, u: nat, i: nat, j: nat)
    requires i <= j < |run|
  {
    forall k :: i <= k <= j ==> Asleep(run[k], u)
  }

  // From h to the next state the sleep of w ends, and of the other threads only t moves.
  ghost predicate Wakes(run: seq<State>, h: nat, t: nat, w: nat)
    requires h + 1 < |run|
  {
    var s, s' := run[h], run[h + 1];
    && t != w && Asleep(s, w) && |s'.threads| == |s.threads| && s'.threads[w] == Deregister
    && forall v :: 0 <= v < |s.threads| && v != t && v != w ==> s'.threads[v] == s.threads[v]
  }

  /**
   A call of NotifyOne during which some thread sleeps throughout is not lost: at one of its steps,
   the wake, exactly one sleep ends, that of another thread.
   */
  lemma {:induction false} OneWoken(run: seq<State>, t: nat, u: nat, i: nat, j: nat) returns (h: nat, w: nat)
    requires Run(run) && i <= j < |run| && NotifyingOne(run, t, i, j) && SleepsThrough(run, u, i, j)
    requires !run[i].threads[t].Notified? && run[j].threads[t].Notified?
    ensures i <= h < j && run[h].threads[t].WakeUp? && run[h + 1].threads[t].Notified? && Wakes(run, h, t, w) && w != u
    decreases j - i
  {
    hide Run, Inv, Count;
    var s, s' := run[i], run[i + 1];
    var v, c := StepTaken(run, i);
    assert Asleep(s, u) && Asleep(s', u);
    if v == t && s.threads[t].WakeUp? {
      h, w := i, c.sleeper;
    } else {
      if v == t && s.threads[t].LoadWaiters? { SleeperCounted(run, i, u); }
      if v != t { StepThreads(s, v, c, t); }
      h, w := OneWoken(run, t, u, i + 1, j);
    }
  }

  lemma StepTaken(run: seq<State>, i: nat) returns (t: nat, c: Choice)
    requires Run(run) && i + 1 < |run|
    ensures t < |run[i].threads| && WakesRight(run[i], t, c) && run[i + 1] == Step(run[i], t, c)
  {
    hide Step, WakesRight;
    assert Next(run[i + 1 - 1], run[i + 1]);
    t, c :| t < |run[i].threads| && WakesRight(run[i], t, c) && run[i + 1] == Step(run[i], t, c);
  }

  lemma SleeperCounted(run: seq<State>, i: nat, u: nat)
    requires Run(run) && i < |run| && Asleep(run[i], u)
    ensures run[i].waiters > 0
  {
    hide Run, Knows, Count;
    RunKeepsInv(run, i);
    if run[i].waiters == 0 { CountZero(run[i].threads, u); }
  }

  // Thread t is inside one call of NotifyAll from i to j.
  ghost predicate NotifyingAll(run: seq<State>, t: nat, i: nat, j: nat)
    requires i <= j < |run|
  {
    forall k :: i <= k <= j ==> t < |run[k].threads| && Notifies(run[k].threads[t]) && run[k].threads[t].all
  }

  /** Nobody sleeps through a call of NotifyAll. */
  lemma {:induction false} AllWoken(run: seq<State>, t: nat, u: nat, i: nat, j: nat)
    requires Run(run) && i <= j < |run| && NotifyingAll(run, t, i, j)
    requires !run[i].threads[t].Notified? && run[j].threads[t].Notified?
    ensures !SleepsThrough(run, u, i, j)
    decreases j - i
  {
    hide Run, Inv, Count;
    if SleepsThrough(run, u, i, j) {
      var s, s' := run[i], run[i + 1];
      var v, c := StepTaken(run, i);
      assert Asleep(s, u) && Asleep(s', u);
      if v == t && s.threads[t].LoadWaiters? { SleeperCounted(run, i, u); }
      if v != t { StepThreads(s, v, c, t); }
      assert !(v == t && s.threads[t].WakeUp?) by { if v == t && s.threads[t].WakeUp? { WakesAll(s, t, c, u); } }
      AllWoken(run, t, u, i + 1, j);
    }
  }

  lemma WakesAll(s: State, t: nat, c: Choice, u: int)
    requires t < |s.threads| && s.threads[t].WakeUp? && s.threads[t].all
    ensures !Asleep(Step(s, t, c), u)
  {}

  // ── A waiter that nobody disturbs ───────────────────────────────

  // Thread t is the one that moves.
  ghost predicate MovesBy(s: State, s': State, t: nat) {
    exists c :: t < |s.threads| && WakesRight(s, t, c) && s' == Step(s, t, c)
  }

  ghost predicate Alone(run: seq<State>, t: nat, i: nat, j: nat)
    requires i <= j < |run|
  {
    forall k :: i < k <= j ==> MovesBy(run[k - 1], run[k], t)
  }

  /** A Wait whose predicate holds returns at once, and changes nothing; a waiter that was woken returns when the lock is free and it holds. */
  lemma ReadyReturns(run: seq<State>, i: nat, t: nat)
    requires Run(run) && i < |run| && t < |run[i].threads| && run[i].ready
    ensures run[i].threads[t] == Locked && i + 3 < |run| && run[i + 1] == Step(run[i], t, Wait) && Alone(run, t, i + 1, i + 3) ==>
      run[i + 3] == run[i]
    ensures run[i].threads[t] == Deregister && run[i].lock == NONE && i + 4 < |run| && Alone(run, t, i, i + 4) ==>
      t < |run[i + 4].threads| && run[i + 4].threads[t] == Locked && run[i + 4].lock == t
  {
    hide Run;
    if run[i].threads[t] == Locked && i + 3 < |run| && run[i + 1] == Step(run[i], t, Wait) && Alone(run, t, i + 1, i + 3) {
      assert MovesBy(run[i + 2 - 1], run[i + 2], t) && MovesBy(run[i + 3 - 1], run[i + 3], t);
      assert run[i + 3].threads == run[i].threads;
    }
    if i + 4 < |run| && Alone(run, t, i, i + 4) {
      assert MovesBy(run[i + 1 - 1], run[i + 1], t) && MovesBy(run[i + 2 - 1], run[i + 2], t);
      assert MovesBy(run[i + 3 - 1], run[i + 3], t) && MovesBy(run[i + 4 - 1], run[i + 4], t);
    }
  }

  /** One whose predicate does not hold is asleep after five accesses, registered and without the lock. */
  lemma UnreadySleeps(run: seq<State>, i: nat, t: nat)
    requires Run(run) && i + 6 < |run| && t < |run[i].threads| && run[i].threads[t] == Locked && !run[i].ready
    requires run[i + 1] == Step(run[i], t, Wait) && Alone(run, t, i + 1, i + 6)
    ensures var s := run[i + 6];
            && t < |s.threads| && s.threads[t].Sleeping? && s.threads[t].sequence == s.sequence == run[i].sequence
            && s.lock == NONE && s.waiters == run[i].waiters + 1
  {
    hide Run;
    assert MovesBy(run[i + 2 - 1], run[i + 2], t) && MovesBy(run[i + 3 - 1], run[i + 3], t) && MovesBy(run[i + 4 - 1], run[i + 4], t);
    assert MovesBy(run[i + 5 - 1], run[i + 5], t) && MovesBy(run[i + 6 - 1], run[i + 6], t);
  }

  // The two accesses after which the sleepers are counted.
  lemma NotifierCounts(run: seq<State>, i: nat, t: nat, all: bool)
    requires Run(run) && i + 3 < |run| && t < |run[i].threads| && (run[i].threads[t] == Idle || run[i].threads[t] == Locked)
    requires run[i + 1] == Step(run[i], t, Notify(all)) && Alone(run, t, i + 1, i + 3) && run[i].waiters > 0
    ensures run[i + 3].threads == run[i].threads[t := WakeUp(all, run[i].threads[t] == Locked, run[i].version, run[i].sequence + 1)]
    ensures run[i + 3] == run[i].(threads := run[i + 3].threads, sequence := run[i].sequence + 1, log := run[i].log + [run[i].version])
  {
    hide Run;
    assert MovesBy(run[i + 2 - 1], run[i + 2], t) && MovesBy(run[i + 3 - 1], run[i + 3], t);
  }

  lemma WakeStep(s: State, s': State, t: nat, u: nat) returns (w: nat)
    requires MovesBy(s, s', t) && s.threads[t].WakeUp? && Asleep(s, u)
    ensures Asleep(s, w) && s' == s.(threads := s'.threads) && |s'.threads| == |s.threads|
    ensures s'.threads[t].Notified? && s'.threads[t].held == s.threads[t].held
    ensures forall v :: 0 <= v < |s.threads| && v != t ==>
      s'.threads[v] == if s.threads[v].Sleeping? && (s.threads[t].all || v == w) then Deregister else s.threads[v]
  {
    var c :| t < |s.threads| && WakesRight(s, t, c) && s' == Step(s, t, c);
    w := if s.threads[t].all then u else c.sleeper;
  }

  /** A NotifyOne that nobody disturbs wakes exactly one sleeper when there is one, a NotifyAll every one; nothing else moves. */
  lemma NotifyWakes(run: seq<State>, i: nat, t: nat, all: bool, u: nat) returns (w: nat)
    requires Run(run) && i + 5 < |run| && t < |run[i].threads| && (run[i].threads[t] == Idle || run[i].threads[t] == Locked)
    requires run[i + 1] == Step(run[i], t, Notify(all)) && Alone(run, t, i + 1, i + 5) && Asleep(run[i], u)
    ensures Asleep(run[i], w)
    ensures var s, s' := run[i], run[i + 5];
            && |s'.threads| == |s.threads| && s'.sequence == s.sequence + 1 && s'.lock == s.lock && s'.waiters == s.waiters
            && s'.ready == s.ready && s'.version == s.version
            && forall v :: 0 <= v < |s.threads| ==>
                 s'.threads[v] == if s.threads[v].Sleeping? && (all || v == w) then Deregister else s.threads[v]
  {
    hide Run, Count;
    SleeperCounted(run, i, u);
    hide Step, WakesRight;
    NotifierCounts(run, i, t, all);
    assert MovesBy(run[i + 4 - 1], run[i + 4], t) && MovesBy(run[i + 5 - 1], run[i + 5], t);
    w := WakeStep(run[i + 3], run[i + 4], t, u);
    NotifierReturns(run[i + 4], run[i + 5], t);
  }

  lemma NotifierReturns(s: State, s': State, t: nat)
    requires MovesBy(s, s', t) && s.threads[t].Notified?
    ensures s' == s.(threads := s.threads[t := if s.threads[t].held then Locked else Idle])
  {}

  /** Without waiters it makes no call and wakes nobody. */
  lemma NotifiesNobody(run: seq<State>, i: nat, t: nat, all: bool)
    requires Run(run) && i + 4 < |run| && t < |run[i].threads| && (run[i].threads[t] == Idle || run[i].threads[t] == Locked)
    requires run[i + 1] == Step(run[i], t, Notify(all)) && Alone(run, t, i + 1, i + 4) && run[i].waiters == 0
    ensures run[i + 4].threads == run[i].threads && run[i + 4].sequence == run[i].sequence + 1
  {
    hide Run;
    assert MovesBy(run[i + 2 - 1], run[i + 2], t) && MovesBy(run[i + 3 - 1], run[i + 3], t) && MovesBy(run[i + 4 - 1], run[i + 4], t);
  }

  /** The lock the waiters share: taken when free, by one; let go; and the predicate changed only under it. */
  lemma LockServes(run: seq<State>, i: nat, t: nat, ready: bool)
    requires Run(run) && i + 2 < |run| && t < |run[i].threads|
    ensures run[i].threads[t] == Idle && run[i].lock == NONE && run[i + 1] == Step(run[i], t, Lock) && MovesBy(run[i + 1], run[i + 2], t) ==>
      t < |run[i + 2].threads| && run[i + 2].threads[t] == Locked && run[i + 2].lock == t
    ensures run[i].threads[t] == Locked && run[i + 1] == Step(run[i], t, Change(ready)) && run[i + 2] == Step(run[i + 1], t, Release) ==>
      run[i + 2].ready == ready && run[i + 2].lock == NONE && run[i + 2].threads == run[i].threads[t := Idle]
  {
    hide Run;
  }
}

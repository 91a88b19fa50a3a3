/**
 The futex mutex as a step system: any number of threads, weak compare-exchanges that may fail for
 no reason, sleeps that may end for no reason, one atomic access or kernel call per step.
 */
module SpinningMutex {

  datatype Word = Unlocked | LockedUncontended | LockedContended

  // Where a failed Try leads: the caller of Try, the spin loop, or out of it.
  datatype Attempt = Once | Fast | Spin(tries: nat, backoff: nat)

  datatype Pc =
    | Idle
    | TryLoad(attempt: Attempt)
    | TryCas(attempt: Attempt)
    | SlowExchange
    | FutexWait
    | Sleeping
    | Holding
    | FutexWake

  datatype State = State(word: Word, threads: seq<Pc>)

  datatype Choice = Acquire | Try | Release | Wake(sleeper: int) | Proceed(spurious: bool)

  const SPIN_COUNT := 64
  const MAX_BACKOFF := 16

  // A failed Try in Acquire backs off and spins on, until it has yielded often enough to block.
  function AfterFailure(attempt: Attempt): Pc {
    match attempt
    case Once => Idle
    case Fast => TryLoad(Spin(0, 1))
    case Spin(tries, backoff) =>
      if tries + backoff < SPIN_COUNT then
        TryLoad(Spin(tries + backoff, if 2 * backoff < MAX_BACKOFF then 2 * backoff else MAX_BACKOFF))
      else SlowExchange
  }

  predicate Asleep(s: State, u: int) {
    0 <= u < |s.threads| && s.threads[u] == Sleeping
  }

  // The kernel wakes some sleeper if there is one.
  predicate WakesRight(s: State, t: nat, c: Choice)
    requires t < |s.threads|
  {
    s.threads[t] == FutexWake ==> (c.Wake? && Asleep(s, c.sleeper)) || forall u :: 0 <= u < |s.threads| ==> !Asleep(s, u)
  }

  function Step(s: State, t: nat, c: Choice): State
    requires t < |s.threads|
  {
    var spurious := c.Proceed? && c.spurious;
    match s.threads[t]
    case Idle =>
      s.(threads := s.threads[t := if c.Acquire? then TryLoad(Fast) else if c.Try? then TryLoad(Once) else Idle])
    case TryLoad(attempt) =>
      s.(threads := s.threads[t := if s.word == Unlocked then TryCas(attempt) else AfterFailure(attempt)])
    case TryCas(attempt) =>
      if s.word == Unlocked && !spurious then State(LockedUncontended, s.threads[t := Holding])
      else s.(threads := s.threads[t := AfterFailure(attempt)])
    case SlowExchange => State(LockedContended, s.threads[t := if s.word == Unlocked then Holding else FutexWait])
    case FutexWait => s.(threads := s.threads[t := if s.word == LockedContended then Sleeping else SlowExchange])
    case Sleeping => s.(threads := s.threads[t := if spurious then SlowExchange else Sleeping])
    case Holding =>
      if c.Release? then State(Unlocked, s.threads[t := if s.word == LockedContended then FutexWake else Idle]) else s
    case FutexWake =>
      if c.Wake? && Asleep(s, c.sleeper) then s.(threads := s.threads[c.sleeper := SlowExchange][t := Idle])
      else s.(threads := s.threads[t := Idle])
  }

  ghost predicate Initial(s: State) {
    s.word == Unlocked && forall t :: 0 <= t < |s.threads| ==> s.threads[t] == Idle
  }

  ghost predicate Next(s: State, s': State) {
    exists t: nat, c :: t < |s.threads| && WakesRight(s, t, c) && s' == Step(s, t, c)
  }

  ghost predicate Run(run: seq<State>) {
    run != [] && Initial(run[0]) && forall i :: 0 < i < |run| ==> Next(run[i - 1], run[i])
  }

  ghost predicate Somewhere(s: State, pc: Pc) {
    exists t :: 0 <= t < |s.threads| && s.threads[t] == pc
  }

  // One holder at most, and the word says whether there is one.
  ghost predicate Exclusive(s: State) {
    && (forall t, u :: 0 <= t < |s.threads| && 0 <= u < |s.threads| && s.threads[t] == Holding && s.threads[u] == Holding ==> t == u)
    && (s.word != Unlocked <==> Somewhere(s, Holding))
  }

  // A sleeper is always accounted for.
  ghost predicate Accounted(s: State) {
    Somewhere(s, Sleeping) ==> s.word == LockedContended || Somewhere(s, FutexWake) || Somewhere(s, SlowExchange)
  }

  ghost predicate Inv(s: State) {
    Exclusive(s) && Accounted(s)
  }

  // Only the stepping thread, and the sleeper it wakes, move.
  lemma StepFrame(s: State, t: nat, c: Choice, u: nat)
    requires t < |s.threads| && u < |s.threads| && u != t
    ensures |Step(s, t, c).threads| == |s.threads|
    ensures Step(s, t, c).threads[u]
         == if s.threads[t] == FutexWake && c.Wake? && c.sleeper == u && Asleep(s, u) then SlowExchange else s.threads[u]
  {}

  lemma StepExclusive(s: State, t: nat, c: Choice)
    requires Exclusive(s) && t < |s.threads|
    ensures Exclusive(Step(s, t, c))
  {
    var s' := Step(s, t, c);
    forall u, v | 0 <= u < |s'.threads| && 0 <= v < |s'.threads| && s'.threads[u] == Holding && s'.threads[v] == Holding ensures u == v {
      if u != t { StepFrame(s, t, c, u); }
      if v != t { StepFrame(s, t, c, v); }
    }
    if u :| 0 <= u < |s.threads| && s.threads[u] == Holding {
      if u != t { StepFrame(s, t, c, u); }
      assert s'.word != Unlocked ==> s'.threads[u] == Holding;
    }
    if u :| 0 <= u < |s'.threads| && s'.threads[u] == Holding && u != t {
      StepFrame(s, t, c, u);
      assert s.threads[u] == Holding;
    }
    assert s'.threads[t] == Holding ==> s'.word != Unlocked;
    if s.word == Unlocked && s'.word != Unlocked { assert s'.threads[t] == Holding; }
  }

  lemma StepAccounted(s: State, t: nat, c: Choice)
    requires Inv(s) && t < |s.threads| && WakesRight(s, t, c)
    ensures Accounted(Step(s, t, c))
  {
    var s' := Step(s, t, c);
    if u :| 0 <= u < |s'.threads| && s'.threads[u] == Sleeping {
      if u != t { StepFrame(s, t, c, u); }
      if s.threads[t] == FutexWake {
        assert u != t && Asleep(s, u);
        assert s'.threads[c.sleeper] == SlowExchange;
      } else if s.threads[t] == Holding {
        assert s'.word == Unlocked && s.word == LockedContended ==> s'.threads[t] == FutexWake;
        CarriedOver(s, s', t, c, u);
      } else {
        CarriedOver(s, s', t, c, u);
      }
    }
  }

  // A pending wake or exchange stays pending while another thread moves.
  lemma CarriedOver(s: State, s': State, t: nat, c: Choice, u: nat)
    requires Inv(s) && t < |s.threads| && s' == Step(s, t, c) && s.threads[t] != FutexWake
    requires u < |s'.threads| && s'.threads[u] == Sleeping
    ensures Somewhere(s, Sleeping) || s'.word == LockedContended
    ensures Somewhere(s, FutexWake) ==> Somewhere(s', FutexWake)
    ensures Somewhere(s, SlowExchange) ==> Somewhere(s', SlowExchange) || s'.word == LockedContended
  {
    if u != t { StepFrame(s, t, c, u); }
    if v :| 0 <= v < |s.threads| && s.threads[v] == FutexWake {
      StepFrame(s, t, c, v);
      assert s'.threads[v] == FutexWake;
    }
    if v :| 0 <= v < |s.threads| && s.threads[v] == SlowExchange && v != t {
      StepFrame(s, t, c, v);
      assert s'.threads[v] == SlowExchange;
    }
  }

  lemma {:induction false} RunKeepsInv(run: seq<State>, i: nat)
    requires Run(run) && i < |run|
    ensures Inv(run[i])
  {
    hide Step, Exclusive, Accounted, WakesRight;
    if i == 0 {
      InitialInv(run[0]);
    } else {
      RunKeepsInv(run, i - 1);
      var s, s' := run[i - 1], run[i];
      var t: nat, c :| t < |s.threads| && WakesRight(s, t, c) && s' == Step(s, t, c);
      StepExclusive(s, t, c);
      StepAccounted(s, t, c);
    }
  }

  lemma InitialInv(s: State)
    requires Initial(s)
    ensures Inv(s)
  {}

  /** Mutual exclusion, and the word is nonzero exactly while the mutex is held. */
  lemma MutualExclusion(run: seq<State>, i: nat, t: nat, u: nat)
    requires Run(run) && i < |run| && t < |run[i].threads| && u < |run[i].threads|
    ensures run[i].threads[t] == Holding && run[i].threads[u] == Holding ==> t == u
    ensures run[i].word == Unlocked <==> !Somewhere(run[i], Holding)
  {
    RunKeepsInv(run, i);
  }

  /**
   No wakeup is lost: while a thread sleeps, the word will make the holder wake one, or a wake is
   owed, or some thread is about to mark the word contended.
   */
  lemma SleeperAccounted(run: seq<State>, i: nat, t: nat)
    requires Run(run) && i < |run| && t < |run[i].threads| && run[i].threads[t] == Sleeping
    ensures run[i].word == LockedContended || Somewhere(run[i], FutexWake) || Somewhere(run[i], SlowExchange)
    // So the mutex is never left free with only sleepers around.
    ensures Somewhere(run[i], Holding) || Somewhere(run[i], FutexWake) || Somewhere(run[i], SlowExchange)
  {
    RunKeepsInv(run, i);
  }

  // Where a thread stands after k failed attempts to acquire.
  function Failed(k: nat): Pc {
    if k == 0 then TryLoad(Fast)
    else if Failed(k - 1).TryLoad? then AfterFailure(Failed(k - 1).attempt)
    else Failed(k - 1)
  }

  /** The spin is bounded: the fast attempt and eight backed-off ones, then the thread blocks. */
  lemma SpinEnds()
    ensures forall k :: 0 <= k < 9 ==> Failed(k).TryLoad?
    ensures Failed(9) == SlowExchange
  {
    assert Failed(2) == TryLoad(Spin(1, 2));
    assert Failed(4) == TryLoad(Spin(7, 8));
    assert Failed(6) == TryLoad(Spin(31, 16));
    assert Failed(8) == TryLoad(Spin(63, 16));
  }

  // ── Threads that nobody disturbs ────────────────────────────────

  // Thread t is the one that moves, nothing fails for no reason, and a holder releases.
  ghost predicate MovesSurely(s: State, s': State, t: nat) {
    exists c :: t < |s.threads| && WakesRight(s, t, c) && c != Proceed(true) && (s.threads[t] == Holding ==> c == Release) && s' == Step(s, t, c)
  }

  predicate Acquiring(pc: Pc) {
    pc.TryLoad? || pc.TryCas? || pc == SlowExchange
  }

  /** A thread that tries a free mutex takes it, in two accesses if nobody disturbs it. */
  lemma TakesFree(run: seq<State>, i: nat, t: nat)
    requires Run(run) && i + 2 < |run| && t < |run[i].threads| && Acquiring(run[i].threads[t]) && run[i].word == Unlocked
    requires MovesSurely(run[i], run[i + 1], t)
    ensures t < |run[i + 1].threads|
    ensures run[i].threads[t].TryLoad? && MovesSurely(run[i + 1], run[i + 2], t) ==>
      t < |run[i + 2].threads| && run[i + 2].threads[t] == Holding && run[i + 2].word == LockedUncontended
    ensures !run[i].threads[t].TryLoad? ==> run[i + 1].threads[t] == Holding && run[i + 1].word != Unlocked
  {
    hide Run;
  }

  /** On a held mutex a Try answers in its first access, without writing to the word, and an Acquire keeps trying or blocks. */
  lemma TryFails(run: seq<State>, i: nat, t: nat, c: Choice)
    requires Run(run) && i + 1 < |run| && t < |run[i].threads| && run[i].threads[t] == Idle && run[i].word != Unlocked
    requires (c == Try || c == Acquire) && run[i + 1] == Step(run[i], t, c)
    ensures forall c' {:trigger Step(run[i + 1], t, c')} ::
      var s := Step(run[i + 1], t, c');
      && s.word == run[i].word && |s.threads| == |run[i].threads|
      && (c == Try ==> s == run[i]) && (c == Acquire ==> Acquiring(s.threads[t]))
  {
    hide Run;
    if c == Try { assert run[i].threads[t := TryLoad(Once)][t := Idle] == run[i].threads; }
  }

  /** One that cannot wait any longer sleeps, with the mutex marked so that it is woken. */
  lemma Blocks(run: seq<State>, i: nat, t: nat)
    requires Run(run) && i + 2 < |run| && t < |run[i].threads| && run[i].threads[t] == SlowExchange && run[i].word != Unlocked
    requires MovesSurely(run[i], run[i + 1], t) && MovesSurely(run[i + 1], run[i + 2], t)
    ensures t < |run[i + 2].threads| && run[i + 2].threads[t] == Sleeping && run[i + 2].word == LockedContended
  {
    hide Run;
  }

  /** And a holder that lets go of a mutex so marked wakes one sleeper if there is any, who is then to try again. */
  lemma HandsOver(run: seq<State>, i: nat, t: nat, u: nat) returns (w: nat)
    requires Run(run) && i + 2 < |run| && t < |run[i].threads| && run[i].threads[t] == Holding && run[i].word == LockedContended
    requires MovesSurely(run[i], run[i + 1], t) && MovesSurely(run[i + 1], run[i + 2], t) && Asleep(run[i], u)
    ensures run[i + 2].word == Unlocked && |run[i + 2].threads| == |run[i].threads| && run[i + 2].threads[t] == Idle
    ensures Asleep(run[i], w) && run[i + 2].threads[w] == SlowExchange
    ensures forall v :: 0 <= v < |run[i].threads| && v != t && v != w ==> run[i + 2].threads[v] == run[i].threads[v]
  {
    hide Run;
    var s := run[i + 1];
    assert s == State(Unlocked, run[i].threads[t := FutexWake]);
    assert Asleep(s, u);
    var c :| t < |s.threads| && WakesRight(s, t, c) && c != Proceed(true) && run[i + 2] == Step(s, t, c);
    w := c.sleeper;
  }

  /** One that lets go of a mutex without waiters leaves it free at once. */
  lemma LetsGo(run: seq<State>, i: nat, t: nat)
    requires Run(run) && i + 1 < |run| && t < |run[i].threads| && run[i].threads[t] == Holding && run[i].word != LockedContended
    requires MovesSurely(run[i], run[i + 1], t)
    ensures run[i + 1] == State(Unlocked, run[i].threads[t := Idle])
  {
    hide Run;
  }
}

/**
 Epoch-based reclamation as a step system: any number of threads opening and closing nested
 guards, advancing the epoch and collecting, one atomic access per step.

 Three values are history, read by no step: Thread.session, which numbers a thread's guards,
 Thread.pinned, the validated epoch of its open guard, and readers, the guards that were open when
 a retirement epoch was read.
 */
module EpochReclamation {

  const NONE := -1

  // A guard: the thread and which of its guards it is.
  type Reader = (int, nat)

  datatype Pc =
    | Unborn
    | Rest
    // announce: load current, exchange the slot, load current again
    | AnnounceLoad
    | AnnounceExchange(e: int)
    | AnnounceCheck(e: int)
    | Unannounce
    // release_id
    | ReleaseStore
    | ReleasePush
    | Gone
    // try_advance, alone or within a collection
    | AdvanceLoad(collecting: bool)
    | AdvanceMark(e: int, collecting: bool)
    | AdvanceScan(e: int, n: nat, i: nat, collecting: bool)
    | AdvanceCas(e: int, n: nat, collecting: bool)
    // the collector
    | CollectSweep
    | CollectStamp(e: int, i: nat, readers: set<Reader>)
    | CollectSafe
    | CollectFree(safe: int, i: nat)

  datatype Thread = Thread(id: int, depth: nat, pc: Pc, session: nat, pinned: int)

  datatype Node = Node(swept: bool, retired: int, freed: bool, readers: set<Reader>)

  datatype State = State(current: int, slots: seq<int>, freeIds: seq<int>, collector: int, threads: seq<Thread>, nodes: seq<Node>)

  datatype Choice =
    | Born
    | OpenGuard
    | CloseGuard
    | TryAdvance
    | Collect
    | Exit
    | Stage               // a node joins the collector's list
    | Sweep(n: int)       // the sweeps unlinked node n from both chains
    | Proceed

  // ── One access ──────────────────────────────────────────────────

  function Put(s: State, t: nat, thread: Thread): State
    requires t < |s.threads|
  {
    s.(threads := s.threads[t := thread])
  }

  function Go(s: State, t: nat, pc: Pc): State
    requires t < |s.threads|
  {
    Put(s, t, s.threads[t].(pc := pc))
  }

  predicate HasSlot(s: State, t: nat)
    requires t < |s.threads|
  {
    0 <= s.threads[t].id < |s.slots|
  }

  function SetSlot(s: State, t: nat, e: int): State
    requires t < |s.threads| && HasSlot(s, t)
  {
    s.(slots := s.slots[s.threads[t].id := e])
  }

  predicate Open(s: State, r: Reader) {
    0 <= r.0 < |s.threads| && s.threads[r.0].pinned != NONE && s.threads[r.0].session == r.1
  }

  function OpenGuards(s: State): set<Reader> {
    set t | 0 <= t < |s.threads| && s.threads[t].pinned != NONE :: (t, s.threads[t].session)
  }

  // acquire_id: the most recently freed id, or the next new one, raising the watermark.
  function Acquire(s: State, t: nat): State
    requires t < |s.threads|
  {
    if s.freeIds != [] then
      Put(s.(freeIds := s.freeIds[..|s.freeIds| - 1]), t, s.threads[t].(id := s.freeIds[|s.freeIds| - 1], pc := Rest))
    else
      Put(s.(slots := s.slots + [NONE]), t, s.threads[t].(id := |s.slots|, pc := Rest))
  }

  // What a thread at rest may begin.
  function Begin(s: State, t: nat, c: Choice): State
    requires t < |s.threads|
  {
    var thread := s.threads[t];
    match c
    case OpenGuard => Put(s, t, thread.(depth := thread.depth + 1, pc := if thread.depth == 0 then AnnounceLoad else Rest))
    case CloseGuard =>
      if thread.depth == 0 then s
      else if thread.depth == 1 then Put(s, t, thread.(depth := 0, pc := Unannounce, pinned := NONE))
      else Put(s, t, thread.(depth := thread.depth - 1))
    case TryAdvance => Go(s, t, AdvanceLoad(false))
    case Collect => if s.collector == NONE then Go(s.(collector := t), t, CollectSweep) else s
    case Exit => if thread.depth == 0 then Go(s, t, ReleaseStore) else s
    case Stage => s.(nodes := s.nodes + [Node(false, NONE, false, {})])
    case _ => s
  }

  function AfterAdvance(collecting: bool): Pc {
    if collecting then CollectSafe else Rest
  }

  function StampAt(s: State, i: nat, e: int, readers: set<Reader>): State
    requires i < |s.nodes|
  {
    if s.nodes[i].swept && s.nodes[i].retired < 0 then
      s.(nodes := s.nodes[i := s.nodes[i].(retired := e, readers := readers)])
    else s
  }

  function FreeAt(s: State, i: nat, safe: int): State
    requires i < |s.nodes|
  {
    if s.nodes[i].retired >= 0 && s.nodes[i].retired + 2 <= safe then
      s.(nodes := s.nodes[i := s.nodes[i].(freed := true)])
    else s
  }

  function Step(s: State, t: nat, c: Choice): State
    requires t < |s.threads| && (s.threads[t].pc.Unborn? || s.threads[t].pc.Gone? || HasSlot(s, t))
  {
    var thread := s.threads[t];
    match thread.pc
    case Unborn => if c == Born then Acquire(s, t) else s
    case Rest => Begin(s, t, c)

    case AnnounceLoad => Go(s, t, AnnounceExchange(s.current))
    case AnnounceExchange(e) => Go(SetSlot(s, t, e), t, AnnounceCheck(e))
    case AnnounceCheck(e) =>
      if s.current == e then Put(s, t, thread.(pc := Rest, session := thread.session + 1, pinned := e))
      else Go(s, t, AnnounceLoad)
    case Unannounce => Go(SetSlot(s, t, NONE), t, Rest)

    case ReleaseStore => Go(SetSlot(s, t, NONE), t, ReleasePush)
    case ReleasePush => Go(s.(freeIds := s.freeIds + [thread.id]), t, Gone)
    case Gone => s

    case AdvanceLoad(collecting) => Go(s, t, AdvanceMark(s.current, collecting))
    case AdvanceMark(e, collecting) => Go(s, t, AdvanceScan(e, |s.slots|, 0, collecting))
    case AdvanceScan(e, n, i, collecting) =>
      if i >= n || i >= |s.slots| then Go(s, t, AdvanceCas(e, n, collecting))
      else if s.slots[i] != NONE && s.slots[i] < e then Go(s, t, AfterAdvance(collecting))
      else Go(s, t, AdvanceScan(e, n, i + 1, collecting))
    case AdvanceCas(e, _, collecting) =>
      Go(if s.current == e then s.(current := e + 1) else s, t, AfterAdvance(collecting))

    case CollectSweep =>
      if c.Sweep? && 0 <= c.n < |s.nodes| then s.(nodes := s.nodes[c.n := s.nodes[c.n].(swept := true)])
      else Go(s, t, CollectStamp(s.current, 0, OpenGuards(s)))
    case CollectStamp(e, i, readers) =>
      if i >= |s.nodes| then Go(s, t, AdvanceLoad(true))
      else Go(StampAt(s, i, e, readers), t, CollectStamp(e, i + 1, readers))
    case CollectSafe => Go(s, t, CollectFree(s.current, 0))
    case CollectFree(safe, i) =>
      if i >= |s.nodes| then Go(s.(collector := NONE), t, Rest)
      else Go(FreeAt(s, i, safe), t, CollectFree(safe, i + 1))
  }

  // ── The invariant ───────────────────────────────────────────────

  predicate Registered(thread: Thread) {
    !thread.pc.Unborn? && !thread.pc.Gone?
  }

  // A slot belongs to one live thread or waits in the pool.
  ghost predicate Slots(s: State) {
    && (forall t :: 0 <= t < |s.threads| && Registered(s.threads[t]) ==> 0 <= s.threads[t].id < |s.slots|)
    && (forall t, u :: 0 <= t < u < |s.threads| && Registered(s.threads[t]) && Registered(s.threads[u]) ==>
          s.threads[t].id != s.threads[u].id)
    && (forall i :: 0 <= i < |s.freeIds| ==> 0 <= s.freeIds[i] < |s.slots|)
    && (forall i, j :: 0 <= i < j < |s.freeIds| ==> s.freeIds[i] != s.freeIds[j])
    && (forall i, t :: 0 <= i < |s.freeIds| && 0 <= t < |s.threads| && Registered(s.threads[t]) ==> s.freeIds[i] != s.threads[t].id)
  }

  // An open guard announces its epoch, which is the current one or the one before.
  ghost predicate Pinned(s: State, thread: Thread) {
    thread.pinned != NONE ==>
      && Registered(thread) && 0 <= thread.id < |s.slots| && s.slots[thread.id] == thread.pinned
      && 0 <= thread.pinned <= s.current <= thread.pinned + 1
      && !thread.pc.AnnounceLoad? && !thread.pc.AnnounceExchange? && !thread.pc.AnnounceCheck? && !thread.pc.Unannounce?
      && !thread.pc.ReleaseStore? && !thread.pc.ReleasePush?
      && thread.depth > 0
  }

  // Guards with a slot outside [i, n) are no older than e.
  ghost predicate Scanned(s: State, e: int, n: nat, i: nat) {
    forall u :: 0 <= u < |s.threads| && s.threads[u].pinned != NONE && !(i <= s.threads[u].id < n) ==> e <= s.threads[u].pinned
  }

  ghost predicate ReadersUpTo(s: State, readers: set<Reader>, e: int) {
    forall r <- readers ::
      && 0 <= r.0 < |s.threads| && r.1 <= s.threads[r.0].session
      && (Open(s, r) ==> s.threads[r.0].pinned <= e)
  }

  ghost predicate Doing(s: State, thread: Thread) {
    match thread.pc
    case AnnounceExchange(e) => 0 <= e <= s.current && thread.depth > 0
    case AnnounceCheck(e) => 0 <= e <= s.current && 0 <= thread.id < |s.slots| && s.slots[thread.id] == e && thread.depth > 0
    case AnnounceLoad => thread.depth > 0
    case AdvanceMark(e, _) => e <= s.current
    case AdvanceScan(e, n, i, _) => e <= s.current && i <= n <= |s.slots| && (e == s.current ==> Scanned(s, e, n, i))
    case AdvanceCas(e, n, _) => e <= s.current && (e == s.current ==> Scanned(s, e, n, n))
    case CollectStamp(e, _, readers) => 0 <= e <= s.current && ReadersUpTo(s, readers, e)
    case CollectFree(safe, _) => safe <= s.current
    case ReleaseStore => thread.depth == 0
    case ReleasePush => thread.depth == 0
    case _ => true
  }

  // A stamped node was swept, and its readers were pinned no later than its stamp; a freed one has
  // none left.
  ghost predicate Grace(s: State, node: Node) {
    && node.retired <= s.current
    && (node.retired >= 0 ==> node.swept && ReadersUpTo(s, node.readers, node.retired))
    && (node.freed ==> node.retired >= 0 && forall r <- node.readers :: !Open(s, r))
  }

  predicate Collecting(pc: Pc) {
    || pc.CollectSweep? || pc.CollectStamp? || pc.CollectSafe? || pc.CollectFree?
    || ((pc.AdvanceLoad? || pc.AdvanceMark? || pc.AdvanceScan? || pc.AdvanceCas?) && pc.collecting)
  }

  // Whoever collects holds the collector's mutex.
  ghost predicate OneCollector(s: State) {
    forall t :: 0 <= t < |s.threads| && Collecting(s.threads[t].pc) ==> s.collector == t
  }

  ghost predicate Inv(s: State) {
    && 0 <= s.current && Slots(s) && OneCollector(s)
    && (forall t :: 0 <= t < |s.threads| ==> Pinned(s, s.threads[t]) && Doing(s, s.threads[t]))
    && (forall k :: 0 <= k < |s.nodes| ==> Grace(s, s.nodes[k]))
  }

  ghost predicate Initial(s: State) {
    && s.current == 0 && s.slots == [] && s.freeIds == [] && s.collector == NONE && s.nodes == []
    && forall t :: 0 <= t < |s.threads| ==> s.threads[t] == Thread(NONE, 0, Unborn, 0, NONE)
  }

  ghost predicate Next(s: State, s': State) {
    exists t: nat, c ::
      t < |s.threads| && (s.threads[t].pc.Unborn? || s.threads[t].pc.Gone? || HasSlot(s, t)) && s' == Step(s, t, c)
  }

  ghost predicate Run(run: seq<State>) {
    run != [] && Initial(run[0]) && forall i :: 0 < i < |run| ==> Next(run[i - 1], run[i])
  }

  // ── Every step keeps it ─────────────────────────────────────────

  // A guard open after the step was open before it, or has just validated the current epoch.
  ghost predicate Keeps(s: State, s': State) {
    && |s'.threads| == |s.threads| && s.current <= s'.current && |s.slots| <= |s'.slots|
    && forall u :: 0 <= u < |s.threads| ==>
         && s.threads[u].session <= s'.threads[u].session
         && (s'.threads[u].pinned != NONE ==>
               && s'.threads[u].id == s.threads[u].id
               && if s'.threads[u].session == s.threads[u].session then s'.threads[u].pinned == s.threads[u].pinned
                  else s'.threads[u].pinned == s'.current == s.current)
  }

  lemma ReadersKept(s: State, s': State, readers: set<Reader>, e: int)
    requires Keeps(s, s') && ReadersUpTo(s, readers, e)
    ensures ReadersUpTo(s', readers, e)
    ensures (forall r <- readers :: !Open(s, r)) ==> forall r <- readers :: !Open(s', r)
  {
    forall r <- readers ensures 0 <= r.0 < |s'.threads| && r.1 <= s'.threads[r.0].session
    ensures Open(s', r) ==> Open(s, r) && s'.threads[r.0].pinned <= e {}
  }

  lemma ScannedKept(s: State, s': State, e: int, n: nat, i: nat)
    requires Keeps(s, s') && (e == s.current ==> Scanned(s, e, n, i))
    ensures e == s'.current && e <= s.current ==> Scanned(s', e, n, i)
  {}

  lemma GraceKept(s: State, s': State, node: Node)
    requires Keeps(s, s') && Grace(s, node)
    ensures Grace(s', node)
  {
    if node.retired >= 0 { ReadersKept(s, s', node.readers, node.retired); }
  }

  // Another thread's step leaves a thread what it relies on.
  lemma DoingKept(s: State, s': State, thread: Thread)
    requires Keeps(s, s') && Doing(s, thread)
    requires 0 <= thread.id < |s.slots| ==> s'.slots[thread.id] == s.slots[thread.id]
    ensures Doing(s', thread)
  {
    hide Keeps, ReadersUpTo, Scanned;
    KeepsBounds(s, s');
    match thread.pc
    case AdvanceScan(e, n, i, _) => ScannedKept(s, s', e, n, i);
    case AdvanceCas(e, n, _) => ScannedKept(s, s', e, n, n);
    case CollectStamp(e, _, readers) => ReadersKept(s, s', readers, e);
    case _ =>
  }

  lemma KeepsBounds(s: State, s': State)
    requires Keeps(s, s')
    ensures s.current <= s'.current && |s.slots| <= |s'.slots|
  {}

  // The step of thread t touched no other thread, no other thread's slot and not the epoch.
  ghost predicate Local(s: State, s': State, t: nat) {
    && Keeps(s, s') && s'.current == s.current && t < |s.threads|
    && (forall u :: 0 <= u < |s.threads| && u != t ==> s'.threads[u] == s.threads[u])
    && (forall u :: 0 <= u < |s.threads| && u != t && Registered(s.threads[u]) && 0 <= s.threads[u].id < |s.slots| ==>
          s'.slots[s.threads[u].id] == s.slots[s.threads[u].id])
  }

  lemma OthersKeep(s: State, s': State, t: nat, u: nat)
    requires Inv(s) && Local(s, s', t) && u < |s.threads| && u != t
    ensures Pinned(s', s'.threads[u]) && Doing(s', s'.threads[u])
  {
    if Registered(s.threads[u]) { DoingKept(s, s', s.threads[u]); }
  }

  // What is left to show of a local step: the slots, the thread itself and the nodes it touched.
  lemma LocalKeeps(s: State, s': State, t: nat)
    requires Inv(s) && Local(s, s', t) && Slots(s')
    requires s'.collector == s.collector && (Collecting(s'.threads[t].pc) ==> s.collector == t)
    requires Pinned(s', s'.threads[t]) && Doing(s', s'.threads[t])
    requires forall k :: 0 <= k < |s'.nodes| ==> (k < |s.nodes| && s'.nodes[k] == s.nodes[k]) || Grace(s', s'.nodes[k])
    ensures Inv(s')
  {
    hide Slots, Local, Keeps, Pinned, Doing, Grace, OneCollector;
    LocalBounds(s, s', t);
    LocalCollector(s, s', t);
    forall u | 0 <= u < |s'.threads| ensures Pinned(s', s'.threads[u]) && Doing(s', s'.threads[u]) {
      if u != t { OthersKeep(s, s', t, u); }
    }
    forall k | 0 <= k < |s'.nodes| ensures Grace(s', s'.nodes[k]) {
      if k < |s.nodes| && s'.nodes[k] == s.nodes[k] { GraceKept(s, s', s.nodes[k]); }
    }
  }

  lemma LocalBounds(s: State, s': State, t: nat)
    requires Local(s, s', t)
    ensures Keeps(s, s') && s'.current == s.current && |s'.threads| == |s.threads|
  {}

  lemma LocalCollector(s: State, s': State, t: nat)
    requires OneCollector(s) && Local(s, s', t)
    requires s'.collector == s.collector && (Collecting(s'.threads[t].pc) ==> s.collector == t)
    ensures OneCollector(s')
  {
    hide Keeps, Collecting;
    LocalBounds(s, s', t);
  }

  lemma AcquireKeeps(s: State, t: nat)
    requires Inv(s) && t < |s.threads| && s.threads[t].pc == Unborn
    ensures Inv(Acquire(s, t))
  {
    hide ReadersUpTo, Scanned, Grace, OneCollector;
    LocalKeeps(s, Acquire(s, t), t);
  }

  // Moving on within a call, when the next place's facts hold already.
  lemma GoKeeps(s: State, t: nat, pc: Pc)
    requires Inv(s) && t < |s.threads| && Registered(s.threads[t]) && !pc.Unborn? && !pc.Gone?
    requires Pinned(s, s.threads[t].(pc := pc)) && Doing(s, s.threads[t].(pc := pc))
    requires Collecting(pc) ==> s.collector == t
    ensures Inv(Go(s, t, pc))
  {
    hide ReadersUpTo, Scanned, Grace, Doing, OneCollector, Collecting;
    var s' := Go(s, t, pc);
    assert Keeps(s, s');
    DoingKept(s, s', s'.threads[t]);
    LocalKeeps(s, s', t);
  }

  // A change to the collector's nodes or to who collects.
  lemma NodesKeep(s: State, s': State)
    requires Inv(s) && s' == s.(nodes := s'.nodes, collector := s'.collector) && OneCollector(s')
    requires forall k :: 0 <= k < |s'.nodes| ==> (k < |s.nodes| && s'.nodes[k] == s.nodes[k]) || Grace(s, s'.nodes[k])
    ensures Inv(s')
  {
    hide Grace, Doing;
    assert Keeps(s, s');
    forall u | 0 <= u < |s'.threads| ensures Pinned(s', s'.threads[u]) && Doing(s', s'.threads[u]) { DoingKept(s, s', s.threads[u]); }
    forall k | 0 <= k < |s'.nodes| ensures Grace(s', s'.nodes[k]) {
      GraceKept(s, s', if k < |s.nodes| && s'.nodes[k] == s.nodes[k] then s.nodes[k] else s'.nodes[k]);
    }
  }

  lemma GuardKeeps(s: State, t: nat, c: Choice)
    requires Inv(s) && t < |s.threads| && s.threads[t].pc == Rest && (c == OpenGuard || c == CloseGuard)
    ensures Inv(Begin(s, t, c))
  {
    hide ReadersUpTo, Scanned, Grace, OneCollector;
    LocalKeeps(s, Begin(s, t, c), t);
  }

  lemma BeginKeeps(s: State, t: nat, c: Choice)
    requires Inv(s) && t < |s.threads| && s.threads[t].pc == Rest
    ensures Inv(Begin(s, t, c))
  {
    hide ReadersUpTo, Scanned, Inv;
    match c
    case OpenGuard => GuardKeeps(s, t, c);
    case CloseGuard => GuardKeeps(s, t, c);
    case TryAdvance => CallKeeps(s, t, AdvanceLoad(false));
    case Exit => if s.threads[t].depth == 0 { CallKeeps(s, t, ReleaseStore); }
    case Collect =>
      if s.collector == NONE {
        NoneCollecting(s, t);
        NodesKeep(s, s.(collector := t));
        CallKeeps(s.(collector := t), t, CollectSweep);
      }
    case Stage =>
      NoneCollecting(s, t);
      NodesKeep(s, Begin(s, t, c));
    case _ =>
  }

  lemma NoneCollecting(s: State, t: nat)
    requires Inv(s)
    ensures 0 <= s.current && OneCollector(s) && (s.collector == NONE ==> OneCollector(s.(collector := t)))
  {}

  lemma CallKeeps(s: State, t: nat, pc: Pc)
    requires Inv(s) && t < |s.threads| && s.threads[t].pc == Rest
    requires pc.AdvanceLoad? || pc.CollectSweep? || (pc.ReleaseStore? && s.threads[t].depth == 0)
    requires Collecting(pc) ==> s.collector == t
    ensures Inv(Go(s, t, pc))
  {
    hide Slots, Grace, OneCollector;
    assert Pinned(s, s.threads[t]);
    GoKeeps(s, t, pc);
  }

  lemma AnnounceKeeps(s: State, t: nat, c: Choice)
    requires Inv(s) && t < |s.threads|
    requires var pc := s.threads[t].pc; pc.AnnounceLoad? || pc.AnnounceExchange? || pc.AnnounceCheck? || pc.Unannounce?
    ensures Inv(Step(s, t, c))
  {
    hide ReadersUpTo, Scanned, Grace, OneCollector;
    LocalKeeps(s, Step(s, t, c), t);
  }

  lemma ReleaseKeeps(s: State, t: nat, c: Choice)
    requires Inv(s) && t < |s.threads|
    requires var pc := s.threads[t].pc; pc.ReleaseStore? || pc.ReleasePush?
    ensures Inv(Step(s, t, c))
  {
    hide ReadersUpTo, Scanned, Grace, OneCollector;
    LocalKeeps(s, Step(s, t, c), t);
  }

  lemma ScanKeeps(s: State, t: nat, c: Choice)
    requires Inv(s) && t < |s.threads|
    requires var pc := s.threads[t].pc; pc.AdvanceLoad? || pc.AdvanceMark? || pc.AdvanceScan?
    ensures Inv(Step(s, t, c))
  {
    hide ReadersUpTo, Grace, Scanned, Go;
    assert Pinned(s, s.threads[t]) && Doing(s, s.threads[t]);
    match s.threads[t].pc
    case AdvanceLoad(collecting) => GoKeeps(s, t, AdvanceMark(s.current, collecting));
    case AdvanceMark(e, collecting) =>
      WatermarkScanned(s, e);
      GoKeeps(s, t, AdvanceScan(e, |s.slots|, 0, collecting));
    case AdvanceScan(e, n, i, collecting) =>
      if i < n && !(s.slots[i] != NONE && s.slots[i] < e) {
        if e == s.current { SlotScanned(s, e, n, i); }
        GoKeeps(s, t, AdvanceScan(e, n, i + 1, collecting));
      } else {
        GoKeeps(s, t, if i < n then AfterAdvance(collecting) else AdvanceCas(e, n, collecting));
      }
  }

  // No guard is open in a slot above the watermark.
  lemma WatermarkScanned(s: State, e: int)
    requires Inv(s)
    ensures Scanned(s, e, |s.slots|, 0)
  {
    forall u | 0 <= u < |s.threads| && s.threads[u].pinned != NONE ensures 0 <= s.threads[u].id < |s.slots| {
      assert Pinned(s, s.threads[u]);
    }
  }

  lemma SlotScanned(s: State, e: int, n: nat, i: nat)
    requires Inv(s) && i < n <= |s.slots| && Scanned(s, e, n, i) && (s.slots[i] == NONE || e <= s.slots[i])
    ensures Scanned(s, e, n, i + 1)
  {
    forall u | 0 <= u < |s.threads| && s.threads[u].pinned != NONE && s.threads[u].id == i ensures e <= s.threads[u].pinned {
      assert Pinned(s, s.threads[u]);
    }
  }

  // The epoch moves only when every open guard has announced it.
  lemma EpochMoves(s: State, n: nat)
    requires Inv(s) && Scanned(s, s.current, n, n)
    ensures Inv(s.(current := s.current + 1))
  {
    hide ReadersUpTo, Grace, Doing;
    var s' := s.(current := s.current + 1);
    assert Keeps(s, s');
    forall u | 0 <= u < |s'.threads| ensures Pinned(s', s'.threads[u]) && Doing(s', s'.threads[u]) {
      DoingKept(s, s', s.threads[u]);
    }
    forall k | 0 <= k < |s'.nodes| ensures Grace(s', s'.nodes[k]) { GraceKept(s, s', s.nodes[k]); }
  }

  lemma AdvanceKeeps(s: State, t: nat, c: Choice)
    requires Inv(s) && t < |s.threads| && s.threads[t].pc.AdvanceCas?
    ensures Inv(Step(s, t, c))
  {
    hide ReadersUpTo, Grace, Scanned, Inv, Go;
    ThreadInv(s, t);
    var s' := if s.current == s.threads[t].pc.e then s.(current := s.current + 1) else s;
    if s.current == s.threads[t].pc.e { EpochMoves(s, s.threads[t].pc.n); }
    ThreadInv(s', t);
    GoKeeps(s', t, AfterAdvance(s.threads[t].pc.collecting));
  }

  // Guards open when the epoch is read were pinned no later than it.
  lemma ReadersOfNow(s: State)
    requires Inv(s)
    ensures ReadersUpTo(s, OpenGuards(s), s.current)
  {
    forall r <- OpenGuards(s)
      ensures 0 <= r.0 < |s.threads| && r.1 <= s.threads[r.0].session && (Open(s, r) ==> s.threads[r.0].pinned <= s.current)
    {
      assert Pinned(s, s.threads[r.0]);
    }
  }

  // Two epochs past the stamp, no guard that was open then can still be open.
  lemma ReadersGone(s: State, readers: set<Reader>, retired: int)
    requires Inv(s) && ReadersUpTo(s, readers, retired) && retired + 2 <= s.current
    ensures forall r <- readers :: !Open(s, r)
  {
    forall r <- readers ensures !Open(s, r) {
      assert Pinned(s, s.threads[r.0]);
    }
  }

  lemma CollectKeeps(s: State, t: nat, c: Choice)
    requires Inv(s) && t < |s.threads|
    requires var pc := s.threads[t].pc; pc.CollectSweep? || pc.CollectStamp? || pc.CollectSafe? || pc.CollectFree?
    ensures Inv(Step(s, t, c))
  {
    hide ReadersUpTo, Scanned, Go, Inv, Slots;
    ThreadInv(s, t);
    match s.threads[t].pc
    case CollectSweep =>
      if c.Sweep? && 0 <= c.n < |s.nodes| {
        NodeInv(s, c.n);
        NodesKeep(s, s.(nodes := s.nodes[c.n := s.nodes[c.n].(swept := true)]));
      } else {
        ReadersOfNow(s);
        GoKeeps(s, t, CollectStamp(s.current, 0, OpenGuards(s)));
      }
    case CollectStamp(e, i, readers) =>
      if i < |s.nodes| {
        NodeInv(s, i);
        var s' := StampAt(s, i, e, readers);
        NodesKeep(s, s');
        ThreadInv(s', t);
        GoKeeps(s', t, CollectStamp(e, i + 1, readers));
      } else {
        GoKeeps(s, t, AdvanceLoad(true));
      }
    case CollectSafe => GoKeeps(s, t, CollectFree(s.current, 0));
    case CollectFree(safe, i) =>
      if i < |s.nodes| {
        NodeInv(s, i);
        if s.nodes[i].retired >= 0 && s.nodes[i].retired + 2 <= safe { ReadersGone(s, s.nodes[i].readers, s.nodes[i].retired); }
        var s' := FreeAt(s, i, safe);
        NodesKeep(s, s');
        ThreadInv(s', t);
        GoKeeps(s', t, CollectFree(safe, i + 1));
      } else {
        GoKeeps(s, t, Rest);
        CollectorLeaves(s, t);
        NodesKeep(Go(s, t, Rest), Go(s, t, Rest).(collector := NONE));
        GoApart(s, t);
      }
  }

  lemma GoApart(s: State, t: nat)
    requires t < |s.threads|
    ensures Go(s.(collector := NONE), t, Rest) == Go(s, t, Rest).(collector := NONE)
  {}

  lemma CollectorLeaves(s: State, t: nat)
    requires Inv(s) && t < |s.threads| && Collecting(s.threads[t].pc)
    ensures OneCollector(Go(s, t, Rest).(collector := NONE))
  {}

  lemma ThreadInv(s: State, t: nat)
    requires Inv(s) && t < |s.threads|
    ensures 0 <= s.current && Pinned(s, s.threads[t]) && Doing(s, s.threads[t])
    ensures OneCollector(s) && (Collecting(s.threads[t].pc) ==> s.collector == t)
  {}

  lemma NodeInv(s: State, k: nat)
    requires Inv(s) && k < |s.nodes|
    ensures Grace(s, s.nodes[k])
  {}

  /** Whatever thread moves, the invariant is kept. */
  lemma StepKeepsInv(s: State, t: nat, c: Choice)
    requires Inv(s) && t < |s.threads|
    requires s.threads[t].pc.Unborn? || s.threads[t].pc.Gone? || HasSlot(s, t)
    ensures Inv(Step(s, t, c))
  {
    hide Inv, Acquire, Begin;
    var pc := s.threads[t].pc;
    if pc.Unborn? {
      AcquireKeeps(s, t);
    } else if pc.Rest? {
      BeginKeeps(s, t, c);
    } else if pc.AnnounceLoad? || pc.AnnounceExchange? || pc.AnnounceCheck? || pc.Unannounce? {
      AnnounceKeeps(s, t, c);
    } else if pc.ReleaseStore? || pc.ReleasePush? {
      ReleaseKeeps(s, t, c);
    } else if pc.AdvanceLoad? || pc.AdvanceMark? || pc.AdvanceScan? {
      ScanKeeps(s, t, c);
    } else if pc.AdvanceCas? {
      AdvanceKeeps(s, t, c);
    } else if !pc.Gone? {
      CollectKeeps(s, t, c);
    }
  }

  // ── Over whole runs ─────────────────────────────────────────────

  lemma InitialInv(s: State)
    requires Initial(s)
    ensures Inv(s)
  {}

  lemma {:induction false} RunKeepsInv(run: seq<State>, i: nat)
    requires Run(run) && i < |run|
    ensures Inv(run[i])
  {
    hide Inv, Step;
    if i == 0 {
      InitialInv(run[0]);
    } else {
      RunKeepsInv(run, i - 1);
      var s, s' := run[i - 1], run[i];
      var t: nat, c :|
        t < |s.threads| && (s.threads[t].pc.Unborn? || s.threads[t].pc.Gone? || HasSlot(s, t)) && s' == Step(s, t, c);
      StepKeepsInv(s, t, c);
    }
  }

  /** The epoch is never more than one past any open guard. */
  lemma PinnedEpoch(run: seq<State>, i: nat, t: nat)
    requires Run(run) && i < |run| && t < |run[i].threads| && run[i].threads[t].pinned != NONE
    ensures run[i].threads[t].pinned <= run[i].current <= run[i].threads[t].pinned + 1
  {
    hide Run, Slots, Grace, Doing;
    RunKeepsInv(run, i);
  }

  /** The epoch moves by one, and only when every open guard has announced it. */
  lemma EpochAdvances(run: seq<State>, i: nat, u: nat)
    requires Run(run) && 0 < i < |run| && run[i].current != run[i - 1].current
    ensures run[i].current == run[i - 1].current + 1
    ensures u < |run[i - 1].threads| && run[i - 1].threads[u].pinned != NONE ==> run[i - 1].threads[u].pinned == run[i - 1].current
  {
    hide Slots, Grace, OneCollector, Acquire, Begin, StampAt, FreeAt;
    RunKeepsInv(run, i - 1);
    var s, s' := run[i - 1], run[i];
    var t: nat, c :|
      t < |s.threads| && (s.threads[t].pc.Unborn? || s.threads[t].pc.Gone? || HasSlot(s, t)) && s' == Step(s, t, c);
    OnlyAdvanceMoves(s, t, c);
    assert Doing(s, s.threads[t]);
    if u < |s.threads| { assert Pinned(s, s.threads[u]); }
  }

  lemma OnlyAdvanceMoves(s: State, t: nat, c: Choice)
    requires t < |s.threads| && (s.threads[t].pc.Unborn? || s.threads[t].pc.Gone? || HasSlot(s, t))
    requires Step(s, t, c).current != s.current
    ensures s.threads[t].pc.AdvanceCas? && s.threads[t].pc.e == s.current && Step(s, t, c).current == s.current + 1
  {}

  // ── Where a stamp comes from ────────────────────────────────────

  // At h thread t, done sweeping, read the epoch e while these guards were open.
  ghost predicate ReadAt(run: seq<State>, h: nat, t: nat, e: int, readers: set<Reader>) {
    && h + 1 < |run| && t < |run[h].threads| && t < |run[h + 1].threads|
    && run[h].threads[t].pc == CollectSweep && run[h + 1].threads[t].pc == CollectStamp(e, 0, readers)
    && e == run[h].current && readers == OpenGuards(run[h])
  }

  predicate SweptIn(s: State, k: nat) {
    k < |s.nodes| && s.nodes[k].swept
  }

  lemma ThreadSource(s: State, t: nat, c: Choice, u: nat)
    requires t < |s.threads| && (s.threads[t].pc.Unborn? || s.threads[t].pc.Gone? || HasSlot(s, t)) && u < |s.threads|
    requires Step(s, t, c).threads[u].pc.CollectStamp?
    ensures var s', pc := Step(s, t, c), s.threads[u].pc;
            var pc' := s'.threads[u].pc;
            || (pc == CollectSweep && u == t && pc' == CollectStamp(s.current, 0, OpenGuards(s)) && s'.nodes == s.nodes)
            || (pc.CollectStamp? && pc.e == pc'.e && pc.readers == pc'.readers)
  {
    hide Acquire, Begin, OpenGuards;
    if s.threads[t].pc.Rest? { BeginStamps(s, t, c, u); }
    if s.threads[t].pc.Unborn? { AcquireStamps(s, t, u); }
  }

  lemma BeginStamps(s: State, t: nat, c: Choice, u: nat)
    requires t < |s.threads| && u < |s.threads| && s.threads[t].pc.Rest?
    ensures |Begin(s, t, c).threads| == |s.threads|
    ensures Begin(s, t, c).threads[u].pc.CollectStamp? ==> Begin(s, t, c).threads[u] == s.threads[u]
  {}

  lemma AcquireStamps(s: State, t: nat, u: nat)
    requires t < |s.threads| && u < |s.threads|
    ensures |Acquire(s, t).threads| == |s.threads|
    ensures Acquire(s, t).threads[u].pc.CollectStamp? ==> Acquire(s, t).threads[u] == s.threads[u]
  {}

  lemma NodeSource(s: State, t: nat, c: Choice, k: nat)
    requires t < |s.threads| && (s.threads[t].pc.Unborn? || s.threads[t].pc.Gone? || HasSlot(s, t))
    requires k < |Step(s, t, c).nodes| && Step(s, t, c).nodes[k].retired >= 0
    ensures var node', pc := Step(s, t, c).nodes[k], s.threads[t].pc;
            && k < |s.nodes|
            && ((s.nodes[k].retired == node'.retired && s.nodes[k].readers == node'.readers)
                || (pc.CollectStamp? && pc.e == node'.retired && pc.readers == node'.readers && s.nodes[k].swept))
  {
    hide OpenGuards;
  }

  // Nodes are marked swept by a collector's sweep and by nothing else.
  lemma SweptSource(s: State, t: nat, c: Choice, k: nat)
    requires t < |s.threads| && (s.threads[t].pc.Unborn? || s.threads[t].pc.Gone? || HasSlot(s, t))
    requires s.threads[t].pc != CollectSweep && SweptIn(Step(s, t, c), k)
    ensures SweptIn(s, k)
  {
    hide OpenGuards;
  }

  // While a collector stamps nobody sweeps: what is swept was swept when it read the epoch.
  lemma {:induction false} StampingSince(run: seq<State>, i: nat, t: nat) returns (h: nat)
    requires Run(run) && i < |run| && t < |run[i].threads| && run[i].threads[t].pc.CollectStamp?
    ensures h < i && ReadAt(run, h, t, run[i].threads[t].pc.e, run[i].threads[t].pc.readers)
    ensures forall k: nat :: SweptIn(run[i], k) ==> SweptIn(run[h], k)
  {
    hide Inv, Step, OpenGuards, Collecting;
    if i == 0 {
      assert false;
    } else {
      var s, s' := run[i - 1], run[i];
      RunKeepsInv(run, i - 1);
      assert Next(s, s');
      var u: nat, c :|
        u < |s.threads| && (s.threads[u].pc.Unborn? || s.threads[u].pc.Gone? || HasSlot(s, u)) && s' == Step(s, u, c);
      StepThreads(s, u, c);
      ThreadSource(s, u, c, t);
      if s.threads[t].pc.CollectStamp? {
        h := StampingSince(run, i - 1, t);
        OneSweeps(s, t, u);
        forall k: nat | SweptIn(s', k) ensures SweptIn(run[h], k) { SweptSource(s, u, c, k); }
      } else {
        h := i - 1;
      }
    }
  }

  lemma StepThreads(s: State, t: nat, c: Choice)
    requires t < |s.threads| && (s.threads[t].pc.Unborn? || s.threads[t].pc.Gone? || HasSlot(s, t))
    ensures |Step(s, t, c).threads| == |s.threads|
  {}

  lemma OneSweeps(s: State, t: nat, u: nat)
    requires Inv(s) && t < |s.threads| && u < |s.threads| && s.threads[t].pc.CollectStamp?
    ensures s.threads[u].pc != CollectSweep
  {
    hide Slots, Pinned, Doing, Grace;
  }

  lemma {:induction false} StampMoment(run: seq<State>, i: nat, k: nat) returns (h: nat, t: nat)
    requires Run(run) && i < |run| && k < |run[i].nodes| && run[i].nodes[k].retired >= 0
    ensures h < i && ReadAt(run, h, t, run[i].nodes[k].retired, run[i].nodes[k].readers) && SweptIn(run[h], k)
  {
    hide Inv, Step, OpenGuards;
    if i == 0 {
      assert false;
    } else {
      var s, s' := run[i - 1], run[i];
      assert Next(s, s');
      var u: nat, c :|
        u < |s.threads| && (s.threads[u].pc.Unborn? || s.threads[u].pc.Gone? || HasSlot(s, u)) && s' == Step(s, u, c);
      NodeSource(s, u, c, k);
      if s.nodes[k].retired == s'.nodes[k].retired && s.nodes[k].readers == s'.nodes[k].readers {
        h, t := StampMoment(run, i - 1, k);
      } else {
        t := u;
        h := StampingSince(run, i - 1, u);
      }
    }
  }

  /**
   The grace period.  For every freed node there is the moment h at which thread t, the collector, its
   sweeps done and the node among the swept, read the retirement epoch that the node was stamped
   with: every guard open at that moment has closed.
   */
  lemma GracePeriod(run: seq<State>, i: nat, k: nat) returns (h: nat, t: nat)
    requires Run(run) && i < |run| && k < |run[i].nodes| && run[i].nodes[k].freed
    ensures h < i && ReadAt(run, h, t, run[i].nodes[k].retired, run[i].nodes[k].readers)
    ensures run[h].collector == t && SweptIn(run[h], k)
    ensures run[i].nodes[k].readers == OpenGuards(run[h])
    ensures forall r <- OpenGuards(run[h]) :: !Open(run[i], r)
  {
    hide Run, Slots, Pinned, Doing, OpenGuards;
    RunKeepsInv(run, i);
    h, t := StampMoment(run, i, k);
    RunKeepsInv(run, h);
  }

  // ── A collection that nobody disturbs ───────────────────────────

  ghost predicate MovesBy(s: State, s': State, t: nat) {
    exists c :: t < |s.threads| && (s.threads[t].pc.Unborn? || s.threads[t].pc.Gone? || HasSlot(s, t)) && s' == Step(s, t, c)
  }

  // From i to j no thread but t moves.
  ghost predicate Alone(run: seq<State>, t: nat, i: nat, j: nat)
    requires i <= j < |run|
  {
    forall k :: i < k <= j ==> MovesBy(run[k - 1], run[k], t)
  }

  // Some slot announces an epoch before e.
  predicate Lagging(slots: seq<int>, e: int) {
    exists x :: 0 <= x < |slots| && slots[x] != NONE && slots[x] < e
  }

  // Where an advance nobody disturbs takes the epoch.
  function EpochAfter(s: State): int {
    if Lagging(s.slots, s.current) then s.current else s.current + 1
  }

  predicate Advances(pc: Pc) {
    pc.AdvanceLoad? || pc.AdvanceMark? || pc.AdvanceScan? || pc.AdvanceCas?
  }

  // An advance begun in s0, up to here.
  ghost predicate Advancing(s0: State, s: State, pc: Pc) {
    && s.slots == s0.slots
    && match pc
       case AdvanceLoad(_) => s.current == s0.current
       case AdvanceMark(e, _) => e == s.current == s0.current
       case AdvanceScan(e, n, i, _) => e == s.current == s0.current && i <= n == |s.slots| && !Lagging(s.slots[..i], e)
       case AdvanceCas(e, _, _) => e == s.current == s0.current && !Lagging(s.slots, e)
       case _ => s.current == EpochAfter(s0)
  }

  lemma AdvanceStep(s0: State, s: State, t: nat, c: Choice)
    requires t < |s.threads| && HasSlot(s, t) && Advances(s.threads[t].pc) && Advancing(s0, s, s.threads[t].pc)
    ensures var s' := Step(s, t, c); Advancing(s0, s', s'.threads[t].pc) && s'.nodes == s.nodes
    ensures var pc, pc' := s.threads[t].pc, Step(s, t, c).threads[t].pc;
            (Advances(pc') && pc'.collecting == pc.collecting) || pc' == AfterAdvance(pc.collecting)
    ensures Made(s, s.threads[t].pc) < Made(s, Step(s, t, c).threads[t].pc)
  {
    if s.threads[t].pc.AdvanceScan? {
      var i := s.threads[t].pc.i;
      if i < |s.slots| {
        assert s.slots[..i + 1] == s.slots[..i] + [s.slots[i]];
      } else {
        assert s.slots[..i] == s.slots;
      }
    }
  }

  // How many accesses an advance has made by here, at most.
  function Made(s: State, pc: Pc): nat {
    match pc
    case AdvanceLoad(_) => 0
    case AdvanceMark(_, _) => 1
    case AdvanceScan(_, _, i, _) => 2 + i
    case AdvanceCas(_, _, _) => 3 + |s.slots|
    case _ => 4 + |s.slots|
  }

  lemma {:induction false} AdvanceOn(run: seq<State>, t: nat, i: nat, j: nat)
    requires Run(run) && i <= j < |run| && Alone(run, t, i, j) && t < |run[i].threads|
    requires run[i].threads[t].pc.AdvanceLoad?
    requires forall k :: i <= k < j ==> t < |run[k].threads| && Advances(run[k].threads[t].pc)
    ensures t < |run[j].threads| && Advancing(run[i], run[j], run[j].threads[t].pc) && run[j].nodes == run[i].nodes
    ensures var pc, pc' := run[i].threads[t].pc, run[j].threads[t].pc;
            (Advances(pc') && pc'.collecting == pc.collecting) || pc' == AfterAdvance(pc.collecting)
    ensures j - i <= Made(run[i], run[j].threads[t].pc)
  {
    hide Run, Step, Advancing;
    if i == j {
      assert Advancing(run[i], run[i], run[i].threads[t].pc) by { AdvanceStarts(run[i], t); }
    } else {
      AdvanceOn(run, t, i, j - 1);
      var c := StepBy(run, t, j);
      AdvanceStep(run[i], run[j - 1], t, c);
      SlotsAdvancing(run[i], run[j - 1], run[j - 1].threads[t].pc);
      StepThreads(run[j - 1], t, c);
    }
  }

  lemma SlotsAdvancing(s0: State, s: State, pc: Pc)
    requires Advancing(s0, s, pc)
    ensures s.slots == s0.slots && (pc.AdvanceScan? ==> pc.i <= |s.slots|)
  {}

  lemma AdvanceStarts(s: State, t: nat)
    requires t < |s.threads| && s.threads[t].pc.AdvanceLoad?
    ensures Advancing(s, s, s.threads[t].pc)
  {}

  // The choice of a step of t, in a run.
  lemma StepBy(run: seq<State>, t: nat, j: nat) returns (c: Choice)
    requires 0 < j < |run| && MovesBy(run[j - 1], run[j], t)
    ensures t < |run[j - 1].threads| && (run[j - 1].threads[t].pc.Unborn? || run[j - 1].threads[t].pc.Gone? || HasSlot(run[j - 1], t))
    ensures run[j] == Step(run[j - 1], t, c)
  {
    hide Step;
    c :| t < |run[j - 1].threads| && (run[j - 1].threads[t].pc.Unborn? || run[j - 1].threads[t].pc.Gone? || HasSlot(run[j - 1], t))
         && run[j] == Step(run[j - 1], t, c);
  }

  /**
   An advance that nobody disturbs moves the epoch by one if and only if no slot announces an older
   one, and it is done within four accesses and one for each slot.
   */
  lemma UndisturbedAdvance(run: seq<State>, t: nat, i: nat, j: nat)
    requires Run(run) && i < j < |run| && Alone(run, t, i, j) && t < |run[i].threads|
    requires run[i].threads[t].pc.AdvanceLoad?
    requires forall k :: i <= k < j ==> t < |run[k].threads| && Advances(run[k].threads[t].pc)
    ensures j - i <= |run[i].slots| + 4
    ensures j - i == |run[i].slots| + 4 ==> t < |run[j].threads| && !Advances(run[j].threads[t].pc)
    ensures t < |run[j].threads| && !Advances(run[j].threads[t].pc) ==>
      && run[j].slots == run[i].slots && run[j].nodes == run[i].nodes
      && (if exists x :: 0 <= x < |run[i].slots| && run[i].slots[x] != NONE && run[i].slots[x] < run[i].current
          then run[j].current == run[i].current else run[j].current == run[i].current + 1)
  {
    hide Run, Step;
    AdvanceOn(run, t, i, j);
  }

  // What a collection begun in s0 does to a node: node' before its frees, with what was swept since.
  ghost predicate StampedSince(s0: State, node: Node, node': Node) {
    && (node.swept ==> node'.swept) && node'.freed == node.freed
    && node'.retired == if node'.swept && node.retired < 0 then s0.current else node.retired
  }

  ghost predicate FreedSince(s0: State, node: Node, node': Node, safe: int) {
    && StampedSince(s0, node, node'.(freed := node.freed))
    && (node'.freed <==> node.freed || (node'.retired >= 0 && node'.retired + 2 <= safe))
  }

  // A collection begun in s0 by the thread now at pc, up to here.
  ghost predicate Collects(s0: State, s: State, pc: Pc) {
    && s.slots == s0.slots && |s.nodes| == |s0.nodes|
    && match pc
       case CollectSweep =>
         s.current == s0.current
         && forall k :: 0 <= k < |s.nodes| ==> (s0.nodes[k].swept ==> s.nodes[k].swept) && s.nodes[k] == s0.nodes[k].(swept := s.nodes[k].swept)
       case CollectStamp(e, i, _) =>
         e == s.current == s0.current && i <= |s.nodes|
         && (forall k :: 0 <= k < |s.nodes| && k < i ==> StampedSince(s0, s0.nodes[k], s.nodes[k]))
         && forall k :: 0 <= k < |s.nodes| && i <= k ==>
              (s0.nodes[k].swept ==> s.nodes[k].swept) && s.nodes[k].retired == s0.nodes[k].retired && s.nodes[k].freed == s0.nodes[k].freed
       case CollectFree(safe, i) =>
         safe == s.current == EpochAfter(s0) && i <= |s.nodes|
         && (forall k :: 0 <= k < |s.nodes| && k < i ==> FreedSince(s0, s0.nodes[k], s.nodes[k], safe))
         && forall k :: 0 <= k < |s.nodes| && i <= k ==> StampedSince(s0, s0.nodes[k], s.nodes[k])
       case Rest => s.current == EpochAfter(s0) && forall k :: 0 <= k < |s.nodes| ==> FreedSince(s0, s0.nodes[k], s.nodes[k], s.current)
       case _ => Advancing(s0, s, pc) && forall k :: 0 <= k < |s.nodes| ==> StampedSince(s0, s0.nodes[k], s.nodes[k])
  }

  lemma CollectStep(s0: State, s: State, t: nat, c: Choice)
    requires t < |s.threads| && HasSlot(s, t) && Collecting(s.threads[t].pc) && Collects(s0, s, s.threads[t].pc)
    ensures var pc' := Step(s, t, c).threads[t].pc;
            Collects(s0, Step(s, t, c), pc') && (Collecting(pc') || pc' == Rest)
  {
    hide OpenGuards;
    if Advances(s.threads[t].pc) {
      hide Step, Advancing, EpochAfter;
      AdvanceStep(s0, s, t, c);
      AdvancedCollects(s0, s, t, c);
    }
  }

  lemma AdvancedCollects(s0: State, s: State, t: nat, c: Choice)
    requires t < |s.threads| && HasSlot(s, t) && Collecting(s.threads[t].pc) && Advances(s.threads[t].pc)
    requires Collects(s0, s, s.threads[t].pc)
    requires var s', pc' := Step(s, t, c), Step(s, t, c).threads[t].pc;
             Advancing(s0, s', pc') && s'.nodes == s.nodes && ((Advances(pc') && pc'.collecting) || pc' == CollectSafe)
    ensures Collects(s0, Step(s, t, c), Step(s, t, c).threads[t].pc)
  {
    hide Step, EpochAfter;
  }

  lemma {:induction false} CollectOn(run: seq<State>, t: nat, i: nat, j: nat)
    requires Run(run) && i <= j < |run| && Alone(run, t, i, j) && t < |run[i].threads|
    requires run[i].threads[t].pc == CollectSweep
    requires forall k :: i <= k < j ==> t < |run[k].threads| && Collecting(run[k].threads[t].pc)
    ensures t < |run[j].threads| && Collects(run[i], run[j], run[j].threads[t].pc)
    ensures Collecting(run[j].threads[t].pc) || run[j].threads[t].pc == Rest
  {
    hide Run, Step, Collects;
    if i == j {
      CollectStarts(run[i], t);
    } else {
      CollectOn(run, t, i, j - 1);
      var c := StepBy(run, t, j);
      CollectStep(run[i], run[j - 1], t, c);
      StepThreads(run[j - 1], t, c);
    }
  }

  lemma CollectStarts(s: State, t: nat)
    requires t < |s.threads| && s.threads[t].pc == CollectSweep
    ensures Collects(s, s, s.threads[t].pc)
  {}

  /**
   A collection that nobody disturbs.  The epoch moves by one if and only if no slot announces an older
   one; the nodes swept and not yet stamped get the epoch it began with; and it frees exactly those
   whose stamp is two behind the epoch it ends with.
   */
  lemma UndisturbedCollection(run: seq<State>, t: nat, i: nat, j: nat)
    requires Run(run) && i < j < |run| && Alone(run, t, i, j) && t < |run[i].threads|
    requires run[i].threads[t].pc == CollectSweep
    requires forall k :: i <= k < j ==> t < |run[k].threads| && Collecting(run[k].threads[t].pc)
    requires t < |run[j].threads| && !Collecting(run[j].threads[t].pc)
    ensures run[j].current == run[i].current + if Lagging(run[i].slots, run[i].current) then 0 else 1
    ensures |run[j].nodes| == |run[i].nodes|
    ensures forall k :: 0 <= k < |run[j].nodes| ==>
      var before, after := run[i].nodes[k], run[j].nodes[k];
      && (before.swept ==> after.swept)
      && after.retired == (if after.swept && before.retired < 0 then run[i].current else before.retired)
      && (after.freed <==> before.freed || (after.retired >= 0 && after.retired + 2 <= run[j].current))
  {
    hide Run, Step;
    CollectOn(run, t, i, j);
  }

  // How many accesses a collection has made since its sweeps, at most.
  function MadeSince(s: State, pc: Pc): nat {
    match pc
    case CollectStamp(_, i, _) => 1 + i
    case CollectSafe => 6 + |s.nodes| + |s.slots|
    case CollectFree(_, i) => 7 + |s.nodes| + |s.slots| + i
    case Rest => 8 + 2 * |s.nodes| + |s.slots|
    case _ => if Advances(pc) then 2 + |s.nodes| + Made(s, pc) else 0
  }

  lemma CollectMoves(s0: State, s: State, t: nat, c: Choice)
    requires t < |s.threads| && HasSlot(s, t) && Collecting(s.threads[t].pc) && Collects(s0, s, s.threads[t].pc)
    ensures s.threads[t].pc != CollectSweep ==>
      MadeSince(s, s.threads[t].pc) < MadeSince(Step(s, t, c), Step(s, t, c).threads[t].pc)
    ensures MadeSince(s, s.threads[t].pc) <= 8 + 2 * |s.nodes| + |s.slots|
    ensures Step(s, t, c).threads[t].pc != CollectSweep ==> 0 < MadeSince(Step(s, t, c), Step(s, t, c).threads[t].pc)
  {
    hide OpenGuards;
    if Advances(s.threads[t].pc) { AdvanceStep(s0, s, t, c); }
  }

  /** Once it has swept, a collection that nobody disturbs is done within two accesses a node, one a slot and eight. */
  lemma {:induction false} CollectionEnds(run: seq<State>, t: nat, i: nat, m: nat, j: nat)
    requires Run(run) && i <= m < j < |run| && Alone(run, t, i, j) && t < |run[i].threads|
    requires run[i].threads[t].pc == CollectSweep
    requires forall k :: i <= k < j ==> t < |run[k].threads| && Collecting(run[k].threads[t].pc)
    requires run[m].threads[t].pc == CollectSweep
    requires forall k :: m < k <= j ==> t < |run[k].threads| && run[k].threads[t].pc != CollectSweep
    ensures j - m <= MadeSince(run[j], run[j].threads[t].pc) <= 8 + 2 * |run[i].nodes| + |run[i].slots|
    decreases j
  {
    hide Run, Step, Collects, MadeSince;
    CollectOn(run, t, i, j - 1);
    CollectOn(run, t, i, j);
    var c := StepBy(run, t, j);
    CollectMoves(run[i], run[j - 1], t, c);
    SizesKept(run[i], run[j], run[j].threads[t].pc);
    if m + 1 < j { CollectionEnds(run, t, i, m, j - 1); }
  }

  lemma SizesKept(s0: State, s: State, pc: Pc)
    requires Collects(s0, s, pc) && (Collecting(pc) || pc == Rest)
    ensures s.slots == s0.slots && |s.nodes| == |s0.nodes| && MadeSince(s, pc) <= 8 + 2 * |s.nodes| + |s.slots|
  {}

  // Stamps stay, and what is freed stays freed.
  lemma NodeKept(s: State, t: nat, c: Choice, k: nat)
    requires t < |s.threads| && (s.threads[t].pc.Unborn? || s.threads[t].pc.Gone? || HasSlot(s, t)) && k < |s.nodes|
    ensures var s' := Step(s, t, c);
            && k < |s'.nodes| && (s.nodes[k].retired >= 0 ==> s'.nodes[k].retired == s.nodes[k].retired)
            && (s.nodes[k].freed ==> s'.nodes[k].freed) && s.current <= s'.current
  {
    hide OpenGuards;
  }

  lemma {:induction false} NodesKept(run: seq<State>, i: nat, j: nat, k: nat)
    requires Run(run) && i <= j < |run| && k < |run[i].nodes|
    ensures k < |run[j].nodes| && (run[i].nodes[k].retired >= 0 ==> run[j].nodes[k].retired == run[i].nodes[k].retired)
    ensures (run[i].nodes[k].freed ==> run[j].nodes[k].freed) && run[i].current <= run[j].current
  {
    hide Step;
    if i < j {
      NodesKept(run, i, j - 1, k);
      var s, s' := run[j - 1], run[j];
      var t: nat, c :|
        t < |s.threads| && (s.threads[t].pc.Unborn? || s.threads[t].pc.Gone? || HasSlot(s, t)) && s' == Step(s, t, c);
      NodeKept(s, t, c, k);
    }
  }

  // t collects from i to j and nobody disturbs it, no slot announcing an older epoch.
  ghost predicate QuietCollection(run: seq<State>, t: nat, i: nat, j: nat) {
    && i < j < |run| && Alone(run, t, i, j) && t < |run[i].threads| && run[i].threads[t].pc == CollectSweep
    && (forall k :: i <= k < j ==> t < |run[k].threads| && Collecting(run[k].threads[t].pc))
    && t < |run[j].threads| && !Collecting(run[j].threads[t].pc) && !Lagging(run[i].slots, run[i].current)
  }

  /**
   So garbage goes: a node swept by the end of one such collection is freed by the end of the next,
   whoever runs it and whatever happens in between.  With no guard open no slot announces anything.
   */
  lemma SweptIsFreed(run: seq<State>, t: nat, i: nat, j: nat, u: nat, i': nat, j': nat, k: nat)
    requires Run(run) && j <= i' && QuietCollection(run, t, i, j) && QuietCollection(run, u, i', j')
    requires SweptIn(run[j], k)
    ensures k < |run[j'].nodes| && run[j'].nodes[k].freed
  {
    hide Run, Alone, Lagging, Inv;
    UndisturbedCollection(run, t, i, j);
    UndisturbedCollection(run, u, i', j');
    NodesKept(run, j, i', k);
    RunKeepsInv(run, i);
    StampBound(run[i], k);
  }

  lemma StampBound(s: State, k: nat)
    requires Inv(s) && k < |s.nodes|
    ensures 0 <= s.current && s.nodes[k].retired <= s.current
  {
    hide Slots, Pinned, Doing, ReadersUpTo;
  }

  // ── What a slot announces ───────────────────────────────────────

  // Between opening or closing a guard and saying so.
  predicate Announcing(pc: Pc) {
    pc.AnnounceLoad? || pc.AnnounceExchange? || pc.AnnounceCheck? || pc.Unannounce?
  }

  predicate Owns(s: State, u: int, x: int) {
    0 <= u < |s.threads| && Registered(s.threads[u]) && s.threads[u].id == x
  }

  ghost predicate Owned(s: State, x: int) {
    x in s.freeIds || exists u :: Owns(s, u, x)
  }

  // Slots announce open guards, and nothing else for long.
  ghost predicate Honest(s: State) {
    && (forall u :: 0 <= u < |s.threads| && Registered(s.threads[u]) && !Announcing(s.threads[u].pc) && 0 <= s.threads[u].id < |s.slots| ==>
          s.slots[s.threads[u].id] == s.threads[u].pinned)
    && (forall i :: 0 <= i < |s.freeIds| && 0 <= s.freeIds[i] < |s.slots| ==> s.slots[s.freeIds[i]] == NONE)
    && (forall x :: 0 <= x < |s.slots| ==> Owned(s, x))
  }

  // A step writes no slot but its thread's own and a new one.
  lemma OtherSlots(s: State, t: nat, c: Choice)
    requires t < |s.threads| && (s.threads[t].pc.Unborn? || s.threads[t].pc.Gone? || HasSlot(s, t))
    ensures var s' := Step(s, t, c);
            && |s'.threads| == |s.threads| && |s.slots| <= |s'.slots|
            && (forall u :: 0 <= u < |s.threads| && u != t ==> s'.threads[u] == s.threads[u])
            && (forall x :: 0 <= x < |s.slots| && x != s.threads[t].id ==> s'.slots[x] == s.slots[x])
            && (!Registered(s.threads[t]) ==> forall x :: 0 <= x < |s.slots| ==> s'.slots[x] == s.slots[x])
            && (forall x :: |s.slots| <= x < |s'.slots| ==> s'.slots[x] == NONE)
  {
    hide OpenGuards;
  }

  // The thread's own slot announces its guard, between guards nothing.
  predicate OwnHonest(s: State, t: nat)
    requires t < |s.threads|
  {
    var thread := s.threads[t];
    Registered(thread) && !Announcing(thread.pc) && 0 <= thread.id < |s.slots| ==> s.slots[thread.id] == thread.pinned
  }

  lemma BornSlot(s: State, t: nat, c: Choice)
    requires Inv(s) && Honest(s) && t < |s.threads| && s.threads[t].pc.Unborn?
    ensures t < |Step(s, t, c).threads| && OwnHonest(Step(s, t, c), t)
  {
    hide OpenGuards, Grace, Owned, OneCollector, Slots, Doing;
    assert Pinned(s, s.threads[t]);
  }

  lemma KeptSlot(s: State, t: nat, c: Choice)
    requires t < |s.threads| && (s.threads[t].pc.Gone? || HasSlot(s, t)) && !s.threads[t].pc.Unborn? && OwnHonest(s, t)
    requires Pinned(s, s.threads[t]) && Doing(s, s.threads[t])
    ensures t < |Step(s, t, c).threads| && OwnHonest(Step(s, t, c), t)
  {
    hide OpenGuards, Scanned, ReadersUpTo, Collecting;
  }

  lemma OwnSlot(s: State, t: nat, c: Choice)
    requires Inv(s) && Honest(s) && t < |s.threads|
    requires s.threads[t].pc.Unborn? || s.threads[t].pc.Gone? || HasSlot(s, t)
    ensures t < |Step(s, t, c).threads| && OwnHonest(Step(s, t, c), t)
  {
    hide Step, Grace, Owned, OneCollector, Slots;
    assert Pinned(s, s.threads[t]) && Doing(s, s.threads[t]);
    if s.threads[t].pc.Unborn? { BornSlot(s, t, c); } else { KeptSlot(s, t, c); }
  }

  lemma FreeSlots(s: State, t: nat, c: Choice, i: nat)
    requires Inv(s) && Honest(s) && t < |s.threads| && i < |Step(s, t, c).freeIds|
    requires s.threads[t].pc.Unborn? || s.threads[t].pc.Gone? || HasSlot(s, t)
    ensures var s' := Step(s, t, c); 0 <= s'.freeIds[i] < |s'.slots| ==> s'.slots[s'.freeIds[i]] == NONE
  {
    hide OpenGuards, Grace, Owned, OneCollector;
    assert Pinned(s, s.threads[t]) && Doing(s, s.threads[t]);
    OtherSlots(s, t, c);
    hide Inv, Pinned, Doing;
  }

  lemma HonestSlots(s: State, t: nat, c: Choice)
    requires Inv(s) && Honest(s) && t < |s.threads|
    requires s.threads[t].pc.Unborn? || s.threads[t].pc.Gone? || HasSlot(s, t)
    ensures var s' := Step(s, t, c);
            && (forall u :: 0 <= u < |s'.threads| && Registered(s'.threads[u]) && !Announcing(s'.threads[u].pc) && 0 <= s'.threads[u].id < |s'.slots| ==>
                  s'.slots[s'.threads[u].id] == s'.threads[u].pinned)
            && (forall i :: 0 <= i < |s'.freeIds| && 0 <= s'.freeIds[i] < |s'.slots| ==> s'.slots[s'.freeIds[i]] == NONE)
  {
    hide Step, Grace, Owned, OneCollector, Pinned, Doing;
    OtherSlots(s, t, c);
    OwnSlot(s, t, c);
    forall i: nat | i < |Step(s, t, c).freeIds|
      ensures var s' := Step(s, t, c); 0 <= s'.freeIds[i] < |s'.slots| ==> s'.slots[s'.freeIds[i]] == NONE
    {
      FreeSlots(s, t, c, i);
    }
  }

  lemma HonestOwners(s: State, t: nat, c: Choice, x: int)
    requires Inv(s) && Honest(s) && t < |s.threads|
    requires s.threads[t].pc.Unborn? || s.threads[t].pc.Gone? || HasSlot(s, t)
    requires 0 <= x < |Step(s, t, c).slots|
    ensures Owned(Step(s, t, c), x)
  {
    hide OpenGuards, Grace, OneCollector, Pinned, Doing, Slots;
    var s' := Step(s, t, c);
    OtherSlots(s, t, c);
    assert x < |s.slots| ==> Owned(s, x);
    hide Inv, Honest;
    if x < |s.slots| {
      if x in s.freeIds {
        if x !in s'.freeIds { assert Owns(s', t, x); }
      } else {
        var u :| Owns(s, u, x);
        if u == t && s.threads[t].pc.ReleasePush? {
          assert s'.freeIds[|s.freeIds|] == x;
        } else {
          assert Owns(s', u, x);
        }
      }
    } else {
      assert Owns(s', t, x);
    }
  }

  lemma {:induction false} RunHonest(run: seq<State>, i: nat)
    requires Run(run) && i < |run|
    ensures Honest(run[i])
  {
    hide Inv, Step, Honest;
    if i == 0 {
      InitialHonest(run[0]);
    } else {
      RunHonest(run, i - 1);
      RunKeepsInv(run, i - 1);
      var s, s' := run[i - 1], run[i];
      var t: nat, c :|
        t < |s.threads| && (s.threads[t].pc.Unborn? || s.threads[t].pc.Gone? || HasSlot(s, t)) && s' == Step(s, t, c);
      HonestSlots(s, t, c);
      forall x | 0 <= x < |s'.slots| ensures Owned(s', x) { HonestOwners(s, t, c, x); }
      HonestFrom(s');
    }
  }

  lemma InitialHonest(s: State)
    requires Initial(s)
    ensures Honest(s)
  {}

  lemma HonestFrom(s: State)
    requires forall u :: 0 <= u < |s.threads| && Registered(s.threads[u]) && !Announcing(s.threads[u].pc) && 0 <= s.threads[u].id < |s.slots| ==>
      s.slots[s.threads[u].id] == s.threads[u].pinned
    requires forall i :: 0 <= i < |s.freeIds| && 0 <= s.freeIds[i] < |s.slots| ==> s.slots[s.freeIds[i]] == NONE
    requires forall x :: 0 <= x < |s.slots| ==> Owned(s, x)
    ensures Honest(s)
  {}

  /** A slot that announces an epoch belongs to a thread whose guard is open there, or just opening or closing. */
  lemma SlotAnnounces(run: seq<State>, i: nat, x: nat) returns (u: nat)
    requires Run(run) && i < |run| && x < |run[i].slots| && run[i].slots[x] != NONE
    ensures u < |run[i].threads| && run[i].threads[u].id == x
    ensures run[i].threads[u].pinned == run[i].slots[x] || Announcing(run[i].threads[u].pc)
  {
    hide Run;
    RunHonest(run, i);
    var s := run[i];
    assert Owned(s, x);
    assert x !in s.freeIds;
    var v :| Owns(s, v, x);
    u := v;
  }

  /** Three accesses that nobody disturbs open a guard on the current epoch; one closes it for every scan to see. */
  lemma UndisturbedGuard(run: seq<State>, t: nat, i: nat)
    requires Run(run) && i < |run| && t < |run[i].threads|
    ensures run[i].threads[t].pc == AnnounceLoad && i + 3 < |run| && Alone(run, t, i, i + 3) ==>
      var s := run[i + 3];
      && t < |s.threads| && s.threads[t].pc == Rest && s.threads[t].pinned == s.current == run[i].current
      && HasSlot(s, t) && s.slots[s.threads[t].id] == s.current
    ensures run[i].threads[t].pc == Unannounce && i + 1 < |run| && MovesBy(run[i], run[i + 1], t) ==>
      var s := run[i + 1];
      t < |s.threads| && s.threads[t].pc == Rest && HasSlot(s, t) && s.slots[s.threads[t].id] == NONE
  {
    hide Run, OpenGuards, Acquire, Begin;
    if run[i].threads[t].pc == AnnounceLoad && i + 3 < |run| && Alone(run, t, i, i + 3) {
      assert MovesBy(run[i + 1 - 1], run[i + 1], t) && MovesBy(run[i + 2 - 1], run[i + 2], t) && MovesBy(run[i + 3 - 1], run[i + 3], t);
    }
  }

  // ── What the calls come to ──────────────────────────────────────

  // A guard counted and not just being opened is pinned.
  predicate Guarded(thread: Thread) {
    && (thread.depth > 0 && !Announcing(thread.pc) ==> thread.pinned != NONE)
    && (thread.pc == Unannounce || thread.pc == Unborn ==> thread.depth == 0)
  }

  lemma GuardedAccess(s: State, t: nat, c: Choice)
    requires t < |s.threads| && (s.threads[t].pc.Unborn? || s.threads[t].pc.Gone? || HasSlot(s, t)) && Guarded(s.threads[t])
    requires s.threads[t].pc.AnnounceCheck? ==> s.threads[t].pc.e >= 0
    ensures t < |Step(s, t, c).threads| && Guarded(Step(s, t, c).threads[t])
  {
    hide OpenGuards, Registered;
  }

  lemma GuardedStep(s: State, s': State, t: nat)
    requires Inv(s) && Next(s, s') && t < |s.threads| && t < |s'.threads| && Guarded(s.threads[t])
    ensures Guarded(s'.threads[t])
  {
    hide Slots, Grace, OneCollector, Step, Guarded;
    var u: nat, c :|
      u < |s.threads| && (s.threads[u].pc.Unborn? || s.threads[u].pc.Gone? || HasSlot(s, u)) && s' == Step(s, u, c);
    OtherSlots(s, u, c);
    if u == t {
      assert Pinned(s, s.threads[t]) && Doing(s, s.threads[t]);
      GuardedAccess(s, t, c);
    }
  }

  lemma {:induction false} RunGuarded(run: seq<State>, i: nat, t: nat)
    requires Run(run) && i < |run| && t < |run[i].threads|
    ensures Guarded(run[i].threads[t])
  {
    hide Inv, Step;
    if i > 0 {
      RunKeepsInv(run, i - 1);
      SameThreads(run[i - 1], run[i]);
      RunGuarded(run, i - 1, t);
      GuardedStep(run[i - 1], run[i], t);
    }
  }

  lemma SameThreads(s: State, s': State)
    requires Next(s, s')
    ensures |s'.threads| == |s.threads|
  {
    hide OpenGuards;
  }

  /** While a thread has a guard open, however deeply nested, its slot announces the epoch it opened the outermost one in. */
  lemma OpenGuardHolds(run: seq<State>, i: nat, t: nat)
    requires Run(run) && i < |run| && t < |run[i].threads| && run[i].threads[t].pc == Rest
    ensures var s, thread := run[i], run[i].threads[t];
            && HasSlot(s, t) && s.slots[thread.id] == thread.pinned && (thread.pinned != NONE <==> thread.depth > 0)
            && (thread.depth > 0 ==> s.current <= thread.pinned + 1)
  {
    hide Run;
    RunKeepsInv(run, i);
    RunHonest(run, i);
    RunGuarded(run, i, t);
    assert Pinned(run[i], run[i].threads[t]);
  }

  /** Opening and closing count; only the outermost guard announces and unannounces. */
  lemma GuardsNest(run: seq<State>, i: nat, t: nat, open: bool)
    requires Run(run) && i + 1 < |run| && t < |run[i].threads| && run[i].threads[t].pc == Rest
    requires HasSlot(run[i], t) && run[i + 1] == Step(run[i], t, if open then OpenGuard else CloseGuard)
    ensures var s, s', d := run[i], run[i + 1], run[i].threads[t].depth;
            && |s'.threads| == |s.threads| && s'.slots == s.slots && s'.threads[t].id == s.threads[t].id
            && s'.threads[t].depth == (if open then d + 1 else if d > 0 then d - 1 else 0)
            && (s'.threads[t].pc == Rest <==> if open then d > 0 else d != 1)
            && (s'.threads[t].pc == Rest ==> s'.threads[t].pinned == s.threads[t].pinned)
            && (s'.threads[t].pc != Rest ==> s'.threads[t].pc == (if open then AnnounceLoad else Unannounce) && s'.threads[t].pinned == NONE)
  {
    hide Run;
    OpenGuardHolds(run, i, t);
  }

  /** A thread is born with a slot of its own that announces nothing; a new slot is made only when every other is some thread's. */
  lemma ThreadBorn(run: seq<State>, i: nat, t: nat, x: nat)
    requires Run(run) && i + 1 < |run| && t < |run[i].threads| && run[i].threads[t].pc == Unborn && run[i + 1] == Step(run[i], t, Born)
    ensures var s, s' := run[i], run[i + 1];
            && |s'.threads| == |s.threads| && s'.threads[t].pc == Rest && HasSlot(s', t) && s'.slots[s'.threads[t].id] == NONE
            && (x < |s.threads| && x != t && Registered(s.threads[x]) ==> s.threads[x].id != s'.threads[t].id)
            && |s.slots| <= |s'.slots| <= |s.slots| + 1
            && (|s'.slots| > |s.slots| && x < |s.slots| ==> exists u :: Owns(s, u, x))
  {
    hide Run;
    RunKeepsInv(run, i);
    RunHonest(run, i);
    assert x < |run[i].slots| ==> Owned(run[i], x);
  }

  /** Three accesses that nobody disturbs, and a thread is gone; its slot announces nothing and is the next to be used. */
  lemma ThreadExits(run: seq<State>, i: nat, t: nat)
    requires Run(run) && i + 3 < |run| && t < |run[i].threads| && run[i].threads[t].pc == Rest && run[i].threads[t].depth == 0
    requires HasSlot(run[i], t) && run[i + 1] == Step(run[i], t, Exit)
    requires MovesBy(run[i + 1], run[i + 2], t) && MovesBy(run[i + 2], run[i + 3], t)
    ensures var s, s' := run[i], run[i + 3];
            && t < |s'.threads| && s'.threads[t].pc == Gone && s'.freeIds == s.freeIds + [s.threads[t].id]
            && s'.slots == s.slots[s.threads[t].id := NONE]
  {
    hide Run, OpenGuards;
  }

  /** One collection runs at a time, and begins when none does; an advance begins at once; a node staged is there, not yet swept. */
  lemma CallsBegin(run: seq<State>, i: nat, t: nat, c: Choice)
    requires Run(run) && i < |run| && t < |run[i].threads| && run[i].threads[t].pc == Rest && HasSlot(run[i], t)
    ensures var s, s' := run[i], Step(run[i], t, c);
            && |s'.threads| == |s.threads|
            && (c == Collect && s.collector == NONE ==> Collecting(s'.threads[t].pc) && s'.collector == t)
            && (c == Collect && s.collector != NONE ==> s' == s)
            && (c == TryAdvance ==> Advances(s'.threads[t].pc) && !Collecting(s'.threads[t].pc))
            && (c == Stage ==> |s'.nodes| == |s.nodes| + 1 && s'.nodes[..|s.nodes|] == s.nodes && !s'.nodes[|s.nodes|].swept && !s'.nodes[|s.nodes|].freed)
            && (c == Collect || c == TryAdvance ==> s'.slots == s.slots && s'.nodes == s.nodes && s'.current == s.current)
  {
    hide Run;
  }

  /** The sweeps over, a collection goes on to its stamps; until then each step sweeps the node it is said to and no other. */
  lemma SweepsEnd(run: seq<State>, i: nat, t: nat, c: Choice)
    requires Run(run) && i < |run| && t < |run[i].threads| && run[i].threads[t].pc == CollectSweep && HasSlot(run[i], t)
    ensures var s, s' := run[i], Step(run[i], t, c);
            && |s'.threads| == |s.threads| && |s'.nodes| == |s.nodes|
            && (s'.threads[t].pc == CollectSweep <==> c.Sweep? && 0 <= c.n < |s.nodes|)
            && (s'.threads[t].pc != CollectSweep ==> Collecting(s'.threads[t].pc))
            && forall k :: 0 <= k < |s.nodes| ==>
                 s'.nodes[k] == if c == Sweep(k) then s.nodes[k].(swept := true) else s.nodes[k]
  {
    hide Run, OpenGuards;
  }
}

// The lazily initialised mutex as a protocol: any number of threads, each
// executing Lock, Unlock and AssertHeld one atomic action at a time.
module MutexProtocol {

  type ThreadId = t: nat | t > 0 witness 1

  datatype Kind = Static | Dynamic

  datatype Operation = Locking | Unlocking | Asserting

  // Where a thread stands.  The actions from Cas to Spin are ThreadSafeLazyInit,
  // which every operation runs first.
  datatype Pc =
    | Idle
    | Cas(op: Operation)          // about to compare-and-exchange phase 0 for 1
    | ClearOwnerFirst(op: Operation)   // won the exchange: about to write owner 0
    | Create(op: Operation)       // about to allocate the critical section
    | Initialize(op: Operation)   // about to initialise it
    | Publish(op: Operation)      // about to exchange phase 1 for 2 and check
    | Spin(op: Operation)         // lost the exchange: waiting for phase 2
    | Enter                       // Lock: about to enter the critical section
    | TakeOwnership               // Lock: inside, about to write owner
    | DropOwnership               // Unlock: about to write owner 0
    | Leave                       // Unlock: about to leave the critical section
    | CheckOwner                  // AssertHeld: about to compare owner

  datatype Section = Absent | Raw | Ready

  // Who is inside the critical section, and how often it entered without leaving:
  // a thread that is inside may enter again.
  datatype Holder = Nobody | Thread(id: ThreadId, depth: nat)

  // Why the process was aborted, if it was.
  datatype Abort = Running | PublishCheckFailed | UnexpectedPhase | NotHeld(id: ThreadId) | UsedTooEarly

  datatype State = State(
    kind: Kind,
    phase: int,                  // critical_section_init_phase_
    created: nat,                // how often a critical section was allocated
    section: Section,            // critical_section_
    owner: nat,                  // owner_thread_id_, 0 for nobody
    holder: Holder,              // who is inside the critical section
    pcs: map<ThreadId, Pc>,
    locks: map<ThreadId, nat>,   // how many more times a thread finished Lock than it started Unlock
    held: set<ThreadId>,         // threads that finished Lock and have not started Unlock since
    abort: Abort)

  // Zero-initialised static storage, or the constructor's work for a dynamic mutex.
  ghost predicate Init(s: State) {
    && s.phase == 0 && s.owner == 0 && s.holder == Nobody && s.held == {} && s.abort == Running
    && (s.kind == Static ==> s.created == 0 && s.section == Absent)
    && (s.kind == Dynamic ==> s.created == 1 && s.section == Ready)
    && s.locks.Keys == s.pcs.Keys
    && forall t :: t in s.pcs ==> s.pcs[t] == Idle && s.locks[t] == 0
  }

  // Where an operation goes once the mutex is initialised.
  function AfterInit(op: Operation): Pc {
    match op
    case Locking => Enter
    case Unlocking => DropOwnership
    case Asserting => CheckOwner
  }

  function Goto(s: State, t: ThreadId, pc: Pc): State {
    s.(pcs := s.pcs[t := pc])
  }

  // Whether thread t can act.  An idle thread may start any operation, Unlock only
  // if it still holds the mutex (the caller's duty).
  predicate Enabled(s: State, t: ThreadId, op: Operation) {
    && t in s.pcs && t in s.locks && s.abort == Running
    && match s.pcs[t]
       case Idle => op == Unlocking ==> s.locks[t] > 0
       case Enter => s.holder == Nobody || s.holder.id == t
       case Leave => s.holder.Thread?
       case _ => true
  }

  // The action thread t takes; op is the operation an idle thread starts.
  function Act(s: State, t: ThreadId, op: Operation): State
    requires Enabled(s, t, op)
  {
    match s.pcs[t]
    case Idle =>
      if op == Unlocking then Goto(s.(held := s.held - {t}, locks := s.locks[t := s.locks[t] - 1]), t, Cas(op))
      else Goto(s, t, Cas(op))
    case Cas(o) =>
      if s.kind == Dynamic then Goto(s, t, AfterInit(o))
      else if s.phase == 0 then Goto(s.(phase := 1), t, ClearOwnerFirst(o))
      else if s.phase == 1 then Goto(s, t, Spin(o))
      else if s.phase == 2 then Goto(s, t, AfterInit(o))
      else s.(abort := UnexpectedPhase)
    case ClearOwnerFirst(o) => Goto(s.(owner := 0), t, Create(o))
    case Create(o) => Goto(s.(section := Raw, created := s.created + 1), t, Initialize(o))
    case Initialize(o) => Goto(s.(section := Ready), t, Publish(o))
    case Publish(o) =>
      if s.phase == 1 then Goto(s.(phase := 2), t, AfterInit(o)) else s.(abort := PublishCheckFailed)
    case Spin(o) => if s.phase == 2 then Goto(s, t, AfterInit(o)) else s
    case Enter =>
      if s.section == Ready then
        Goto(s.(holder := Thread(t, if s.holder.Thread? then s.holder.depth + 1 else 1)), t, TakeOwnership)
      else s.(abort := UsedTooEarly)
    case TakeOwnership =>
      Goto(s.(owner := t, held := s.held + {t}, locks := s.locks[t := s.locks[t] + 1]), t, Idle)
    case DropOwnership => Goto(s.(owner := 0), t, Leave)
    case Leave =>
      if s.section == Ready then
        Goto(s.(holder := if s.holder.depth > 1 then Thread(s.holder.id, s.holder.depth - 1) else Nobody), t, Idle)
      else s.(abort := UsedTooEarly)
    case CheckOwner => if s.owner == t then Goto(s, t, Idle) else s.(abort := NotHeld(t))
  }

  ghost predicate Step(s: State, s': State) {
    exists t: ThreadId, op :: Enabled(s, t, op) && s' == Act(s, t, op)
  }

  // A run: any interleaving, from an initial state.
  ghost predicate Run(states: seq<State>) {
    && states != [] && Init(states[0])
    && forall k :: 0 < k < |states| ==> Step(states[k - 1], states[k])
  }

  // ---------------------------------------------------------------- the invariant

  predicate Initialising(pc: Pc) {
    pc.ClearOwnerFirst? || pc.Create? || pc.Initialize? || pc.Publish?
  }

  // Past initialisation: in the body of an operation.
  predicate PastInit(pc: Pc) {
    pc.Enter? || pc.TakeOwnership? || pc.DropOwnership? || pc.Leave? || pc.CheckOwner?
  }

  // An entry into the critical section that belongs to an operation under way.
  function Pending(pc: Pc): nat {
    if pc in {Cas(Unlocking), TakeOwnership, DropOwnership, Leave} then 1 else 0
  }

  // How often thread t is inside the critical section.
  ghost function Depth(s: State, t: ThreadId): nat
    requires t in s.pcs
  {
    (if t in s.locks then s.locks[t] else 0) + Pending(s.pcs[t])
  }

  // Between entering and leaving the critical section.
  ghost predicate Inside(s: State, t: ThreadId)
    requires t in s.pcs
  {
    Depth(s, t) > 0
  }

  // What the phase says about the critical section and about thread t.
  ghost predicate PhaseFits(s: State, t: ThreadId)
    requires t in s.pcs
  {
    var pc := s.pcs[t];
    if s.kind == Dynamic then !Initialising(pc) && !pc.Spin?
    else
      && (Initialising(pc) ==>
            && s.phase == 1 && pc.op != Unlocking
            && s.section == (if pc.Publish? then Ready else if pc.Initialize? then Raw else Absent))
      && (s.phase == 0 ==> !pc.Spin? && !PastInit(pc))
      && (s.phase == 1 ==> !PastInit(pc))
      && (pc.Spin? ==> pc.op != Unlocking)
  }

  // Phase, critical section and counter agree.
  ghost predicate SharedFits(s: State) {
    && (s.kind == Dynamic ==> s.phase == 0 && s.created == 1 && s.section == Ready)
    && (s.kind == Static ==>
          && 0 <= s.phase <= 2
          && s.created == (if s.section == Absent then 0 else 1)
          && (s.phase == 0 ==> s.section == Absent)
          && (s.phase == 2 ==> s.section == Ready)
          && (s.phase < 2 ==> s.holder == Nobody && s.owner == 0))
    && (s.abort == Running || s.abort.NotHeld?)
  }

  // In phase 1 exactly one thread is initialising, otherwise none.
  ghost predicate InitialisersFit(s: State) {
    && (forall t :: t in s.pcs ==> PhaseFits(s, t))
    && (forall t, u :: t in s.pcs && u in s.pcs && Initialising(s.pcs[t]) && Initialising(s.pcs[u]) ==> t == u)
    && (s.kind == Static && s.phase == 1 ==> exists t :: t in s.pcs && Initialising(s.pcs[t]))
  }

  // Thread t is inside as often as the critical section counts, and recorded as
  // the owner from writing owner in Lock until clearing it in Unlock.
  ghost predicate ThreadFits(s: State, t: ThreadId)
    requires t in s.pcs && t in s.locks
  {
    && Depth(s, t) == (if s.holder.Thread? && s.holder.id == t then s.holder.depth else 0)
    && (t in s.held ==> s.owner == t && s.locks[t] > 0 && s.pcs[t] !in {Cas(Unlocking), DropOwnership, Leave})
    && (s.owner == t ==> Inside(s, t) && (t in s.held || s.pcs[t] in {Cas(Unlocking), DropOwnership}))
  }

  ghost predicate HolderFits(s: State) {
    && s.locks.Keys == s.pcs.Keys && s.held <= s.pcs.Keys
    && (s.holder.Thread? ==> s.holder.id in s.pcs && s.holder.depth > 0)
    && (s.owner != 0 ==> s.owner in s.pcs)
    && forall t :: t in s.pcs ==> ThreadFits(s, t)
  }

  ghost predicate Invariant(s: State) {
    SharedFits(s) && InitialisersFit(s) && HolderFits(s)
  }

  lemma InitInvariant(s: State)
    requires Init(s)
    ensures Invariant(s)
  {
  }

  // While nobody is inside, nobody owns.
  lemma OwnerInside(s: State, t: ThreadId)
    requires Invariant(s) && t in s.pcs
    ensures s.holder == Nobody ==> s.owner == 0 && !Inside(s, t)
  {
    assert ThreadFits(s, t);
    if s.owner != 0 {
      assert ThreadFits(s, s.owner);
    }
  }

  lemma ActKeepsShared(s: State, t: ThreadId, op: Operation)
    requires Invariant(s) && Enabled(s, t, op)
    ensures SharedFits(Act(s, t, op))
  {
    assert PhaseFits(s, t) && ThreadFits(s, t);
    OwnerInside(s, t);
  }

  // Whoever starts Unlock holds the mutex, so initialisation is over.
  lemma OnlyHolderUnlocks(s: State, t: ThreadId)
    requires Invariant(s) && t in s.pcs && s.kind == Static
    ensures s.pcs[t] == Cas(Unlocking) || s.locks[t] > 0 ==> s.phase == 2
  {
    assert ThreadFits(s, t);
  }

  lemma ActKeepsOwnPhase(s: State, t: ThreadId, op: Operation)
    requires Enabled(s, t, op) && SharedFits(s) && PhaseFits(s, t)
    requires s.kind == Static && (s.pcs[t] == Cas(Unlocking) || s.locks[t] > 0) ==> s.phase == 2
    ensures PhaseFits(Act(s, t, op), t)
  {
  }

  lemma ActKeepsOtherPhase(s: State, t: ThreadId, op: Operation, u: ThreadId)
    requires Enabled(s, t, op) && SharedFits(s) && PhaseFits(s, t) && u in s.pcs && u != t && PhaseFits(s, u)
    requires Initialising(s.pcs[t]) ==> !Initialising(s.pcs[u])
    ensures PhaseFits(Act(s, t, op), u)
  {
  }

  lemma ActKeepsPhaseFits(s: State, t: ThreadId, op: Operation, u: ThreadId)
    requires Invariant(s) && Enabled(s, t, op) && u in s.pcs
    ensures PhaseFits(Act(s, t, op), u)
  {
    hide HolderFits, Inside, Act, SharedFits, PhaseFits, Initialising;
    if u != t {
      ActKeepsOtherPhase(s, t, op, u);
    } else {
      if s.kind == Static {
        OnlyHolderUnlocks(s, t);
      }
      ActKeepsOwnPhase(s, t, op);
    }
  }

  // Who is initialising changes only with the phase.
  lemma ActInitialising(s: State, t: ThreadId, op: Operation)
    requires Enabled(s, t, op) && SharedFits(s) && PhaseFits(s, t)
    ensures var s' := Act(s, t, op);
      && s'.kind == s.kind && s'.pcs.Keys == s.pcs.Keys
      && (forall u :: u in s.pcs && u != t ==> s'.pcs[u] == s.pcs[u])
      && if s'.phase == s.phase then Initialising(s'.pcs[t]) <==> Initialising(s.pcs[t])
         else if s.phase == 0 then s'.phase == 1 && Initialising(s'.pcs[t])
         else s'.phase == 2 && Initialising(s.pcs[t]) && !Initialising(s'.pcs[t])
  {
  }

  lemma ActKeepsInitialisers(s: State, t: ThreadId, op: Operation)
    requires Invariant(s) && Enabled(s, t, op)
    ensures InitialisersFit(Act(s, t, op))
  {
    hide HolderFits, Inside, Act, Initialising;
    var s' := Act(s, t, op);
    assert PhaseFits(s, t);
    ActInitialising(s, t, op);
    forall u | u in s'.pcs
      ensures PhaseFits(s', u) && PhaseFits(s, u)
    {
      ActKeepsPhaseFits(s, t, op, u);
    }
    if s'.kind == Static && s'.phase == 1 && s.phase != 0 {
      var i :| i in s.pcs && Initialising(s.pcs[i]);
      assert Initialising(s'.pcs[i]);
    }
  }

  // The acting thread ...
  lemma ActKeepsOwnThread(s: State, t: ThreadId, op: Operation)
    requires Enabled(s, t, op) && ThreadFits(s, t) && (s.holder.Thread? ==> s.holder.depth > 0)
    requires PhaseFits(s, t) && (s.kind == Static && s.pcs[t] == Cas(Unlocking) ==> s.phase == 2)
    requires Initialising(s.pcs[t]) ==> s.owner == 0
    requires s.pcs[t] == Enter && s.holder == Nobody ==> s.locks[t] == 0
    ensures ThreadFits(Act(s, t, op), t)
    ensures Act(s, t, op).holder.Thread? ==> Act(s, t, op).holder.depth > 0
  {
  }

  // ... and every other one.
  lemma ActKeepsOtherThread(s: State, t: ThreadId, op: Operation, u: ThreadId)
    requires Enabled(s, t, op) && ThreadFits(s, t) && u in s.pcs && u in s.locks && u != t && ThreadFits(s, u)
    requires Initialising(s.pcs[t]) ==> s.owner == 0
    ensures ThreadFits(Act(s, t, op), u)
  {
  }

  // The same threads, and an owner and a holder among them.
  lemma ActKeepsThreads(s: State, t: ThreadId, op: Operation)
    requires s.locks.Keys == s.pcs.Keys && Enabled(s, t, op)
    ensures Act(s, t, op).pcs.Keys == s.pcs.Keys && Act(s, t, op).locks.Keys == s.locks.Keys
  {
  }

  lemma ActKeepsOwners(s: State, t: ThreadId, op: Operation)
    requires Enabled(s, t, op) && s.held <= s.pcs.Keys
    requires (s.holder.Thread? ==> s.holder.id in s.pcs) && (s.owner != 0 ==> s.owner in s.pcs)
    ensures var s' := Act(s, t, op);
      s'.held <= s.pcs.Keys && (s'.holder.Thread? ==> s'.holder.id in s.pcs) && (s'.owner != 0 ==> s'.owner in s.pcs)
  {
  }

  // Before initialisation ends nobody owns, and a thread about to enter an empty section holds no lock.
  lemma NobodyOwnsYet(s: State, t: ThreadId)
    requires Invariant(s) && t in s.pcs
    ensures Initialising(s.pcs[t]) ==> s.owner == 0
    ensures s.holder == Nobody ==> s.locks[t] == 0
  {
    assert PhaseFits(s, t) && ThreadFits(s, t);
  }

  lemma ActKeepsHolder(s: State, t: ThreadId, op: Operation)
    requires Invariant(s) && Enabled(s, t, op)
    ensures HolderFits(Act(s, t, op))
  {
    hide ThreadFits, Act, PhaseFits;
    var s' := Act(s, t, op);
    assert PhaseFits(s, t) && ThreadFits(s, t);
    if s.kind == Static {
      OnlyHolderUnlocks(s, t);
    }
    OwnerInside(s, t);
    NobodyOwnsYet(s, t);
    ActKeepsThreads(s, t, op);
    ActKeepsOwners(s, t, op);
    ActKeepsOwnThread(s, t, op);
    forall u | u in s'.pcs
      ensures ThreadFits(s', u)
    {
      if u != t {
        ActKeepsOtherThread(s, t, op, u);
      }
    }
  }

  lemma ActKeepsInvariant(s: State, t: ThreadId, op: Operation)
    requires Invariant(s) && Enabled(s, t, op)
    ensures Invariant(Act(s, t, op))
  {
    hide SharedFits, InitialisersFit, HolderFits;
    ActKeepsShared(s, t, op);
    ActKeepsInitialisers(s, t, op);
    ActKeepsHolder(s, t, op);
  }

  lemma ActKeepsKind(s: State, t: ThreadId, op: Operation)
    requires Enabled(s, t, op)
    ensures Act(s, t, op).kind == s.kind && Act(s, t, op).pcs.Keys == s.pcs.Keys
  {
  }

  lemma {:induction false} RunKeepsInvariant(states: seq<State>, k: nat)
    requires Run(states) && k < |states|
    ensures Invariant(states[k]) && states[k].kind == states[0].kind
  {
    hide Invariant, Act, Enabled;
    if k == 0 {
      InitInvariant(states[0]);
    } else {
      RunKeepsInvariant(states, k - 1);
      assert Step(states[k - 1], states[k]);
      var t: ThreadId, op :| Enabled(states[k - 1], t, op) && states[k] == Act(states[k - 1], t, op);
      ActKeepsInvariant(states[k - 1], t, op);
      ActKeepsKind(states[k - 1], t, op);
    }
  }

  // ---------------------------------------------------------------- theorems

  lemma ActAdvancesPhase(s: State, t: ThreadId, op: Operation)
    requires Invariant(s) && s.kind == Static && Enabled(s, t, op)
    ensures s.phase <= Act(s, t, op).phase <= s.phase + 1 && Act(s, t, op).phase <= 2
  {
    assert PhaseFits(s, t);
  }

  // The phase of a static mutex only moves 0, 1, 2, one step at a time.
  lemma {:induction false} PhaseOnlyAdvances(states: seq<State>, i: nat, j: nat)
    requires Run(states) && i <= j < |states| && states[0].kind == Static
    ensures 0 <= states[i].phase <= states[j].phase <= 2
    ensures j == i + 1 ==> states[j].phase <= states[i].phase + 1
    decreases j
  {
    hide Act, Enabled, InitialisersFit, HolderFits;
    RunKeepsInvariant(states, i);
    if i == j {
    } else {
      PhaseOnlyAdvances(states, i, j - 1);
      RunKeepsInvariant(states, j - 1);
      assert Step(states[j - 1], states[j]);
      var t: ThreadId, op :| Enabled(states[j - 1], t, op) && states[j] == Act(states[j - 1], t, op);
      ActAdvancesPhase(states[j - 1], t, op);
    }
  }

  // The critical section is created once, and nobody is past the initialisation
  // or inside before it is ready.  No internal check ever fails.
  lemma InitialisedOnceBeforeUse(states: seq<State>, k: nat, t: ThreadId)
    requires Run(states) && k < |states| && t in states[k].pcs
    ensures states[k].created <= 1
    ensures PastInit(states[k].pcs[t]) || Inside(states[k], t) ==> states[k].section == Ready && states[k].created == 1
    ensures states[k].abort !in {PublishCheckFailed, UnexpectedPhase, UsedTooEarly}
  {
    RunKeepsInvariant(states, k);
    assert PhaseFits(states[k], t) && ThreadFits(states[k], t);
  }

  // At most one thread is between entering and leaving.
  lemma MutualExclusion(states: seq<State>, k: nat, t: ThreadId, u: ThreadId)
    requires Run(states) && k < |states| && t in states[k].pcs && u in states[k].pcs
    requires Inside(states[k], t) && Inside(states[k], u)
    ensures t == u
  {
    RunKeepsInvariant(states, k);
    assert ThreadFits(states[k], t) && ThreadFits(states[k], u);
  }

  // AssertHeld passes exactly for a thread that finished Lock and has not started Unlock since.
  lemma AssertHeldIsExact(states: seq<State>, k: nat, t: ThreadId, op: Operation)
    requires Run(states) && k < |states| && Enabled(states[k], t, op) && states[k].pcs[t] == CheckOwner
    ensures Act(states[k], t, op).abort == Running <==> t in states[k].held
  {
    RunKeepsInvariant(states, k);
    assert ThreadFits(states[k], t);
  }

  // The documentation has AssertHeld do nothing for a thread that holds the mutex.
  // That fails exactly for a thread that locked again and unlocked once: it still
  // holds the mutex, but Unlock cleared the owner.
  lemma AssertHeldMissesNestedLock(states: seq<State>, k: nat, t: ThreadId, op: Operation)
    requires Run(states) && k < |states| && Enabled(states[k], t, op) && states[k].pcs[t] == CheckOwner
    ensures (Act(states[k], t, op).abort == Running <==> Inside(states[k], t))
            <==> t in states[k].held || states[k].locks[t] == 0
  {
    RunKeepsInvariant(states, k);
    assert ThreadFits(states[k], t);
  }

  // ---------------------------------------------------------------- whole operations

  // A thread that has started Lock and not finished it.
  predicate LockUnderWay(pc: Pc) {
    || (pc.Cas? && pc.op == Locking) || (pc.Spin? && pc.op == Locking)
    || (Initialising(pc) && pc.op == Locking)
    || pc.Enter? || pc.TakeOwnership?
  }

  // The operation a thread that is not idle has under way.
  predicate UnderWay(pc: Pc, op: Operation) {
    match op
    case Locking => LockUnderWay(pc)
    case Unlocking => pc in {Cas(Unlocking), DropOwnership, Leave}
    case Asserting => pc in {Cas(Asserting), Spin(Asserting), CheckOwner} || (Initialising(pc) && pc.op == Asserting)
  }

  // How often the critical section counts thread t.
  function Entries(s: State, t: ThreadId): nat {
    if s.holder.Thread? && s.holder.id == t then s.holder.depth else 0
  }

  // Thread t has op under way since it was counted `before` times.
  predicate Halfway(s: State, t: ThreadId, op: Operation, before: nat) {
    && t in s.pcs && UnderWay(s.pcs[t], op)
    && Entries(s, t) == before + (if s.pcs[t] == TakeOwnership then 1 else 0)
  }

  // What the end of op promises to thread t.
  predicate Finished(s: State, t: ThreadId, op: Operation, before: nat) {
    match op
    case Locking => s.owner == t && t in s.held && Entries(s, t) == before + 1
    case Unlocking => s.owner == 0 && t !in s.held && Entries(s, t) + 1 == before && (before == 1 ==> s.holder == Nobody)
    case Asserting => s.owner == t && t in s.held && Entries(s, t) == before
  }

  lemma LockGoesOn(s: State, t: ThreadId, op': Operation, before: nat)
    requires Enabled(s, t, op') && ThreadFits(s, t) && PhaseFits(s, t) && Halfway(s, t, Locking, before)
    ensures var s' := Act(s, t, op');
      if s'.pcs[t] == Idle then Finished(s', t, Locking, before) else Halfway(s', t, Locking, before)
  {
  }

  lemma UnlockGoesOn(s: State, t: ThreadId, op': Operation, before: nat)
    requires Enabled(s, t, op') && ThreadFits(s, t) && PhaseFits(s, t) && Halfway(s, t, Unlocking, before)
    requires s.pcs[t] == Leave ==> s.owner == 0
    requires s.kind == Static && s.pcs[t] == Cas(Unlocking) ==> s.phase == 2
    ensures var s' := Act(s, t, op');
      if s'.pcs[t] == Idle then Finished(s', t, Unlocking, before) else Halfway(s', t, Unlocking, before)
  {
  }

  lemma AssertGoesOn(s: State, t: ThreadId, op': Operation, before: nat)
    requires Enabled(s, t, op') && ThreadFits(s, t) && PhaseFits(s, t) && Halfway(s, t, Asserting, before)
    ensures var s' := Act(s, t, op');
      if s'.pcs[t] == Idle then Finished(s', t, Asserting, before) else Halfway(s', t, Asserting, before)
  {
  }

  // Another thread neither moves this one nor changes how often it is counted.
  lemma ActLeavesOthers(s: State, t: ThreadId, op: Operation, u: ThreadId)
    requires Enabled(s, t, op) && ThreadFits(s, t) && u in s.pcs && u != t
    ensures u in Act(s, t, op).pcs && Act(s, t, op).pcs[u] == s.pcs[u] && Entries(Act(s, t, op), u) == Entries(s, u)
  {
  }

  lemma NobodyOwnsAtLeave(s: State, t: ThreadId)
    requires Invariant(s) && t in s.pcs && s.pcs[t] == Leave
    ensures s.owner == 0
  {
    assert ThreadFits(s, t);
    forall u | u in s.pcs
      ensures s.owner != u
    {
      assert ThreadFits(s, u);
    }
  }

  lemma EnabledThread(s: State, t: ThreadId, op: Operation)
    requires Enabled(s, t, op)
    ensures t in s.pcs
  {
  }

  lemma StepGoesOn(s: State, s': State, t: ThreadId, op: Operation, before: nat)
    requires Invariant(s) && Step(s, s') && Halfway(s, t, op, before)
    ensures t in s'.pcs && if s'.pcs[t] == Idle then Finished(s', t, op, before) else Halfway(s', t, op, before)
  {
    hide Act, Enabled, PhaseFits, ThreadFits, SharedFits, Finished;
    var u: ThreadId, op' :| Enabled(s, u, op') && s' == Act(s, u, op');
    assert u in s.pcs by { EnabledThread(s, u, op'); }
    assert PhaseFits(s, u) && ThreadFits(s, u);
    if u == t {
      if s.pcs[t] == Leave {
        NobodyOwnsAtLeave(s, t);
      }
      if s.kind == Static {
        OnlyHolderUnlocks(s, t);
      }
      ActKeepsKind(s, t, op');
      match op
      case Locking => LockGoesOn(s, t, op', before);
      case Unlocking => UnlockGoesOn(s, t, op', before);
      case Asserting => AssertGoesOn(s, t, op', before);
    } else {
      ActLeavesOthers(s, u, op', t);
    }
  }

  lemma HeldIsInside(s: State, t: ThreadId)
    requires Invariant(s) && t in s.pcs
    ensures t in s.held ==> Entries(s, t) > 0
  {
    assert ThreadFits(s, t);
  }

  lemma StepStarts(s: State, s': State, t: ThreadId, op: Operation)
    requires Invariant(s) && Step(s, s') && t in s.pcs && s.pcs[t] == Idle && t in s'.pcs && s'.pcs[t] == Cas(op)
    ensures Halfway(s', t, op, Entries(s, t))
  {
    hide Invariant;
  }

  lemma {:induction false} HalfwayUpTo(states: seq<State>, b: nat, m: nat, t: ThreadId, op: Operation)
    requires Run(states) && b < m < |states| && (forall a :: b <= a <= m ==> t in states[a].pcs)
    requires states[b].pcs[t] == Idle && states[b + 1].pcs[t] == Cas(op)
    requires forall a :: b < a <= m ==> states[a].pcs[t] != Idle
    ensures Halfway(states[m], t, op, Entries(states[b], t))
  {
    hide Invariant, Step, Halfway;
    RunKeepsInvariant(states, m - 1);
    assert Step(states[m - 1], states[m]);
    if m == b + 1 {
      StepStarts(states[b], states[m], t, op);
    } else {
      HalfwayUpTo(states, b, m - 1, t, op);
      StepGoesOn(states[m - 1], states[m], t, op, Entries(states[b], t));
    }
  }

  // An operation from its start after state b to its end in state k, whatever the
  // other threads do meanwhile: when Lock returns the thread owns the mutex and has
  // entered once more; when Unlock returns nobody is recorded as the owner and the
  // thread has left once; when AssertHeld returns the thread owns the mutex.
  lemma OperationEnds(states: seq<State>, b: nat, k: nat, t: ThreadId, op: Operation)
    requires Run(states) && b < k < |states| && (forall a :: b <= a <= k ==> t in states[a].pcs)
    requires states[b].pcs[t] == Idle && states[b + 1].pcs[t] == Cas(op)
    requires (forall a :: b < a < k ==> states[a].pcs[t] != Idle) && states[k].pcs[t] == Idle
    ensures op == Locking ==>
      && states[k].owner == t && t in states[k].held
      && states[k].holder == Thread(t, Entries(states[b], t) + 1)
    ensures op == Unlocking ==>
      && states[k].owner == 0 && t !in states[k].held
      && Entries(states[b], t) > 0
      && states[k].holder == if Entries(states[b], t) == 1 then Nobody else Thread(t, Entries(states[b], t) - 1)
    ensures op == Asserting ==>
      && states[k].owner == t && t in states[k].held
      && Entries(states[b], t) > 0 && states[k].holder == Thread(t, Entries(states[b], t))
  {
    hide Invariant, Step, Halfway;
    HalfwayUpTo(states, b, k - 1, t, op);
    RunKeepsInvariant(states, k - 1);
    assert Step(states[k - 1], states[k]);
    StepGoesOn(states[k - 1], states[k], t, op, Entries(states[b], t));
    RunKeepsInvariant(states, k);
    HeldIsInside(states[k], t);
  }

  // ---------------------------------------------------------------- two examples

  // A dynamic mutex with one thread, for the example below.
  ghost function Alone(pc: Pc, depth: nat, locks: nat, held: set<ThreadId>, owner: nat): State {
    State(Dynamic, 0, 1, Ready, owner, if depth == 0 then Nobody else Thread(1, depth), map[1 := pc], map[1 := locks],
          held, Running)
  }

  lemma Steps(s: State, op: Operation, s': State)
    requires Enabled(s, 1, op) && Act(s, 1, op).(pcs := s'.pcs, locks := s'.locks) == s'
    requires Act(s, 1, op).pcs == s'.pcs && Act(s, 1, op).locks == s'.locks
    ensures Step(s, s')
  {
  }

  ghost predicate Chain(states: seq<State>) {
    states != [] && forall k :: 0 < k < |states| ==> Step(states[k - 1], states[k])
  }

  lemma Join(x: seq<State>, y: seq<State>)
    requires Chain(x) && Chain(y) && x[|x| - 1] == y[0]
    ensures Chain(x + y[1..]) && (x + y[1..])[0] == x[0] && (x + y[1..])[|x| + |y| - 2] == y[|y| - 1]
  {
    hide Step;
  }

  ghost function LockAlone(depth: nat, locks: nat, held: set<ThreadId>, owner: nat): seq<State> {
    [Alone(Idle, depth, locks, held, owner), Alone(Cas(Locking), depth, locks, held, owner),
     Alone(Enter, depth, locks, held, owner), Alone(TakeOwnership, depth + 1, locks, held, owner),
     Alone(Idle, depth + 1, locks + 1, held + {1}, 1)]
  }

  lemma LockIsChain(depth: nat, locks: nat, held: set<ThreadId>, owner: nat)
    ensures var c := LockAlone(depth, locks, held, owner);
      Chain(c) && c[0] == Alone(Idle, depth, locks, held, owner) && c[|c| - 1] == Alone(Idle, depth + 1, locks + 1, held + {1}, 1)
  {
    hide Step;
    var c := LockAlone(depth, locks, held, owner);
    Steps(c[0], Locking, c[1]);
    Steps(c[1], Locking, c[2]);
    Steps(c[2], Locking, c[3]);
    Steps(c[3], Locking, c[4]);
  }

  ghost function UnlockAlone(depth: nat, locks: nat, held: set<ThreadId>, owner: nat): seq<State>
    requires depth > 1 && locks > 0
  {
    [Alone(Idle, depth, locks, held, owner), Alone(Cas(Unlocking), depth, locks - 1, held - {1}, owner),
     Alone(DropOwnership, depth, locks - 1, held - {1}, owner), Alone(Leave, depth, locks - 1, held - {1}, 0),
     Alone(Idle, depth - 1, locks - 1, held - {1}, 0)]
  }

  lemma UnlockIsChain(depth: nat, locks: nat, held: set<ThreadId>, owner: nat)
    requires depth > 1 && locks > 0
    ensures var c := UnlockAlone(depth, locks, held, owner);
      Chain(c) && c[0] == Alone(Idle, depth, locks, held, owner) && c[|c| - 1] == Alone(Idle, depth - 1, locks - 1, held - {1}, 0)
  {
    hide Step;
    var c := UnlockAlone(depth, locks, held, owner);
    Steps(c[0], Unlocking, c[1]);
    Steps(c[1], Unlocking, c[2]);
    Steps(c[2], Unlocking, c[3]);
    Steps(c[3], Unlocking, c[4]);
  }

  ghost function AssertAlone(depth: nat, locks: nat, held: set<ThreadId>, owner: nat): seq<State> {
    [Alone(Idle, depth, locks, held, owner), Alone(Cas(Asserting), depth, locks, held, owner),
     Alone(CheckOwner, depth, locks, held, owner)]
  }

  lemma AssertIsChain(depth: nat, locks: nat, held: set<ThreadId>, owner: nat)
    ensures var c := AssertAlone(depth, locks, held, owner);
      Chain(c) && c[0] == Alone(Idle, depth, locks, held, owner) && c[|c| - 1] == Alone(CheckOwner, depth, locks, held, owner)
  {
    hide Step;
    var c := AssertAlone(depth, locks, held, owner);
    Steps(c[0], Asserting, c[1]);
    Steps(c[1], Asserting, c[2]);
  }

  lemma ChainIsRun(states: seq<State>)
    requires Chain(states) && states[0] == Alone(Idle, 0, 0, {}, 0)
    ensures Run(states)
  {
    hide Step;
  }

  lemma NestedIsNotHeld()
    ensures var s := Alone(CheckOwner, 1, 1, {}, 0);
      && Enabled(s, 1, Asserting) && s.pcs[1] == CheckOwner && Inside(s, 1)
      && Act(s, 1, Asserting).abort == NotHeld(1)
  {
  }

  // Lock, Lock, Unlock: the thread still holds the mutex, and AssertHeld aborts it.
  lemma NestedLockExample() returns (states: seq<State>)
    ensures Run(states)
    ensures var s := states[|states| - 1];
      && Enabled(s, 1, Asserting) && s.pcs[1] == CheckOwner && Inside(s, 1)
      && Act(s, 1, Asserting).abort == NotHeld(1)
  {
    var first, second := LockAlone(0, 0, {}, 0), LockAlone(1, 1, {1}, 1);
    var third, fourth := UnlockAlone(2, 2, {1}, 1), AssertAlone(1, 1, {}, 0);
    assert {1} + {1} == {1 as ThreadId} && {} + {1} == {1 as ThreadId} && {1 as ThreadId} - {1} == {};
    hide LockAlone, UnlockAlone, AssertAlone, Chain, Step, Alone, Init, Run, Enabled, Act, Inside;
    LockIsChain(0, 0, {}, 0);
    LockIsChain(1, 1, {1}, 1);
    UnlockIsChain(2, 2, {1}, 1);
    AssertIsChain(1, 1, {}, 0);
    states := first;
    Join(states, second);
    states := states + second[1..];
    Join(states, third);
    states := states + third[1..];
    Join(states, fourth);
    states := states + fourth[1..];
    ChainIsRun(states);
    NestedIsNotHeld();
  }

  // A static mutex with one thread whose first operation is Lock.
  ghost function FirstLock(): seq<State> {
    var start := State(Static, 0, 0, Absent, 0, Nobody, map[1 := Idle], map[1 := 0], {}, Running);
    [start,
     start.(pcs := map[1 := Cas(Locking)]),
     start.(phase := 1, pcs := map[1 := ClearOwnerFirst(Locking)]),
     start.(phase := 1, pcs := map[1 := Create(Locking)]),
     start.(phase := 1, created := 1, section := Raw, pcs := map[1 := Initialize(Locking)]),
     start.(phase := 1, created := 1, section := Ready, pcs := map[1 := Publish(Locking)]),
     start.(phase := 2, created := 1, section := Ready, pcs := map[1 := Enter]),
     start.(phase := 2, created := 1, section := Ready, holder := Thread(1, 1), pcs := map[1 := TakeOwnership]),
     State(Static, 2, 1, Ready, 1, Thread(1, 1), map[1 := Idle], map[1 := 1], {1}, Running)]
  }

  lemma FirstLockStarts()
    ensures var c := FirstLock();
      Step(c[0], c[1]) && Step(c[1], c[2]) && Step(c[2], c[3]) && Step(c[3], c[4])
  {
    hide Step;
    var c := FirstLock();
    Steps(c[0], Locking, c[1]);
    Steps(c[1], Locking, c[2]);
    Steps(c[2], Locking, c[3]);
    Steps(c[3], Locking, c[4]);
  }

  lemma FirstLockPublishes()
    ensures var c := FirstLock(); Step(c[4], c[5]) && Step(c[5], c[6])
  {
    hide Step;
    var c := FirstLock();
    Steps(c[4], Locking, c[5]);
    Steps(c[5], Locking, c[6]);
  }

  lemma FirstLockEnters()
    ensures var c := FirstLock(); Step(c[6], c[7]) && Step(c[7], c[8])
  {
    hide Step;
    var c := FirstLock();
    Steps(c[6], Locking, c[7]);
    Steps(c[7], Locking, c[8]);
  }

  // The first Lock creates and initialises the critical section, enters it and owns the mutex.
  lemma FirstLockExample()
    ensures Run(FirstLock())
    ensures FirstLock()[0].kind == Static && FirstLock()[0].section == Absent && FirstLock()[0].phase == 0
    ensures FirstLock()[8] ==
            State(Static, 2, 1, Ready, 1, Thread(1, 1), map[1 := Idle], map[1 := 1], {1}, Running)
  {
    hide Step;
    FirstLockStarts();
    FirstLockPublishes();
    FirstLockEnters();
  }

  // ---------------------------------------------------------------- plain use

  ghost predicate NoNesting(s: State) {
    forall t :: t in s.pcs && t in s.locks && LockUnderWay(s.pcs[t]) ==> s.locks[t] == 0
  }

  // In no state does a thread that holds the mutex have another Lock under way.
  ghost predicate NeverNested(states: seq<State>) {
    forall k :: 0 <= k < |states| ==> NoNesting(states[k])
  }

  ghost predicate HeldIsHolding(s: State) {
    s.locks.Keys == s.pcs.Keys && forall t :: t in s.pcs ==> (t in s.held <==> s.locks[t] > 0) && s.locks[t] <= 1
  }

  lemma ActKeepsHeldIsHolding(s: State, t: ThreadId, op: Operation)
    requires HeldIsHolding(s) && NoNesting(s) && Enabled(s, t, op)
    ensures HeldIsHolding(Act(s, t, op))
  {
  }

  lemma {:induction false} PlainUse(states: seq<State>, k: nat)
    requires Run(states) && NeverNested(states) && k < |states|
    ensures HeldIsHolding(states[k])
  {
    hide Act, Enabled, NoNesting;
    if k == 0 {
    } else {
      hide HeldIsHolding;
      PlainUse(states, k - 1);
      assert Step(states[k - 1], states[k]);
      var t: ThreadId, op :| Enabled(states[k - 1], t, op) && states[k] == Act(states[k - 1], t, op);
      assert NoNesting(states[k - 1]);
      ActKeepsHeldIsHolding(states[k - 1], t, op);
    }
  }

  // Without nested locking AssertHeld does what its documentation says.
  lemma AssertHeldInPlainUse(states: seq<State>, k: nat, t: ThreadId, op: Operation)
    requires Run(states) && NeverNested(states)
    requires k < |states| && Enabled(states[k], t, op) && states[k].pcs[t] == CheckOwner
    ensures Act(states[k], t, op).abort == Running <==> Inside(states[k], t)
  {
    AssertHeldMissesNestedLock(states, k, t, op);
    PlainUse(states, k);
  }

  // Some operation can go on, unless the holder is idle and keeps the mutex.
  lemma NoDeadlock(states: seq<State>, k: nat, t: ThreadId) returns (u: ThreadId, op: Operation)
    requires Run(states) && k < |states| && states[k].abort == Running
    requires t in states[k].pcs && states[k].pcs[t] != Idle
    ensures var s := states[k];
      || (u in s.pcs && s.pcs[u] == Idle && Inside(s, u))
      || (Enabled(s, u, op) && s.pcs[u] != Idle && Act(s, u, op) != s)
  {
    var s := states[k];
    RunKeepsInvariant(states, k);
    assert PhaseFits(s, t) && ThreadFits(s, t);
    op := Locking;
    if s.pcs[t].Spin? && s.phase != 2 {
      u :| u in s.pcs && Initialising(s.pcs[u]);
    } else if s.pcs[t] == Enter && s.holder != Nobody && s.holder.id != t {
      u := s.holder.id;
      assert ThreadFits(s, u) && PhaseFits(s, u);
    } else {
      u := t;
    }
  }
}

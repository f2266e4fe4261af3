// Fork-style death tests as a two-process protocol: a parent that forks, reads
// one status byte from a pipe and judges, and a child that runs the statement.
module DeathTestProtocol {
  import opened Prelude

  // Why Abort was called in the child.
  datatype AbortReason = EncounteredReturn | ThrewException | DidNotDie

  datatype Outcome = InProgress | Died | Lived | Returned | Threw

  // The byte Abort writes for each reason.
  function StatusByte(reason: AbortReason): char {
    match reason
    case DidNotDie => 'L'
    case ThrewException => 'T'
    case EncounteredReturn => 'R'
  }

  // A system call failed, or a byte other than L, R or T arrived.
  datatype Failure = SystemCall | InternalErrorByte | UnexpectedByte

  datatype ParentPc =
    | AtPipe | AtFork | AtCloseWrite   // AssumeRole
    | AtRead | AtCloseRead | AtWaitPid // Wait
    | AtPassed | Finished(passed: bool)
    | ParentAborted(why: Failure)

  datatype ChildPc =
    | Unborn
    | AtCloseReadEnd                   // AssumeRole
    | Executing                        // the statement
    | AtWrite(reason: AbortReason)     // Abort
    | AtExit
    | Ended(status: int)

  datatype State = State(
    parent: ParentPc,
    child: ChildPc,
    // The pipe: its contents and which descriptors are open.
    pipe: seq<char>,
    parentReads: bool, parentWrites: bool,
    childReads: bool, childWrites: bool,
    // The parent's DeathTestImpl.
    spawned: bool,
    status: int,
    outcome: Outcome,
    // History: the reason whose byte was written, if any.
    wrote: Option<AbortReason>)

  ghost predicate Init(s: State) {
    && s.parent == AtPipe && s.child == Unborn && s.pipe == []
    && !s.parentReads && !s.parentWrites && !s.childReads && !s.childWrites
    && !s.spawned && s.status == -1 && s.outcome == InProgress && s.wrote == None
  }

  // How a system call ends; an interrupted one is tried again.
  datatype Call = Ok | Interrupted | Failed

  datatype Event =
    | Pipe(call: Call)
    | Fork(call: Call)
    | CloseWrite(call: Call)
    | Read(call: Call)
    | CloseRead(call: Call)
    | WaitPid(call: Call)
    | Passed(accepts: int -> bool, stderrMatches: bool)   // judging by a predicate on the exit status
    | ChildCloseRead(call: Call)
    | ChildDies(killStatus: int)       // the statement dies, or a signal kills the child at any point
    | ChildAborts(reason: AbortReason)
    | ChildWrite(call: Call)
    | ChildExit

  predicate Enabled(s: State, e: Event) {
    match e
    case Pipe(c) => s.parent == AtPipe && c != Interrupted
    case Fork(c) => s.parent == AtFork && c != Interrupted
    case CloseWrite(_) => s.parent == AtCloseWrite
    // read blocks while the pipe is empty and some write end is open
    case Read(c) => s.parent == AtRead && (c == Ok ==> s.pipe != [] || (!s.parentWrites && !s.childWrites))
    case CloseRead(_) => s.parent == AtCloseRead
    // waitpid blocks until the child has ended
    case WaitPid(c) => s.parent == AtWaitPid && (c == Ok ==> s.child.Ended?)
    case Passed(_, _) => s.parent == AtPassed
    case ChildCloseRead(_) => s.child == AtCloseReadEnd
    case ChildDies(_) => !s.child.Unborn? && !s.child.Ended?
    case ChildAborts(_) => s.child == Executing
    case ChildWrite(_) => s.child.AtWrite?
    case ChildExit => s.child == AtExit
  }

  // The status of a process that ended by abort() after a failed check.
  const ABORTED: int := 134

  // A child that ends closes all its descriptors.
  function ChildEnds(s: State, status: int): State {
    s.(child := Ended(status), childReads := false, childWrites := false)
  }

  function Interpret(s: State): State {
    if s.pipe == [] then s.(outcome := Died, parent := AtCloseRead)
    else
      var s' := s.(pipe := s.pipe[1..]);
      match s.pipe[0]
      case 'R' => s'.(outcome := Returned, parent := AtCloseRead)
      case 'T' => s'.(outcome := Threw, parent := AtCloseRead)
      case 'L' => s'.(outcome := Lived, parent := AtCloseRead)
      case 'I' => s'.(parent := ParentAborted(InternalErrorByte))
      case _ => s'.(parent := ParentAborted(UnexpectedByte))
  }

  function Act(s: State, e: Event): State
    requires Enabled(s, e)
  {
    match e
    case Pipe(Ok) => s.(parent := AtFork, parentReads := true, parentWrites := true)
    case Fork(Ok) =>
      s.(parent := AtCloseWrite, child := AtCloseReadEnd, childReads := s.parentReads, childWrites := s.parentWrites)
    case CloseWrite(Ok) => s.(parent := AtRead, parentWrites := false, spawned := true)
    case Read(Ok) => Interpret(s)
    case CloseRead(Ok) => s.(parent := AtWaitPid, parentReads := false)
    case WaitPid(Ok) => s.(parent := AtPassed, status := if s.child.Ended? then s.child.status else s.status)
    case Passed(accepts, matches) =>
      s.(parent := Finished(s.spawned && s.outcome == Died && accepts(s.status) && matches))
    case ChildCloseRead(Ok) => s.(child := Executing, childReads := false)
    case ChildDies(status) => ChildEnds(s, status)
    case ChildAborts(reason) => s.(child := AtWrite(reason))
    case ChildWrite(Ok) =>
      s.(child := AtExit, pipe := s.pipe + [StatusByte(s.child.reason)], wrote := Some(s.child.reason))
    case ChildExit => ChildEnds(s, 1)
    // An interrupted call is made again.
    case Pipe(Interrupted) | Fork(Interrupted) | CloseWrite(Interrupted) | Read(Interrupted) | CloseRead(Interrupted)
      | WaitPid(Interrupted) | ChildCloseRead(Interrupted) | ChildWrite(Interrupted) => s
    // In a fork-style child a failed check prints to stderr and aborts.
    case ChildCloseRead(Failed) | ChildWrite(Failed) => ChildEnds(s, ABORTED)
    case Pipe(Failed) | Fork(Failed) | CloseWrite(Failed) | Read(Failed) | CloseRead(Failed) | WaitPid(Failed) =>
      s.(parent := ParentAborted(SystemCall))
  }

  ghost predicate Run(states: seq<State>, events: seq<Event>) {
    && |states| == |events| + 1 && Init(states[0])
    && forall k :: 0 <= k < |events| ==> Enabled(states[k], events[k]) && states[k + 1] == Act(states[k], events[k])
  }

  // ---------------------------------------------------------------- invariant

  predicate BeforeRead(pc: ParentPc) {
    pc.AtPipe? || pc.AtFork? || pc.AtCloseWrite? || pc.AtRead?
  }

  predicate AfterRead(pc: ParentPc) {
    pc.AtCloseRead? || pc.AtWaitPid? || pc.AtPassed? || pc.Finished?
  }

  // What the outcome of a concluded test must be.
  function OutcomeOf(wrote: Option<AbortReason>): Outcome {
    match wrote
    case None => Died
    case Some(DidNotDie) => Lived
    case Some(ThrewException) => Threw
    case Some(EncounteredReturn) => Returned
  }

  // Which descriptors the parent has open when.
  ghost predicate ParentFits(s: State) {
    && (s.parentWrites ==> s.parent.AtFork? || s.parent.AtCloseWrite? || s.parent.ParentAborted?)
    && (s.parent.AtFork? ==> s.parentWrites)
    && (s.parentReads ==> !s.parent.AtPipe? && !s.parent.AtWaitPid? && !s.parent.AtPassed? && !s.parent.Finished?)
    && (s.spawned ==> !s.parent.AtPipe? && !s.parent.AtFork? && !s.parent.AtCloseWrite?)
    && (s.parent.AtRead? || AfterRead(s.parent) ==> s.spawned)
  }

  // A living child, and only that, has the write end open.
  ghost predicate ChildFits(s: State) {
    && (s.child.Unborn? || s.child.Ended? <==> !s.childWrites)
    && (s.child.Unborn? ==> s.parent.AtPipe? || s.parent.AtFork? || s.parent.ParentAborted?)
    && (s.parent.AtPipe? || s.parent.AtFork? ==> s.child.Unborn?)
  }

  // A byte is in the pipe from its writing to its reading, and only one is written.
  ghost predicate PipeFits(s: State) {
    && (s.wrote.None? ==> s.pipe == [])
    && (s.wrote.Some? && BeforeRead(s.parent) ==> s.pipe == [StatusByte(s.wrote.value)])
    && (s.wrote.Some? ==> s.child.AtExit? || s.child.Ended?)
    && (s.child.AtExit? ==> s.wrote.Some?)
  }

  // What the parent has concluded.
  ghost predicate OutcomeFits(s: State) {
    && (BeforeRead(s.parent) ==> s.outcome == InProgress)
    && (AfterRead(s.parent) ==> s.outcome == OutcomeOf(s.wrote) && (s.outcome == Died ==> s.child.Ended?))
    && (s.parent.AtPassed? || s.parent.Finished? ==> s.child.Ended? && s.status == s.child.status)
    && (s.parent.ParentAborted? ==> s.parent.why == SystemCall)
    && (s.parent.Finished? && s.parent.passed ==> s.outcome == Died)
  }

  ghost predicate Invariant(s: State) {
    ParentFits(s) && ChildFits(s) && PipeFits(s) && OutcomeFits(s)
  }

  lemma ActKeepsParent(s: State, e: Event)
    requires ParentFits(s) && Enabled(s, e)
    ensures ParentFits(Act(s, e))
  {
  }

  lemma ActKeepsChild(s: State, e: Event)
    requires ParentFits(s) && ChildFits(s) && Enabled(s, e)
    ensures ChildFits(Act(s, e))
  {
  }

  lemma ActKeepsPipe(s: State, e: Event)
    requires Invariant(s) && Enabled(s, e)
    ensures PipeFits(Act(s, e))
  {
  }

  lemma ActKeepsOutcome(s: State, e: Event)
    requires Invariant(s) && Enabled(s, e)
    ensures OutcomeFits(Act(s, e))
  {
  }

  lemma ActKeepsInvariant(s: State, e: Event)
    requires Invariant(s) && Enabled(s, e)
    ensures Invariant(Act(s, e))
  {
    hide Act, Enabled, ParentFits, ChildFits, PipeFits, OutcomeFits;
    ActKeepsParent(s, e);
    ActKeepsChild(s, e);
    ActKeepsPipe(s, e);
    ActKeepsOutcome(s, e);
  }

  lemma {:induction false} RunKeepsInvariant(states: seq<State>, events: seq<Event>, k: nat)
    requires Run(states, events) && k < |states|
    ensures Invariant(states[k])
  {
    if k == 0 {
    } else {
      RunKeepsInvariant(states, events, k - 1);
      ActKeepsInvariant(states[k - 1], events[k - 1]);
    }
  }

  // ---------------------------------------------------------------- theorems

  // Once the parent has read, the outcome says exactly what the child did: DIED
  // if and only if it ended without writing a byte, otherwise the reason given to Abort.
  lemma OutcomeIsExact(states: seq<State>, events: seq<Event>, k: nat)
    requires Run(states, events) && k < |states| && AfterRead(states[k].parent)
    ensures states[k].outcome == Died <==> states[k].child.Ended? && states[k].wrote == None
    ensures states[k].outcome == Lived <==> states[k].wrote == Some(DidNotDie)
    ensures states[k].outcome == Threw <==> states[k].wrote == Some(ThrewException)
    ensures states[k].outcome == Returned <==> states[k].wrote == Some(EncounteredReturn)
  {
    RunKeepsInvariant(states, events, k);
  }

  // A child that has ended cannot leave the parent blocked: neither in read nor in waitpid.
  lemma ParentNeverBlocks(states: seq<State>, events: seq<Event>, k: nat)
    requires Run(states, events) && k < |states| && states[k].child.Ended?
    ensures states[k].parent == AtRead ==> Enabled(states[k], Read(Ok)) && AfterRead(Act(states[k], Read(Ok)).parent)
    ensures states[k].parent == AtWaitPid ==> Enabled(states[k], WaitPid(Ok))
  {
    RunKeepsInvariant(states, events, k);
  }

  // The parent gives up only when a system call fails: no unknown byte ever arrives.
  lemma NoUnknownByte(states: seq<State>, events: seq<Event>, k: nat)
    requires Run(states, events) && k < |states| && states[k].parent.ParentAborted?
    ensures states[k].parent.why == SystemCall
  {
    RunKeepsInvariant(states, events, k);
  }

  // The verdict: passed if and only if the child died without a status byte, the
  // predicate accepts the status the child really ended with, and its stderr matched.
  lemma VerdictIsExact(states: seq<State>, events: seq<Event>, k: nat)
    requires Run(states, events) && k < |events| && events[k].Passed?
    ensures
      var s, s' := states[k], states[k + 1];
      && s'.parent.Finished? && s.spawned && s.child.Ended? && s.status == s.child.status && !s.parentReads
      && (s'.parent.passed <==> s.wrote == None && events[k].accepts(s.child.status) && events[k].stderrMatches)
  {
    RunKeepsInvariant(states, events, k);
  }

  // ---------------------------------------------------------------- what happened

  // The byte for each reason, and what is left when the child ends.
  lemma ChildActs(s: State, e: Event)
    requires Enabled(s, e)
    ensures e == ChildWrite(Ok) && s.child.reason == DidNotDie ==> Act(s, e).pipe == s.pipe + "L"
    ensures e == ChildWrite(Ok) && s.child.reason == ThrewException ==> Act(s, e).pipe == s.pipe + "T"
    ensures e == ChildWrite(Ok) && s.child.reason == EncounteredReturn ==> Act(s, e).pipe == s.pipe + "R"
    ensures e == ChildExit ==> Act(s, e).child == Ended(1)
    ensures e.ChildDies? ==> Act(s, e).child == Ended(e.killStatus)
    ensures e.ChildAborts? ==> Act(s, e).child == AtWrite(e.reason)
  {
  }

  lemma HistoryStep(s: State, e: Event)
    requires Invariant(s) && Enabled(s, e)
    ensures var s' := Act(s, e);
      && (if e == ChildWrite(Ok) then s.child.AtWrite? && s'.wrote == Some(s.child.reason) else s'.wrote == s.wrote)
      && (if e.ChildAborts? then s.child == Executing && s.wrote.None? && s'.child == AtWrite(e.reason)
          else s'.child.AtWrite? ==> s'.child == s.child)
      && (s.child.AtWrite? ==> s'.child == s.child || s'.wrote == Some(s.child.reason) || s'.child.Ended?)
      && (s.child.Ended? ==> s'.child == s.child)
      && (s.wrote.Some? ==> s'.wrote == s.wrote && !s.child.AtWrite?)
      && (s.child.AtWrite? ==> s.wrote.None?)
  {
  }

  // What the child gave as a reason, and whether it wrote it, is what its events say.
  lemma {:induction false} HistoryFits(states: seq<State>, events: seq<Event>, k: nat)
    requires Run(states, events) && k < |states|
    ensures states[k].wrote.Some? <==> exists j :: 0 <= j < k && events[j] == ChildWrite(Ok)
    ensures forall i :: 0 <= i < k && events[i].ChildAborts? ==>
      || states[k].child == AtWrite(events[i].reason) || states[k].wrote == Some(events[i].reason)
      || (states[k].wrote.None? && states[k].child.Ended?)
    ensures states[k].child.AtWrite? ==> exists i :: 0 <= i < k && events[i] == ChildAborts(states[k].child.reason)
    ensures states[k].wrote.Some? ==> exists i :: 0 <= i < k && events[i] == ChildAborts(states[k].wrote.value)
  {
    hide Invariant, Enabled, Act;
    if k == 0 {
    } else {
      RunKeepsInvariant(states, events, k - 1);
      HistoryFits(states, events, k - 1);
      HistoryStep(states[k - 1], events[k - 1]);
    }
  }

  // The outcome against the events: LIVED, THREW or RETURNED if and only if the
  // child was made to abort for that reason and its write succeeded; DIED if and
  // only if no write succeeded.
  lemma OutcomeTellsWhatHappened(states: seq<State>, events: seq<Event>, k: nat)
    requires Run(states, events) && k < |states| && AfterRead(states[k].parent)
    ensures
      var outcome := states[k].outcome;
      var wrote := exists j :: 0 <= j < k && events[j] == ChildWrite(Ok);
      && (outcome == Died <==> !wrote)
      && (outcome == Lived <==> wrote && exists i :: 0 <= i < k && events[i] == ChildAborts(DidNotDie))
      && (outcome == Threw <==> wrote && exists i :: 0 <= i < k && events[i] == ChildAborts(ThrewException))
      && (outcome == Returned <==> wrote && exists i :: 0 <= i < k && events[i] == ChildAborts(EncounteredReturn))
  {
    RunKeepsInvariant(states, events, k);
    HistoryFits(states, events, k);
    OutcomeIsExact(states, events, k);
    hide Invariant, Run;
  }

  // ---------------------------------------------------------------- a run

  // A child killed by a signal before it writes, a closing call interrupted once.
  ghost function KilledEvents(): seq<Event> {
    [Pipe(Ok), Fork(Ok), CloseWrite(Interrupted), CloseWrite(Ok), ChildCloseRead(Ok), ChildDies(9),
     Read(Ok), CloseRead(Ok), WaitPid(Ok), Passed(status => status == 9, true)]
  }

  ghost function KilledStates(): seq<State> {
    [State(AtPipe, Unborn, [], false, false, false, false, false, -1, InProgress, None),
     State(AtFork, Unborn, [], true, true, false, false, false, -1, InProgress, None),
     State(AtCloseWrite, AtCloseReadEnd, [], true, true, true, true, false, -1, InProgress, None),
     State(AtCloseWrite, AtCloseReadEnd, [], true, true, true, true, false, -1, InProgress, None),
     State(AtRead, AtCloseReadEnd, [], true, false, true, true, true, -1, InProgress, None),
     State(AtRead, Executing, [], true, false, false, true, true, -1, InProgress, None),
     State(AtRead, Ended(9), [], true, false, false, false, true, -1, InProgress, None),
     State(AtCloseRead, Ended(9), [], true, false, false, false, true, -1, Died, None),
     State(AtWaitPid, Ended(9), [], false, false, false, false, true, -1, Died, None),
     State(AtPassed, Ended(9), [], false, false, false, false, true, 9, Died, None),
     State(Finished(true), Ended(9), [], false, false, false, false, true, 9, Died, None)]
  }

  ghost predicate Moves(k: nat)
    requires k < 10
  {
    Enabled(KilledStates()[k], KilledEvents()[k]) && KilledStates()[k + 1] == Act(KilledStates()[k], KilledEvents()[k])
  }

  lemma KilledStarts()
    ensures Moves(0) && Moves(1) && Moves(2)
  {
  }

  lemma KilledDies()
    ensures Moves(3) && Moves(4) && Moves(5)
  {
  }

  lemma KilledIsRead()
    ensures Moves(6) && Moves(7)
  {
  }

  lemma KilledIsJudged()
    ensures Moves(8) && Moves(9)
  {
  }

  // It passes if that is the status asked for.
  lemma KilledChildPasses()
    ensures Run(KilledStates(), KilledEvents())
    ensures KilledStates()[10].parent == Finished(true)
  {
    KilledStarts();
    KilledDies();
    KilledIsRead();
    KilledIsJudged();
    hide Enabled, Act;
    forall k | 0 <= k < 10
      ensures Moves(k)
    {
    }
  }
}

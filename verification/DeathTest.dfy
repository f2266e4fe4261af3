// The parent's and the child's side of a fork-style death test as the code runs
// it, each system call taking the steps of DeathTestProtocol.
module DeathTest {
  import opened DeathTestProtocol
  import opened Prelude

  // The outcomes of a system call that is made again while it is interrupted.
  predicate Retried(calls: seq<Call>) {
    && calls != [] && calls[|calls| - 1] != Interrupted
    && forall k :: 0 <= k < |calls| - 1 ==> calls[k] == Interrupted
  }

  // What a successful read returns: nothing at the end of the file.
  function ReadByte(s: State): Option<char> {
    if s.pipe == [] then None else Some(s.pipe[0])
  }

  // The parent has done nothing from s to t; the child may have.
  predicate ParentWaits(s: State, t: State) {
    && s.parent == t.parent && s.spawned == t.spawned && s.status == t.status && s.outcome == t.outcome
    && s.parentReads == t.parentReads && s.parentWrites == t.parentWrites
  }

  // The macro around a system call: whether it was made in the end.
  method Syscall(calls: seq<Call>) returns (ok: bool)
    requires Retried(calls)
    ensures ok <==> calls[|calls| - 1] == Ok
  {
    var k := 0;
    while calls[k] == Interrupted
      invariant k < |calls|
      decreases |calls| - k
    {
      k := k + 1;
    }
    ok := calls[k] == Ok;
  }

  // The only bytes ever read are those Abort writes.
  lemma ByteIsKnown(s: State)
    requires Invariant(s) && s.parent == AtRead
    ensures ReadByte(s) in {None, Some('L'), Some('T'), Some('R')}
  {
  }

  lemma SpawnedWhenReading(s: State)
    requires Invariant(s) && s.parent == AtRead
    ensures s.spawned
  {
  }

  class DeathTestImpl {
    var spawned: bool
    var status: int
    var outcome: Outcome
    var readFd: int

    constructor ()
      ensures !spawned && status == -1 && outcome == InProgress && readFd == -1
    {
      spawned, status, outcome, readFd := false, -1, InProgress, -1;
    }

    // The object agrees with the parent's side of the protocol.
    ghost predicate Represents(s: State)
      reads this
    {
      && spawned == s.spawned && status == s.status && outcome == s.outcome
      && (readFd != -1 <==> s.spawned && s.parentReads)
    }

    // The parent's branch of AssumeRole: a pipe, a child, and the write end closed.
    method AssumeRole(pipe: Call, fork: Call, closes: seq<Call>, fd: nat, ghost s: State, ghost t: State)
      returns (failed: bool)
      requires Invariant(s) && s.parent == AtPipe && Represents(s)
      requires pipe != Interrupted && fork != Interrupted && Retried(closes)
      requires pipe == Ok && fork == Ok ==> Invariant(t) && ParentWaits(Act(Act(s, Pipe(Ok)), Fork(Ok)), t)
      modifies this
      ensures failed <==> pipe == Failed || fork == Failed || closes[|closes| - 1] == Failed
      ensures !failed ==> Represents(Act(t, CloseWrite(Ok)))
      ensures failed ==> unchanged(this)
    {
      if pipe == Failed {
        return true;
      }
      if fork == Failed {
        return true;
      }
      var closed := Syscall(closes);
      if !closed {
        return true;
      }
      readFd := fd;
      spawned := true;
      failed := false;
    }

    // s: the state in which read succeeds, with the byte it returns there; t: in which the pipe is closed.
    method ReadAndInterpretStatusByte(readCalls: seq<Call>, flag: Option<char>, closes: seq<Call>,
                                      ghost s: State, ghost t: State)
      returns (why: Option<Failure>)
      requires Invariant(s) && s.parent == AtRead && Represents(s)
      requires Retried(readCalls) && Retried(closes)
      requires readCalls[|readCalls| - 1] == Ok ==>
        Enabled(s, Read(Ok)) && flag == ReadByte(s) && ParentWaits(Act(s, Read(Ok)), t)
      modifies this
      ensures why.Some? <==> readCalls[|readCalls| - 1] == Failed || closes[|closes| - 1] == Failed
      ensures why.Some? ==> why.value == SystemCall
      ensures why.None? ==> t.parent == AtCloseRead && Represents(Act(t, CloseRead(Ok)))
    {
      var read := Syscall(readCalls);
      if !read {
        return Some(SystemCall);
      }
      ByteIsKnown(s);
      match flag {
        case None => outcome := Died;
        case Some('R') => outcome := Returned;
        case Some('T') => outcome := Threw;
        case Some('L') => outcome := Lived;
        case Some('I') => return Some(InternalErrorByte);
        case Some(_) => return Some(UnexpectedByte);
      }
      var closed := Syscall(closes);
      if !closed {
        return Some(SystemCall);
      }
      readFd := -1;
      why := None;
    }

    // Waits for the child and returns its exit status.  u: the state in which waitpid succeeds.
    method Wait(readCalls: seq<Call>, flag: Option<char>, closes: seq<Call>, waits: seq<Call>, statusValue: int,
                ghost s: State, ghost t: State, ghost u: State)
      returns (r: int, why: Option<Failure>)
      requires Invariant(s) && s.parent == AtRead && Represents(s)
      requires Retried(readCalls) && Retried(closes) && Retried(waits)
      requires readCalls[|readCalls| - 1] == Ok ==>
        Enabled(s, Read(Ok)) && flag == ReadByte(s) && ParentWaits(Act(s, Read(Ok)), t)
      requires t.parent == AtCloseRead ==> ParentWaits(Act(t, CloseRead(Ok)), u)
      requires waits[|waits| - 1] == Ok ==> u.child == Ended(statusValue)
      modifies this
      ensures why.None? <==> readCalls[|readCalls| - 1] == closes[|closes| - 1] == waits[|waits| - 1] == Ok
      ensures why.Some? ==> why.value == SystemCall
      ensures why.None? ==> u.parent == AtWaitPid && Represents(Act(u, WaitPid(Ok))) && r == status == statusValue
    {
      SpawnedWhenReading(s);
      if !spawned {
        return 0, None;
      }
      why := ReadAndInterpretStatusByte(readCalls, flag, closes, s, t);
      if why.Some? {
        return 0, why;
      }
      var waited := Syscall(waits);
      if !waited {
        return 0, Some(SystemCall);
      }
      status := statusValue;
      r := statusValue;
    }

    // Called in the child: writes a status byte and exits with status 1, or aborts if it cannot write.
    method Abort(reason: AbortReason, writes: seq<Call>, ghost s: State) returns (written: seq<char>, exitStatus: int)
      requires Retried(writes) && s.child == AtWrite(reason)
      ensures writes[|writes| - 1] == Ok ==>
        var t := Act(s, ChildWrite(Ok));
        && t.pipe == s.pipe + written && t.wrote == Some(reason)
        && Enabled(t, ChildExit) && Act(t, ChildExit).child == Ended(exitStatus)
      ensures writes[|writes| - 1] == Failed ==>
        && written == [] && Act(s, ChildWrite(Failed)).child == Ended(exitStatus)
    {
      var statusCh := if reason == DidNotDie then 'L' else if reason == ThrewException then 'T' else 'R';
      var ok := Syscall(writes);
      if !ok {
        return [], ABORTED;
      }
      return [statusCh], 1;
    }

    // The verdict; None stands for the abort when the test has not been concluded.
    method Passed(statusOk: bool, stderrMatches: bool) returns (success: Option<bool>)
      ensures success == if !spawned then Some(false)
                         else if outcome == InProgress then None
                         else Some(outcome == Died && statusOk && stderrMatches)
      ensures forall s, accepts: int -> bool ::
        Represents(s) && Invariant(s) && s.parent == AtPassed && accepts(s.child.status) == statusOk ==>
          success == Some(Act(s, DeathTestProtocol.Passed(accepts, stderrMatches)).parent.passed)
    {
      if !spawned {
        return Some(false);
      }
      var ok := false;
      match outcome {
        case Lived => ok := false;
        case Threw => ok := false;
        case Returned => ok := false;
        case Died =>
          if statusOk {
            if stderrMatches {
              ok := true;
            }
          }
        case InProgress => return None;
      }
      success := Some(ok);
    }
  }
}

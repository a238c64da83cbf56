/** The parent and the child of cygwin/examples/test3.c and the pipe between them,
    as a transition system: every interleaving of their system calls, with short
    writes, short reads, interrupted calls and failing calls. */
module Pipe {
  import opened Arithmetic
  import opened Bytes

  const CHILD_BUFFER := 128

  datatype ParentPc =
    | ClosingRead              // about to close the read end
    | Writing(total: nat)      // in the write loop with total_written
    | ClosingWrite             // about to close the write end
    | Waiting                  // in waitpid
    | Exited(success: bool)
    | Killed                   // by SIGPIPE

  datatype ChildPc =
    | ClosingWrite
    | Reading                  // in the read loop
    | ClosingRead              // has its result, about to close the read end
    | Exited(success: bool)

  /** Who holds which end, the bytes in the pipe, what the child has read, and, as
      history, how many bytes the parent has written. */
  datatype State = State(
    parent: ParentPc,
    child: ChildPc,
    parentReads: bool,
    parentWrites: bool,
    childReads: bool,
    childWrites: bool,
    pipe: seq<Byte>,
    received: seq<Byte>,
    written: nat
  )

  /** The message and the capacity of the pipe. */
  datatype Config = Config(message: seq<Byte>, capacity: nat)

  datatype Step =
    | ParentCloseRead(ok: bool)
    | ParentWrite(count: nat)
    | ParentLeaveLoop
    | ParentCloseWrite(ok: bool)
    | ParentReap
    | ChildCloseWrite(ok: bool)
    | ChildRead(count: nat)
    | ChildReadEof
    | ChildCloseRead(ok: bool)
    | ParentBrokenPipe         // SIGPIPE: nobody can read what is written
    | ParentWriteFails         // write returns 0, or -1 without EINTR
    | ParentWaitFails
    | ChildReadFails
    | ParentWriteInterrupted   // EINTR
    | ChildReadInterrupted

  /** After fork both processes hold both ends. */
  function Init(): State {
    State(ParentPc.ClosingRead, ChildPc.ClosingWrite, true, true, true, true, [], [], 0)
  }

  predicate InWriteLoop(c: Config, s: State) {
    s.parent.Writing? && s.parent.total < |c.message|
  }

  predicate HasReader(s: State) {
    s.parentReads || s.childReads
  }

  predicate HasWriter(s: State) {
    s.parentWrites || s.childWrites
  }

  predicate Enabled(c: Config, s: State, step: Step) {
    match step
    case ParentCloseRead(_) => s.parent.ClosingRead?
    case ParentWrite(count) =>
      InWriteLoop(c, s) && HasReader(s) && 1 <= count <= |c.message| - s.parent.total
      && |s.pipe| + count <= c.capacity
    case ParentLeaveLoop => s.parent.Writing? && |c.message| <= s.parent.total
    case ParentCloseWrite(_) => s.parent.ClosingWrite?
    case ParentReap => s.parent.Waiting? && s.child.Exited?
    case ChildCloseWrite(_) => s.child.ClosingWrite?
    case ChildRead(count) => s.child.Reading? && 1 <= count <= Min(CHILD_BUFFER - 1, |s.pipe|)
    case ChildReadEof => s.child.Reading? && s.pipe == [] && !HasWriter(s)
    case ChildCloseRead(_) => s.child.ClosingRead?
    case ParentBrokenPipe => InWriteLoop(c, s) && !HasReader(s)
    case ParentWriteFails => InWriteLoop(c, s)
    case ParentWaitFails => s.parent.Waiting?
    case ChildReadFails => s.child.Reading?
    case ParentWriteInterrupted => InWriteLoop(c, s)
    case ChildReadInterrupted => s.child.Reading?
  }

  /** A process that ends gives up its descriptors. */
  function EndParent(s: State, pc: ParentPc): State {
    s.(parent := pc, parentReads := false, parentWrites := false)
  }

  function EndChild(s: State, pc: ChildPc): State {
    s.(child := pc, childReads := false, childWrites := false)
  }

  function Apply(c: Config, s: State, step: Step): State
    requires Enabled(c, s, step)
  {
    match step
    case ParentCloseRead(ok) =>
      if ok then s.(parent := Writing(0), parentReads := false) else EndParent(s, ParentPc.Exited(false))
    case ParentWrite(count) =>
      s.(parent := Writing(s.parent.total + count),
         written := s.written + count,
         pipe := s.pipe + c.message[s.parent.total..s.parent.total + count])
    case ParentLeaveLoop => s.(parent := ParentPc.ClosingWrite)
    case ParentCloseWrite(ok) =>
      if ok then s.(parent := Waiting, parentWrites := false) else EndParent(s, ParentPc.Exited(false))
    case ParentReap => EndParent(s, ParentPc.Exited(true))
    case ChildCloseWrite(ok) =>
      if ok then s.(child := Reading, childWrites := false) else EndChild(s, ChildPc.Exited(false))
    case ChildRead(count) =>
      s.(child := ChildPc.ClosingRead, pipe := s.pipe[count..], received := s.pipe[..count])
    case ChildReadEof => s.(child := ChildPc.ClosingRead)
    case ChildCloseRead(ok) => EndChild(s, ChildPc.Exited(ok))
    case ParentBrokenPipe => EndParent(s, Killed)
    case ParentWriteFails => EndParent(s, ParentPc.Exited(false))
    case ParentWaitFails => EndParent(s, ParentPc.Exited(false))
    case ChildReadFails => EndChild(s, ChildPc.Exited(false))
    case ParentWriteInterrupted => s
    case ChildReadInterrupted => s
  }

  ghost predicate Path(c: Config, s: State, steps: seq<Step>, t: State)
    decreases |steps|
  {
    if steps == [] then s == t
    else Enabled(c, s, steps[0]) && Path(c, Apply(c, s, steps[0]), steps[1..], t)
  }

  ghost predicate Reachable(c: Config, s: State) {
    1 <= c.capacity && exists steps :: Path(c, Init(), steps, s)
  }

  // ---- the invariant ----

  /** What the child has read and what the pipe holds are the bytes written so far. */
  ghost predicate Conserved(c: Config, s: State) {
    s.written <= |c.message| && s.received + s.pipe == c.message[..s.written]
  }

  ghost predicate ParentInv(c: Config, s: State) {
    match s.parent
    case ClosingRead => s.parentReads && s.parentWrites && s.written == 0
    case Writing(total) => !s.parentReads && s.parentWrites && s.written == total
    case ClosingWrite => !s.parentReads && s.parentWrites && s.written == |c.message|
    case Waiting => !s.parentReads && !s.parentWrites && s.written == |c.message|
    case Exited(success) =>
      !s.parentReads && !s.parentWrites && (success ==> s.child.Exited? && s.written == |c.message|)
    case Killed => !s.parentReads && !s.parentWrites
  }

  ghost predicate ChildInv(s: State) {
    match s.child
    case ClosingWrite => s.childReads && s.childWrites && s.received == []
    case Reading => s.childReads && !s.childWrites && s.received == []
    case ClosingRead => s.childReads && !s.childWrites
    case Exited(_) => !s.childReads && !s.childWrites
  }

  ghost predicate Inv(c: Config, s: State) {
    && 1 <= c.capacity
    && ParentInv(c, s)
    && ChildInv(s)
    && |s.pipe| <= c.capacity
    && |s.received| <= Min(CHILD_BUFFER - 1, c.capacity)
    && Conserved(c, s)
    // the child read end-of-file only if nothing was ever sent by a parent that is gone or done
    && (s.child.ClosingRead? && s.received == [] ==> s.pipe == [] && !s.parentWrites)
    && (s.child == ChildPc.Exited(true) && s.received == [] ==> s.pipe == [] && !s.parentWrites)
  }

  lemma InitInv(c: Config)
    requires 1 <= c.capacity
    ensures Inv(c, Init())
  {
  }

  predicate ChangesChild(step: Step) {
    step.ChildCloseWrite? || step.ChildRead? || step.ChildReadEof? || step.ChildCloseRead? || step.ChildReadFails?
  }

  lemma ParentStepKeepsInv(c: Config, s: State, step: Step)
    requires Inv(c, s) && Enabled(c, s, step)
    requires !ChangesChild(step)
    ensures Inv(c, Apply(c, s, step))
  {
    if step.ParentWrite? {
      var total := s.parent.total;
      assert c.message[..total] + c.message[total..total + step.count] == c.message[..total + step.count];
    }
  }

  lemma ChildStepKeepsInv(c: Config, s: State, step: Step)
    requires Inv(c, s) && Enabled(c, s, step)
    requires ChangesChild(step)
    ensures Inv(c, Apply(c, s, step))
  {
    var s' := Apply(c, s, step);
    assert s'.received + s'.pipe == s.received + s.pipe;
  }

  lemma {:induction false} PathKeepsInv(c: Config, s: State, steps: seq<Step>, t: State)
    requires Inv(c, s) && Path(c, s, steps, t)
    ensures Inv(c, t)
    decreases |steps|
  {
    if steps != [] {
      var step := steps[0];
      if ChangesChild(step) {
        ChildStepKeepsInv(c, s, step);
      } else {
        ParentStepKeepsInv(c, s, step);
      }
      PathKeepsInv(c, Apply(c, s, step), steps[1..], t);
    }
  }

  lemma ReachableInv(c: Config, s: State)
    requires Reachable(c, s)
    ensures Inv(c, s)
  {
    InitInv(c);
    var steps :| Path(c, Init(), steps, s);
    PathKeepsInv(c, Init(), steps, s);
  }

  // ---- results ----

  /** Conservation, in every reachable state: what the parent has written is what the
      child has read followed by what is still in the pipe. The parent counts its
      writes correctly, waits only when all is written, and the child holds a prefix
      of the message with room for the terminating zero. */
  lemma BytesConserved(c: Config, s: State)
    requires Reachable(c, s)
    ensures s.written <= |c.message| && s.received + s.pipe == c.message[..s.written]
    ensures s.parent.Writing? ==> s.written == s.parent.total
    ensures s.parent.ClosingWrite? || s.parent.Waiting? || s.parent == ParentPc.Exited(true) ==>
              s.written == |c.message| && s.received + s.pipe == c.message
    ensures s.received <= c.message && |s.received| <= 127 && |s.pipe| <= c.capacity
  {
    ReachableInv(c, s);
    assert s.received == (s.received + s.pipe)[..|s.received|];
  }

  /** The child waits in read: nothing in the pipe, and somebody could still write. */
  predicate ChildBlocked(s: State) {
    s.child.Reading? && s.pipe == [] && HasWriter(s)
  }

  /** The parent waits in write: the pipe is full, and somebody could still read. */
  predicate ParentBlockedInWrite(c: Config, s: State) {
    InWriteLoop(c, s) && HasReader(s) && c.capacity <= |s.pipe|
  }

  predicate ParentBlockedInWait(s: State) {
    s.parent.Waiting? && !s.child.Exited?
  }

  predicate ParentEnded(s: State) {
    s.parent.Exited? || s.parent.Killed?
  }

  /** Neither failed calls nor interruptions. */
  predicate Ordinary(step: Step) {
    match step
    case ParentCloseRead(ok) => ok
    case ParentCloseWrite(ok) => ok
    case ChildCloseWrite(ok) => ok
    case ChildCloseRead(ok) => ok
    case ParentWriteFails => false
    case ParentWaitFails => false
    case ChildReadFails => false
    case ParentWriteInterrupted => false
    case ChildReadInterrupted => false
    case _ => true
  }

  /** Closing the unused ends works: the child never waits for data while the parent
      waits for it, in waitpid or on a full pipe. */
  lemma NeverBothBlocked(c: Config, s: State)
    requires Reachable(c, s)
    ensures !(ChildBlocked(s) && (ParentBlockedInWait(s) || ParentBlockedInWrite(c, s)))
    ensures ChildBlocked(s) ==> s.parentWrites && !s.childWrites
  {
    ReachableInv(c, s);
  }

  lemma NextStep(c: Config, s: State) returns (step: Step)
    requires Inv(c, s) && !(ParentEnded(s) && s.child.Exited?)
    ensures Enabled(c, s, step) && Ordinary(step)
  {
    if s.child.ClosingWrite? {
      step := ChildCloseWrite(true);
    } else if s.child.ClosingRead? {
      step := ChildCloseRead(true);
    } else if s.child.Reading? && s.pipe != [] {
      step := ChildRead(1);
    } else if s.child.Reading? && !s.parentWrites {
      step := ChildReadEof;
    } else {
      match s.parent {
        case ClosingRead => step := ParentCloseRead(true);
        case Writing(total) =>
          if |c.message| <= total {
            step := ParentLeaveLoop;
          } else if s.childReads {
            step := ParentWrite(1);
          } else {
            step := ParentBrokenPipe;
          }
        case ClosingWrite => step := ParentCloseWrite(true);
        case _ => step := ParentReap;
      }
    }
  }

  /** No deadlock: until both processes have ended, some call can go on without an
      error or an interruption. */
  lemma DeadlockFree(c: Config, s: State)
    requires Reachable(c, s) && !(ParentEnded(s) && s.child.Exited?)
    ensures exists step :: Enabled(c, s, step) && Ordinary(step)
  {
    ReachableInv(c, s);
    var step := NextStep(c, s);
  }

  ghost predicate BothSucceed(c: Config, t: State) {
    Reachable(c, t) && t.parent == ParentPc.Exited(true) && t.child == ChildPc.Exited(true)
  }

  /** When both processes report success, the child has read at least one byte of a
      message that is not empty; it has read end-of-file only for an empty one. */
  lemma SuccessMeansData(c: Config, s: State)
    requires BothSucceed(c, s)
    ensures s.received <= c.message
    ensures s.received == [] <==> c.message == []
    ensures s.received == c.message <==> s.pipe == []
  {
    ReachableInv(c, s);
    BytesConserved(c, s);
  }

  /** The parent is killed by SIGPIPE only after the child has gone. */
  lemma BrokenPipeOnlyAfterChild(c: Config, s: State)
    requires Reachable(c, s) && Enabled(c, s, ParentBrokenPipe)
    ensures s.child.Exited?
  {
    ReachableInv(c, s);
  }

  // ---- what the calls may answer ----

  /** The parent's program text from call to call: a close may fail, a write may take
      any part of the rest for which there is room, be interrupted, fail or kill the
      writer of a pipe without reader, and waitpid answers when the child has ended or
      fails; whatever the child's status, the parent then succeeds. */
  ghost predicate ParentCalls(c: Config, s: State, t: State) {
    match s.parent
    case ClosingRead =>
      || t == s.(parent := Writing(0), parentReads := false)
      || t == s.(parent := ParentPc.Exited(false), parentReads := false, parentWrites := false)
    case Writing(total) =>
      if total >= |c.message| then
        t == s.(parent := ParentPc.ClosingWrite)
      else
        || (exists n :: TakesBytes(c, s, t, n))
        || t == s
        || t == s.(parent := ParentPc.Exited(false), parentReads := false, parentWrites := false)
        || (!s.parentReads && !s.childReads
            && t == s.(parent := Killed, parentReads := false, parentWrites := false))
    case ClosingWrite =>
      || t == s.(parent := Waiting, parentWrites := false)
      || t == s.(parent := ParentPc.Exited(false), parentReads := false, parentWrites := false)
    case Waiting =>
      || (s.child.Exited?
          && t == s.(parent := ParentPc.Exited(true), parentReads := false, parentWrites := false))
      || t == s.(parent := ParentPc.Exited(false), parentReads := false, parentWrites := false)
    case Exited(_) => false
    case Killed => false
  }

  /** A write of `n` bytes. */
  ghost predicate TakesBytes(c: Config, s: State, t: State, n: int) {
    && s.parent.Writing? && (s.parentReads || s.childReads)
    && 1 <= n <= |c.message| - s.parent.total && |s.pipe| + n <= c.capacity
    && t == s.(parent := Writing(s.parent.total + n), written := s.written + n,
               pipe := s.pipe + c.message[s.parent.total..s.parent.total + n])
  }

  /** The child's: one read of at most 127 bytes, which waits for a byte or for the
      last writer to go, may be interrupted or fail, and is not repeated. */
  ghost predicate ChildCalls(s: State, t: State) {
    match s.child
    case ClosingWrite =>
      || t == s.(child := Reading, childWrites := false)
      || t == s.(child := ChildPc.Exited(false), childReads := false, childWrites := false)
    case Reading =>
      || (exists n :: GetsBytes(s, t, n))
      || (s.pipe == [] && !s.parentWrites && !s.childWrites && t == s.(child := ChildPc.ClosingRead))
      || t == s
      || t == s.(child := ChildPc.Exited(false), childReads := false, childWrites := false)
    case ClosingRead =>
      exists success :: t == s.(child := ChildPc.Exited(success), childReads := false, childWrites := false)
    case Exited(_) => false
  }

  ghost predicate GetsBytes(s: State, t: State, n: int) {
    && 1 <= n <= 127 && n <= |s.pipe|
    && t == s.(child := ChildPc.ClosingRead, pipe := s.pipe[n..], received := s.pipe[..n])
  }

  ghost predicate Leads(c: Config, s: State, step: Step, t: State) {
    Enabled(c, s, step) && Apply(c, s, step) == t
  }

  lemma WriteStep(c: Config, s: State, t: State) returns (step: Step)
    requires ParentCalls(c, s, t) && s.parent.Writing? && s.parent.total < |c.message|
    ensures Leads(c, s, step, t)
  {
    if n :| TakesBytes(c, s, t, n) {
      step := ParentWrite(n);
    } else {
      step := if t.parent.Killed? then ParentBrokenPipe
              else if t.parent.Exited? then ParentWriteFails else ParentWriteInterrupted;
    }
  }

  lemma ParentStep(c: Config, s: State, t: State) returns (step: Step)
    requires ParentCalls(c, s, t)
    ensures Leads(c, s, step, t)
  {
    match s.parent {
      case ClosingRead => step := ParentCloseRead(t.parent.Writing?);
      case Writing(total) =>
        if total >= |c.message| {
          step := ParentLeaveLoop;
        } else {
          step := WriteStep(c, s, t);
        }
      case ClosingWrite => step := ParentCloseWrite(t.parent.Waiting?);
      case Waiting => step := if t.parent.success then ParentReap else ParentWaitFails;
    }
  }

  lemma ChildStep(c: Config, s: State, t: State) returns (step: Step)
    requires ChildCalls(s, t)
    ensures Leads(c, s, step, t)
  {
    match s.child {
      case ClosingWrite => step := ChildCloseWrite(t.child.Reading?);
      case Reading =>
        if n :| GetsBytes(s, t, n) {
          step := ChildRead(n);
        } else {
          step := if t.child.ClosingRead? then ChildReadEof
                  else if t.child.Exited? then ChildReadFails else ChildReadInterrupted;
        }
      case ClosingRead => step := ChildCloseRead(t.child.success);
    }
  }

  lemma StepIsCall(c: Config, s: State, step: Step)
    requires Enabled(c, s, step)
    ensures if ChangesChild(step) || step.ChildReadInterrupted? then ChildCalls(s, Apply(c, s, step))
            else ParentCalls(c, s, Apply(c, s, step))
  {
    var t := Apply(c, s, step);
    if step.ParentWrite? {
      assert TakesBytes(c, s, t, step.count);
    } else if step.ChildRead? {
      assert GetsBytes(s, t, step.count);
    }
  }

  /** The steps of the system are these calls with these answers: no more, no less. */
  lemma StepsAreCalls(c: Config, s: State, t: State)
    ensures (exists step :: Leads(c, s, step, t)) <==> ParentCalls(c, s, t) || ChildCalls(s, t)
  {
    if step :| Leads(c, s, step, t) {
      StepIsCall(c, s, step);
    }
    if ParentCalls(c, s, t) {
      var step := ParentStep(c, s, t);
    } else if ChildCalls(s, t) {
      var step := ChildStep(c, s, t);
    }
  }

  /** From a reachable state every answer to every call leads to a reachable state. */
  lemma EveryAnswerOccurs(c: Config, s: State, t: State)
    requires Reachable(c, s) && (ParentCalls(c, s, t) || ChildCalls(s, t))
    ensures Reachable(c, t)
  {
    StepsAreCalls(c, s, t);
    var step :| Leads(c, s, step, t);
    var u := OneMore(c, s, step);
  }

  // ---- which messages arrive ----

  lemma {:induction false} PathSnoc(c: Config, s: State, steps: seq<Step>, t: State, step: Step)
    requires Path(c, s, steps, t) && Enabled(c, t, step)
    ensures Path(c, s, steps + [step], Apply(c, t, step))
    decreases |steps|
  {
    if steps == [] {
      assert Path(c, Apply(c, t, step), [], Apply(c, t, step));
    } else {
      PathSnoc(c, Apply(c, s, steps[0]), steps[1..], t, step);
      assert (steps + [step])[1..] == steps[1..] + [step];
    }
  }

  lemma OneMore(c: Config, s: State, step: Step) returns (t: State)
    requires Reachable(c, s) && Enabled(c, s, step)
    ensures Reachable(c, t) && t == Apply(c, s, step)
  {
    var steps :| Path(c, Init(), steps, s);
    t := Apply(c, s, step);
    PathSnoc(c, Init(), steps, s, step);
  }

  /** The parent has closed its read end and the child its write end. */
  lemma BothReady(c: Config) returns (s: State)
    requires 1 <= c.capacity
    ensures Reachable(c, s)
    ensures s == State(Writing(0), Reading, false, true, true, false, [], [], 0)
  {
    assert Path(c, Init(), [], Init());
    s := OneMore(c, Init(), ParentCloseRead(true));
    s := OneMore(c, s, ChildCloseWrite(true));
  }

  /** The parent writes `n` bytes, the child reads them, the parent writes the rest. */
  lemma WrittenAndRead(c: Config, n: nat) returns (s: State)
    requires 1 <= n <= Min(CHILD_BUFFER - 1, c.capacity) && n <= |c.message| <= c.capacity + n
    ensures Reachable(c, s) && s.received == c.message[..n]
    ensures s.parent == Writing(|c.message|) && s.child == ChildPc.ClosingRead
  {
    s := BothReady(c);
    s := OneMore(c, s, ParentWrite(n));
    assert s.pipe == c.message[..n];
    s := OneMore(c, s, ChildRead(n));
    assert s.received == c.message[..n];
    if n < |c.message| {
      s := OneMore(c, s, ParentWrite(|c.message| - n));
    }
  }

  lemma ParentDone(c: Config, s: State) returns (t: State)
    requires Reachable(c, s) && s.parent == Writing(|c.message|)
    ensures Reachable(c, t) && t == s.(parent := Waiting, parentWrites := false)
  {
    t := OneMore(c, s, ParentLeaveLoop);
    t := OneMore(c, t, ParentCloseWrite(true));
  }

  /** The child ends with or without an error, and with everything written the parent
      succeeds all the same. */
  lemma Finish(c: Config, s: State, success: bool) returns (t: State)
    requires Reachable(c, s) && s.parent.Waiting? && s.child.ClosingRead?
    ensures Reachable(c, t) && t.received == s.received
    ensures t.parent == ParentPc.Exited(true) && t.child == ChildPc.Exited(success)
  {
    t := OneMore(c, s, ChildCloseRead(success));
    t := OneMore(c, t, ParentReap);
  }

  /** A run in which the parent succeeds and the child has read `n` bytes. */
  lemma DeliveringRun(c: Config, n: nat, success: bool) returns (t: State)
    requires 1 <= c.capacity && n <= Min(CHILD_BUFFER - 1, c.capacity) && n <= |c.message| <= c.capacity + n
    requires n == 0 <==> c.message == []
    ensures Reachable(c, t) && t.received == c.message[..n]
    ensures t.parent == ParentPc.Exited(true) && t.child == ChildPc.Exited(success)
  {
    if n == 0 {
      t := BothReady(c);
      t := ParentDone(c, t);
      t := OneMore(c, t, ChildReadEof);
    } else {
      t := WrittenAndRead(c, n);
      t := ParentDone(c, t);
    }
    t := Finish(c, t, success);
  }

  /** How much of the message the child of a fully successful run may have: exactly
      the lengths that fit one read of 127 bytes and leave no more than the pipe can
      hold, zero only for the empty message. */
  lemma DeliveredLengths(c: Config, n: nat)
    requires 1 <= c.capacity
    ensures (exists t :: BothSucceed(c, t) && |t.received| == n) <==>
              && n <= 127 && n <= c.capacity
              && n <= |c.message| <= c.capacity + n
              && (n == 0 <==> c.message == [])
  {
    if t :| BothSucceed(c, t) && |t.received| == n {
      ReachableInv(c, t);
      SuccessMeansData(c, t);
      assert |t.received + t.pipe| == |c.message|;
    } else if n <= 127 && n <= c.capacity && n <= |c.message| <= c.capacity + n && (n == 0 <==> c.message == []) {
      var t := DeliveringRun(c, n, true);
    }
  }

  /** A message that fits the child's buffer and the pipe can arrive whole. */
  lemma WholeMessageCanArrive(c: Config)
    requires 1 <= c.capacity && |c.message| <= 127 && |c.message| <= c.capacity
    ensures exists t :: BothSucceed(c, t) && t.received == c.message
  {
    var t := DeliveringRun(c, |c.message|, true);
  }

  /** The parent looks at no status: with either result of the child it can succeed,
      exactly on messages that one read of 127 bytes and a full pipe hold together. */
  lemma ParentSucceedsIff(c: Config, success: bool)
    requires 1 <= c.capacity
    ensures (exists t :: Reachable(c, t) && t.parent == ParentPc.Exited(true) && t.child == ChildPc.Exited(success))
       <==> |c.message| <= c.capacity + Min(127, c.capacity)
  {
    if t :| Reachable(c, t) && t.parent == ParentPc.Exited(true) && t.child == ChildPc.Exited(success) {
      ReachableInv(c, t);
      assert |t.received + t.pipe| == |c.message|;
    }
    if |c.message| <= c.capacity + Min(127, c.capacity) {
      var t := DeliveringRun(c, Min(|c.message|, Min(127, c.capacity)), success);
    }
  }

  /** Both processes can succeed exactly on those messages. */
  lemma BothCanSucceedIff(c: Config)
    requires 1 <= c.capacity
    ensures (exists t :: BothSucceed(c, t)) <==> |c.message| <= c.capacity + Min(127, c.capacity)
  {
    ParentSucceedsIff(c, true);
    if t :| Reachable(c, t) && t.parent == ParentPc.Exited(true) && t.child == ChildPc.Exited(true) {
      assert BothSucceed(c, t);
    }
  }

  /** The child reads once. Success of both processes means that it has the whole
      message exactly when there is nothing to split, one byte or none, or when the
      message is so long that both cannot succeed. */
  lemma DeliveryIff(c: Config)
    requires 1 <= c.capacity
    ensures (forall t | BothSucceed(c, t) :: t.received == c.message) <==>
              |c.message| <= 1 || |c.message| > c.capacity + Min(127, c.capacity)
  {
    if |c.message| <= 1 {
      forall t | BothSucceed(c, t)
        ensures t.received == c.message
      {
        SuccessMeansData(c, t);
      }
    } else if |c.message| > c.capacity + Min(127, c.capacity) {
      BothCanSucceedIff(c);
    } else {
      ShortReadLosesRest(c);
    }
  }

  /** A failing run for every message in between: both succeed, and the child has
      only a part. */
  lemma ShortReadLosesRest(c: Config)
    requires 1 <= c.capacity
    requires 2 <= |c.message| <= c.capacity + Min(127, c.capacity)
    ensures exists t :: BothSucceed(c, t) && t.received < c.message
  {
    var t := DeliveringRun(c, if |c.message| <= c.capacity then 1 else |c.message| - c.capacity, true);
  }

  // ---- bounded work ----

  function ParentWork(c: Config, pc: ParentPc): nat {
    match pc
    case ClosingRead => |c.message| + 4
    case Writing(total) => 3 + if total <= |c.message| then |c.message| - total else 0
    case ClosingWrite => 2
    case Waiting => 1
    case Exited(_) => 0
    case Killed => 0
  }

  function ChildWork(pc: ChildPc): nat {
    match pc
    case ClosingWrite => 3
    case Reading => 2
    case ClosingRead => 1
    case Exited(_) => 0
  }

  function Interruptions(steps: seq<Step>): nat {
    if steps == [] then 0
    else (if Interrupted(steps[0]) then 1 else 0) + Interruptions(steps[1..])
  }

  lemma {:induction false} NoInterruptions(steps: seq<Step>)
    requires forall i | 0 <= i < |steps| :: !steps[i].ParentWriteInterrupted? && !steps[i].ChildReadInterrupted?
    ensures Interruptions(steps) == 0
  {
    if steps != [] {
      NoInterruptions(steps[1..]);
    }
  }

  predicate Interrupted(step: Step) {
    step.ParentWriteInterrupted? || step.ChildReadInterrupted?
  }

  lemma StepUsesWork(c: Config, s: State, step: Step)
    requires Enabled(c, s, step) && !Interrupted(step)
    ensures ParentWork(c, Apply(c, s, step).parent) + ChildWork(Apply(c, s, step).child)
          < ParentWork(c, s.parent) + ChildWork(s.child)
  {
    var t := Apply(c, s, step);
    if ChangesChild(step) {
      assert t.parent == s.parent;
    } else {
      assert t.child == s.child;
    }
  }

  lemma {:induction false} WorkAlongPath(c: Config, s: State, steps: seq<Step>, t: State)
    requires Path(c, s, steps, t)
    ensures |steps| + ParentWork(c, t.parent) + ChildWork(t.child)
         <= ParentWork(c, s.parent) + ChildWork(s.child) + Interruptions(steps)
    decreases |steps|
  {
    if steps != [] {
      if !Interrupted(steps[0]) {
        StepUsesWork(c, s, steps[0]);
      }
      WorkAlongPath(c, Apply(c, s, steps[0]), steps[1..], t);
    }
  }

  /** Every run makes at most |message| + 7 calls, not counting interrupted ones. */
  lemma RunsAreBounded(c: Config, steps: seq<Step>, t: State)
    requires Path(c, Init(), steps, t)
    ensures |steps| <= |c.message| + 7 + Interruptions(steps)
    ensures (forall i | 0 <= i < |steps| :: !steps[i].ParentWriteInterrupted? && !steps[i].ChildReadInterrupted?) ==>
              |steps| <= |c.message| + 7
  {
    if forall i | 0 <= i < |steps| :: !steps[i].ParentWriteInterrupted? && !steps[i].ChildReadInterrupted? {
      NoInterruptions(steps);
    }
    WorkAlongPath(c, Init(), steps, t);
  }
}

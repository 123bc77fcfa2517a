/** Running, attaching, stepping, detaching and killing (lib/sylvan/inferior.c). */
module Inferiors {
  import opened Codes
  import opened Words
  import opened Tracee
  import opened DebuggerState
  import opened BreakpointSpec
  import opened LifecycleSpec
  import opened LaunchSpec
  import opened SteppingSpec
  import opened MemorySpec
  import opened CallAnswers
  import opened LifecycleAnswers
  import opened Breakpoints

  // Every method returns, as a ghost, what it has made the kernel do: that much longer is the kernel's log.

  /** Waits for a change in the process and updates the inferior accordingly. */
  method UpdateStatus(inf: Inferior, blocking: bool) returns (code: Code, ghost ev: seq<Event>)
    requires inf.Valid()
    modifies inf`status, inf`pid, inf`isAttached, inf.os
    ensures StatusStep(old(inf.Snapshot()), blocking, ev, code, inf.Snapshot())
    ensures inf.os.log == old(inf.os.log) + ev && inf.os.setbacks == old(inf.os.setbacks)
  {
    ev := [];
    if inf.pid <= 0 {
      return InvalidState, ev;
    }
    var result := inf.os.WaitPid(blocking);
    ev := [WaitEvent(result, inf.os.Value())];
    match result {
      case NoChange =>
        return Ok, ev;
      case Failed =>
        return WaitpidFailed, ev;
      case NoChild(Exists) =>
        return ProcNotAttached, ev;
      case NoChild(Unknown) =>
        return SystemError, ev;
      case NoChild(Vanished) =>
        inf.status, inf.pid, inf.isAttached := NONE, 0, false;
        return ProcNotFound, ev;
      case Exited =>
        inf.status, inf.pid := EXITED, 0;
        return ProcExited, ev;
      case Signaled =>
        inf.status, inf.pid := TERMINATED, 0;
        return ProcTerminated, ev;
      case Stopped(siginfo, regs, kernelTrap) =>
        inf.status := STOPPED;
        if blocking {
          code := AnswerStop(inf, siginfo, regs, kernelTrap);
          return code, ev;
        }
        return Ok, ev;
      case Continued =>
        inf.status := RUNNING;
        return Ok, ev;
    }
  }

  /**
   The part of it that tells the stops of a blocking wait apart: a hit breakpoint is a kernel trap one past the address of
   an entry, planted or not.
   */
  method AnswerStop(inf: Inferior, siginfo: bool, regs: bool, kernelTrap: bool) returns (code: Code)
    requires inf.Valid()
    ensures code == StatusCode(inf.Snapshot(), true, Wait.Stopped(siginfo, regs, kernelTrap), inf.os.rip)
    ensures code == BreakpointHit <==>
      && siginfo && regs && kernelTrap
      && exists i :: 0 <= i < inf.breakpointCount &&
           (inf.breakpoints[i].addr + 1 == inf.os.rip
            || (inf.os.rip == 0 && inf.breakpoints[i].addr == 0xFFFF_FFFF_FFFF_FFFF))
    ensures code == ProcStopped <==> siginfo && regs && !kernelTrap
    ensures code == PtraceGetregsFailed <==> siginfo && !regs
    ensures code == PtraceError <==> !siginfo
    ensures code in {Ok, BreakpointHit, ProcStopped, PtraceGetregsFailed, PtraceError}
  {
    if !siginfo {
      return PtraceError;
    }
    if !regs {
      return PtraceGetregsFailed;
    }
    if !kernelTrap {
      return ProcStopped;
    }
    var found, i := FindByAddr(inf, Before(inf.os.rip));
    if found != Ok {
      NoneBehind(inf.Snapshot(), inf.os.rip);
      return Ok;
    }
    assert inf.breakpoints[i].addr + 1 == inf.os.rip || (inf.os.rip == 0 && inf.breakpoints[i].addr == 0xFFFF_FFFF_FFFF_FFFF);
    return BreakpointHit;
  }

  lemma NoneBehind(s: State, rip: nat)
    requires s.count <= |s.table| && !s.Has(Before(rip))
    ensures forall i :: 0 <= i < s.count ==>
      s.table[i].addr + 1 != rip && !(rip == 0 && s.table[i].addr == 0xFFFF_FFFF_FFFF_FFFF)
  {
  }

  method KillProcess(inf: Inferior) returns (code: Code, ghost ev: seq<Event>)
    requires inf.Valid()
    modifies inf`status, inf`pid, inf`isAttached, inf.os
    ensures KillStep(old(inf.Snapshot()), ev, code, inf.Snapshot())
    ensures inf.os.log == old(inf.os.log) + ev
    ensures inf.os.setbacks >= old(inf.os.setbacks) && (code == KillFailed <==> inf.os.setbacks > old(inf.os.setbacks))
    ensures Blames(code, inf.os.refused)
  {
    ev := [];
    if inf.status != RUNNING && inf.status != STOPPED {
      return Ok, ev;
    }
    var sent := inf.os.SendKill();
    ev := [KillEvent(sent)];
    match sent {
      case Refused =>
        return KillFailed, ev;
      case NoProcess =>
      case Sent =>
        var w := inf.os.WaitPid(true);
        ev := ev + [WaitEvent(w, inf.os.Value())];
        if w.Failed? || w.NoChild? {
          return WaitpidFailed, ev;
        }
    }
    inf.isAttached, inf.pid, inf.status := false, 0, NONE;
    return Ok, ev;
  }

  /** Detaches from a process that was attached. Whenever the process is let go, it has its view. */
  method Detach(inf: Inferior) returns (code: Code, ghost ev: seq<Event>)
    requires inf.Snapshot().Sound()
    modifies inf, inf.breakpoints, inf.os
    ensures inf.Snapshot().Sound() && DetachStep(old(inf.Snapshot()), ev, code, inf.Snapshot())
    ensures code == Ok && inf.status == NONE <==> |ev| == 2
    ensures |ev| == 2 ==> LeavesView(old(inf.Snapshot()), ev) && Unflagged(inf.Snapshot())
    ensures inf.os.log == old(inf.os.log) + ev && inf.os.setbacks >= old(inf.os.setbacks)
    ensures code.Refused() <==> inf.os.setbacks > old(inf.os.setbacks)
    ensures Blames(code, inf.os.refused)
  {
    hide LetGoStep, Distinct;
    ghost var s := inf.Snapshot();
    ev := [];
    if !inf.isAttached {
      return ProcNotAttached, ev;
    }
    code, ev := UpdateStatus(inf, false);
    ghost var s1, ev1 := inf.Snapshot(), ev;
    StatusCarries(s, false, ev, code, s1);
    if code == ProcExited || code == ProcTerminated {
      DetachedByWait(s, ev, code, s1);
      DetachLeavesView(s, ev, Ok, s1);
      return Ok, ev;
    }
    if code != Ok {
      DetachedByWait(s, ev, code, s1);
      DetachLeavesView(s, ev, code, s1);
      return code, ev;
    }
    ghost var ev2;
    code, ev2 := LiftAndLetGo(inf);
    Appended(old(inf.os.log), ev1, ev2);
    ev := ev1 + ev2;
    LetGoFacts(s1, ev2, code, inf.Snapshot());
    WaitedThenLetGo(s, ev1, s1, ev2, code, inf.Snapshot());
    DetachLeavesView(s, ev, code, inf.Snapshot());
  }

  lemma DetachedByWait(s: State, ev: seq<Event>, c: Code, s1: State)
    requires s.Sound() && s.isAttached && StatusStep(s, false, ev, c, s1) && c != Ok
    ensures DetachStep(s, ev, if c == ProcExited || c == ProcTerminated then Ok else c, s1)
  {
    if ev != [] {
      assert ev[..1] == ev;
    }
  }

  lemma WaitedThenLetGo(s: State, ev1: seq<Event>, s1: State, ev2: seq<Event>, code: Code, s': State)
    requires s.Sound() && s.isAttached && StatusStep(s, false, ev1, Ok, s1) && s1.WellFormed() && LetGoStep(s1, ev2, code, s')
    ensures DetachStep(s, ev1 + ev2, code, s')
  {
    hide LetGoStep;
    assert (ev1 + ev2)[..1] == ev1 && (ev1 + ev2)[1..] == ev2;
  }

  /** The end of a detach: the breakpoints are lifted, and the process is let go. */
  method LiftAndLetGo(inf: Inferior) returns (code: Code, ghost ev: seq<Event>)
    requires inf.Snapshot().Sound() && inf.Active()
    modifies inf, inf.breakpoints, inf.os
    ensures LetGoStep(old(inf.Snapshot()), ev, code, inf.Snapshot())
    ensures inf.os.log == old(inf.os.log) + ev && inf.os.setbacks >= old(inf.os.setbacks)
    ensures code.Refused() <==> inf.os.setbacks > old(inf.os.setbacks)
    ensures Blames(code, inf.os.refused)
  {
    hide UnsetAllStep, Distinct, Blames;
    ghost var s1 := inf.Snapshot();
    ev := [];
    code := UnsetAllPhysical(inf);
    ghost var s2, c := inf.Snapshot(), code;
    LiftCodes(s1, code, s2);
    if code != Ok {
      Blamed(code, inf.os.refused);
      assert LiftedThenLetGo(s1, c, s2, ev, code, s2);
      return code, ev;
    }
    var detached := inf.os.Detach();
    if !detached {
      Blamed(PtraceDetachFailed, inf.os.refused);
      assert LiftedThenLetGo(s1, c, s2, ev, PtraceDetachFailed, s2);
      return PtraceDetachFailed, ev;
    }
    NotBlamed(Ok, inf.os.refused);
    ev := [DetachEvent(s2.proc)];
    inf.isAttached, inf.pid, inf.status := false, 0, NONE;
    assert inf.Snapshot() == Released(s2);
    assert LiftedThenLetGo(s1, c, s2, ev, Ok, inf.Snapshot());
    return Ok, ev;
  }

  lemma LiftCodes(s: State, code: Code, s': State)
    requires s.WellFormed() && UnsetAllStep(s, code, s')
    ensures code in {Ok, PtracePeektextFailed, PtracePoketextFailed}
  {
  }

  /** Kills a process that was run, detaches from one that was attached. */
  method TerminateOrDetach(inf: Inferior) returns (code: Code, ghost ev: seq<Event>)
    requires inf.Snapshot().Sound()
    modifies inf, inf.breakpoints, inf.os
    ensures inf.Snapshot().Sound() && TerminateStep(old(inf.Snapshot()), ev, code, inf.Snapshot())
    ensures code == Ok ==> inf.pid == 0 && !inf.Active()
    ensures forall i :: 0 <= i < |ev| && ev[i].DetachEvent? ==> LeavesView(old(inf.Snapshot()), ev)
    ensures inf.os.log == old(inf.os.log) + ev && inf.os.setbacks >= old(inf.os.setbacks)
    ensures code.Refused() <==> inf.os.setbacks > old(inf.os.setbacks)
    ensures Blames(code, inf.os.refused)
  {
    hide KillStep, DetachStep, Distinct;
    ev := [];
    if inf.status != RUNNING && inf.status != STOPPED {
      return Ok, ev;
    }
    ghost var s := inf.Snapshot();
    if !inf.isAttached {
      code, ev := KillProcess(inf);
      KillCarries(s, ev, code, inf.Snapshot());
    } else {
      code, ev := Detach(inf);
      DetachCodes(s, ev, code, inf.Snapshot());
    }
    if code == Ok || code == ProcNotFound || code == ProcExited || code == ProcTerminated {
      code := Ok;
    }
    TerminateCarries(s, ev, code, inf.Snapshot());
    TerminateLeavesView(s, ev, code, inf.Snapshot());
  }

  /** Forgets the flags of the last process and plants every breakpoint in the new one. */
  method ReplantAll(inf: Inferior) returns (code: Code)
    requires inf.Valid() && inf.Active()
    modifies inf.breakpoints, inf.os`mem, inf.os`setbacks, inf.os`failures, inf.os`refused
    ensures ReplantStep(old(inf.Snapshot()), code, inf.Snapshot())
    ensures inf.os.setbacks >= old(inf.os.setbacks)
    ensures code == PtracePeektextFailed <==> inf.os.setbacks > old(inf.os.setbacks)
    ensures inf.os.setbacks > old(inf.os.setbacks) ==> Blames(code, inf.os.refused)
  {
    ghost var s := inf.Snapshot();
    UnflagFacts(s);
    ResetPhysical(inf);
    hide SetAllStep, Distinct;
    assert inf.Snapshot() == Unflag(s);
    code := SetAllPhysical(inf);
    ReplantFacts(s, code, inf.Snapshot());
  }

  /** After PTRACE_ATTACH: waits for the process to stop and takes it over. */
  method TakeOver(inf: Inferior, pid: int, loaded: bool) returns (code: Code, ghost ev: seq<Event>)
    requires inf.Snapshot().Sound() && !inf.Active() && pid > 0
    modifies inf, inf.breakpoints, inf.os
    ensures |ev| == 1 && ev[0].WaitEvent? && inf.os.log == old(inf.os.log) + ev
    ensures Waits(old(inf.os.Value()), true, ev[0].report, ev[0].at)
    ensures inf.os.setbacks >= old(inf.os.setbacks)
    ensures code == PtracePeektextFailed <==> inf.os.setbacks > old(inf.os.setbacks)
    ensures AttachedStep(old(inf.Snapshot()), pid, loaded, ev[0].report, ev[0].at, code, inf.Snapshot())
    ensures inf.os.setbacks > old(inf.os.setbacks) ==> Blames(code, inf.os.refused)
  {
    hide ReplantStep, Distinct, State.View, State.Intact, Blames;
    ghost var s := inf.Snapshot();
    var w := inf.os.WaitPid(true);
    ghost var p := inf.os.Value();
    ev := [WaitEvent(w, p)];
    match w {
      case Failed =>
        return WaitpidFailed, ev;
      case NoChild(_) =>
        return ProcNotFound, ev;
      case Stopped(_, _, _) =>
        inf.status := STOPPED;
      case Continued =>
        inf.status := RUNNING;
      case Exited =>
        return ProcExited, ev;
      case Signaled =>
        return ProcTerminated, ev;
    }
    inf.pid, inf.isAttached := pid, true;
    inf.hasPath := *;
    assert inf.Snapshot() == Adopted(s, pid, true, w, p);
    if !loaded {
      return ElfFailed, ev;
    }
    code := ReplantAll(inf);
  }

  /**
   Attaches to a process. On success every breakpoint is planted over the bytes the process had at its first stop, which
   the last event shows.
   */
  method Attach(inf: Inferior, pid: int, probe: Probe, loaded: bool) returns (code: Code, ghost ev: seq<Event>)
    requires inf.Snapshot().Sound()
    modifies inf, inf.breakpoints, inf.os
    ensures inf.Snapshot().Sound() && AttachStep(old(inf.Snapshot()), pid, probe, loaded, ev, code, inf.Snapshot())
    ensures code == Ok ==>
      && probe == Exists && loaded && inf.pid == pid && inf.isAttached
      && |ev| >= 2 && ev[|ev| - 1].WaitEvent? && FreshlyArmed(inf.Snapshot(), ev[|ev| - 1].at)
    ensures inf.os.log == old(inf.os.log) + ev && inf.os.setbacks >= old(inf.os.setbacks)
    ensures code.Refused() ==> inf.os.setbacks > old(inf.os.setbacks)
    ensures probe == Exists && inf.os.setbacks == old(inf.os.setbacks) ==>
      EndsAcquired(ev) || code in {WaitpidFailed, ProcNotAttached, SystemError}
    ensures Blames(code, inf.os.refused)
    ensures code == ProcNotFound && probe == Exists && !EndsAcquired(ev) ==> inf.os.refused == AttachRequest(true)
  {
    hide TerminateStep, TakeOverStep, FreshlyArmed, Carries, Distinct, Blames, EndsAcquired;
    ghost var s := inf.Snapshot();
    ev := [];
    NotBlamed(ProcNotFound, inf.os.refused);
    NotBlamed(SystemError, inf.os.refused);
    if probe == Vanished {
      return ProcNotFound, ev;
    }
    if probe == Unknown {
      return SystemError, ev;
    }
    code, ev := ReplaceProcess(inf, pid, loaded);
    AttachKeeps(s, pid, probe, loaded, ev, code, inf.Snapshot());
    if code == Ok {
      AttachPlants(s, pid, probe, loaded, ev, inf.Snapshot());
    }
  }

  /** Lets go of what is held, and takes over another process. */
  method ReplaceProcess(inf: Inferior, pid: int, loaded: bool) returns (code: Code, ghost ev: seq<Event>)
    requires inf.Snapshot().Sound()
    modifies inf, inf.breakpoints, inf.os
    ensures AttachStep(old(inf.Snapshot()), pid, Exists, loaded, ev, code, inf.Snapshot())
    ensures inf.os.log == old(inf.os.log) + ev && inf.os.setbacks >= old(inf.os.setbacks)
    ensures code.Refused() ==> inf.os.setbacks > old(inf.os.setbacks)
    ensures inf.os.setbacks == old(inf.os.setbacks) ==>
      EndsAcquired(ev) || code in {WaitpidFailed, ProcNotAttached, SystemError}
    ensures Blames(code, inf.os.refused)
    ensures code == ProcNotFound && !EndsAcquired(ev) ==> inf.os.refused == AttachRequest(true)
  {
    hide TerminateStep, TakeOverStep, AttachStep, Carries, Distinct, Blames;
    ghost var s := inf.Snapshot();
    code, ev := TerminateOrDetach(inf);
    ghost var c, s1, ev1, ev2 := code, inf.Snapshot(), ev, [];
    TerminateCarries(s, ev1, c, s1);
    if code == Ok {
      code, ev2 := AcquireAndTakeOver(inf, pid, loaded);
    }
    LetGoAndTakenOver(s, pid, loaded, ev1, ev2, c, s1, code, inf.Snapshot());
    Appended(old(inf.os.log), ev1, ev2);
    ev := ev1 + ev2;
    TerminateCodes(s, ev1, c, s1);
    if c == Ok {
      TakeOverCodes(s1, pid, loaded, ev2, code, inf.Snapshot());
      if !code.Refused() {
        NotBlamed(code, inf.os.refused);
      }
      TookOverEvents(s, s1, pid, loaded, ev1, ev2, code, inf.Snapshot());
    }
  }

  lemma TookOverEvents(s: State, s1: State, pid: int, loaded: bool, ev1: seq<Event>, ev2: seq<Event>, code: Code, s': State)
    requires s.Sound() && s1.Sound() && !s1.Active() && TerminateStep(s, ev1, Ok, s1) && TakeOverStep(s1, pid, loaded, ev2, code, s')
    ensures EndsAcquired(ev1 + ev2) <==> ev2 != []
  {
    hide TerminateStep, TakeOverStep, EndsAcquired, LeavesView, Unflagged, Tracks;
    TerminateLeavesView(s, ev1, Ok, s1);
    TakeOverTracks(s1, pid, loaded, ev2, code, s');
    JoinedAcquisition(ev1, ev2);
  }

  lemma LetGoAndTakenOver(s: State, pid: int, loaded: bool, ev1: seq<Event>, ev2: seq<Event>, c: Code, s1: State,
                          code: Code, s': State)
    requires s.WellFormed() && s1.WellFormed() && TerminateStep(s, ev1, c, s1)
    requires if c != Ok then ev2 == [] && code == c && s' == s1 else TakeOverStep(s1, pid, loaded, ev2, code, s')
    ensures AttachStep(s, pid, Exists, loaded, ev1 + ev2, code, s')
  {
    hide TerminateStep, TakeOverStep;
    assert LetGoThenTakeOver(s, pid, loaded, ev1, ev2, c, s1, code, s');
  }

  /** PTRACE_ATTACH, when nothing is held any more. */
  method AcquireAndTakeOver(inf: Inferior, pid: int, loaded: bool) returns (code: Code, ghost ev: seq<Event>)
    requires inf.Snapshot().Sound() && !inf.Active()
    modifies inf, inf.breakpoints, inf.os
    ensures TakeOverStep(old(inf.Snapshot()), pid, loaded, ev, code, inf.Snapshot())
    ensures inf.os.log == old(inf.os.log) + ev && inf.os.setbacks >= old(inf.os.setbacks)
    ensures ev == [] || code == PtracePeektextFailed <==> inf.os.setbacks > old(inf.os.setbacks)
    ensures inf.os.setbacks > old(inf.os.setbacks) ==> Blames(code, inf.os.refused)
    ensures ev == [] ==> inf.os.refused == AttachRequest(code == ProcNotFound)
  {
    hide AttachedStep, Distinct, Blames;
    ghost var s := inf.Snapshot();
    ev := [];
    var attached, vanished := inf.os.Attach(pid, inf.pid);
    if !attached {
      assert inf.Snapshot() == s;
      if vanished {
        NotBlamed(ProcNotFound, inf.os.refused);
        return ProcNotFound, ev;
      }
      Blamed(PtraceAttachFailed, inf.os.refused);
      return PtraceAttachFailed, ev;
    }
    ghost var acquired := inf.os.Value();
    assert inf.Snapshot() == s.(proc := acquired);
    code, ev := TakeOver(inf, pid, loaded);
    ev := [AcquireEvent(pid, acquired)] + ev;
    TakenOver(s, pid, loaded, acquired, ev, code, inf.Snapshot());
  }

  lemma TakenOver(s: State, pid: int, loaded: bool, acquired: Proc, ev: seq<Event>, code: Code, s': State)
    requires s.WellFormed() && |ev| == 2 && ev[0] == AcquireEvent(pid, acquired) && pid > 0 && Acquired(acquired)
    requires ev[1].WaitEvent? && Waits(acquired, true, ev[1].report, ev[1].at)
    requires AttachedStep(s.(proc := acquired), pid, loaded, ev[1].report, ev[1].at, code, s')
    ensures TakeOverStep(s, pid, loaded, ev, code, s')
  {
    assert ev[1..] == [ev[1]];
    assert Adopted(s.(proc := acquired), pid, true, ev[1].report, ev[1].at) == Adopted(s, pid, true, ev[1].report, ev[1].at);
  }

  /** The child has stopped for the first time: breakpoints go in, the program goes on, and is waited for. */
  method PlantAndGo(inf: Inferior) returns (code: Code, ghost ev: seq<Event>)
    requires inf.Snapshot().Sound() && inf.Active()
    modifies inf, inf.breakpoints, inf.os
    ensures LaunchStep(old(inf.Snapshot()), ev, code, inf.Snapshot()) && inf.os.log == old(inf.os.log) + ev
    ensures inf.os.setbacks >= old(inf.os.setbacks) && (ev == [] <==> inf.os.setbacks > old(inf.os.setbacks))
    ensures Blames(code, inf.os.refused)
  {
    hide ReplantStep, GoStep, Distinct;
    ghost var s := inf.Snapshot();
    ev := [];
    code := ReplantAll(inf);
    ghost var c, s1 := code, inf.Snapshot();
    ReplantFacts(s, c, s1);
    if code == Ok {
      code, ev := GoOn(inf);
    }
    assert PlantedThenGone(s, c, s1, ev, code, inf.Snapshot());
  }

  /** PTRACE_CONT, and the wait for what the program does next. */
  method GoOn(inf: Inferior) returns (code: Code, ghost ev: seq<Event>)
    requires inf.Valid()
    modifies inf`status, inf`pid, inf`isAttached, inf.os
    ensures GoStep(old(inf.Snapshot()), ev, code, inf.Snapshot()) && inf.os.log == old(inf.os.log) + ev
    ensures inf.os.setbacks == old(inf.os.setbacks) + if ev == [] then 1 else 0
    ensures ev != [] ==> !code.Refused()
    ensures Blames(code, inf.os.refused)
  {
    hide StatusStep, Distinct;
    ghost var s := inf.Snapshot();
    ev := [];
    var ok := inf.os.Cont();
    if !ok {
      assert inf.Snapshot() == s;
      return PtraceContFailed, ev;
    }
    assert inf.Snapshot() == Going(s);
    code, ev := UpdateStatus(inf, true);
    WaitNotRefused(Going(s), true, ev, code, inf.Snapshot());
    ghost var ev1 := ev;
    ev := [ContinueEvent(s.proc)] + ev1;
    assert ev[1..] == ev1;
  }

  /**
   The parent's side of starting a program. A child that was killed by a signal before it stopped makes the debugger fail
   an assertion.
   */
  method HandleParent(inf: Inferior, pid: int, report: Report) returns (code: Code, ghost ev: seq<Event>)
    requires inf.Snapshot().Sound() && !inf.Active() && pid > 0 && Acquired(inf.os.Value())
    modifies inf, inf.breakpoints, inf.os
    ensures ParentStep(old(inf.Snapshot()), pid, report, ev, code, inf.Snapshot()) && inf.os.log == old(inf.os.log) + ev
    ensures inf.os.setbacks >= old(inf.os.setbacks)
    ensures inf.os.setbacks > old(inf.os.setbacks) <==>
      |ev| == 1 && (ev[0].report.Stopped? || ev[0].report.Continued?)
    ensures inf.os.setbacks > old(inf.os.setbacks) ==> Blames(code, inf.os.refused)
  {
    hide LaunchStep, Distinct, Blames;
    ghost var s := inf.Snapshot();
    ev := [];
    match report {
      case CloseFailed =>
        return SystemError, ev;
      case ReadFailed =>
        return SystemError, ev;
      case Unreadable =>
        return SystemError, ev;
      case Child(failure) =>
        return failure, ev;
      case Silent =>
    }
    var w := inf.os.WaitPid(true);
    ghost var p := inf.os.Value();
    ev := [WaitEvent(w, p)];
    if w.Failed? || w.NoChild? {
      return WaitpidFailed, ev;
    }
    if w.Exited? {
      return ProcChild, ev;
    }
    inf.status := if w.Stopped? then STOPPED else if w.Signaled? then TERMINATED else RUNNING;
    inf.pid, inf.isAttached := pid, false;
    if !inf.Active() {
      return Aborted, ev;
    }
    assert inf.Snapshot() == Adopted(s, pid, false, w, p);
    ghost var ev1 := ev;
    ghost var ev2;
    code, ev2 := PlantAndGo(inf);
    Appended(old(inf.os.log), ev1, ev2);
    ev := ev1 + ev2;
    assert ev[..1] == ev1 && ev[1..] == ev2;
  }

  /** Runs the program afresh; a process that is still there is killed first. */
  method RunProgram(inf: Inferior, executable: bool, piped: bool, report: Report) returns (code: Code, ghost ev: seq<Event>)
    requires inf.Snapshot().Sound()
    modifies inf, inf.breakpoints, inf.os
    ensures RunStep(old(inf.Snapshot()), old(inf.hasPath), executable, piped, report, ev, code, inf.Snapshot())
    ensures inf.os.log == old(inf.os.log) + ev && inf.os.setbacks >= old(inf.os.setbacks)
    ensures code.Refused() ==> inf.os.setbacks > old(inf.os.setbacks)
    ensures old(inf.hasPath) && executable && piped && inf.os.setbacks == old(inf.os.setbacks) ==>
      code == WaitpidFailed || exists i :: 0 <= i < |ev| && ev[i].AcquireEvent?
    ensures LaunchesArmed(ev, inf.Snapshot()) && (code == Aborted <==> ChildKilled(ev))
    ensures Blames(code, inf.os.refused)
  {
    hide KilledThenStarted, Distinct, LaunchesArmed, ChildKilled;
    ghost var s := inf.Snapshot();
    ev := [];
    NothingLaunched(s);
    if !inf.hasPath {
      return FileNotFound, ev;
    }
    if !executable {
      return NotExecutable, ev;
    }
    ghost var n;
    code, ev, n := KillAndStart(inf, piped, report);
    RunLaunches(s, true, true, piped, report, ev, code, inf.Snapshot());
  }

  method KillAndStart(inf: Inferior, piped: bool, report: Report) returns (code: Code, ghost ev: seq<Event>, ghost n: nat)
    requires inf.Snapshot().Sound()
    modifies inf, inf.breakpoints, inf.os
    ensures RunStep(old(inf.Snapshot()), true, true, piped, report, ev, code, inf.Snapshot())
    ensures inf.os.log == old(inf.os.log) + ev && inf.os.setbacks >= old(inf.os.setbacks)
    ensures code.Refused() ==> inf.os.setbacks > old(inf.os.setbacks)
    ensures piped && inf.os.setbacks == old(inf.os.setbacks) ==>
      code == WaitpidFailed || (n < |ev| && ev[n].AcquireEvent?)
    ensures Blames(code, inf.os.refused)
  {
    hide KillStep, StartStep, RunStep, Distinct, Carries, SameBreakpoints;
    ghost var s := inf.Snapshot();
    code, ev := KillProcess(inf);
    ghost var c, s1, ev1, ev2 := code, inf.Snapshot(), ev, [];
    KillCarries(s, ev1, c, s1);
    if code == Ok {
      code, ev2 := StartProgram(inf, piped, report);
    }
    KilledAndBegun(s, piped, report, ev1, ev2, c, s1, code, inf.Snapshot());
    Appended(old(inf.os.log), ev1, ev2);
    ev, n := ev1 + ev2, |ev1|;
  }

  lemma Appended(log: seq<Event>, ev1: seq<Event>, ev2: seq<Event>)
    ensures log + ev1 + ev2 == log + (ev1 + ev2)
  {
  }

  lemma KilledAndBegun(s: State, piped: bool, report: Report, ev1: seq<Event>, ev2: seq<Event>, c: Code, s1: State,
                       code: Code, s': State)
    requires s.WellFormed() && s1.WellFormed() && KillStep(s, ev1, c, s1)
    requires if c != Ok then ev2 == [] && code == c && s' == s1 else StartStep(s1, piped, report, ev2, code, s')
    ensures RunStep(s, true, true, piped, report, ev1 + ev2, code, s')
    ensures ev2 != [] ==> |ev1 + ev2| > |ev1| && (ev1 + ev2)[|ev1|] == ev2[0]
  {
    hide KillStep, StartStep;
    assert KilledThenStarted(s, piped, report, ev1, ev2, c, s1, code, s');
  }

  lemma NothingLaunched(s: State)
    ensures LaunchesArmed([], s) && !ChildKilled([])
  {
  }

  /** The part of a run that starts the new process, when no other is held. */
  method StartProgram(inf: Inferior, piped: bool, report: Report) returns (code: Code, ghost ev: seq<Event>)
    requires inf.Snapshot().Sound() && !inf.Active()
    modifies inf, inf.breakpoints, inf.os
    ensures StartStep(old(inf.Snapshot()), piped, report, ev, code, inf.Snapshot()) && inf.os.log == old(inf.os.log) + ev
    ensures inf.os.setbacks >= old(inf.os.setbacks)
    ensures code.Refused() ==> inf.os.setbacks > old(inf.os.setbacks)
    ensures code == ForkFailed <==> piped && ev == []
    ensures ev != [] ==> ev[0].AcquireEvent?
    ensures piped && inf.os.setbacks == old(inf.os.setbacks) ==> ev != []
    ensures Blames(code, inf.os.refused)
  {
    hide ParentStep, Distinct;
    ghost var s := inf.Snapshot();
    ev := [];
    if !piped {
      return PipeFailed, ev;
    }
    var pid := inf.os.Fork(inf.pid);
    if pid < 0 {
      assert inf.Snapshot() == s;
      return ForkFailed, ev;
    }
    ghost var acquired := inf.os.Value();
    assert inf.Snapshot() == s.(proc := acquired);
    ghost var ev1;
    code, ev1 := HandleParent(inf, pid, report);
    ParentCodes(s.(proc := acquired), pid, report, ev1, code, inf.Snapshot());
    ev := [AcquireEvent(pid, acquired)] + ev1;
    assert ev[1..] == ev1;
  }

  /** The single step itself, and planting the breakpoint again if the step is reported as a success. */
  method StepAndPlant(inf: Inferior, i: nat) returns (code: Code, ghost ev: seq<Event>)
    requires inf.Snapshot().Sound() && inf.Active() && i < inf.breakpointCount
    modifies inf, inf.breakpoints, inf.os
    ensures StepThenPlant(old(inf.Snapshot()), i, ev, code, inf.Snapshot()) && inf.os.log == old(inf.os.log) + ev
    ensures inf.os.setbacks >= old(inf.os.setbacks) && (ev == [] ==> inf.os.setbacks > old(inf.os.setbacks))
    ensures code.Refused() <==> inf.os.setbacks > old(inf.os.setbacks)
    ensures Blames(code, inf.os.refused)
  {
    hide StepThenPlant, Distinct;
    ghost var s := inf.Snapshot();
    ev := [];
    var ok := inf.os.SingleStep();
    if !ok {
      assert inf.Snapshot() == s;
      NotStepped(s, i);
      return PtraceStepFailed, ev;
    }
    assert inf.Snapshot() == Going(s);
    code, ev := WaitAndPlant(inf, i, s);
    ev := [StepEvent(s.proc)] + ev;
  }

  /** What follows a single step from s. */
  method WaitAndPlant(inf: Inferior, i: nat, ghost s: State) returns (code: Code, ghost ev: seq<Event>)
    requires s.Sound() && s.Active() && i < s.count && inf.Snapshot() == Going(s)
    modifies inf, inf.breakpoints, inf.os
    ensures StepThenPlant(s, i, [StepEvent(s.proc)] + ev, code, inf.Snapshot()) && inf.os.log == old(inf.os.log) + ev
    ensures inf.os.setbacks >= old(inf.os.setbacks) && (code.Refused() <==> inf.os.setbacks > old(inf.os.setbacks))
    ensures Blames(code, inf.os.refused)
  {
    hide EnableStep, StatusStep, StepThenPlant, Distinct, Carries, State.Has;
    code, ev := UpdateStatus(inf, true);
    ghost var c, s1 := code, inf.Snapshot();
    StatusCarries(Going(s), true, ev, c, s1);
    WaitNotRefused(Going(s), true, ev, c, s1);
    if code == Ok {
      code := EnableAt(inf, i);
      EnabledStatus(s1, i, code, inf.Snapshot());
    }
    SteppedThenPlanted(s, i, ev, c, s1, code, inf.Snapshot());
  }

  lemma NotStepped(s: State, i: nat)
    requires i < s.count <= |s.table|
    ensures StepThenPlant(s, i, [], PtraceStepFailed, s)
  {
  }

  lemma SteppedThenPlanted(s: State, i: nat, ev: seq<Event>, c: Code, s1: State, code: Code, s': State)
    requires s.Sound() && s.Active() && i < s.count && StatusStep(Going(s), true, ev, c, s1) && s1.count == s.count
    requires |s1.table| == |s.table| && if c != Ok then code == c && s' == s1 else EnableStep(s1, i, code, s')
    ensures StepThenPlant(s, i, [StepEvent(s.proc)] + ev, code, s')
  {
    hide EnableStep;
    assert ([StepEvent(s.proc)] + ev)[1..] == ev;
    SameCode(s, ev);
  }

  lemma SameCode(s: State, ev: seq<Event>)
    requires s.count <= |s.table| && |ev| == 1 && ev[0].WaitEvent?
    ensures StatusCode(Going(s), true, ev[0].report, ev[0].at.rip) == StatusCode(s, true, ev[0].report, ev[0].at.rip)
  {
  }

  /** If the program stands right behind a planted breakpoint, steps it over the instruction underneath. */
  method HandleBreakpointAtCurrentAddr(inf: Inferior) returns (code: Code, ghost ev: seq<Event>)
    requires inf.Snapshot().Sound() && inf.Active()
    modifies inf, inf.breakpoints, inf.os
    ensures HandleStep(old(inf.Snapshot()), ev, code, inf.Snapshot()) && inf.os.log == old(inf.os.log) + ev
    ensures inf.os.setbacks >= old(inf.os.setbacks)
    ensures ev == [] && code != BreakpointNotFound ==> inf.os.setbacks > old(inf.os.setbacks)
    ensures code.Refused() ==> inf.os.setbacks > old(inf.os.setbacks)
    ensures Blames(code, inf.os.refused)
  {
    hide StepOverStep;
    ghost var s := inf.Snapshot();
    ev := [];
    var ok, rip := inf.os.GetRip();
    if !ok {
      return PtraceGetregsFailed, ev;
    }
    var found, i := FindByAddr(inf, Before(rip));
    if found == BreakpointNotFound {
      return BreakpointNotFound, ev;
    }
    assert s.table[i].addr == Before(rip);
    if !inf.breakpoints[i].enabledPhy {
      OnlyEntryAt(s, i);
      return BreakpointNotFound, ev;
    }
    assert HitEntry(s, i);
    code, ev := StepOver(inf, i, rip);
  }

  /** Goes back to the address of the breakpoint, lifts it and steps. */
  method StepOver(inf: Inferior, i: nat, rip: nat) returns (code: Code, ghost ev: seq<Event>)
    requires inf.Snapshot().Sound() && inf.Active() && HitEntry(inf.Snapshot(), i) && rip == inf.os.rip
    modifies inf, inf.breakpoints, inf.os
    ensures StepOverStep(old(inf.Snapshot()), i, ev, code, inf.Snapshot()) && inf.os.log == old(inf.os.log) + ev
    ensures if ev == [] then code != Ok else SteppedOver(old(inf.Snapshot()), i, ev, code, inf.Snapshot())
    ensures inf.os.setbacks >= old(inf.os.setbacks) && (ev == [] ==> inf.os.setbacks > old(inf.os.setbacks))
    ensures code != BreakpointNotFound
    ensures code.Refused() <==> inf.os.setbacks > old(inf.os.setbacks)
    ensures inf.os.setbacks > old(inf.os.setbacks) ==> Blames(code, inf.os.refused)
  {
    hide DisableStep, StepThenPlant, SteppedOver, Distinct, Blames;
    ghost var s := inf.Snapshot();
    ev := [];
    var ok := inf.os.SetRip(Before(rip));
    if !ok {
      assert inf.Snapshot() == s;
      Blamed(PtraceSetregsFailed, inf.os.refused);
      return PtraceSetregsFailed, ev;
    }
    assert inf.Snapshot() == Rewound(s);
    code := DisableAt(inf, i);
    ghost var c, s1 := code, inf.Snapshot();
    LiftForStep(s, i, c, s1);
    DisableCodes(Rewound(s), i, c, s1);
    if code == Ok {
      code, ev := StepAndPlant(inf, i);
    } else {
      Blamed(code, inf.os.refused);
    }
    assert LiftedThenStepped(s, i, c, s1, ev, code, inf.Snapshot());
    StepOverFacts(s, i, ev, code, inf.Snapshot());
  }

  lemma OnlyEntryAt(s: State, i: nat)
    requires s.WellFormed() && i < s.count && s.table[i].addr == Before(s.proc.rip) && !s.table[i].enabledPhy
    ensures forall j :: !HitEntry(s, j)
  {
  }

  /** Only a stopped process can be resumed. */
  method ValidateProcessState(inf: Inferior) returns (code: Code, ghost ev: seq<Event>)
    requires inf.Valid()
    modifies inf`status, inf`pid, inf`isAttached, inf.os
    ensures ValidateStep(old(inf.Snapshot()), ev, code, inf.Snapshot()) && inf.os.log == old(inf.os.log) + ev
    ensures code == Ok ==> inf.status == STOPPED
    ensures inf.os.setbacks == old(inf.os.setbacks) && !code.Refused()
  {
    hide StatusStep, Distinct;
    ghost var s := inf.Snapshot();
    code, ev := UpdateStatus(inf, false);
    WaitNotRefused(s, false, ev, code, inf.Snapshot());
    ghost var c := code;
    if code == Ok && inf.status != STOPPED {
      code := if inf.status == RUNNING then ProcRunning else InvalidState;
    }
    assert StatusStep(s, false, ev, c, inf.Snapshot()) && code == Validated(c, inf.status);
  }

  /** Continues the stopped program, stepping it off a breakpoint first. */
  method ResumeProgram(inf: Inferior) returns (code: Code, ghost ev: seq<Event>)
    requires inf.Snapshot().Sound() && inf.Active()
    modifies inf, inf.breakpoints, inf.os
    ensures ResumeStep(old(inf.Snapshot()), ev, code, inf.Snapshot()) && inf.os.log == old(inf.os.log) + ev
    ensures inf.os.setbacks >= old(inf.os.setbacks) && (ev == [] ==> inf.os.setbacks > old(inf.os.setbacks))
    ensures code.Refused() ==> inf.os.setbacks > old(inf.os.setbacks)
    ensures Blames(code, inf.os.refused)
  {
    hide HandleStep, GoStep, ResumeStep, Distinct, SteppedOver, HitEntry, Carries;
    ghost var s := inf.Snapshot();
    code, ev := HandleBreakpointAtCurrentAddr(inf);
    ghost var c, s1, ev1, ev2 := code, inf.Snapshot(), ev, [];
    ghost var _ := HandleFacts(s, ev1, c, s1);
    if code == Ok || code == BreakpointNotFound {
      code, ev2 := GoOn(inf);
    }
    HandledAndGone(s, ev1, ev2, c, s1, code, inf.Snapshot());
    Appended(old(inf.os.log), ev1, ev2);
    ev := ev1 + ev2;
  }

  lemma HandledAndGone(s: State, ev1: seq<Event>, ev2: seq<Event>, c: Code, s1: State, code: Code, s': State)
    requires s.WellFormed() && s1.WellFormed() && HandledThenGone(s, ev1, ev2, c, s1, code, s')
    ensures ResumeStep(s, ev1 + ev2, code, s')
  {
    hide HandleStep, GoStep;
  }

  lemma Continued(s: State, single: bool, ev1: seq<Event>, ev2: seq<Event>, c: Code, mid: State, code: Code, s': State)
    requires s.count <= |s.table| && |ev1| <= 1 && (c == Ok ==> ev1 != [])
    requires ValidatedThenResumed(s, single, ev1, ev2, c, mid, code, s')
    ensures ContinueStep(s, single, ev1 + ev2, code, s')
    ensures |ev1 + ev2| == 1 && FoundStopped(s, ev1 + ev2) ==> FoundStopped(s, ev1) && ev2 == []
  {
    hide ValidateStep, SingleStep, ResumeStep, FoundStopped;
    if ev2 == [] {
      assert ev1 + ev2 == ev1;
    }
  }

  /** Continues the program. */
  method ContinueInferior(inf: Inferior) returns (code: Code, ghost ev: seq<Event>, ghost mid: State)
    requires inf.Snapshot().Sound()
    modifies inf, inf.breakpoints, inf.os
    ensures ContinueStep(old(inf.Snapshot()), false, ev, code, inf.Snapshot()) && inf.os.log == old(inf.os.log) + ev
    ensures Continues(old(inf.Snapshot()), false, mid, ev, code, inf.Snapshot())
    ensures |ev| == 1 && FoundStopped(old(inf.Snapshot()), ev) ==> inf.os.setbacks > old(inf.os.setbacks)
    ensures code.Refused() ==> inf.os.setbacks > old(inf.os.setbacks)
    ensures Blames(code, inf.os.refused)
  {
    hide ValidateStep, ResumeStep, Distinct, Continues, FoundStopped, ContinueStep;
    ghost var s := inf.Snapshot();
    code, ev := ValidateProcessState(inf);
    ghost var c, m, ev1, ev2 := code, inf.Snapshot(), ev, [];
    ValidateFacts(s, ev1, c, m);
    FoundExactly(s, ev1, c, m);
    if code == Ok {
      code, ev2 := ResumeProgram(inf);
    }
    Appended(old(inf.os.log), ev1, ev2);
    ev := ev1 + ev2;
    Continued(s, false, ev1, ev2, c, m, code, inf.Snapshot());
    mid := ContinueFacts(s, false, ev, code, inf.Snapshot());
  }

  /** The wait that a continue or single step begins with finds the process stopped. */
  ghost predicate FoundStopped(s: State, ev: seq<Event>)
    requires s.count <= |s.table|
  {
    && ev != [] && ev[0].WaitEvent?
    && Validated(StatusCode(s, false, ev[0].report, ev[0].at.rip), AfterWait(s, ev[0].report, ev[0].at).status) == Ok
  }

  lemma FoundExactly(s: State, ev: seq<Event>, code: Code, mid: State)
    requires s.Sound() && ValidateStep(s, ev, code, mid)
    ensures |ev| <= 1 && (code == Ok <==> FoundStopped(s, ev))
  {
    var c: Code :| StatusStep(s, false, ev, c, mid) && code == Validated(c, mid.status);
  }

  /** Steps the stopped program, off a breakpoint or plainly. */
  method StepProgram(inf: Inferior) returns (code: Code, ghost ev: seq<Event>)
    requires inf.Snapshot().Sound() && inf.Active()
    modifies inf, inf.breakpoints, inf.os
    ensures SingleStep(old(inf.Snapshot()), ev, code, inf.Snapshot()) && inf.os.log == old(inf.os.log) + ev
    ensures inf.os.setbacks >= old(inf.os.setbacks) && (ev == [] ==> inf.os.setbacks > old(inf.os.setbacks))
    ensures code.Refused() ==> inf.os.setbacks > old(inf.os.setbacks)
    ensures Blames(code, inf.os.refused)
  {
    hide HandleStep, PlainStep, SingleStep, Distinct, SteppedOver, HitEntry, Carries;
    ghost var s := inf.Snapshot();
    code, ev := HandleBreakpointAtCurrentAddr(inf);
    ghost var c, s1, ev1, ev2 := code, inf.Snapshot(), ev, [];
    ghost var _ := HandleFacts(s, ev1, c, s1);
    if code == BreakpointNotFound {
      code, ev2 := StepFromHere(inf);
    }
    HandledElseStepped(s, ev1, ev2, c, s1, code, inf.Snapshot());
    Appended(old(inf.os.log), ev1, ev2);
    ev := ev1 + ev2;
  }

  lemma HandledElseStepped(s: State, ev1: seq<Event>, ev2: seq<Event>, c: Code, s1: State, code: Code, s': State)
    requires s.WellFormed() && s1.WellFormed() && HandledOrStepped(s, ev1, ev2, c, s1, code, s')
    ensures SingleStep(s, ev1 + ev2, code, s')
  {
    hide HandleStep, PlainStep;
  }

  /** The single step of a program that does not stand behind a planted breakpoint. */
  method StepFromHere(inf: Inferior) returns (code: Code, ghost ev: seq<Event>)
    requires inf.Valid()
    modifies inf`status, inf`pid, inf`isAttached, inf.os
    ensures PlainStep(old(inf.Snapshot()), ev, code, inf.Snapshot()) && inf.os.log == old(inf.os.log) + ev
    ensures inf.os.setbacks == old(inf.os.setbacks) + if ev == [] then 1 else 0
    ensures ev != [] ==> !code.Refused()
    ensures Blames(code, inf.os.refused)
  {
    hide StatusStep, Distinct;
    ghost var s := inf.Snapshot();
    ev := [];
    var ok := inf.os.SingleStep();
    if !ok {
      assert inf.Snapshot() == s;
      return PtraceStepFailed, ev;
    }
    assert inf.Snapshot() == Going(s);
    code, ev := UpdateStatus(inf, true);
    WaitNotRefused(Going(s), true, ev, code, inf.Snapshot());
    ghost var ev1 := ev;
    ev := [StepEvent(s.proc)] + ev1;
    assert ev[1..] == ev1;
  }

  /** Steps one instruction. */
  method StepInstruction(inf: Inferior) returns (code: Code, ghost ev: seq<Event>, ghost mid: State)
    requires inf.Snapshot().Sound()
    modifies inf, inf.breakpoints, inf.os
    ensures ContinueStep(old(inf.Snapshot()), true, ev, code, inf.Snapshot()) && inf.os.log == old(inf.os.log) + ev
    ensures Continues(old(inf.Snapshot()), true, mid, ev, code, inf.Snapshot())
    ensures |ev| == 1 && FoundStopped(old(inf.Snapshot()), ev) ==> inf.os.setbacks > old(inf.os.setbacks)
    ensures code.Refused() ==> inf.os.setbacks > old(inf.os.setbacks)
    ensures Blames(code, inf.os.refused)
  {
    hide ValidateStep, SingleStep, Distinct, Continues, FoundStopped, ContinueStep;
    ghost var s := inf.Snapshot();
    code, ev := ValidateProcessState(inf);
    ghost var c, m, ev1, ev2 := code, inf.Snapshot(), ev, [];
    ValidateFacts(s, ev1, c, m);
    FoundExactly(s, ev1, c, m);
    if code == Ok {
      code, ev2 := StepProgram(inf);
    }
    Appended(old(inf.os.log), ev1, ev2);
    ev := ev1 + ev2;
    Continued(s, true, ev1, ev2, c, m, code, inf.Snapshot());
    mid := ContinueFacts(s, true, ev, code, inf.Snapshot());
  }

  /** Sets the program counter; the other registers play no part here. */
  method SetRegisters(inf: Inferior, rip: nat) returns (code: Code, ghost ev: seq<Event>)
    requires inf.Snapshot().Sound()
    modifies inf`status, inf`pid, inf`isAttached, inf.os
    ensures RegistersStep(old(inf.Snapshot()), rip, ev, code, inf.Snapshot()) && inf.os.log == old(inf.os.log) + ev
    ensures code == PtraceSetregsFailed <==> inf.os.setbacks > old(inf.os.setbacks)
  {
    hide StatusStep, Distinct;
    ghost var s := inf.Snapshot();
    code, ev := UpdateStatus(inf, false);
    ghost var c, mid := code, inf.Snapshot();
    StatusCodes(s, ev, c, mid);
    if code == Ok {
      if inf.status != STOPPED && inf.status != RUNNING {
        code := InvalidState;
      } else {
        var ok := inf.os.SetRip(rip);
        if !ok {
          code := PtraceSetregsFailed;
        }
      }
    }
    assert WaitedThenSet(s, rip, ev, c, mid, code, inf.Snapshot());
  }

  lemma StatusCodes(s: State, ev: seq<Event>, c: Code, mid: State)
    requires s.Sound() && StatusStep(s, false, ev, c, mid)
    ensures c != PtraceSetregsFailed
  {
  }

  /**
   Reads the word at an address. Unlike planting a breakpoint it looks at errno: it fails exactly if the PEEK does, and
   eight 0xFF bytes are read like any others.
   */
  method GetMemory(inf: Inferior, addr: nat) returns (code: Code, data: word)
    modifies inf.os`setbacks, inf.os`failures, inf.os`refused
    ensures inf.os.setbacks == old(inf.os.setbacks) + if code != Ok || data == ALL_ONES then 1 else 0
    ensures inf.os.failures == old(inf.os.failures) + if code != Ok then 1 else 0
    ensures code in {Ok, PtracePeekdataFailed}
    ensures code == Ok ==>
      && inf.os.phase == Halted && Mapped(inf.os.mem, addr, 8)
      && ToBytes(data) == Read(inf.os.mem, addr, 8)
  {
    var w, errno := inf.os.Peek(addr);
    if errno {
      return PtracePeekdataFailed, 0;
    }
    ToFromBytes(Read(inf.os.mem, addr, 8));
    return Ok, w;
  }

  /** One POKE of a word that changes just the bytes b, and the record of it. */
  method PokeBytes(inf: Inferior, at: nat, ghost b: seq<byte>, w: word) returns (ok: bool)
    requires |b| <= 8
    requires Mapped(inf.os.mem, at, 8) ==> Write(inf.os.mem, at, ToBytes(w)) == Write(inf.os.mem, at, b)
    modifies inf.os`mem, inf.os`written, inf.os`setbacks, inf.os`failures, inf.os`refused
    ensures ok ==> Mapped(old(inf.os.mem), at, 8) && inf.os.mem == Write(old(inf.os.mem), at, b)
    ensures ok ==> forall a :: a in inf.os.written <==> a in old(inf.os.written) || at <= a < at + |b|
    ensures !ok ==> inf.os.mem == old(inf.os.mem) && inf.os.written == old(inf.os.written)
    ensures inf.os.failures == old(inf.os.failures) + if ok then 0 else 1
  {
    ok := inf.os.Poke(at, w);
    if ok {
      inf.os.written := inf.os.written + Range(at, |b|);
    }
  }

  /** The next eight bytes. */
  method StoreChunk(inf: Inferior, addr: nat, data: seq<byte>, offset: nat, ghost s: State) returns (ok: bool)
    requires s.WellFormed() && addr < SPACE && |data| < SPACE && offset + 8 <= |data|
    requires Stored(s, addr, data[..offset], inf.Snapshot())
    modifies inf.os`mem, inf.os`written, inf.os`setbacks, inf.os`failures, inf.os`refused
    ensures Stored(s, addr, data[..if ok then offset + 8 else offset], inf.Snapshot())
    ensures inf.os.failures == old(inf.os.failures) + if ok then 0 else 1
  {
    hide ToBytes, FromBytes, Put, Covers, Stored, Write, Read, Distinct;
    ghost var s1 := inf.Snapshot();
    var chunk := data[offset..offset + 8];
    ToFromBytes(chunk);
    ok := PokeBytes(inf, WrapAdd(addr, offset), chunk, FromBytes(chunk));
    if ok {
      StoredMore(s, addr, data[..offset], s1, chunk, inf.Snapshot());
      assert data[..offset] + chunk == data[..offset + 8];
    }
  }

  /** The last one to seven bytes: the word they are in is read, masked and written back. */
  method StoreTail(inf: Inferior, addr: nat, data: seq<byte>, offset: nat, ghost s: State) returns (ok: bool)
    requires s.WellFormed() && addr < SPACE && |data| < SPACE && offset < |data| < offset + 8
    requires Stored(s, addr, data[..offset], inf.Snapshot())
    modifies inf.os`mem, inf.os`written, inf.os`setbacks, inf.os`failures, inf.os`refused
    ensures Stored(s, addr, data[..if ok then |data| else offset], inf.Snapshot())
    ensures inf.os.failures == old(inf.os.failures) + if ok then 0 else 1
  {
    hide ToBytes, FromBytes, Put, Covers, Stored, Write, Read, Distinct;
    ghost var s1 := inf.Snapshot();
    var at := WrapAdd(addr, offset);
    var code, current := GetMemory(inf, at);
    if code != Ok {
      return false;
    }
    var rest := data[offset..];
    var update := CombineTail(current, rest);
    TailWrite(inf.os.mem, at, rest, ToBytes(update));
    ok := PokeBytes(inf, at, rest, update);
    if ok {
      StoredMore(s, addr, data[..offset], s1, rest, inf.Snapshot());
      assert data[..offset] + rest == data[..|data|];
    }
  }

  /**
   Writes bytes, eight at a time, and then what is left. On success exactly the given bytes are written, on failure
   the first `done` of them, which are whole chunks.
   */
  method SetMemory(inf: Inferior, addr: nat, data: seq<byte>) returns (code: Code, ghost done: nat)
    requires inf.Valid() && addr < SPACE && |data| < SPACE
    modifies inf.os`mem, inf.os`written, inf.os`setbacks, inf.os`failures, inf.os`refused
    ensures StoredUpTo(old(inf.Snapshot()), addr, data, done, code, inf.Snapshot()) && inf.os.log == old(inf.os.log)
    ensures code == PtracePokedataFailed <==> inf.os.failures > old(inf.os.failures)
    ensures code == InvalidArgument <==> data != [] && addr == 0
    ensures code in {Ok, InvalidArgument, PtracePokedataFailed} && (data == [] ==> code == Ok)
  {
    ghost var s := inf.Snapshot();
    done := 0;
    StoredNone(s, addr);
    assert data[..0] == [];
    if |data| == 0 {
      return Ok, done;
    }
    if addr == 0 {
      return InvalidArgument, done;
    }
    var offset := 0;
    while offset + 8 <= |data|
      invariant offset <= |data| && offset % 8 == 0
      invariant Stored(s, addr, data[..offset], inf.Snapshot()) && inf.os.failures == old(inf.os.failures)
    {
      var ok := StoreChunk(inf, addr, data, offset, s);
      if !ok {
        return PtracePokedataFailed, offset;
      }
      offset := offset + 8;
    }
    if offset < |data| {
      var ok := StoreTail(inf, addr, data, offset, s);
      if !ok {
        return PtracePokedataFailed, offset;
      }
    }
    return Ok, |data|;
  }
}

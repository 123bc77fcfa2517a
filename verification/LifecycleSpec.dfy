/** What waiting for a process, killing it and letting go of it do to the debugger's state. */
module LifecycleSpec {
  import opened Codes
  import opened Words
  import opened Tracee
  import opened DebuggerState
  import opened BreakpointSpec

  /**
   From s to s' the same process is being debugged, and every byte of the view that is not recorded as stored to
   is as it was. This is what both the debugger's own patching and the running program keep.
   */
  ghost predicate Carries(s: State, s': State)
    requires s.WellFormed()
  {
    && s'.WellFormed()
    && (s'.Active() ==> s.Active() && s'.pid == s.pid)
    && s'.proc.image == s.proc.image
    && s.proc.written <= s'.proc.written
    && (forall a :: a !in s'.proc.written && a in s.View() ==> a in s'.View() && s'.View()[a] == s.View()[a])
    && (s.Intact() ==> s'.Intact())
  }

  lemma CarriesTransitive(s: State, s1: State, s2: State)
    requires s.WellFormed() && Carries(s, s1) && Carries(s1, s2)
    ensures Carries(s, s2)
  {
  }

  lemma CarriesItself(s: State)
    requires s.WellFormed()
    ensures Carries(s, s)
  {
  }

  lemma TransparentCarries(s: State, s': State)
    requires s.WellFormed() && Transparent(s, s')
    ensures Carries(s, s')
  {
  }

  lemma RanCarries(s: State, s': State)
    requires s.WellFormed() && s'.table == s.table && s'.count == s.count
    requires s'.Active() ==> s.Active() && s'.pid == s.pid
    requires s'.proc.image == s.proc.image && s.proc.written <= s'.proc.written
    requires forall a :: a in s.proc.mem && a !in s'.proc.written ==>
      a in s'.proc.mem && s'.proc.mem[a] == s.proc.mem[a]
    ensures Carries(s, s')
  {
    forall a | a !in s'.proc.written && a in s.View()
      ensures a in s'.View() && s'.View()[a] == s.View()[a]
    {
      if i :| ArmedEntry(s.table, 0, s.count, a, i) {
        RestoredAt(s.table, 0, s.count, s.proc.mem, i);
        RestoredAt(s'.table, 0, s'.count, s'.proc.mem, i);
      }
    }
  }

  lemma CarriesKeepsInv(s: State, s': State)
    requires s.Inv() && s.Active() && Carries(s, s') && s'.Alive()
    ensures s'.Inv()
  {
  }

  /** The same breakpoints are set, at the same places, with the same logical flags. */
  predicate SameBreakpoints(s: State, s': State)
    requires s.count <= |s.table|
  {
    && s'.count == s.count <= |s'.table|
    && forall i :: 0 <= i < s.count ==>
         s'.table[i].addr == s.table[i].addr && s'.table[i].enabledLog == s.table[i].enabledLog
  }

  // ----- waiting -----

  /** What sylvan_update_inf_status returns, given the report and where the program is. */
  function StatusCode(s: State, blocking: bool, w: Wait, rip: nat): Code
    requires s.count <= |s.table|
  {
    match w
    case NoChange => Ok
    case Failed => WaitpidFailed
    case NoChild(probe) => (match probe case Exists => ProcNotAttached case Unknown => SystemError case Vanished => ProcNotFound)
    case Exited => ProcExited
    case Signaled => ProcTerminated
    case Stopped(siginfo, regs, kernelTrap) =>
      if !blocking then Ok
      else if !siginfo then PtraceError
      else if !regs then PtraceGetregsFailed
      else if !kernelTrap then ProcStopped
      else if s.Has(Before(rip)) then BreakpointHit
      else Ok
    case Continued => Ok
  }

  /** The state after a report, with the process as it is then. */
  function AfterWait(s: State, w: Wait, p: Proc): State {
    match w
    case NoChange => s.(proc := p)
    case Failed => s.(proc := p)
    case NoChild(probe) =>
      if probe == Vanished then s.(status := NONE, pid := 0, isAttached := false, proc := p) else s.(proc := p)
    case Exited => s.(status := EXITED, pid := 0, proc := p)
    case Signaled => s.(status := TERMINATED, pid := 0, proc := p)
    case Stopped(_, _, _) => s.(status := STOPPED, proc := p)
    case Continued => s.(status := RUNNING, proc := p)
  }

  /** ev is one wait, and a possible one for a process that was p. */
  ghost predicate OneWait(p: Proc, blocking: bool, ev: seq<Event>) {
    |ev| == 1 && ev[0].WaitEvent? && Waits(p, blocking, ev[0].report, ev[0].at)
  }

  /** sylvan_update_inf_status: one wait, which determines everything. */
  ghost predicate StatusStep(s: State, blocking: bool, ev: seq<Event>, code: Code, s': State)
    requires s.count <= |s.table|
  {
    if s.pid <= 0 then ev == [] && code == InvalidState && s' == s
    else
      && OneWait(s.proc, blocking, ev)
      && code == StatusCode(s, blocking, ev[0].report, ev[0].at.rip)
      && s' == AfterWait(s, ev[0].report, ev[0].at)
  }

  lemma WaitNotRefused(s: State, blocking: bool, ev: seq<Event>, code: Code, s': State)
    requires s.count <= |s.table| && StatusStep(s, blocking, ev, code, s')
    ensures !code.Refused()
  {
    if s.pid > 0 {
      NotRefused(s, blocking, ev[0].report, ev[0].at.rip);
    }
  }

  lemma NotRefused(s: State, blocking: bool, w: Wait, rip: nat)
    requires s.count <= |s.table|
    ensures !StatusCode(s, blocking, w, rip).Refused()
  {
  }

  lemma StatusCarries(s: State, blocking: bool, ev: seq<Event>, code: Code, s': State)
    requires s.Sound() && StatusStep(s, blocking, ev, code, s')
    ensures Carries(s, s') && s'.Sound() && s'.table == s.table && s'.count == s.count
    ensures code in {ProcExited, ProcTerminated, ProcNotFound} ==> !s'.Active() && s'.pid == 0 && s'.proc.phase == Gone
    ensures code == ProcExited ==> s'.status == EXITED
    ensures code == ProcTerminated ==> s'.status == TERMINATED
    ensures code !in {ProcExited, ProcTerminated, ProcNotFound, InvalidState} ==> s'.Active() && s'.pid == s.pid
    ensures code == InvalidState <==> s.pid <= 0
  {
    hide State.View, State.Intact, State.Has, Distinct;
    RanCarries(s, s');
  }

  // ----- going on -----

  function Going(s: State): State {
    s.(proc := Resumed(s.proc))
  }

  /** PTRACE_CONT, and the wait for what the program does next. */
  ghost predicate GoStep(s: State, ev: seq<Event>, code: Code, s': State)
    requires s.count <= |s.table|
  {
    if ev == [] then code == PtraceContFailed && s' == s
    else ev[0] == ContinueEvent(s.proc) && StatusStep(Going(s), true, ev[1..], code, s')
  }

  lemma GoingCarries(s: State, blocking: bool, ev: seq<Event>, code: Code, s': State)
    requires s.Sound() && s.Active() && StatusStep(Going(s), blocking, ev, code, s')
    ensures s'.Sound() && Carries(s, s') && s'.table == s.table && s'.count == s.count && |ev| == 1 && ev[0].WaitEvent?
    ensures ev[0].at == s'.proc && code !in {InvalidState, PtraceContFailed, PtraceStepFailed, BreakpointNotFound, Aborted}
    ensures s'.Active() ==> SameBreakpoints(s, s')
    ensures !code.Refused()
  {
    WaitNotRefused(Going(s), blocking, ev, code, s');
    hide Code.Refused;
    StatusCarries(Going(s), blocking, ev, code, s');
    CarriesTransitive(s, Going(s), s');
  }

  lemma GoFacts(s: State, ev: seq<Event>, code: Code, s': State)
    requires s.Sound() && s.Active() && GoStep(s, ev, code, s')
    ensures s'.Sound() && Carries(s, s') && s'.table == s.table && s'.count == s.count
    ensures ev == [] <==> code == PtraceContFailed
    ensures ev == [] ==> s' == s
    ensures ev != [] ==> |ev| == 2 && ev[0] == ContinueEvent(s.proc) && ev[1].WaitEvent? && ev[1].at == s'.proc
    ensures code !in {BreakpointNotFound, Aborted} && (ev != [] ==> !code.Refused())
  {
    if ev == [] {
      CarriesItself(s);
    } else {
      GoingCarries(s, true, ev[1..], code, s');
    }
  }

  // ----- ending -----

  function Released(s: State): State {
    s.(status := NONE, pid := 0, isAttached := false, proc := s.proc.(phase := Gone))
  }

  /** sylvan_kill: only a success lets go of the process. */
  ghost predicate KillStep(s: State, ev: seq<Event>, code: Code, s': State) {
    if !s.Active() then
      ev == [] && code == Ok && s' == s
    else
      && ev != [] && ev[0].KillEvent?
      && match ev[0].answer
         case Refused => |ev| == 1 && code == KillFailed && s' == s
         case NoProcess => |ev| == 1 && code == Ok && s' == Released(s)
         case Sent =>
           && |ev| == 2 && ev[1].WaitEvent?
           && if ev[1].report.Failed? || ev[1].report.NoChild? then
                code == WaitpidFailed && s' == s.(proc := s.proc.(phase := Gone))
              else
                code == Ok && s' == Released(s)
  }

  lemma KillCarries(s: State, ev: seq<Event>, code: Code, s': State)
    requires s.Sound() && KillStep(s, ev, code, s')
    ensures Carries(s, s') && s'.Sound() && (code == Ok <==> !s'.Active())
    ensures code in {Ok, KillFailed, WaitpidFailed} && s'.table == s.table && s'.count == s.count
    ensures forall i :: 0 <= i < |ev| ==> ev[i].KillEvent? || ev[i].WaitEvent?
  {
    RanCarries(s, s');
  }

  /** The end of a detach, once the process is known to be there: all breakpoints are lifted, and it is let go. */
  ghost predicate LetGoStep(s1: State, ev: seq<Event>, code: Code, s': State)
    requires s1.WellFormed()
  {
    exists c: Code, s2: State :: LiftedThenLetGo(s1, c, s2, ev, code, s')
  }

  ghost predicate LiftedThenLetGo(s1: State, c: Code, s2: State, ev: seq<Event>, code: Code, s': State)
    requires s1.WellFormed()
  {
    && UnsetAllStep(s1, c, s2)
    && if c != Ok then ev == [] && code == c && s' == s2
       else if ev == [] then code == PtraceDetachFailed && s' == s2
       else ev == [DetachEvent(s2.proc)] && code == Ok && s' == Released(s2)
  }

  /** sylvan_detach. */
  ghost predicate DetachStep(s: State, ev: seq<Event>, code: Code, s': State)
    requires s.WellFormed()
  {
    if !s.isAttached then
      ev == [] && code == ProcNotAttached && s' == s
    else if s.pid <= 0 then
      ev == [] && code == InvalidState && s' == s
    else
      && |ev| > 0 && OneWait(s.proc, false, ev[..1])
      && var s1 := AfterWait(s, ev[0].report, ev[0].at);
         var c := StatusCode(s, false, ev[0].report, ev[0].at.rip);
         if c == ProcExited || c == ProcTerminated then |ev| == 1 && code == Ok && s' == s1
         else if c != Ok then |ev| == 1 && code == c && s' == s1
         else LetGoStep(s1, ev[1..], code, s')
  }

  predicate Unflagged(s: State)
    requires s.count <= |s.table|
  {
    forall i :: 0 <= i < s.count ==> !s.table[i].enabledPhy
  }

  lemma LetGoFacts(s1: State, ev: seq<Event>, code: Code, s': State)
    requires s1.Sound() && s1.Active() && LetGoStep(s1, ev, code, s')
    ensures s'.Sound() && Carries(s1, s') && SameBreakpoints(s1, s') && (Unflagged(s1) ==> Unflagged(s'))
    ensures code in {Ok, PtraceDetachFailed, PtracePeektextFailed, PtracePoketextFailed}
    ensures code == Ok <==> ev != []
    ensures code == Ok ==> !s'.Active() && s' == Released(s') && ev == [DetachEvent(ev[0].proc)]
    ensures code == Ok ==> ev[0].proc == s1.proc.(mem := s1.View()) && s'.proc.mem == s1.View() && Unflagged(s')
    ensures code != Ok ==> s'.Active()
  {
    var c, s2 :| LiftedThenLetGo(s1, c, s2, ev, code, s');
    UnsetAllIsTransparent(s1, c, s2);
    TransparentCarries(s1, s2);
    hide Restored, RestoredByte;
    ReleasedCarries(s1, s2);
  }

  lemma ReleasedCarries(s: State, s1: State)
    requires s.WellFormed() && s1.WellFormed() && Carries(s, s1)
    ensures Carries(s, Released(s1)) && Released(s1).Sound() && Released(s1).View() == s1.View()
  {
  }

  lemma DetachParts(s: State, ev: seq<Event>, code: Code, s': State) returns (s1: State, c: Code)
    requires s.Sound() && DetachStep(s, ev, code, s') && s.isAttached && s.pid > 0
    ensures |ev| > 0 && ev[0].WaitEvent? && Waits(s.proc, false, ev[0].report, ev[0].at)
    ensures s1.Sound() && Carries(s, s1) && s1.table == s.table && s1.count == s.count
    ensures s1.proc == ev[0].at && c != InvalidState
    ensures s1 == AfterWait(s, ev[0].report, ev[0].at) && c == StatusCode(s, false, ev[0].report, ev[0].at.rip)
    ensures c == Ok ==> s.Active() && s1.Active() && LetGoStep(s1, ev[1..], code, s')
    ensures c != Ok ==> |ev| == 1 && s' == s1 && code == (if c in {ProcExited, ProcTerminated} then Ok else c)
    ensures c in {ProcExited, ProcTerminated, ProcNotFound} ==> !s1.Active() && s1.pid == 0 && s1.proc.phase == Gone
    ensures c in {ProcExited, ProcTerminated} ==> s1.status in {EXITED, TERMINATED}
  {
    s1 := AfterWait(s, ev[0].report, ev[0].at);
    c := StatusCode(s, false, ev[0].report, ev[0].at.rip);
    assert StatusStep(s, false, ev[..1], c, s1);
    StatusCarries(s, false, ev[..1], c, s1);
  }

  lemma NothingToDetach(s: State, ev: seq<Event>, code: Code, s': State)
    requires s.WellFormed() && DetachStep(s, ev, code, s') && !(s.isAttached && s.pid > 0)
    ensures ev == [] && s' == s && code in {ProcNotAttached, InvalidState} && Carries(s, s')
  {
    CarriesItself(s);
  }

  /** Detaching keeps the view; it succeeds only if no process is left. */
  lemma DetachCarries(s: State, ev: seq<Event>, code: Code, s': State)
    requires s.Sound() && DetachStep(s, ev, code, s')
    ensures s'.Sound() && Carries(s, s') && SameBreakpoints(s, s') && (Unflagged(s) ==> Unflagged(s'))
    ensures code == Ok ==> s.Active() && s'.pid == 0 && s'.proc.phase == Gone && s'.status in {NONE, EXITED, TERMINATED}
    ensures code in {Ok, ProcNotFound, ProcExited, ProcTerminated} ==> !s'.Active()
  {
    hide DetachStep, LetGoStep, Carries, State.View, State.Intact, Distinct;
    if s.isAttached && s.pid > 0 {
      var s1, c := DetachParts(s, ev, code, s');
      if c == Ok {
        LetGoFacts(s1, ev[1..], code, s');
        CarriesTransitive(s, s1, s');
      }
    } else {
      NothingToDetach(s, ev, code, s');
    }
  }

  /**
   Whenever a detach lets the process go, its memory is the view it had when it was last waited for, bytes stored to
   included: every planted breakpoint, and nothing else, is taken out of it.
   */
  lemma DetachLeavesView(s: State, ev: seq<Event>, code: Code, s': State)
    requires s.Sound() && DetachStep(s, ev, code, s')
    ensures |ev| <= 2 && forall i :: 0 <= i < |ev| ==> ev[i].WaitEvent? || (i == 1 && ev[i].DetachEvent?)
    ensures code == Ok && s'.status == NONE <==> |ev| == 2
    ensures |ev| == 2 ==> LeavesView(s, ev) && Unflagged(s') && !s'.isAttached
  {
    hide DetachStep, LetGoStep, Restored, State.Intact, Distinct, SameBreakpoints, Waits, Carries;
    if s.isAttached && s.pid > 0 {
      var s1, c := DetachParts(s, ev, code, s');
      if c == Ok {
        LetGoFacts(s1, ev[1..], code, s');
        assert forall i :: 1 <= i < |ev| ==> ev[i] == ev[1..][i - 1];
      }
    } else {
      NothingToDetach(s, ev, code, s');
    }
  }

  /** What is let go has the memory that the last wait saw, with the saved byte wherever s has a breakpoint planted. */
  ghost predicate LeavesView(s: State, ev: seq<Event>)
    requires s.count <= |s.table|
  {
    && s.Active() && |ev| == 2 && ev[0].WaitEvent? && ev[1].DetachEvent?
    && Waits(s.proc, false, ev[0].report, ev[0].at)
    && ev[1].proc == ev[0].at.(mem := Restored(s.table, 0, s.count, ev[0].at.mem))
  }

  /** Kills a process that was run, detaches from one that was attached. */
  ghost predicate TerminateStep(s: State, ev: seq<Event>, code: Code, s': State)
    requires s.WellFormed()
  {
    if !s.Active() then ev == [] && code == Ok && s' == s
    else if !s.isAttached then KillStep(s, ev, code, s')
    else exists c: Code :: DetachStep(s, ev, c, s') && code == Forgiven(c)
  }

  function Forgiven(c: Code): Code {
    if c in {ProcNotFound, ProcExited, ProcTerminated} then Ok else c
  }

  /** A success leaves nothing behind that is still held. */
  lemma TerminateCarries(s: State, ev: seq<Event>, code: Code, s': State)
    requires s.Sound() && TerminateStep(s, ev, code, s')
    ensures s'.Sound() && Carries(s, s') && SameBreakpoints(s, s') && (Unflagged(s) ==> Unflagged(s'))
    ensures code == Ok ==> !s'.Active() && s'.pid == 0
  {
    hide KillStep, DetachStep, Carries;
    if !s.Active() {
      CarriesItself(s);
    } else if !s.isAttached {
      KillCarries(s, ev, code, s');
    } else {
      var c :| DetachStep(s, ev, c, s') && code == Forgiven(c);
      DetachCarries(s, ev, c, s');
    }
  }

  /** A process that is detached from leaves with its view. */
  lemma TerminateLeavesView(s: State, ev: seq<Event>, code: Code, s': State)
    requires s.Sound() && TerminateStep(s, ev, code, s')
    ensures forall i :: 0 <= i < |ev| ==> ev[i].KillEvent? || ev[i].WaitEvent? || ev[i].DetachEvent?
    ensures forall i :: 0 <= i < |ev| && ev[i].DetachEvent? ==> LeavesView(s, ev) && Unflagged(s')
  {
    hide KillStep, DetachStep, LeavesView;
    if s.Active() && !s.isAttached {
      KillCarries(s, ev, code, s');
    } else if s.Active() {
      var c :| DetachStep(s, ev, c, s') && code == Forgiven(c);
      DetachLeavesView(s, ev, c, s');
    }
  }

  /**
   If every byte that nobody stored to has been in view as it was when the process was acquired, then a process that is
   let go has all those bytes as they were.
   */
  lemma LetGoConserves(s: State, ev: seq<Event>, a: nat)
    requires s.Inv() && LeavesView(s, ev)
    requires a in ev[1].proc.image && a !in ev[1].proc.written
    ensures a in ev[1].proc.mem && ev[1].proc.mem[a] == ev[1].proc.image[a]
  {
    var s1 := s.(proc := ev[0].at);
    RanCarries(s, s1);
  }
}

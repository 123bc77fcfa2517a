/** What attaching to a process and running a program do to the debugger's state. */
module LaunchSpec {
  import opened Codes
  import opened Words
  import opened Tracee
  import opened DebuggerState
  import opened BreakpointSpec
  import opened LifecycleSpec

  // ----- planting everything in a new process -----

  function Unflag(s: State): State
    requires s.count <= |s.table|
  {
    s.(table := Disarmed(s.table, 0, s.count))
  }

  /** The flags of the last process are forgotten, and everything is planted. */
  ghost predicate ReplantStep(s: State, code: Code, s': State)
    requires s.WellFormed()
  {
    Unflag(s).WellFormed() && SetAllStep(Unflag(s), code, s')
  }

  /** All breakpoints are planted over the memory p has, and the view is that memory. */
  ghost predicate FreshlyArmed(s: State, p: Proc)
    requires s.WellFormed()
  {
    && s.View() == p.mem && s.proc == p.(mem := s.proc.mem)
    && forall i :: 0 <= i < s.count ==>
         && s.table[i].enabledPhy
         && s.table[i].addr in p.mem && s.table[i].addr in s.proc.mem
         && s.table[i].ogByte == p.mem[s.table[i].addr] && s.proc.mem[s.table[i].addr] == INT3
  }

  lemma UnflaggedView(s: State)
    requires s.WellFormed() && Unflagged(s)
    ensures s.View() == s.proc.mem && s.Intact()
  {
  }

  lemma UnflagFacts(s: State)
    requires s.WellFormed()
    ensures Unflag(s).WellFormed() && Unflagged(Unflag(s)) && SameBreakpoints(s, Unflag(s))
  {
  }

  /** A process acquired, run up to its first stop, with nothing marked as planted. */
  lemma FreshInv(s: State, acquired: Proc)
    requires s.Sound() && Unflagged(s) && Acquired(acquired) && Ran(acquired, s.proc)
    ensures s.Inv()
  {
    UnflaggedView(s);
  }

  /** Whatever flags there were: planting everything covers the process's own bytes, and its memory stays in view. */
  lemma ReplantFacts(s: State, code: Code, s': State)
    requires s.WellFormed() && ReplantStep(s, code, s')
    ensures s'.WellFormed() && SameInferior(s, s') && SameBreakpoints(s, s')
    ensures code in {Ok, PtracePeektextFailed} && s'.proc == s.proc.(mem := s'.proc.mem)
    ensures s'.View() == s.proc.mem && s'.Intact()
    ensures code == Ok ==> FreshlyArmed(s', s.proc)
  {
    var s1 := Unflag(s);
    UnflagFacts(s);
    UnflaggedView(s1);
    SetAllIsTransparent(s1, code, s');
    if code == Ok {
      hide Restored, Unflag;
      AllPlanted(s1, s');
    }
  }

  lemma AllPlanted(s: State, s': State)
    requires s.WellFormed() && Unflagged(s) && SetAllStep(s, Ok, s')
    ensures s'.count == s.count && |s'.table| == |s.table|
    ensures forall i :: 0 <= i < s.count ==>
      && s'.table[i].enabledPhy && s'.table[i].addr in s.proc.mem && s'.table[i].addr in s'.proc.mem
      && s'.table[i].ogByte == s.proc.mem[s'.table[i].addr] && s'.proc.mem[s'.table[i].addr] == INT3
  {
    var k :| PlantedUpTo(s, k, s') && k == s.count;
    forall i | 0 <= i < s.count
      ensures s'.proc.mem[s'.table[i].addr] == INT3
    {
      assert UnarmedEntry(s.table, s.count, s.table[i].addr, i);
    }
  }

  ghost predicate SameInferior(s: State, s': State) {
    s'.status == s.status && s'.pid == s.pid && s'.isAttached == s.isAttached
  }

  lemma ReplantInv(s: State, acquired: Proc, code: Code, s': State)
    requires s.Sound() && Acquired(acquired) && Ran(acquired, s.proc) && ReplantStep(s, code, s')
    ensures s'.Inv()
  {
    ReplantFacts(s, code, s');
  }

  // ----- attaching -----

  /** The inferior takes a process that has stopped as its own. */
  function Adopted(s: State, pid: int, attached: bool, w: Wait, p: Proc): State {
    s.(status := if w.Stopped? then STOPPED else RUNNING, pid := pid, isAttached := attached, proc := p)
  }

  /** What follows from the first report about a process that was attached to. */
  ghost predicate AttachedStep(s: State, pid: int, loaded: bool, w: Wait, p: Proc, code: Code, s': State)
    requires s.WellFormed()
  {
    if w.Stopped? || w.Continued? then
      if loaded then ReplantStep(Adopted(s, pid, true, w, p), code, s')
      else code == ElfFailed && s' == Adopted(s, pid, true, w, p)
    else
      && s' == s.(proc := p)
      && code == if w.Exited? then ProcExited else if w.Signaled? then ProcTerminated
                 else if w.NoChild? then ProcNotFound else WaitpidFailed
  }

  /** From PTRACE_ATTACH on. */
  ghost predicate TakeOverStep(s: State, pid: int, loaded: bool, ev: seq<Event>, code: Code, s': State)
    requires s.WellFormed()
  {
    if ev == [] then
      code in {ProcNotFound, PtraceAttachFailed} && s' == s
    else
      && |ev| == 2 && ev[0].AcquireEvent? && ev[0].pid == pid > 0 && Acquired(ev[0].proc)
      && OneWait(ev[0].proc, true, ev[1..])
      && AttachedStep(s, pid, loaded, ev[1].report, ev[1].at, code, s')
  }

  /** sylvan_attach: the old process has to be let go first. */
  ghost predicate AttachStep(s: State, pid: int, probe: Probe, loaded: bool, ev: seq<Event>, code: Code, s': State)
    requires s.WellFormed()
  {
    if probe != Exists then
      ev == [] && s' == s && code == if probe == Vanished then ProcNotFound else SystemError
    else
      exists ev1: seq<Event>, ev2: seq<Event>, c: Code, s1: State :: LetGoThenTakeOver(s, pid, loaded, ev1, ev2, c, s1, code, s') && ev == ev1 + ev2
  }

  ghost predicate LetGoThenTakeOver(s: State, pid: int, loaded: bool, ev1: seq<Event>, ev2: seq<Event>, c: Code, s1: State,
                                    code: Code, s': State)
    requires s.WellFormed()
  {
    && TerminateStep(s, ev1, c, s1) && s1.WellFormed()
    && if c != Ok then ev2 == [] && code == c && s' == s1
       else TakeOverStep(s1, pid, loaded, ev2, code, s')
  }

  lemma AdoptedFacts(s: State, pid: int, attached: bool, w: Wait, p: Proc)
    requires s.Sound() && pid > 0
    ensures Adopted(s, pid, attached, w, p).Sound() && Adopted(s, pid, attached, w, p).Active()
    ensures SameBreakpoints(s, Adopted(s, pid, attached, w, p))
  {
  }

  /**
   A process that is taken over: on success every breakpoint is planted over the bytes it had at its first stop, and
   these are in view; the invariant holds unless the symbols could not be loaded and flags were left over.
   */
  lemma TakeOverFacts(s: State, pid: int, loaded: bool, ev: seq<Event>, code: Code, s': State)
    requires s.Sound() && !s.Active() && TakeOverStep(s, pid, loaded, ev, code, s')
    ensures s'.Sound() && SameBreakpoints(s, s')
    ensures loaded || Unflagged(s) ==> s'.Inv()
    ensures code == Ok ==> |ev| == 2 && loaded && s'.pid == pid && s'.isAttached && FreshlyArmed(s', ev[1].at)
    ensures code == ElfFailed ==> |ev| == 2 && !loaded && s'.table == s.table && s'.proc == ev[1].at
    ensures s'.Active() <==> code in {Ok, ElfFailed, PtracePeektextFailed}
    ensures s'.Active() ==> |ev| == 2 && ev[1].WaitEvent? && s'.proc == ev[1].at.(mem := s'.proc.mem)
  {
    if ev != [] && (ev[1].report.Stopped? || ev[1].report.Continued?) {
      var s1 := Adopted(s, pid, true, ev[1].report, ev[1].at);
      AdoptedFacts(s, pid, true, ev[1].report, ev[1].at);
      hide Adopted, FreshlyArmed;
      if loaded {
        ReplantFacts(s1, code, s');
        ReplantInv(s1, ev[0].proc, code, s');
      } else if Unflagged(s) {
        FreshInv(s1, ev[0].proc);
      }
    }
  }

  /**
   What an attach whose symbols could not be loaded makes of leftover flags, exactly: they are harmless if and only if
   the process happens to have the breakpoint instruction, and as its own, at every flagged address not yet stored to.
   */
  lemma StaleFlagsExactly(s: State, pid: int, ev: seq<Event>, s': State)
    requires s.Sound() && !s.Active() && TakeOverStep(s, pid, false, ev, ElfFailed, s')
    ensures s'.Sound() && |ev| == 2
    ensures s'.Inv() <==> HarmlessFlags(s, ev[1].at)
  {
    var p, q := ev[0].proc, ev[1].at;
    assert s'.table == s.table && s'.count == s.count && s'.proc == q && s'.Active();
    if HarmlessFlags(s, q) {
      assert s'.Intact();
      forall a | a in q.image && a !in q.written
        ensures a in s'.View() && s'.View()[a] == q.image[a]
      {
        if i :| ArmedEntry(s'.table, 0, s'.count, a, i) {
          RestoredAt(s'.table, 0, s'.count, q.mem, i);
        } else {
          NotArmedView(s', a);
        }
      }
    }
    if s'.Inv() {
      forall i | 0 <= i < s.count && s.table[i].enabledPhy && s.table[i].addr !in q.written
        ensures s.table[i].addr in q.mem && q.mem[s.table[i].addr] == INT3 == s.table[i].ogByte
      {
        RestoredAt(s'.table, 0, s'.count, q.mem, i);
      }
    }
  }

  ghost predicate HarmlessFlags(s: State, q: Proc)
    requires s.count <= |s.table|
  {
    forall i :: 0 <= i < s.count && s.table[i].enabledPhy && s.table[i].addr !in q.written ==>
      s.table[i].addr in q.mem && q.mem[s.table[i].addr] == INT3 == s.table[i].ogByte
  }

  /** An attach keeps the invariant whenever the symbols are loaded, or no flag was set. */
  lemma AttachKeeps(s: State, pid: int, probe: Probe, loaded: bool, ev: seq<Event>, code: Code, s': State)
    requires s.Sound() && AttachStep(s, pid, probe, loaded, ev, code, s')
    ensures s'.Sound() && SameBreakpoints(s, s')
    ensures s.Inv() && (loaded || Unflagged(s)) ==> s'.Inv()
  {
    hide TerminateStep, TakeOverStep, Carries, State.Inv, Unflagged, SameBreakpoints, Distinct;
    if probe == Exists {
      var ev1: seq<Event>, ev2: seq<Event>, c: Code, s1: State :|
        LetGoThenTakeOver(s, pid, loaded, ev1, ev2, c, s1, code, s') && ev == ev1 + ev2;
      TerminateCarries(s, ev1, c, s1);
      hide AttachStep;
      if c == Ok {
        TakeOverFacts(s1, pid, loaded, ev2, code, s');
        SameTransitive(s, s1, s');
      } else {
        KeptInv(s, s1);
      }
    } else {
      SameTransitive(s, s, s);
    }
  }

  lemma SameTransitive(s: State, s1: State, s': State)
    requires s.count <= |s.table|
    ensures SameBreakpoints(s, s)
    ensures s1.count <= |s1.table| && SameBreakpoints(s, s1) && SameBreakpoints(s1, s') ==> SameBreakpoints(s, s')
  {
  }

  lemma KeptInv(s: State, s': State)
    requires s.Sound() && s'.Sound() && Carries(s, s')
    ensures s.Inv() ==> s'.Inv()
  {
    if s.Inv() && s'.Active() {
      CarriesKeepsInv(s, s');
    }
  }

  /** A successful attach has planted every breakpoint over the bytes that the process had at its first stop. */
  lemma AttachPlants(s: State, pid: int, probe: Probe, loaded: bool, ev: seq<Event>, s': State)
    requires s.Sound() && AttachStep(s, pid, probe, loaded, ev, Ok, s')
    ensures probe == Exists && loaded && s'.Sound() && s'.pid == pid && s'.isAttached && |ev| >= 2
    ensures ev[|ev| - 2].AcquireEvent? && ev[|ev| - 1].WaitEvent? && FreshlyArmed(s', ev[|ev| - 1].at)
    ensures Acquired(ev[|ev| - 2].proc) && Ran(ev[|ev| - 2].proc, ev[|ev| - 1].at)
  {
    hide TerminateStep, TakeOverStep, Carries, FreshlyArmed, SameBreakpoints, State.Inv, Acquired, Ran, Distinct;
    var ev1: seq<Event>, ev2: seq<Event>, c: Code, s1: State :|
      LetGoThenTakeOver(s, pid, loaded, ev1, ev2, c, s1, Ok, s') && ev == ev1 + ev2;
    TerminateCarries(s, ev1, c, s1);
    TakeOverFacts(s1, pid, loaded, ev2, Ok, s');
    TakenOverEvents(s1, pid, loaded, ev2, s');
    assert ev[|ev| - 2] == ev2[0] && ev[|ev| - 1] == ev2[1];
  }

  lemma TakenOverEvents(s: State, pid: int, loaded: bool, ev: seq<Event>, s': State)
    requires s.WellFormed() && TakeOverStep(s, pid, loaded, ev, Ok, s')
    ensures |ev| == 2 && ev[0].AcquireEvent? && ev[1].WaitEvent? && Acquired(ev[0].proc) && Ran(ev[0].proc, ev[1].at)
  {
    assert ev[1..][0] == ev[1];
  }

  /** An attach resumes nothing, and what it detaches from leaves with its view. */
  lemma AttachLeavesView(s: State, pid: int, probe: Probe, loaded: bool, ev: seq<Event>, code: Code, s': State)
    requires s.Sound() && AttachStep(s, pid, probe, loaded, ev, code, s')
    ensures forall i :: 0 <= i < |ev| && ev[i].DetachEvent? ==> i == 1 && LeavesView(s, ev[..2])
    ensures forall i :: 0 <= i < |ev| ==> !ev[i].ContinueEvent? && !ev[i].StepEvent?
  {
    hide TerminateStep, TakeOverStep, LeavesView, Distinct;
    if probe == Exists {
      var ev1: seq<Event>, ev2: seq<Event>, c: Code, s1: State :|
        LetGoThenTakeOver(s, pid, loaded, ev1, ev2, c, s1, code, s') && ev == ev1 + ev2;
      TerminateLeavesView(s, ev1, c, s1);
      TakeOverEvents(s1, pid, loaded, ev2, c, code, s');
      hide LetGoThenTakeOver, AttachStep;
      JoinedLeavesView(s, ev1, ev2);
    }
  }

  lemma JoinedLeavesView(s: State, ev1: seq<Event>, ev2: seq<Event>)
    requires s.count <= |s.table|
    requires forall i :: 0 <= i < |ev1| && ev1[i].DetachEvent? ==> LeavesView(s, ev1)
    requires forall i :: 0 <= i < |ev1| ==> !ev1[i].ContinueEvent? && !ev1[i].StepEvent?
    requires forall i :: 0 <= i < |ev2| ==> ev2[i].AcquireEvent? || ev2[i].WaitEvent?
    ensures forall i :: 0 <= i < |ev1 + ev2| && (ev1 + ev2)[i].DetachEvent? ==> i == 1 && LeavesView(s, (ev1 + ev2)[..2])
    ensures forall i :: 0 <= i < |ev1 + ev2| ==> !(ev1 + ev2)[i].ContinueEvent? && !(ev1 + ev2)[i].StepEvent?
  {
    hide Restored;
    var ev := ev1 + ev2;
    forall i | 0 <= i < |ev| && ev[i].DetachEvent?
      ensures i == 1 && LeavesView(s, ev[..2])
    {
      assert i < |ev1|;
      assert ev[..2] == ev1;
    }
  }

  lemma TakeOverEvents(s1: State, pid: int, loaded: bool, ev: seq<Event>, c: Code, code: Code, s': State)
    requires s1.WellFormed() && if c != Ok then ev == [] else TakeOverStep(s1, pid, loaded, ev, code, s')
    ensures forall i :: 0 <= i < |ev| ==> ev[i].AcquireEvent? || ev[i].WaitEvent?
  {
    if ev != [] {
      assert ev[1..][0] == ev[1];
    }
  }

  // ----- running -----

  /** What the parent reads from the pipe on which the child reports a failure to start, with one of three codes. */
  datatype Report = Silent | CloseFailed | ReadFailed | Unreadable | Child(code: Failure)

  type Failure = c: Code | c in {PtraceError, OutOfMemory, InvalidArgument} witness PtraceError

  /** Everything is planted, and then the program goes on for the first time. */
  ghost predicate LaunchStep(s: State, ev: seq<Event>, code: Code, s': State)
    requires s.WellFormed()
  {
    exists c: Code, s1: State :: PlantedThenGone(s, c, s1, ev, code, s')
  }

  ghost predicate PlantedThenGone(s: State, c: Code, s1: State, ev: seq<Event>, code: Code, s': State)
    requires s.WellFormed()
  {
    && ReplantStep(s, c, s1) && s1.count <= |s1.table|
    && if c != Ok then ev == [] && code == c && s' == s1 else GoStep(s1, ev, code, s')
  }

  /** handle_parent. A child that a signal kills before it stops makes the debugger fail an assertion. */
  ghost predicate ParentStep(s: State, pid: int, report: Report, ev: seq<Event>, code: Code, s': State)
    requires s.WellFormed()
  {
    if !report.Silent? then
      ev == [] && s' == s && code == if report.Child? then report.code else SystemError
    else
      && |ev| > 0 && OneWait(s.proc, true, ev[..1])
      && var w, p := ev[0].report, ev[0].at;
         if w.Stopped? || w.Continued? then LaunchStep(Adopted(s, pid, false, w, p), ev[1..], code, s')
         else
           && |ev| == 1
           && code == (if w.Exited? then ProcChild else if w.Signaled? then Aborted else WaitpidFailed)
           && s' == if w.Signaled? then s.(status := TERMINATED, pid := pid, isAttached := false, proc := p) else s.(proc := p)
  }

  /** The part of sylvan_run that starts the new process. */
  ghost predicate StartStep(s: State, piped: bool, report: Report, ev: seq<Event>, code: Code, s': State)
    requires s.WellFormed()
  {
    if !piped then ev == [] && code == PipeFailed && s' == s
    else if ev == [] then code == ForkFailed && s' == s
    else
      && ev[0].AcquireEvent? && ev[0].pid > 0 && Acquired(ev[0].proc)
      && ParentStep(s.(proc := ev[0].proc), ev[0].pid, report, ev[1..], code, s')
  }

  /** sylvan_run: the old process has to be killed first. */
  ghost predicate RunStep(s: State, hasPath: bool, executable: bool, piped: bool, report: Report, ev: seq<Event>,
                          code: Code, s': State)
    requires s.WellFormed()
  {
    if !hasPath then ev == [] && code == FileNotFound && s' == s
    else if !executable then ev == [] && code == NotExecutable && s' == s
    else exists ev1: seq<Event>, ev2: seq<Event>, c: Code, s1: State :: KilledThenStarted(s, piped, report, ev1, ev2, c, s1, code, s') && ev == ev1 + ev2
  }

  ghost predicate KilledThenStarted(s: State, piped: bool, report: Report, ev1: seq<Event>, ev2: seq<Event>, c: Code,
                                    s1: State, code: Code, s': State)
    requires s.WellFormed()
  {
    && KillStep(s, ev1, c, s1) && s1.WellFormed()
    && if c != Ok then ev2 == [] && code == c && s' == s1
       else StartStep(s1, piped, report, ev2, code, s')
  }

  /**
   A program is continued for the first time only with every breakpoint planted over the bytes it had at its first
   stop, which are in view.
   */
  lemma LaunchFacts(s: State, acquired: Proc, ev: seq<Event>, code: Code, s': State)
    requires s.Sound() && s.Active() && Acquired(acquired) && Ran(acquired, s.proc) && LaunchStep(s, ev, code, s')
    ensures s'.Inv() && SameBreakpoints(s, s') && code != Aborted
    ensures ev != [] ==> |ev| == 2 && ev[0].ContinueEvent? && ev[1].WaitEvent? && GoesArmed(s'.table, s'.count, s.proc, ev[0].from)
    ensures ev == [] <==> code in {PtracePeektextFailed, PtraceContFailed}
    ensures ev == [] ==> s'.proc == s.proc.(mem := s'.proc.mem) && s'.View() == s.proc.mem
  {
    var c, s1 :| PlantedThenGone(s, c, s1, ev, code, s');
    ReplantFacts(s, c, s1);
    ReplantInv(s, acquired, c, s1);
    hide Restored, ReplantStep, Carries, Ran, Distinct, State.Intact, State.Conserved;
    if c == Ok {
      GoFacts(s1, ev, code, s');
      KeptInv(s1, s');
    }
  }

  /** q is p with the breakpoints planted. */
  ghost predicate GoesArmed(t: Table, n: nat, p: Proc, q: Proc) {
    && n <= |t| && q == p.(mem := q.mem) && Restored(t, 0, n, q.mem) == p.mem
    && forall i :: 0 <= i < n ==>
         && t[i].enabledPhy && t[i].addr in p.mem && t[i].ogByte == p.mem[t[i].addr]
         && t[i].addr in q.mem && q.mem[t[i].addr] == INT3
  }

  /** The parent's side: it aborts exactly for a killed child, and otherwise what it leaves is sound. */
  lemma ParentKeeps(s: State, pid: int, report: Report, ev: seq<Event>, code: Code, s': State)
    requires s.Sound() && !s.Active() && pid > 0 && Acquired(s.proc) && ParentStep(s, pid, report, ev, code, s')
    ensures code == Aborted <==> report.Silent? && ev[0].report.Signaled?
    ensures code != Aborted ==> s'.Inv()
    ensures SameBreakpoints(s, s')
    ensures if report.Silent? then |ev| > 0 && OneWait(s.proc, true, ev[..1]) else ev == []
  {
    if report.Silent? && (ev[0].report.Stopped? || ev[0].report.Continued?) {
      hide LaunchStep, Ran, State.Inv, Distinct;
      AdoptedFacts(s, pid, false, ev[0].report, ev[0].at);
      LaunchFacts(Adopted(s, pid, false, ev[0].report, ev[0].at), s.proc, ev[1..], code, s');
    }
  }

  lemma ParentEvents(s: State, pid: int, report: Report, ev: seq<Event>, code: Code, s': State)
    requires s.Sound() && !s.Active() && pid > 0 && Acquired(s.proc) && ParentStep(s, pid, report, ev, code, s')
    ensures forall i :: 0 <= i < |ev| ==> ev[i].WaitEvent? || ev[i].ContinueEvent?
    ensures forall i :: 0 <= i < |ev| && ev[i].ContinueEvent? ==>
      && i == 1 && ev[0].WaitEvent? && Ran(s.proc, ev[0].at) && GoesArmed(s'.table, s'.count, ev[0].at, ev[1].from)
  {
    if report.Silent? {
      assert ev[..1][0] == ev[0];
      if ev[0].report.Stopped? || ev[0].report.Continued? {
        hide LaunchStep, GoesArmed, Ran, State.Inv, Distinct, SameBreakpoints;
        AdoptedFacts(s, pid, false, ev[0].report, ev[0].at);
        LaunchFacts(Adopted(s, pid, false, ev[0].report, ev[0].at), s.proc, ev[1..], code, s');
        assert forall i :: 1 <= i < |ev| ==> ev[i] == ev[1..][i - 1];
      }
    }
  }

  /** A run keeps the invariant unless it aborts. */
  lemma RunKeeps(s: State, hasPath: bool, executable: bool, piped: bool, report: Report, ev: seq<Event>, code: Code, s': State)
    requires s.Sound() && RunStep(s, hasPath, executable, piped, report, ev, code, s')
    ensures SameBreakpoints(s, s')
    ensures code != Aborted ==> s'.Sound() && (s.Inv() ==> s'.Inv())
  {
    hide KillStep, StartStep, Carries, State.Inv;
    if hasPath && executable {
      var ev1: seq<Event>, ev2: seq<Event>, c: Code, s1: State :|
        KilledThenStarted(s, piped, report, ev1, ev2, c, s1, code, s') && ev == ev1 + ev2;
      KillCarries(s, ev1, c, s1);
      KeptInv(s, s1);
      hide RunStep, SameBreakpoints;
      SameTable(s, s1, s');
      if c == Ok {
        StartKeeps(s1, piped, report, ev2, code, s');
      }
    } else {
      SameTable(s, s, s);
    }
  }

  lemma SameTable(s: State, s1: State, s': State)
    requires s.WellFormed() && s1.table == s.table && s1.count == s.count
    ensures SameBreakpoints(s, s1) && (SameBreakpoints(s1, s') ==> SameBreakpoints(s, s'))
  {
  }

  lemma StartKeeps(s: State, piped: bool, report: Report, ev: seq<Event>, code: Code, s': State)
    requires s.Sound() && !s.Active() && StartStep(s, piped, report, ev, code, s')
    ensures SameBreakpoints(s, s')
    ensures code != Aborted ==> s'.Sound() && s'.Inv()
  {
    hide ParentStep;
    if piped && ev != [] {
      ParentKeeps(s.(proc := ev[0].proc), ev[0].pid, report, ev[1..], code, s');
    }
  }

  /** What a run continues is a process just acquired, with the breakpoints planted over the bytes of its first stop. */
  ghost predicate LaunchesArmed(ev: seq<Event>, s': State) {
    forall i :: 0 <= i < |ev| && ev[i].ContinueEvent? ==>
      && i >= 2 && ev[i - 2].AcquireEvent? && ev[i - 1].WaitEvent?
      && Acquired(ev[i - 2].proc) && Ran(ev[i - 2].proc, ev[i - 1].at)
      && GoesArmed(s'.table, s'.count, ev[i - 1].at, ev[i].from)
  }

  /** The last two events: a process was acquired, and a signal killed it before it stopped. */
  predicate ChildKilled(ev: seq<Event>) {
    |ev| >= 2 && ev[|ev| - 2].AcquireEvent? && ev[|ev| - 1].WaitEvent? && ev[|ev| - 1].report.Signaled?
  }

  /**
   Whatever a run continues is a process it has just started, with every breakpoint planted over the bytes of its first
   stop; and it aborts exactly when the child was killed before that.
   */
  lemma RunLaunches(s: State, hasPath: bool, executable: bool, piped: bool, report: Report, ev: seq<Event>, code: Code, s': State)
    requires s.Sound() && RunStep(s, hasPath, executable, piped, report, ev, code, s')
    ensures forall i :: 0 <= i < |ev| ==> !ev[i].DetachEvent? && !ev[i].StepEvent?
    ensures LaunchesArmed(ev, s')
    ensures code == Aborted <==> ChildKilled(ev)
  {
    hide KillStep, StartStep, Carries, GoesArmed, Ran, Acquired, Distinct;
    if hasPath && executable {
      var ev1: seq<Event>, ev2: seq<Event>, c: Code, s1: State :|
        KilledThenStarted(s, piped, report, ev1, ev2, c, s1, code, s') && ev == ev1 + ev2;
      KillCarries(s, ev1, c, s1);
      if c == Ok {
        StartEvents(s1, piped, report, ev2, code, s');
      }
      hide RunStep, KilledThenStarted;
      KilledAndStarted(ev1, ev2, s');
    }
  }

  lemma KilledAndStarted(ev1: seq<Event>, ev2: seq<Event>, s': State)
    requires forall i :: 0 <= i < |ev1| ==> ev1[i].KillEvent? || ev1[i].WaitEvent?
    requires ev2 != [] ==> ev2[0].AcquireEvent?
    requires forall i :: 1 <= i < |ev2| ==> ev2[i].WaitEvent? || ev2[i].ContinueEvent?
    requires LaunchesArmed(ev2, s')
    ensures var ev := ev1 + ev2;
      && LaunchesArmed(ev, s') && (ChildKilled(ev) <==> ChildKilled(ev2))
      && forall i :: 0 <= i < |ev| ==> !ev[i].DetachEvent? && !ev[i].StepEvent?
  {
    hide GoesArmed, Ran, Acquired;
    var ev := ev1 + ev2;
    forall i | 0 <= i < |ev|
      ensures ev[i] == if i < |ev1| then ev1[i] else ev2[i - |ev1|]
    {
    }
  }

  lemma StartEvents(s: State, piped: bool, report: Report, ev: seq<Event>, code: Code, s': State)
    requires s.Sound() && !s.Active() && StartStep(s, piped, report, ev, code, s')
    ensures ev != [] ==> ev[0].AcquireEvent?
    ensures forall i :: 1 <= i < |ev| ==> ev[i].WaitEvent? || ev[i].ContinueEvent?
    ensures LaunchesArmed(ev, s')
    ensures code == Aborted <==> ChildKilled(ev)
  {
    hide ParentStep, GoesArmed, Ran, Acquired;
    if piped && ev != [] {
      ParentKeeps(s.(proc := ev[0].proc), ev[0].pid, report, ev[1..], code, s');
      ParentEvents(s.(proc := ev[0].proc), ev[0].pid, report, ev[1..], code, s');
      ParentLength(s.(proc := ev[0].proc), ev[0].pid, report, ev[1..], code, s');
      assert forall i :: 1 <= i < |ev| ==> ev[i] == ev[1..][i - 1];
    }
  }

  lemma ParentLength(s: State, pid: int, report: Report, ev: seq<Event>, code: Code, s': State)
    requires s.WellFormed() && ParentStep(s, pid, report, ev, code, s')
    ensures |ev| > 0 ==> report.Silent? && (ev[0].report.Signaled? ==> |ev| == 1)
    ensures |ev| == 0 ==> !report.Silent?
  {
  }
}

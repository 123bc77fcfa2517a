/** What resuming a stopped program does to the debugger's state, and where the program goes on. */
module SteppingSpec {
  import opened Codes
  import opened Words
  import opened Tracee
  import opened DebuggerState
  import opened BreakpointSpec
  import opened LifecycleSpec

  // ----- stepping over a breakpoint -----

  /** The planted entry, if any, right behind whose address the program stands. */
  ghost predicate HitEntry(s: State, i: int)
    requires s.count <= |s.table|
  {
    0 <= i < s.count && s.table[i].enabledPhy && s.table[i].addr == Before(s.proc.rip)
  }

  /** The program put back to the address before the one it stands at. */
  function Rewound(s: State): State {
    s.(proc := s.proc.(rip := Before(s.proc.rip), trapped := false))
  }

  /** One single step, after which entry i is planted again if the wait is reported as a success. */
  ghost predicate StepThenPlant(s: State, i: nat, ev: seq<Event>, code: Code, s': State)
    requires i < s.count <= |s.table|
  {
    if ev == [] then
      code == PtraceStepFailed && s' == s
    else
      && ev[0] == StepEvent(s.proc)
      && OneWait(Resumed(s.proc), true, ev[1..])
      && var s1 := AfterWait(Going(s), ev[1].report, ev[1].at);
         var c := StatusCode(s, true, ev[1].report, ev[1].at.rip);
         if c != Ok then code == c && s' == s1 else EnableStep(s1, i, code, s')
  }

  /** Going back, lifting the breakpoint, and the step. */
  ghost predicate StepOverStep(s: State, i: nat, ev: seq<Event>, code: Code, s': State)
    requires i < s.count <= |s.table|
  {
    || (ev == [] && code == PtraceSetregsFailed && s' == s)
    || exists c: Code, s1: State :: LiftedThenStepped(s, i, c, s1, ev, code, s')
  }

  ghost predicate LiftedThenStepped(s: State, i: nat, c: Code, s1: State, ev: seq<Event>, code: Code, s': State)
    requires i < s.count <= |s.table|
  {
    && DisableStep(Rewound(s), i, c, s1) && i < s1.count <= |s1.table|
    && if c != Ok then ev == [] && code == c && s' == s1 else StepThenPlant(s1, i, ev, code, s')
  }

  /** sylvan_handle_breakpoint_at_current_addr. */
  ghost predicate HandleStep(s: State, ev: seq<Event>, code: Code, s': State)
    requires s.count <= |s.table|
  {
    || (ev == [] && code == PtraceGetregsFailed && s' == s)
    || (ev == [] && code == BreakpointNotFound && s' == s && forall i :: !HitEntry(s, i))
    || exists i :: HitEntry(s, i) && StepOverStep(s, i, ev, code, s')
  }

  // ----- resuming -----

  /** sylvan_continue, once the process is known to be stopped. */
  ghost predicate ResumeStep(s: State, ev: seq<Event>, code: Code, s': State)
    requires s.count <= |s.table|
  {
    exists ev1: seq<Event>, ev2: seq<Event>, c: Code, s1: State ::
      HandledThenGone(s, ev1, ev2, c, s1, code, s') && ev == ev1 + ev2
  }

  ghost predicate HandledThenGone(s: State, ev1: seq<Event>, ev2: seq<Event>, c: Code, s1: State, code: Code, s': State)
    requires s.count <= |s.table|
  {
    && HandleStep(s, ev1, c, s1) && s1.count <= |s1.table|
    && if c != Ok && c != BreakpointNotFound then ev2 == [] && code == c && s' == s1
       else GoStep(s1, ev2, code, s')
  }

  /** The single step of a program that does not stand behind a planted breakpoint. */
  ghost predicate PlainStep(s: State, ev: seq<Event>, code: Code, s': State)
    requires s.count <= |s.table|
  {
    if ev == [] then code == PtraceStepFailed && s' == s
    else ev[0] == StepEvent(s.proc) && StatusStep(Going(s), true, ev[1..], code, s')
  }

  /** sylvan_stepinst, once the process is known to be stopped. */
  ghost predicate SingleStep(s: State, ev: seq<Event>, code: Code, s': State)
    requires s.count <= |s.table|
  {
    exists ev1: seq<Event>, ev2: seq<Event>, c: Code, s1: State ::
      HandledOrStepped(s, ev1, ev2, c, s1, code, s') && ev == ev1 + ev2
  }

  ghost predicate HandledOrStepped(s: State, ev1: seq<Event>, ev2: seq<Event>, c: Code, s1: State, code: Code, s': State)
    requires s.count <= |s.table|
  {
    && HandleStep(s, ev1, c, s1) && s1.count <= |s1.table|
    && if c != BreakpointNotFound then ev2 == [] && code == c && s' == s1
       else PlainStep(s1, ev2, code, s')
  }

  /** sylvan_validate_process_state: only a stopped process is resumed. */
  function Validated(c: Code, status: Status): Code {
    if c != Ok then c else if status == STOPPED then Ok else if status == RUNNING then ProcRunning else InvalidState
  }

  /** What a call that first checks that the process is stopped finds. */
  ghost predicate ValidateStep(s: State, ev: seq<Event>, code: Code, s': State)
    requires s.count <= |s.table|
  {
    exists c: Code :: StatusStep(s, false, ev, c, s') && code == Validated(c, s'.status)
  }

  /** sylvan_continue and, if single, sylvan_stepinst. */
  ghost predicate ContinueStep(s: State, single: bool, ev: seq<Event>, code: Code, s': State)
    requires s.count <= |s.table|
  {
    exists ev1: seq<Event>, ev2: seq<Event>, c: Code, mid: State ::
      ValidatedThenResumed(s, single, ev1, ev2, c, mid, code, s') && ev == ev1 + ev2
  }

  ghost predicate ValidatedThenResumed(s: State, single: bool, ev1: seq<Event>, ev2: seq<Event>, c: Code, mid: State,
                                       code: Code, s': State)
    requires s.count <= |s.table|
  {
    && ValidateStep(s, ev1, c, mid) && mid.count <= |mid.table|
    && if c != Ok then ev2 == [] && code == c && s' == mid
       else if single then SingleStep(mid, ev2, code, s')
       else ResumeStep(mid, ev2, code, s')
  }

  /** sylvan_set_regs, of which only rip plays a part here. */
  ghost predicate RegistersStep(s: State, rip: nat, ev: seq<Event>, code: Code, s': State)
    requires s.count <= |s.table|
  {
    exists c: Code, mid: State :: WaitedThenSet(s, rip, ev, c, mid, code, s')
  }

  ghost predicate WaitedThenSet(s: State, rip: nat, ev: seq<Event>, c: Code, mid: State, code: Code, s': State)
    requires s.count <= |s.table|
  {
    && StatusStep(s, false, ev, c, mid)
    && if c != Ok then code == c && s' == mid
       else if !mid.Active() then code == InvalidState && s' == mid
       else (code == PtraceSetregsFailed && s' == mid) ||
            (code == Ok && s' == mid.(proc := mid.proc.(rip := rip, trapped := false)))
  }

  // ----- what a step over a breakpoint does -----

  /**
   The step starts at the breakpoint's own address, in a memory that has the view's byte there and is otherwise
   untouched. The entry is planted again exactly when the result is a success, and then over the byte that is there
   after the step, which is saved; otherwise memory is what the step left. Nothing else in the table changes.
   */
  ghost predicate SteppedOver(s: State, i: nat, ev: seq<Event>, code: Code, s': State)
    requires s.WellFormed() && i < s.count
  {
    var addr := s.table[i].addr;
    && |ev| == 2 && ev[0].StepEvent? && ev[1].WaitEvent?
    && addr in s.proc.mem
    && ev[0].from == s.proc.(rip := addr, trapped := false, mem := s.proc.mem[addr := s.View()[addr]])
    && PlantedAgain(s, i, ev[1].report, ev[1].at, code, s')
  }

  /**
   The reports after which the breakpoint is planted again: never an ordinary stop, only that the kernel raised the trap
   away from every breakpoint, or that the program went on.
   */
  predicate ReplantedAfter(s: State, w: Wait, rip: nat)
    requires s.count <= |s.table|
  {
    w.Continued? || (w == Wait.Stopped(true, true, true) && !s.Has(Before(rip)))
  }

  lemma SuccessIsReplanted(s: State, w: Wait, rip: nat)
    requires s.count <= |s.table| && w != NoChange
    ensures StatusCode(s, true, w, rip) == Ok <==> ReplantedAfter(s, w, rip)
  {
  }

  /** What lifting the breakpoint for the step makes of the state. */
  lemma LiftForStep(s: State, i: nat, code: Code, s1: State)
    requires s.Sound() && s.Active() && HitEntry(s, i) && DisableStep(Rewound(s), i, code, s1)
    ensures s1.Sound() && Carries(s, s1) && s1.Active() && code != BreakpointNotFound && code != Aborted
    ensures s1.count == s.count && s.table[i].addr == s1.proc.rip
    ensures code == Ok ==>
      && s1.proc.rip in s.proc.mem
      && s1.proc == s.proc.(rip := s1.proc.rip, trapped := false, mem := s.proc.mem[s1.proc.rip := s.View()[s1.proc.rip]])
      && s1.table == s.table[i := s.table[i].(enabledLog := false, enabledPhy := false)]
  {
    var s0 := Rewound(s);
    RanCarries(s, s0);
    DisableIsTransparent(s0, i, code, s1);
    TransparentCarries(s0, s1);
    CarriesTransitive(s, s0, s1);
    if code == Ok {
      DisabledAt(s0, i, s1);
      RestoredAt(s.table, 0, s.count, s.proc.mem, i);
    }
    hide DisableStep, Carries, Transparent, Restored, Distinct;
  }

  lemma DisabledAt(s: State, i: nat, s1: State)
    requires s.WellFormed() && s.Active() && i < s.count && s.table[i].enabledPhy && DisableStep(s, i, Ok, s1)
    ensures s.table[i].addr in s.proc.mem
    ensures s1.proc == s.proc.(mem := s.proc.mem[s.table[i].addr := s.table[i].ogByte])
    ensures s1.table == s.table[i := s.table[i].(enabledLog := false, enabledPhy := false)]
  {
  }

  lemma StepThenPlantParts(s: State, i: nat, ev: seq<Event>, code: Code, s': State) returns (s1: State, c: Code)
    requires s.Sound() && s.Active() && i < s.count && StepThenPlant(s, i, ev, code, s') && ev != []
    ensures |ev| == 2 && ev[0] == StepEvent(s.proc) && ev[1].WaitEvent? && ev[1].report != NoChange
    ensures StatusStep(Going(s), true, ev[1..], c, s1) && c == StatusCode(s, true, ev[1].report, ev[1].at.rip)
    ensures s1.proc == ev[1].at && s1.table == s.table && s1.count == s.count
    ensures if c != Ok then code == c && s' == s1 else EnableStep(s1, i, code, s')
  {
    s1 := AfterWait(Going(s), ev[1].report, ev[1].at);
    c := StatusCode(s, true, ev[1].report, ev[1].at.rip);
    assert ev[1..][0] == ev[1];
  }

  lemma StepThenPlantCarries(s: State, i: nat, ev: seq<Event>, code: Code, s': State)
    requires s.Sound() && s.Active() && i < s.count && StepThenPlant(s, i, ev, code, s')
    ensures s'.Sound() && Carries(s, s') && code !in {BreakpointNotFound, PtraceContFailed, Aborted}
    ensures code == Ok ==> s'.Active()
    ensures ev == [] ==> s' == s && code == PtraceStepFailed
  {
    if ev == [] {
      CarriesItself(s);
    } else {
      var s1, c := StepThenPlantParts(s, i, ev, code, s');
      hide StepThenPlant, StatusStep, StatusCode, EnableStep, Carries, Distinct;
      GoingCarries(s, true, ev[1..], c, s1);
      if c == Ok {
        StatusCarries(Going(s), true, ev[1..], c, s1);
        EnableCarries(s1, i, code, s');
        CarriesTransitive(s, s1, s');
      }
    }
  }

  lemma EnableCarries(s: State, i: nat, code: Code, s': State)
    requires s.Sound() && s.Active() && i < s.count && EnableStep(s, i, code, s')
    ensures s'.Sound() && s'.Active() && Carries(s, s') && code in {Ok, PtracePeektextFailed}
  {
    EnableIsTransparent(s, i, code, s');
    TransparentCarries(s, s');
  }

  lemma EnableTable(s: State, i: nat, code: Code, s': State)
    requires s.WellFormed() && s.Active() && i < s.count && !s.table[i].enabledPhy && EnableStep(s, i, code, s')
    ensures s'.count == s.count && |s'.table| == |s.table| && s'.table == s.table[i := s'.table[i]]
    ensures s'.table[i].addr == s.table[i].addr
    ensures var addr := s.table[i].addr;
      if code == Ok then
        && addr in s.proc.mem && s'.table[i] == Breakpoint(addr, s.proc.mem[addr], true, true)
        && s'.proc == s.proc.(mem := s.proc.mem[addr := INT3])
      else
        code == PtracePeektextFailed && s'.proc == s.proc && !s'.table[i].enabledPhy && s'.table[i].enabledLog
  {
  }

  /** After the step the entry is planted again exactly as ReplantedAfter says, over the byte that is there then. */
  ghost predicate PlantedAgain(s: State, i: nat, w: Wait, p: Proc, code: Code, s': State)
    requires i < s.count <= |s.table|
  {
    var addr := s.table[i].addr;
    && s'.count == s.count && |s'.table| == |s.table| && s'.table == s.table[i := s'.table[i]]
    && s'.table[i].addr == addr
    && if code == Ok then
         && ReplantedAfter(s, w, p.rip) && addr in p.mem
         && s'.table[i] == Breakpoint(addr, p.mem[addr], true, true)
         && s'.proc == p.(mem := p.mem[addr := INT3])
       else
         && s'.proc == p && !s'.table[i].enabledPhy
         && (ReplantedAfter(s, w, p.rip) <==> s'.table[i].enabledLog)
         && (ReplantedAfter(s, w, p.rip) ==> code == PtracePeektextFailed)
  }

  lemma StepThenPlantTable(s: State, i: nat, ev: seq<Event>, code: Code, s': State)
    requires s.Sound() && s.Active() && i < s.count && !s.table[i].enabledPhy && !s.table[i].enabledLog
    requires StepThenPlant(s, i, ev, code, s') && ev != []
    ensures |ev| == 2 && ev[0] == StepEvent(s.proc) && ev[1].WaitEvent?
    ensures PlantedAgain(s, i, ev[1].report, ev[1].at, code, s')
  {
    var s1, c := StepThenPlantParts(s, i, ev, code, s');
    SuccessIsReplanted(s, ev[1].report, ev[1].at.rip);
    hide StepThenPlant, StatusCode, EnableStep, ReplantedAfter, Distinct;
    if c == Ok {
      GoingCarries(s, true, ev[1..], c, s1);
      StatusCarries(Going(s), true, ev[1..], c, s1);
      EnableTable(s1, i, code, s');
    }
  }

  lemma PlantedOver(s: State, s1: State, i: nat, w: Wait, p: Proc, code: Code, s': State)
    requires i < s.count <= |s.table| && s1.count == s.count && |s1.table| == |s.table|
    requires s1.table == s.table[i := s1.table[i]] && s1.table[i].addr == s.table[i].addr
    requires PlantedAgain(s1, i, w, p, code, s')
    ensures PlantedAgain(s, i, w, p, code, s')
  {
    assert s1.Has(Before(p.rip)) <==> s.Has(Before(p.rip)) by {
      SameHas(s, s1, Before(p.rip));
    }
    hide State.Has;
    assert s1.table[i := s'.table[i]] == s.table[i := s'.table[i]];
  }

  lemma SameHas(s: State, s1: State, addr: nat)
    requires s1.count == s.count <= |s.table| == |s1.table|
    requires forall j :: 0 <= j < s.count ==> s1.table[j].addr == s.table[j].addr
    ensures s1.Has(addr) <==> s.Has(addr)
  {
    if j :| 0 <= j < s.count && s.table[j].addr == addr {
      assert s1.table[j].addr == addr;
    }
    if j :| 0 <= j < s.count && s1.table[j].addr == addr {
      assert s.table[j].addr == addr;
    }
  }

  lemma StepOverFacts(s: State, i: nat, ev: seq<Event>, code: Code, s': State)
    requires s.Sound() && s.Active() && HitEntry(s, i) && StepOverStep(s, i, ev, code, s')
    ensures s'.Sound() && Carries(s, s') && code !in {BreakpointNotFound, PtraceContFailed, Aborted}
    ensures code == Ok ==> s'.Active()
    ensures if ev == [] then code != Ok && s'.Active() else SteppedOver(s, i, ev, code, s')
  {
    if ev == [] && code == PtraceSetregsFailed && s' == s {
      CarriesItself(s);
    } else {
      var c: Code, s1: State :| LiftedThenStepped(s, i, c, s1, ev, code, s');
      LiftForStep(s, i, c, s1);
      hide DisableStep, StepThenPlant, Carries, Rewound, PlantedAgain, Distinct, State.View, StepOverStep;
      if c == Ok {
        StepThenPlantCarries(s1, i, ev, code, s');
        CarriesTransitive(s, s1, s');
        if ev != [] {
          StepThenPlantTable(s1, i, ev, code, s');
          PlantedOver(s, s1, i, ev[1].report, ev[1].at, code, s');
        }
      }
    }
  }

  /** Some planted entry has the address right before the one the program stands at. */
  ghost predicate StandsBehind(s: State)
    requires s.count <= |s.table|
  {
    exists i :: HitEntry(s, i)
  }

  lemma HandleFacts(s: State, ev: seq<Event>, code: Code, s': State) returns (i: nat)
    requires s.Sound() && s.Active() && HandleStep(s, ev, code, s')
    ensures s'.Sound() && Carries(s, s') && code !in {PtraceContFailed, Aborted}
    ensures code == BreakpointNotFound ==> ev == [] && s' == s && !StandsBehind(s)
    ensures code == Ok ==> s'.Active() && ev != []
    ensures ev == [] ==> s'.Active() && code !in {BreakpointHit, ProcStopped, ProcExited, ProcTerminated}
    ensures ev != [] ==> i < s.count && HitEntry(s, i) && StandsBehind(s) && SteppedOver(s, i, ev, code, s')
  {
    hide StepOverStep, SteppedOver, Carries, Distinct;
    i := 0;
    if k :| HitEntry(s, k) && StepOverStep(s, k, ev, code, s') {
      i := k;
      StepOverFacts(s, i, ev, code, s');
      StepOverCodes(s, i, ev, code, s');
    } else {
      CarriesItself(s);
    }
  }

  lemma StepOverCodes(s: State, i: nat, ev: seq<Event>, code: Code, s': State)
    requires s.WellFormed() && s.Active() && HitEntry(s, i) && StepOverStep(s, i, ev, code, s')
    ensures ev == [] ==> code in {PtraceSetregsFailed, PtraceStepFailed, PtracePeektextFailed, PtracePoketextFailed}
  {
    hide DisableStep, EnableStep, StatusCode, Distinct;
    if !(ev == [] && code == PtraceSetregsFailed && s' == s) {
      var c: Code, s1: State :| LiftedThenStepped(s, i, c, s1, ev, code, s');
      DisableCodes(Rewound(s), i, c, s1);
    }
  }

  lemma DisableCodes(s: State, i: nat, code: Code, s': State)
    requires i < s.count <= |s.table| && DisableStep(s, i, code, s')
    ensures code in {Ok, PtracePeektextFailed, PtracePoketextFailed}
  {
  }

  /** A step over does succeed, here for an instruction that leaves the program where it is and traps. */
  lemma StepOverCanSucceed(s: State, i: nat) returns (ev: seq<Event>, s': State)
    requires s.Sound() && s.Active() && HitEntry(s, i) && s.table[i].ogByte != 0xFF && !s.Has(Before(s.table[i].addr))
    requires var a := s.table[i].addr; a in s.proc.mem && Mapped(s.proc.mem, a, 8) && s.proc.mem[a] == INT3
    ensures ev != [] && HandleStep(s, ev, Ok, s') && s'.proc.mem == s.proc.mem
  {
    hide StepThenPlant, FromBytes, Read, Distinct;
    var a := s.table[i].addr;
    var s0 := Rewound(s);
    PlantableByte(s.proc.mem, a);
    var s1 := s0.(table := s.table[i := s.table[i].(enabledLog := false, enabledPhy := false)],
                  proc := s0.proc.(mem := s.proc.mem[a := s.table[i].ogByte]));
    var t := s.table[i := s.table[i].(enabledLog := false)];
    assert t[i := t[i].(enabledPhy := false)] == s1.table;
    assert DisableStep(s0, i, Ok, s1);
    LiftForStep(s, i, Ok, s1);
    MappedSameKeys(s.proc.mem, s1.proc.mem, a);
    SameHas(s, s1, Before(a));
    ev, s' := StandingStepCanSucceed(s1, i);
    assert LiftedThenStepped(s, i, Ok, s1, ev, Ok, s');
    assert s.proc.mem[a := s.table[i].ogByte][a := INT3] == s.proc.mem;
  }

  lemma StandingStepCanSucceed(s: State, i: nat) returns (ev: seq<Event>, s': State)
    requires s.WellFormed() && s.Active() && i < s.count && !s.table[i].enabledPhy && !s.Has(Before(s.proc.rip))
    requires var a := s.table[i].addr; a in s.proc.mem && Mapped(s.proc.mem, a, 8) && s.proc.mem[a] != 0xFF
    requires !s.proc.trapped
    ensures ev != [] && StepThenPlant(s, i, ev, Ok, s') && s'.proc.mem == s.proc.mem[s.table[i].addr := INT3]
  {
    hide FromBytes, Read, Distinct;
    var a, w := s.table[i].addr, Wait.Stopped(true, true, true);
    var q := Resumed(s.proc).(phase := Halted);
    ev := [StepEvent(s.proc), WaitEvent(w, q)];
    assert ev[1..] == [WaitEvent(w, q)];
    var s1 := AfterWait(Going(s), w, q);
    PlantableByte(q.mem, a);
    var t := s1.table[i := s1.table[i].(enabledLog := true)];
    s' := s1.(table := t[i := t[i].(enabledPhy := true, ogByte := q.mem[a])], proc := q.(mem := q.mem[a := INT3]));
    assert EnableStep(s1, i, Ok, s');
  }

  // ----- where the program goes on -----

  /** Where the program itself would go on: a breakpoint instruction it has run into that is not its own does not count. */
  ghost function ProgramCounter(s: State): nat
    requires s.count <= |s.table|
  {
    var b := Before(s.proc.rip);
    if s.proc.trapped && !(b in s.View() && s.View()[b] == INT3) then b else s.proc.rip
  }

  /** Where it does go on when it is continued or stepped. */
  ghost function ResumeAddress(s: State): nat
    requires s.count <= |s.table|
  {
    if StandsBehind(s) then Before(s.proc.rip) else s.proc.rip
  }

  lemma BehindIsArmed(s: State)
    requires s.count <= |s.table|
    ensures StandsBehind(s) <==> s.ArmedAt(Before(s.proc.rip))
  {
    var b := Before(s.proc.rip);
    if i :| HitEntry(s, i) {
      assert ArmedEntry(s.table, 0, s.count, b, i);
    }
    if i :| ArmedEntry(s.table, 0, s.count, b, i) {
      assert HitEntry(s, i);
    }
  }

  /**
   The program goes on where it should exactly if these two agree: there is a planted breakpoint right before its rip,
   and the last thing it did was to run into a breakpoint instruction that is not its own.
   */
  lemma GoesOnRightExactly(s: State)
    requires s.WellFormed()
    ensures var b := Before(s.proc.rip);
      ResumeAddress(s) == ProgramCounter(s)
      <==> (s.ArmedAt(b) <==> s.proc.trapped && !(b in s.View() && s.View()[b] == INT3))
  {
    BehindIsArmed(s);
  }

  /**
   Right after a wait for a running program, before anything has been set or unset, a trap is never missed. So the program
   goes on where it should, unless it has stopped for another reason, or by a breakpoint instruction of its own, right
   behind a planted breakpoint.
   */
  lemma AfterStopGoesOnRight(s0: State, blocking: bool, ev: seq<Event>, code: Code, s: State)
    requires s0.Sound() && s0.Active() && s0.proc.phase == Running && StatusStep(s0, blocking, ev, code, s)
    ensures s.WellFormed()
    ensures var b := Before(s.proc.rip);
      ResumeAddress(s) == ProgramCounter(s)
      <==> (s.ArmedAt(b) ==> s.proc.trapped && !(b in s.View() && s.View()[b] == INT3))
  {
    GoesOnRightExactly(s);
    var b := Before(s.proc.rip);
    if s.proc.trapped && !s.ArmedAt(b) {
      NotArmedView(s, b);
    }
  }

  /** A breakpoint set right behind a stopped program that has not run into it: the next resume goes one byte back. */
  lemma SetBehindGoesBack(s: State, s': State)
    requires s.WellFormed() && s.Active() && !s.proc.trapped && SlotClean(s, Before(s.proc.rip))
    requires SetStep(s, Before(s.proc.rip), Ok, s')
    ensures s'.WellFormed() && ResumeAddress(s') == Before(s.proc.rip) != s.proc.rip == ProgramCounter(s')
  {
    SetIsTransparent(s, Before(s.proc.rip), Ok, s');
    assert HitEntry(s', s.count);
  }

  /** A breakpoint disabled after it was hit: the next resume goes on in the middle of the instruction it covered. */
  lemma DisableAfterHitGoesAstray(s: State, i: nat, s': State)
    requires s.WellFormed() && s.Active() && HitEntry(s, i) && s.proc.trapped && s.table[i].ogByte != INT3
    requires FindAnd(s, s.table[i].addr, false, Ok, s')
    ensures s'.WellFormed() && ResumeAddress(s') == s.proc.rip != Before(s.proc.rip) == ProgramCounter(s')
  {
    assert s.Has(s.table[i].addr);
    var j :| 0 <= j < s.count && s.table[j].addr == s.table[i].addr && DisableStep(s, j, Ok, s');
    assert j == i;
    DisableIsTransparent(s, i, Ok, s');
    if s.table[i].addr in s.proc.mem {
      RestoredAt(s.table, 0, s.count, s.proc.mem, i);
    }
    assert forall k :: 0 <= k < s'.count && k != i ==> s'.table[k].addr != s.table[i].addr;
    assert !StandsBehind(s');
  }

  /**
   What the program fetches there: its own byte exactly if no breakpoint is planted at its rip, or its own byte is that
   very instruction.
   */
  lemma FetchesOwnByteExactly(s: State)
    requires s.WellFormed() && s.Intact() && s.proc.rip in s.proc.mem && s.proc.rip !in s.proc.written
    ensures s.proc.mem[s.proc.rip] == s.View()[s.proc.rip] <==> !s.ArmedAt(s.proc.rip) || s.View()[s.proc.rip] == INT3
  {
    if i :| ArmedEntry(s.table, 0, s.count, s.proc.rip, i) {
      RestoredAt(s.table, 0, s.count, s.proc.mem, i);
    } else {
      NotArmedView(s, s.proc.rip);
    }
  }

  /** A breakpoint set where a stopped program stands is what a plain step then executes. */
  lemma SetHereIsFetched(s: State, s': State)
    requires s.WellFormed() && s.Active() && SlotClean(s, s.proc.rip) && SetStep(s, s.proc.rip, Ok, s')
    requires s.proc.rip in s.View() && s.View()[s.proc.rip] != INT3
    ensures s'.WellFormed() && s'.proc.rip == s.proc.rip && s.proc.rip in s'.proc.mem
    ensures s'.proc.mem[s.proc.rip] == INT3 != s'.View()[s.proc.rip]
  {
    SetIsTransparent(s, s.proc.rip, Ok, s');
  }

  // ----- what a continue or a single step resumes -----

  /** Every breakpoint planted in s, and not stored to since, is planted in what the program goes on from. */
  ghost predicate GoesOnArmed(s: State, from: Proc)
    requires s.count <= |s.table|
  {
    s.Intact() ==>
      forall i :: 0 <= i < s.count && s.table[i].enabledPhy && s.table[i].addr !in from.written ==>
        s.table[i].addr in from.mem && from.mem[s.table[i].addr] == INT3
  }

  /** The program, which stood behind no planted breakpoint, was resumed as it was, and waited for. */
  ghost predicate ResumedHere(s: State, single: bool, ev: seq<Event>, s': State) {
    && |ev| == 2 && ev[0] == (if single then StepEvent(s.proc) else ContinueEvent(s.proc)) && ev[1].WaitEvent?
    && s'.proc == ev[1].at && s'.table == s.table && s'.count == s.count
  }

  /**
   The program, which stood right behind entry i, was stepped over it, and that was all; or that succeeded, and it was
   continued from there and waited for.
   */
  ghost predicate ResumedOver(s: State, i: nat, single: bool, ev: seq<Event>, code: Code, s': State)
    requires s.WellFormed() && i < s.count
  {
    || (SteppedOver(s, i, ev, code, s') && (code == Ok ==> single))
    || (code == PtraceContFailed && !single && SteppedOver(s, i, ev, Ok, s'))
    || (!single && exists s1: State :: SteppedThenGone(s, i, s1, ev, s'))
  }

  ghost predicate SteppedThenGone(s: State, i: nat, s1: State, ev: seq<Event>, s': State)
    requires s.WellFormed() && i < s.count
  {
    && |ev| == 4 && SteppedOver(s, i, ev[..2], Ok, s1) && Carries(s, s1)
    && ev[2] == ContinueEvent(s1.proc) && ev[3].WaitEvent?
    && s'.proc == ev[3].at && s'.table == s1.table && s'.count == s1.count
  }

  /** What is resumed when anything is. */
  ghost predicate Resumes(s: State, single: bool, ev: seq<Event>, code: Code, s': State)
    requires s.WellFormed()
  {
    if StandsBehind(s) then exists i :: HitEntry(s, i) && ResumedOver(s, i, single, ev, code, s')
    else ResumedHere(s, single, ev, s')
  }

  lemma SteppedOverArmed(s: State, i: nat, ev: seq<Event>, s1: State)
    requires s.WellFormed() && HitEntry(s, i) && SteppedOver(s, i, ev, Ok, s1) && Carries(s, s1)
    ensures GoesOnArmed(s, s1.proc)
  {
    forall j | 0 <= j < s.count && s.table[j].enabledPhy
      ensures s1.table[j].enabledPhy && s1.table[j].addr == s.table[j].addr
    {
      assert j != i ==> s1.table[j] == s.table[j];
    }
  }

  /** All that was continued went on with every breakpoint planted. */
  ghost predicate AllGoOnArmed(s: State, ev: seq<Event>)
    requires s.count <= |s.table|
  {
    forall k :: 0 <= k < |ev| && ev[k].ContinueEvent? ==> GoesOnArmed(s, ev[k].from)
  }

  lemma SteppedOverEvents(s: State, i: nat, ev: seq<Event>, code: Code, s': State)
    requires s.WellFormed() && i < s.count && SteppedOver(s, i, ev, code, s')
    ensures |ev| == 2 && ev[0].StepEvent? && ev[1].WaitEvent?
    ensures AllGoOnArmed(s, ev)
  {
  }

  /** What is said of the events of a continue or single step once the process is known to be stopped. */
  ghost predicate ResumedOnly(s: State, single: bool, ev: seq<Event>, code: Code, s': State)
    requires s.WellFormed()
  {
    && (if ev == [] then code !in {Ok, BreakpointHit, ProcStopped, ProcExited, ProcTerminated}
        else Resumes(s, single, ev, code, s'))
    && AllGoOnArmed(s, ev)
  }

  lemma NothingResumed(s: State, single: bool, code: Code, s': State)
    requires s.WellFormed() && code !in {Ok, BreakpointHit, ProcStopped, ProcExited, ProcTerminated}
    ensures ResumedOnly(s, single, [], code, s')
  {
  }

  lemma OnlySteppedOver(s: State, i: nat, single: bool, ev: seq<Event>, code: Code, s': State)
    requires s.WellFormed() && i < s.count && HitEntry(s, i) && StandsBehind(s) && SteppedOver(s, i, ev, code, s')
    requires code == Ok ==> single
    ensures ResumedOnly(s, single, ev, code, s')
  {
    SteppedOverEvents(s, i, ev, code, s');
    hide SteppedOver, HitEntry, StandsBehind;
    assert ResumedOver(s, i, single, ev, code, s');
  }

  lemma GoneFromHere(s: State, ev: seq<Event>, code: Code, s': State)
    requires s.Sound() && s.Active() && !StandsBehind(s) && GoStep(s, ev, code, s')
    ensures s'.Sound() && Carries(s, s') && code != Aborted && ResumedOnly(s, false, ev, code, s')
  {
    hide GoStep, Carries, StandsBehind;
    GoFacts(s, ev, code, s');
  }

  lemma SteppedFromHere(s: State, ev: seq<Event>, code: Code, s': State)
    requires s.Sound() && s.Active() && !StandsBehind(s) && PlainStep(s, ev, code, s')
    ensures s'.Sound() && Carries(s, s') && code != Aborted && ResumedOnly(s, true, ev, code, s')
  {
    hide Carries, StandsBehind;
    if ev == [] {
      CarriesItself(s);
    } else {
      GoingCarries(s, true, ev[1..], code, s');
      assert ev[1..][0] == ev[1];
      hide PlainStep;
      assert ResumedHere(s, true, ev, s');
    }
  }

  lemma GoneAfterStep(s: State, i: nat, ev1: seq<Event>, ev2: seq<Event>, s1: State, code: Code, s': State)
    requires s.Sound() && i < s.count && HitEntry(s, i) && StandsBehind(s)
    requires SteppedOver(s, i, ev1, Ok, s1) && Carries(s, s1)
    requires s1.Sound() && s1.Active() && GoStep(s1, ev2, code, s')
    ensures s'.Sound() && Carries(s, s') && code != Aborted && ResumedOnly(s, false, ev1 + ev2, code, s')
  {
    hide GoStep, SteppedOver, Carries, State.Intact, Distinct, HitEntry, StandsBehind, GoesOnArmed;
    GoFacts(s1, ev2, code, s');
    CarriesTransitive(s, s1, s');
    SteppedOverArmed(s, i, ev1, s1);
    SteppedOverEvents(s, i, ev1, Ok, s1);
    var ev := ev1 + ev2;
    assert ev[..2] == ev1;
    if ev2 == [] {
      assert ev == ev1;
      assert ResumedOver(s, i, false, ev, code, s');
    } else {
      assert ev[2] == ev2[0] && ev[3] == ev2[1];
      assert SteppedThenGone(s, i, s1, ev, s');
      assert ResumedOver(s, i, false, ev, code, s');
    }
  }

  lemma ResumeFacts(s: State, ev: seq<Event>, code: Code, s': State)
    requires s.Sound() && s.Active() && ResumeStep(s, ev, code, s')
    ensures s'.Sound() && Carries(s, s') && code != Aborted && ResumedOnly(s, false, ev, code, s')
  {
    hide HandleStep, GoStep, Carries, SteppedOver, HitEntry, StandsBehind, Distinct, ResumedOnly;
    var ev1: seq<Event>, ev2: seq<Event>, c: Code, s1: State :|
      HandledThenGone(s, ev1, ev2, c, s1, code, s') && ev == ev1 + ev2;
    var i := HandleFacts(s, ev1, c, s1);
    hide ResumeStep;
    if c == BreakpointNotFound {
      assert ev == ev2;
      GoneFromHere(s, ev2, code, s');
    } else if c == Ok {
      GoneAfterStep(s, i, ev1, ev2, s1, code, s');
    } else {
      assert ev == ev1;
      if ev1 == [] {
        NothingResumed(s, false, code, s');
      } else {
        OnlySteppedOver(s, i, false, ev1, c, s1);
      }
    }
  }

  lemma SingleStepFacts(s: State, ev: seq<Event>, code: Code, s': State)
    requires s.Sound() && s.Active() && SingleStep(s, ev, code, s')
    ensures s'.Sound() && Carries(s, s') && code != Aborted && ResumedOnly(s, true, ev, code, s')
  {
    hide HandleStep, PlainStep, Carries, SteppedOver, HitEntry, StandsBehind, Distinct, ResumedOnly;
    var ev1: seq<Event>, ev2: seq<Event>, c: Code, s1: State :|
      HandledOrStepped(s, ev1, ev2, c, s1, code, s') && ev == ev1 + ev2;
    var i := HandleFacts(s, ev1, c, s1);
    hide SingleStep;
    if c == BreakpointNotFound {
      assert ev == ev2;
      SteppedFromHere(s, ev2, code, s');
    } else {
      assert ev == ev1;
      if ev1 == [] {
        NothingResumed(s, true, code, s');
      } else {
        OnlySteppedOver(s, i, true, ev1, c, s1);
      }
    }
  }

  /** What is first resumed starts at ResumeAddress, whichever way it is resumed. */
  lemma ResumesAtAddress(s: State, single: bool, ev: seq<Event>, code: Code, s': State)
    requires s.WellFormed() && Resumes(s, single, ev, code, s')
    ensures |ev| >= 2 && (ev[0].StepEvent? || ev[0].ContinueEvent?) && ev[0].from.rip == ResumeAddress(s)
  {
    if StandsBehind(s) {
      var i :| HitEntry(s, i) && ResumedOver(s, i, single, ev, code, s');
      if s1: State :| SteppedThenGone(s, i, s1, ev, s') {
        assert ev[..2][0] == ev[0];
      }
    }
  }

  /**
   A continue or a single step. `mid` is the state found by the wait it begins with. Only a stopped process is resumed,
   and then what is resumed, and what is reported, is as ResumedOnly says.
   */
  ghost predicate Continues(s: State, single: bool, mid: State, ev: seq<Event>, code: Code, s': State)
    requires s.WellFormed()
  {
    && mid.Sound() && Carries(s, mid) && mid.table == s.table && mid.count == s.count
    && if ev == [] then s.pid <= 0 && s' == mid == s && code == InvalidState
       else
         && ev[0].WaitEvent? && mid == AfterWait(s, ev[0].report, ev[0].at)
         && if mid.status == STOPPED && StatusCode(s, false, ev[0].report, ev[0].at.rip) == Ok then
              ResumedOnly(mid, single, ev[1..], code, s')
            else
              |ev| == 1 && s' == mid && code != Ok
  }

  lemma ContinueFacts(s: State, single: bool, ev: seq<Event>, code: Code, s': State) returns (mid: State)
    requires s.Sound() && ContinueStep(s, single, ev, code, s')
    ensures s'.Sound() && Carries(s, s') && code != Aborted && Continues(s, single, mid, ev, code, s')
  {
    hide SingleStep, ResumeStep, Carries, ResumedOnly, Distinct, StatusCode, AfterWait, ValidateStep;
    var ev1: seq<Event>, ev2: seq<Event>, c: Code, m: State :|
      ValidatedThenResumed(s, single, ev1, ev2, c, m, code, s') && ev == ev1 + ev2;
    mid := m;
    ValidateFacts(s, ev1, c, mid);
    hide ContinueStep;
    if c == Ok {
      if single {
        SingleStepFacts(mid, ev2, code, s');
      } else {
        ResumeFacts(mid, ev2, code, s');
      }
      CarriesTransitive(s, mid, s');
      assert ev[1..] == ev2;
    } else {
      assert ev == ev1;
    }
  }

  lemma OneReport(s: State, ev: seq<Event>, c: Code, mid: State)
    requires s.count <= |s.table| && StatusStep(s, false, ev, c, mid)
    ensures if ev == [] then s.pid <= 0 && mid == s && c == InvalidState
            else |ev| == 1 && ev[0].WaitEvent? && mid == AfterWait(s, ev[0].report, ev[0].at) &&
                 c == StatusCode(s, false, ev[0].report, ev[0].at.rip)
    ensures c != Aborted && (s.pid <= 0 <==> ev == [])
  {
  }

  lemma ValidateFacts(s: State, ev: seq<Event>, code: Code, mid: State)
    requires s.Sound() && ValidateStep(s, ev, code, mid)
    ensures mid.Sound() && Carries(s, mid) && mid.table == s.table && mid.count == s.count
    ensures if ev == [] then s.pid <= 0 && mid == s && code == InvalidState
            else |ev| == 1 && ev[0].WaitEvent? && mid == AfterWait(s, ev[0].report, ev[0].at)
    ensures code == Ok <==> ev != [] && mid.status == STOPPED && StatusCode(s, false, ev[0].report, ev[0].at.rip) == Ok
    ensures code != Aborted
  {
    hide StatusStep, Carries, StatusCode, AfterWait, State.View, State.Intact, Distinct;
    var c: Code :| StatusStep(s, false, ev, c, mid) && code == Validated(c, mid.status);
    StatusCarries(s, false, ev, c, mid);
    OneReport(s, ev, c, mid);
  }
}

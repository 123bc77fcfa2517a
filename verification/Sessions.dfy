/** Whole debugging sessions: any sequence of the library's calls, from a new inferior on. */
module Sessions {
  import opened Codes
  import opened Words
  import opened Tracee
  import opened DebuggerState
  import opened BreakpointSpec
  import opened BreakpointMap
  import opened LifecycleSpec
  import opened LaunchSpec
  import opened SteppingSpec
  import opened MemorySpec
  import opened CallAnswers
  import opened LifecycleAnswers
  import opened BreakpointAnswers
  import opened Breakpoints
  import opened Inferiors

  /**
   A call of the library, with what the operating system answers where that is not the traced process's business:
   whether a file can be executed, a pipe be made, the symbols be loaded, and the like.
   */
  datatype Command =
    | BreakpointCall(op: Operation)
    | RunCall(executable: bool, piped: bool, report: Report)
    | AttachCall(pid: int, probe: Probe, loaded: bool)
    | DetachCall
    | ContinueCall
    | StepCall
    | RegistersCall(rip: nat)
    | WriteCall(addr: nat, data: seq<byte>)

  /** Addresses and sizes fit in 64 bits, and only the calls a user can make are made. */
  predicate Callable(c: Command) {
    match c
    case BreakpointCall(op) => op.Enable? || op.Disable? || op.Set? || op.Unset? || op.ClearAll?
    case WriteCall(addr, data) => addr < SPACE && |data| < SPACE
    case _ => true
  }

  /** What a call does, with what it has the kernel do. */
  ghost predicate CallStep(s: State, c: Command, ev: seq<Event>, code: Code, s': State)
    requires Callable(c) && s.WellFormed()
  {
    match c
    case BreakpointCall(op) => ev == [] && Step(s, op, code, s')
    case RunCall(executable, piped, report) =>
      exists hasPath: bool :: RunStep(s, hasPath, executable, piped, report, ev, code, s')
    case AttachCall(pid, probe, loaded) => AttachStep(s, pid, probe, loaded, ev, code, s')
    case DetachCall => DetachStep(s, ev, code, s')
    case ContinueCall => ContinueStep(s, false, ev, code, s')
    case StepCall => ContinueStep(s, true, ev, code, s')
    case RegistersCall(rip) => RegistersStep(s, rip, ev, code, s')
    case WriteCall(addr, data) => ev == [] && WriteStep(s, addr, data, code, s')
  }

  /** The debugger failed an assertion. */
  predicate Died(c: Command, code: Code) {
    c.RunCall? && code == Aborted
  }

  /**
   What a caller can see before a call: it does not take over a leftover physical flag, neither by a set in a live process
   nor by an attach that leaves flags as they are because the symbols cannot be loaded.
   */
  predicate CleanCall(s: State, c: Command)
    requires s.count <= |s.table|
  {
    match c
    case BreakpointCall(op) => s.Active() && op.Set? ==> SlotClean(s, op.addr)
    case AttachCall(_, _, loaded) => loaded || Unflagged(s)
    case _ => true
  }

  // ----- what one call keeps -----

  lemma PointKeepsInferior(s: State, i: nat, code: Code, s': State)
    requires i < s.count <= |s.table| && (EnableStep(s, i, code, s') || DisableStep(s, i, code, s'))
    ensures SameInferior(s, s')
  {
  }

  lemma SetKeepsInferior(s: State, addr: nat, code: Code, s': State)
    requires s.WellFormed() && SetStep(s, addr, code, s')
    ensures SameInferior(s, s')
  {
  }

  lemma UnsetKeepsInferior(s: State, addr: nat, code: Code, s': State)
    requires s.WellFormed() && UnsetStep(s, addr, code, s')
    ensures SameInferior(s, s')
  {
    hide DisableStep;
    if s.Has(addr) {
      var i, s1 :| UnsetAt(s, addr, i, code, s1, s');
      PointKeepsInferior(s, i, code, s1);
    }
  }

  lemma StepKeepsInferior(s: State, op: Operation, code: Code, s': State)
    requires Step(s, op, code, s') && Callable(BreakpointCall(op))
    ensures SameInferior(s, s')
  {
    hide EnableStep, DisableStep, SetStep, UnsetStep, Distinct, Restored, Disarmed;
    match op {
      case Set(addr) => SetKeepsInferior(s, addr, code, s');
      case Unset(addr) => UnsetKeepsInferior(s, addr, code, s');
      case Enable(addr) =>
        if s.Has(addr) {
          var i :| 0 <= i < s.count && s.table[i].addr == addr && EnableStep(s, i, code, s');
          PointKeepsInferior(s, i, code, s');
        }
      case Disable(addr) =>
        if s.Has(addr) {
          var i :| 0 <= i < s.count && s.table[i].addr == addr && DisableStep(s, i, code, s');
          PointKeepsInferior(s, i, code, s');
        }
      case _ =>
    }
  }

  lemma BreakpointCallKeeps(s: State, op: Operation, code: Code, s': State)
    requires s.Sound() && Step(s, op, code, s') && Callable(BreakpointCall(op))
    ensures s'.Sound() && (s.Inv() && CleanCall(s, BreakpointCall(op)) ==> s'.Inv())
  {
    StepKeepsWellFormed(s, op, code, s');
    StepKeepsInferior(s, op, code, s');
    hide Step, Distinct;
    if s.Active() && s.Inv() && CleanCall(s, BreakpointCall(op)) {
      StepIsTransparent(s, op, code, s');
      TransparentCarries(s, s');
      CarriesKeepsInv(s, s');
    }
  }

  lemma RegistersKeep(s: State, rip: nat, ev: seq<Event>, code: Code, s': State)
    requires s.Sound() && RegistersStep(s, rip, ev, code, s')
    ensures s'.Sound() && Carries(s, s') && |ev| <= 1 && (ev != [] ==> ev[0].WaitEvent?)
    ensures code == Ok ==> s'.Active() && s'.proc.rip == rip
  {
    var c: Code, mid: State :| WaitedThenSet(s, rip, ev, c, mid, code, s');
    StatusCarries(s, false, ev, c, mid);
    if s' != mid {
      RanCarries(mid, s');
      CarriesTransitive(s, mid, s');
    }
  }

  /** Every call keeps what holds between calls, and a clean one keeps the invariant. */
  lemma CallKeeps(s: State, c: Command, ev: seq<Event>, code: Code, s': State)
    requires s.Sound() && Callable(c) && CallStep(s, c, ev, code, s') && !Died(c, code)
    ensures s'.Sound() && (s.Inv() && CleanCall(s, c) ==> s'.Inv())
  {
    hide RunStep, AttachStep, DetachStep, ContinueStep, RegistersStep, Step, Carries, State.Inv, Distinct, SlotClean, Unflagged;
    match c {
      case BreakpointCall(op) =>
        BreakpointCallKeeps(s, op, code, s');
      case RunCall(executable, piped, report) =>
        var hasPath: bool :| RunStep(s, hasPath, executable, piped, report, ev, code, s');
        RunKeeps(s, hasPath, executable, piped, report, ev, code, s');
      case AttachCall(pid, probe, loaded) =>
        AttachKeeps(s, pid, probe, loaded, ev, code, s');
      case DetachCall =>
        DetachCarries(s, ev, code, s');
        KeptInv(s, s');
      case ContinueCall =>
        var _ := ContinueFacts(s, false, ev, code, s');
        KeptInv(s, s');
      case StepCall =>
        var _ := ContinueFacts(s, true, ev, code, s');
        KeptInv(s, s');
      case RegistersCall(rip) =>
        RegistersKeep(s, rip, ev, code, s');
        KeptInv(s, s');
      case WriteCall(addr, data) =>
        WriteKeeps(s, addr, data, code, s');
        KeptInv(s, s');
    }
  }

  lemma WriteKeeps(s: State, addr: nat, data: seq<byte>, code: Code, s': State)
    requires s.Sound() && addr < SPACE && WriteStep(s, addr, data, code, s')
    ensures s'.Sound() && Carries(s, s')
  {
    var done: nat :| StoredUpTo(s, addr, data, done, code, s');
    StoredCarries(s, addr, data[..done], s');
  }

  // ----- sessions -----

  /** One call of a session, with its result and what it had the kernel do. */
  datatype Turn = Turn(call: Command, code: Code, events: seq<Event>)

  /** A new inferior: no process, no breakpoint, every slot clean. */
  ghost predicate New(s: State) {
    s.Inv() && !s.Active() && s.count == 0 && forall i :: 0 <= i < |s.table| ==> !s.table[i].enabledPhy
  }

  /** A session: the states, and between any two of them a call. After the call in which the debugger died there is none. */
  ghost predicate Trace(states: seq<State>, turns: seq<Turn>) {
    && |states| == |turns| + 1 && New(states[0])
    && forall k :: 0 <= k < |turns| ==> Follows(states[k], turns[k], states[k + 1]) && (Died(turns[k].call, turns[k].code) ==> k + 1 == |turns|)
  }

  ghost predicate Follows(s: State, turn: Turn, s': State) {
    s.WellFormed() && Callable(turn.call) && CallStep(s, turn.call, turn.events, turn.code, s')
  }

  /** The calls before the k-th are clean. */
  ghost predicate CleanUpTo(states: seq<State>, turns: seq<Turn>, k: nat)
    requires |states| == |turns| + 1 && k <= |turns|
  {
    forall j :: 0 <= j < k ==> states[j].WellFormed() && CleanCall(states[j], turns[j].call)
  }

  predicate Ended(turns: seq<Turn>) {
    turns != [] && Died(turns[|turns| - 1].call, turns[|turns| - 1].code)
  }

  /** As long as the debugger lives, the table is well formed, and the inferior has a process exactly while active. */
  lemma {:induction false} SessionIsSound(states: seq<State>, turns: seq<Turn>, k: nat)
    requires Trace(states, turns) && k <= |turns| && (k == |turns| ==> !Ended(turns))
    ensures states[k].Sound()
  {
    hide CallStep, Distinct;
    if k > 0 {
      SessionIsSound(states, turns, k - 1);
      assert Follows(states[k - 1], turns[k - 1], states[k]);
      CallKeeps(states[k - 1], turns[k - 1].call, turns[k - 1].events, turns[k - 1].code, states[k]);
    }
  }

  /**
   As long as the calls are clean, every breakpoint that is marked as planted is planted, and every byte of the program
   that neither it nor the user stored to is seen as it was when the process was acquired.
   */
  lemma {:induction false} CleanSessionKeepsInv(states: seq<State>, turns: seq<Turn>, k: nat)
    requires Trace(states, turns) && k <= |turns| && (k == |turns| ==> !Ended(turns)) && CleanUpTo(states, turns, k)
    ensures states[k].Inv()
  {
    hide CallStep, Distinct, CleanCall, State.Intact, State.Conserved;
    if k > 0 {
      CleanSessionKeepsInv(states, turns, k - 1);
      assert Follows(states[k - 1], turns[k - 1], states[k]);
      CallKeeps(states[k - 1], turns[k - 1].call, turns[k - 1].events, turns[k - 1].code, states[k]);
    }
  }

  // ----- what is let go, and what goes on -----

  /** A process let go whose bytes are as they were when it was acquired, but for those stored to. */
  predicate LeftAsFound(p: Proc) {
    forall a :: a in p.image && a !in p.written ==> a in p.mem && p.mem[a] == p.image[a]
  }

  lemma LeavesAsFound(s: State, ev: seq<Event>)
    requires s.Inv() && LeavesView(s, ev)
    ensures LeftAsFound(ev[1].proc)
  {
    forall a | a in ev[1].proc.image && a !in ev[1].proc.written
      ensures a in ev[1].proc.mem && ev[1].proc.mem[a] == ev[1].proc.image[a]
    {
      LetGoConserves(s, ev, a);
    }
  }

  lemma ContinueEvents(s: State, single: bool, ev: seq<Event>, code: Code, s': State)
    requires s.Sound() && ContinueStep(s, single, ev, code, s')
    ensures forall i :: 0 <= i < |ev| ==> ev[i].WaitEvent? || ev[i].StepEvent? || ev[i].ContinueEvent?
    ensures AllGoOnArmed(s, ev)
  {
    hide ContinueStep, StatusCode, AfterWait, Distinct, ResumedOnly, AllGoOnArmed;
    var mid := ContinueFacts(s, single, ev, code, s');
    if |ev| <= 1 {
      NoneGoOn(s, ev);
    } else {
      ShapeOf(mid, single, ev[1..], code, s');
      hide Continues;
      GoOnArmedFromStart(s, mid, ev);
      assert forall i :: 1 <= i < |ev| ==> ev[i] == ev[1..][i - 1];
    }
  }

  lemma NoneGoOn(s: State, ev: seq<Event>)
    requires s.count <= |s.table| && forall i :: 0 <= i < |ev| ==> ev[i].WaitEvent?
    ensures AllGoOnArmed(s, ev)
  {
  }

  lemma GoOnArmedFromStart(s: State, mid: State, ev: seq<Event>)
    requires s.WellFormed() && mid.WellFormed() && mid.table == s.table && mid.count == s.count
    requires (s.Intact() ==> mid.Intact()) && ev != [] && ev[0].WaitEvent? && AllGoOnArmed(mid, ev[1..])
    ensures AllGoOnArmed(s, ev)
  {
    hide State.Intact;
    assert forall i :: 1 <= i < |ev| ==> ev[i] == ev[1..][i - 1];
  }

  lemma ShapeOf(mid: State, single: bool, ev: seq<Event>, code: Code, s': State)
    requires mid.WellFormed() && ResumedOnly(mid, single, ev, code, s')
    ensures forall i :: 0 <= i < |ev| ==> ev[i].WaitEvent? || ev[i].StepEvent? || ev[i].ContinueEvent?
    ensures AllGoOnArmed(mid, ev)
  {
    hide State.Intact, PlantedAgain, GoesOnArmed, Distinct;
    if ev != [] && StandsBehind(mid) {
      var i :| HitEntry(mid, i) && ResumedOver(mid, i, single, ev, code, s');
      if s1: State :| SteppedThenGone(mid, i, s1, ev, s') {
        assert ev[..2][0] == ev[0] && ev[..2][1] == ev[1];
      }
    }
  }

  /** Whatever call detaches from a process, and an attach may be one: in a clean session it leaves it as it found it. */
  lemma DetachLeavesAsFound(s: State, c: Command, ev: seq<Event>, code: Code, s': State, i: nat)
    requires s.Inv() && Callable(c) && CallStep(s, c, ev, code, s') && i < |ev| && ev[i].DetachEvent?
    ensures LeftAsFound(ev[i].proc)
  {
    hide RunStep, AttachStep, DetachStep, ContinueStep, RegistersStep, Step, Carries, LeavesView, LeftAsFound, Distinct;
    match c {
      case RunCall(executable, piped, report) =>
        var hasPath: bool :| RunStep(s, hasPath, executable, piped, report, ev, code, s');
        RunLaunches(s, hasPath, executable, piped, report, ev, code, s');
      case AttachCall(pid, probe, loaded) =>
        AttachLeavesView(s, pid, probe, loaded, ev, code, s');
        LeavesAsFound(s, ev[..2]);
      case DetachCall =>
        DetachLeavesView(s, ev, code, s');
        LeavesAsFound(s, ev);
      case ContinueCall =>
        ContinueEvents(s, false, ev, code, s');
      case StepCall =>
        ContinueEvents(s, true, ev, code, s');
      case RegistersCall(rip) =>
        RegistersKeep(s, rip, ev, code, s');
      case _ =>
    }
  }

  /** In a clean session every process that is detached from is left with every byte as it was, but for those stored to. */
  lemma SessionLeavesAsFound(states: seq<State>, turns: seq<Turn>, k: nat, i: nat)
    requires Trace(states, turns) && k < |turns| && CleanUpTo(states, turns, k)
    requires i < |turns[k].events| && turns[k].events[i].DetachEvent?
    ensures LeftAsFound(turns[k].events[i].proc)
  {
    hide CallStep, Distinct, LeftAsFound;
    CleanSessionKeepsInv(states, turns, k);
    assert Follows(states[k], turns[k], states[k + 1]);
    DetachLeavesAsFound(states[k], turns[k].call, turns[k].events, turns[k].code, states[k + 1], i);
  }

  /**
   In a clean session, whenever the program is continued, it has every breakpoint in it: after a run each one there is,
   otherwise each one that was planted before the call. Only bytes stored to are exempt.
   */
  lemma SessionGoesArmed(states: seq<State>, turns: seq<Turn>, k: nat, i: nat, j: nat)
    requires Trace(states, turns) && k < |turns| && CleanUpTo(states, turns, k)
    requires i < |turns[k].events| && turns[k].events[i].ContinueEvent? && states[k].Active() && !turns[k].call.RunCall?
    requires states[k].WellFormed() && j < states[k].count && states[k].table[j].enabledPhy
    requires states[k].table[j].addr !in turns[k].events[i].from.written
    ensures var from, addr := turns[k].events[i].from, states[k].table[j].addr;
      addr in from.mem && from.mem[addr] == INT3
  {
    hide Distinct, RunStep, AttachStep, DetachStep, ContinueStep, RegistersStep, Step;
    CleanSessionKeepsInv(states, turns, k);
    assert Follows(states[k], turns[k], states[k + 1]);
    var s, ev, code, s' := states[k], turns[k].events, turns[k].code, states[k + 1];
    match turns[k].call {
      case ContinueCall => ContinueEvents(s, false, ev, code, s');
      case StepCall => ContinueEvents(s, true, ev, code, s');
      case AttachCall(pid, probe, loaded) => AttachLeavesView(s, pid, probe, loaded, ev, code, s');
      case DetachCall => DetachLeavesView(s, ev, code, s');
      case RegistersCall(rip) => RegistersKeep(s, rip, ev, code, s');
      case _ =>
    }
  }

  // ----- the status over a session -----

  lemma BreakpointCallTracks(s: State, op: Operation, code: Code, s': State)
    requires Step(s, op, code, s') && Callable(BreakpointCall(op))
    ensures Tracks(s, [], s')
  {
    StepKeepsInferior(s, op, code, s');
    hide Step;
    TracksNothing(s, [], s');
  }

  lemma WriteTracks(s: State, addr: nat, data: seq<byte>, code: Code, s': State)
    requires addr < SPACE && WriteStep(s, addr, data, code, s')
    ensures Tracks(s, [], s')
  {
    TracksNothing(s, [], s');
  }

  lemma RunTracks(s: State, hasPath: bool, executable: bool, piped: bool, report: Report, ev: seq<Event>, code: Code, s': State)
    requires s.Sound() && RunStep(s, hasPath, executable, piped, report, ev, code, s') && code != Aborted
    ensures Tracks(s, ev, s')
  {
    if hasPath && executable {
      var _, _ := RunAnswers(s, piped, report, ev, code, s');
    } else {
      NotRunAnswers(s, hasPath, executable, piped, report, ev, code, s');
    }
  }

  lemma CallTracks(s: State, c: Command, ev: seq<Event>, code: Code, s': State)
    requires s.Sound() && Callable(c) && CallStep(s, c, ev, code, s') && !Died(c, code)
    ensures Tracks(s, ev, s')
  {
    hide RunStep, AttachStep, DetachStep, ContinueStep, RegistersStep, WriteStep, Step, Tracks, Distinct;
    match c {
      case BreakpointCall(op) => BreakpointCallTracks(s, op, code, s');
      case RunCall(executable, piped, report) =>
        var hasPath: bool :| RunStep(s, hasPath, executable, piped, report, ev, code, s');
        RunTracks(s, hasPath, executable, piped, report, ev, code, s');
      case AttachCall(pid, probe, loaded) => AttachTracks(s, pid, probe, loaded, ev, code, s');
      case DetachCall => DetachAnswers(s, ev, code, s');
      case ContinueCall => ContinueTracks(s, false, ev, code, s');
      case StepCall => ContinueTracks(s, true, ev, code, s');
      case RegistersCall(rip) => RegistersAnswers(s, rip, ev, code, s');
      case WriteCall(addr, data) => WriteTracks(s, addr, data, code, s');
    }
  }

  /**
   At every point of a session an inferior with a process is marked as stopped exactly if the last report of a stop or of
   going on, in all that was logged, was of a stop; otherwise it is marked as running.
   */
  lemma {:induction false} SessionTracks(states: seq<State>, turns: seq<Turn>, k: nat)
    requires Trace(states, turns) && k <= |turns| && (k == |turns| ==> !Ended(turns))
    ensures states[k].status == RUNNING || states[k].status == STOPPED ==>
      (states[k].status == STOPPED <==> SeenStopped(false, AllEvents(turns[..k])))
  {
    hide CallStep, Distinct, Tracks;
    if k > 0 {
      SessionTracks(states, turns, k - 1);
      SessionIsSound(states, turns, k - 1);
      assert Follows(states[k - 1], turns[k - 1], states[k]);
      CallTracks(states[k - 1], turns[k - 1].call, turns[k - 1].events, turns[k - 1].code, states[k]);
      assert turns[..k][..k - 1] == turns[..k - 1];
      TracksOn(states[k - 1], AllEvents(turns[..k - 1]), turns[k - 1].events, states[k]);
    }
  }

  lemma TracksOn(s: State, before: seq<Event>, ev: seq<Event>, s': State)
    requires s.Active() ==> (s.status == STOPPED <==> SeenStopped(false, before))
    requires Tracks(s, ev, s')
    ensures s'.Active() ==> (s'.status == STOPPED <==> SeenStopped(false, before + ev))
  {
    SeenJoined(false, before, ev);
    if s'.Active() && !s.Active() {
      var i :| 0 <= i < |ev| && ReportedAt(ev[i]);
      SeenAnew(SeenStopped(false, before), s.status == STOPPED, ev, i);
    }
  }

  // ----- what each kind of call has the kernel do -----

  /** A process is acquired by a run or an attach, let go by a detach or an attach, killed by a run or an attach, ... */
  lemma CallEvents(s: State, c: Command, ev: seq<Event>, code: Code, s': State, i: nat)
    requires s.Sound() && Callable(c) && CallStep(s, c, ev, code, s') && i < |ev|
    ensures ev[i].AcquireEvent? || ev[i].KillEvent? ==> c.RunCall? || c.AttachCall?
    ensures ev[i].DetachEvent? ==> c.DetachCall? || c.AttachCall?
    ensures ev[i].ContinueEvent? ==> c.RunCall? || c.ContinueCall?
    ensures ev[i].StepEvent? ==> c.ContinueCall? || c.StepCall?
  {
    hide RunStep, AttachStep, DetachStep, ContinueStep, RegistersStep, Step, WriteStep, Carries, LeavesView, Distinct,
      State.View, State.Intact;
    match c {
      case RunCall(executable, piped, report) =>
        var hasPath: bool :| RunStep(s, hasPath, executable, piped, report, ev, code, s');
        RunLaunches(s, hasPath, executable, piped, report, ev, code, s');
      case AttachCall(pid, probe, loaded) =>
        AttachLeavesView(s, pid, probe, loaded, ev, code, s');
      case DetachCall =>
        DetachLeavesView(s, ev, code, s');
      case ContinueCall =>
        ContinueEvents(s, false, ev, code, s');
      case StepCall =>
        ContinueEvents(s, true, ev, code, s');
        if |ev| > 1 {
          StepsOnce(s, ev, code, s');
        } else {
          NotResumedAnswers(s, true, ev, code, s');
        }
      case RegistersCall(rip) =>
        RegistersKeep(s, rip, ev, code, s');
      case _ =>
    }
  }

  lemma StepsOnce(s: State, ev: seq<Event>, code: Code, s': State)
    requires s.Sound() && ContinueStep(s, true, ev, code, s') && |ev| > 1
    ensures |ev| == 3 && ev[0].WaitEvent? && ev[1].StepEvent? && ev[2].WaitEvent?
  {
    hide ContinueStep, Distinct, State.View, State.Intact;
    GoesOnAnswers(s, true, ev, code, s');
    if i :| 0 <= i < s.count && s.table[i].enabledPhy
            && (s.table[i].addr + 1 == ev[0].at.rip || (ev[0].at.rip == 0 && s.table[i].addr == 0xFFFF_FFFF_FFFF_FFFF)) {
      assert ev[1].StepEvent?;
    }
  }

  lemma ContinueSucceeds(s: State, single: bool, ev: seq<Event>, s': State)
    requires s.Sound() && ContinueStep(s, single, ev, Ok, s')
    ensures |ev| >= 3 && if single then ev[1].StepEvent? else ev[|ev| - 2].ContinueEvent?
  {
    hide ContinueStep, Distinct, State.View, State.Intact;
    if |ev| <= 1 {
      NotResumedAnswers(s, single, ev, Ok, s');
      if ev != [] {
        AllProbes(ev[0].report);
      }
    } else if single {
      StepsOnce(s, ev, Ok, s');
    } else {
      GoesOnAnswers(s, false, ev, Ok, s');
      if i :| 0 <= i < s.count && s.table[i].enabledPhy
              && (s.table[i].addr + 1 == ev[0].at.rip || (ev[0].at.rip == 0 && s.table[i].addr == 0xFFFF_FFFF_FFFF_FFFF)) {
        assert ev[1].StepEvent?;
      }
    }
  }

  lemma AttachSucceeds(s: State, pid: int, probe: Probe, loaded: bool, ev: seq<Event>, s': State)
    requires s.Sound() && AttachStep(s, pid, probe, loaded, ev, Ok, s')
    ensures EndsAcquired(ev) && ev[|ev| - 2].pid == pid && s'.pid == pid && s'.isAttached
  {
    hide AttachStep, Distinct, State.View, State.Intact;
    if EndsAcquired(ev) {
      AttachedAnswers(s, pid, probe, loaded, ev, Ok, s');
      AttachedIsActive(s, pid, probe, loaded, ev, s');
    } else {
      NotAttachedAnswers(s, pid, probe, loaded, ev, Ok, s');
    }
  }

  lemma RunSucceeds(s: State, hasPath: bool, executable: bool, piped: bool, report: Report, ev: seq<Event>, s': State)
    requires s.Sound() && RunStep(s, hasPath, executable, piped, report, ev, Ok, s')
    ensures hasPath && executable && piped && report == Silent && |ev| >= 4
    ensures ev[|ev| - 4].AcquireEvent? && ev[|ev| - 2].ContinueEvent?
  {
    hide RunStep, Distinct, State.View, State.Intact, ParentStep;
    if !hasPath || !executable {
      NotRunAnswers(s, hasPath, executable, piped, report, ev, Ok, s');
    } else {
      var n, s1 := RunAnswers(s, piped, report, ev, Ok, s');
      assert |ev| > n;
      var tail := ev[n + 1..];
      LaunchSucceeds(s1.(proc := ev[n].proc), ev[n].pid, report, tail, s');
      assert ev[|ev| - 2] == tail[1];
    }
  }

  lemma LaunchSucceeds(s: State, pid: int, report: Report, ev: seq<Event>, s': State)
    requires s.Sound() && !s.Active() && pid > 0 && ParentStep(s, pid, report, ev, Ok, s')
    ensures report == Silent && |ev| == 3 && ev[1].ContinueEvent?
  {
    ParentAnswers(s, pid, report, ev, Ok, s');
    hide LaunchStep, Tracks, Distinct, State.View, State.Intact;
  }

  lemma DetachSucceeds(s: State, ev: seq<Event>, s': State)
    requires s.Sound() && DetachStep(s, ev, Ok, s')
    ensures s.isAttached && s'.pid == 0 && (s'.status == NONE || s'.status == EXITED || s'.status == TERMINATED)
  {
    hide DetachStep, Distinct, State.View, State.Intact;
    DetachAnswers(s, ev, Ok, s');
    if s.isAttached && s.pid > 0 {
      AllProbes(ev[0].report);
    }
  }

  lemma BreakpointSucceeds(s: State, op: Operation, s': State)
    requires s.WellFormed() && Callable(BreakpointCall(op)) && Step(s, op, Ok, s')
    ensures op.Set? ==> exists i :: 0 <= i < s'.count && s'.table[i].addr == op.addr && s'.table[i].enabledLog
    ensures op.Unset? ==> forall i :: 0 <= i < s'.count ==> s'.table[i].addr != op.addr
    ensures op.Enable? ==> exists i :: 0 <= i < s'.count && s'.table[i].addr == op.addr && s'.table[i].enabledLog
    ensures op.Disable? ==> exists i :: 0 <= i < s'.count && s'.table[i].addr == op.addr && !s'.table[i].enabledLog
    ensures op.ClearAll? ==> s'.count == 0
  {
    hide FindAnd, SetStep, UnsetStep, ClearAllStep, State.View, State.Intact, Entries;
    match op {
      case Set(addr) =>
        SetAnswers(s, addr, Ok, s');
        assert s'.table[s.count].addr == addr;
      case Unset(addr) =>
        UnsetRemovesOneKey(s, addr, Ok, s');
        HasIsKey(s', addr);
      case Enable(addr) =>
        FindAnswers(s, addr, true, Ok, s');
        var i :| 0 <= i < s.count && s.table[i].addr == addr;
        assert s'.table[i].addr == addr;
      case Disable(addr) =>
        FindAnswers(s, addr, false, Ok, s');
        var i :| 0 <= i < s.count && s.table[i].addr == addr;
        assert s'.table[i].addr == addr;
      case ClearAll =>
        ClearAllAnswers(s, Ok, s');
    }
  }

  lemma WriteSucceeds(s: State, addr: nat, data: seq<byte>, s': State, k: nat)
    requires addr < SPACE && |data| < SPACE && WriteStep(s, addr, data, Ok, s') && k < |data|
    ensures var a := (addr + k) % 0x1_0000_0000_0000_0000; a in s'.proc.mem && s'.proc.mem[a] == data[k]
  {
    hide Stored;
    var done: nat :| StoredUpTo(s, addr, data, done, Ok, s');
    assert data[..done] == data;
    StoredAround(s, addr, data, s', k);
  }

  /** A call that succeeds has done what it is for; k is any position in what is written. */
  lemma CallSucceeds(s: State, c: Command, ev: seq<Event>, s': State, k: nat)
    requires s.Sound() && Callable(c) && CallStep(s, c, ev, Ok, s')
    ensures c.RunCall? ==> c.executable && |ev| >= 4 && ev[|ev| - 4].AcquireEvent? && ev[|ev| - 2].ContinueEvent?
    ensures c.AttachCall? ==> EndsAcquired(ev) && ev[|ev| - 2].pid == c.pid && s'.pid == c.pid && s'.isAttached
    ensures c.DetachCall? ==> s.isAttached && s'.pid == 0
    ensures c.ContinueCall? ==> |ev| >= 3 && ev[|ev| - 2].ContinueEvent?
    ensures c.StepCall? ==> |ev| >= 3 && ev[1].StepEvent?
    ensures c.RegistersCall? ==> s'.proc.rip == c.rip
    ensures c.WriteCall? && k < |c.data| ==>
      var a := (c.addr + k) % 0x1_0000_0000_0000_0000; a in s'.proc.mem && s'.proc.mem[a] == c.data[k]
    ensures c.BreakpointCall? && c.op.Set? ==> exists i :: 0 <= i < s'.count && s'.table[i].addr == c.op.addr
    ensures c.BreakpointCall? && c.op.Unset? ==> forall i :: 0 <= i < s'.count ==> s'.table[i].addr != c.op.addr
    ensures c.BreakpointCall? && c.op.ClearAll? ==> s'.count == 0
  {
    hide RunStep, AttachStep, DetachStep, ContinueStep, RegistersStep, Step, WriteStep, EndsAcquired, Distinct,
      State.View, State.Intact;
    match c {
      case BreakpointCall(op) =>
        BreakpointSucceeds(s, op, s');
      case RunCall(executable, piped, report) =>
        var hasPath: bool :| RunStep(s, hasPath, executable, piped, report, ev, Ok, s');
        RunSucceeds(s, hasPath, executable, piped, report, ev, s');
      case AttachCall(pid, probe, loaded) =>
        AttachSucceeds(s, pid, probe, loaded, ev, s');
      case DetachCall =>
        DetachSucceeds(s, ev, s');
      case ContinueCall =>
        ContinueSucceeds(s, false, ev, s');
      case StepCall =>
        ContinueSucceeds(s, true, ev, s');
      case RegistersCall(rip) =>
        RegistersAnswers(s, rip, ev, Ok, s');
      case WriteCall(addr, data) =>
        if k < |data| {
          WriteSucceeds(s, addr, data, s', k);
        }
    }
  }

  // ----- the calls, and a session of them -----

  method ExecuteBreakpointCall(inf: Inferior, op: Operation) returns (code: Code)
    requires inf.Snapshot().Sound() && Callable(BreakpointCall(op))
    modifies inf`breakpointCount, inf.breakpoints, inf.os`mem, inf.os`setbacks, inf.os`failures, inf.os`refused
    ensures Step(old(inf.Snapshot()), op, code, inf.Snapshot())
  {
    hide CreateStep, EnableStep, DisableStep, SetStep, UnsetStep, ClearAllStep, FindAnd, Distinct;
    match op {
      case Enable(addr) => code := EnableBreakpoint(inf, addr);
      case Disable(addr) => code := DisableBreakpoint(inf, addr);
      case Set(addr) => code := SetBreakpoint(inf, addr);
      case Unset(addr) => code := UnsetBreakpoint(inf, addr);
      case ClearAll => code := ClearAllBreakpoints(inf);
    }
  }

  method Execute(inf: Inferior, c: Command) returns (code: Code, ghost ev: seq<Event>)
    requires inf.Snapshot().Sound() && Callable(c)
    modifies inf, inf.breakpoints, inf.os
    ensures CallStep(old(inf.Snapshot()), c, ev, code, inf.Snapshot()) && inf.os.log == old(inf.os.log) + ev
    ensures !Died(c, code) ==> inf.Snapshot().Sound()
  {
    hide RunStep, AttachStep, DetachStep, ContinueStep, RegistersStep, Step, Distinct, LaunchesArmed, ChildKilled, Continues;
    ghost var s, mid := inf.Snapshot(), inf.Snapshot();
    ev := [];
    match c {
      case BreakpointCall(op) =>
        code := ExecuteBreakpointCall(inf, op);
      case RunCall(executable, piped, report) =>
        code, ev := RunProgram(inf, executable, piped, report);
      case AttachCall(pid, probe, loaded) =>
        code, ev := Attach(inf, pid, probe, loaded);
      case DetachCall =>
        code, ev := Detach(inf);
      case ContinueCall =>
        code, ev, mid := ContinueInferior(inf);
      case StepCall =>
        code, ev, mid := StepInstruction(inf);
      case RegistersCall(rip) =>
        code, ev := SetRegisters(inf, rip);
      case WriteCall(addr, data) =>
        ghost var done;
        code, done := SetMemory(inf, addr, data);
    }
    if !Died(c, code) {
      CallKeeps(s, c, ev, code, inf.Snapshot());
    }
  }

  /** Everything the kernel was made to do, turn by turn. */
  ghost function AllEvents(turns: seq<Turn>): seq<Event> {
    if turns == [] then [] else AllEvents(turns[..|turns| - 1]) + turns[|turns| - 1].events
  }

  /**
   Any session, from a new inferior on: it makes the calls one after the other, and ends early only if the debugger dies.
   The trace it leaves is what the lemmas above are about, and what the kernel has logged is what is in it.
   */
  method Session(commands: seq<Command>) returns (inf: Inferior, ghost states: seq<State>, ghost turns: seq<Turn>)
    requires forall c | c in commands :: Callable(c)
    ensures Trace(states, turns) && states[|turns|] == inf.Snapshot() && inf.os.log == AllEvents(turns)
    ensures |turns| <= |commands| && forall k :: 0 <= k < |turns| ==> turns[k].call == commands[k]
    ensures |turns| < |commands| ==> Ended(turns)
    ensures !Ended(turns) ==> inf.Snapshot().Sound()
    ensures !Ended(turns) && CleanUpTo(states, turns, |turns|) ==> inf.Snapshot().Inv()
  {
    hide CallStep, Distinct, CleanCall, State.Inv;
    inf := new Inferior();
    states, turns := [inf.Snapshot()], [];
    StartsNew(inf);
    for i := 0 to |commands|
      invariant |turns| == i && Trace(states, turns) && states[i] == inf.Snapshot() && inf.os.log == AllEvents(turns)
      invariant forall k :: 0 <= k < i ==> turns[k].call == commands[k]
      invariant inf.Snapshot().Sound() && !Ended(turns)
      invariant fresh(inf) && fresh(inf.breakpoints) && fresh(inf.os)
    {
      ghost var s := inf.Snapshot();
      ghost var ev;
      var code;
      code, ev := Execute(inf, commands[i]);
      ghost var turn := Turn(commands[i], code, ev);
      OneMoreTurn(states, turns, turn, inf.Snapshot());
      states, turns := states + [inf.Snapshot()], turns + [turn];
      if commands[i].RunCall? && code == Aborted {
        return;
      }
    }
    if CleanUpTo(states, turns, |turns|) {
      CleanSessionKeepsInv(states, turns, |turns|);
    }
  }

  lemma StartsNew(inf: Inferior)
    requires inf.Snapshot().Inv() && !inf.Active() && inf.breakpointCount == 0
    requires forall i :: 0 <= i < inf.breakpoints.Length ==> !inf.breakpoints[i].enabledPhy
    ensures Trace([inf.Snapshot()], []) && inf.Snapshot().Sound()
  {
  }

  lemma OneMoreTurn(states: seq<State>, turns: seq<Turn>, turn: Turn, s': State)
    requires Trace(states, turns) && !Ended(turns) && Follows(states[|turns|], turn, s')
    ensures Trace(states + [s'], turns + [turn])
    ensures AllEvents(turns + [turn]) == AllEvents(turns) + turn.events
    ensures Ended(turns + [turn]) <==> Died(turn.call, turn.code)
  {
    hide Follows, New;
    var states', turns' := states + [s'], turns + [turn];
    assert turns'[..|turns|] == turns;
    forall k | 0 <= k < |turns'|
      ensures Follows(states'[k], turns'[k], states'[k + 1]) && (Died(turns'[k].call, turns'[k].code) ==> k + 1 == |turns'|)
    {
      if k < |turns| {
        assert Follows(states[k], turns[k], states[k + 1]);
      }
    }
  }

  // ----- the run in which flags are left over -----

  /**
   A continue finds that the process has ended, while breakpoints were planted in it; then an attach to another one whose
   symbols cannot be loaded succeeds in all but that. Now entry i is marked as planted in a process that does not have it,
   and where that process has its own byte the byte saved from the old one is seen.
   */
  lemma StaleAttach(s: State, i: nat, pid: int, p: Proc, q: Proc) returns (s1: State, s2: State)
    requires s.Inv() && s.Active() && s.proc.phase == Running && !s.proc.trapped && i < s.count && s.table[i].enabledPhy
    requires pid > 0 && Acquired(p) && q == p.(phase := Halted)
    requires s.table[i].addr in p.mem && p.mem[s.table[i].addr] != s.table[i].ogByte
    ensures CallStep(s, ContinueCall, [WaitEvent(Exited, s.proc.(phase := Gone))], ProcExited, s1) && s1.Inv() && !s1.Active()
    ensures var ev := [AcquireEvent(pid, p), WaitEvent(Wait.Stopped(true, true, false), q)];
      CallStep(s1, AttachCall(pid, Exists, false), ev, ElfFailed, s2)
    ensures s2.Sound() && s2.Active() && !s2.Inv() && s2.proc == q
    ensures var addr := s.table[i].addr; addr in s2.View() && s2.View()[addr] == s.table[i].ogByte != q.image[addr]
  {
    hide ContinueStep, AttachStep, TerminateStep, TakeOverStep, Restored, Distinct;
    var gone, w := s.proc.(phase := Gone), Wait.Stopped(true, true, false);
    s1 := AfterWait(s, Exited, gone);
    ExitStep(s, gone, s1);
    s2 := Adopted(s1, pid, true, w, q);
    var ev2 := [AcquireEvent(pid, p), WaitEvent(w, q)];
    StaleTakeOver(s1, pid, p, w, q, s2);
    AttachedAtOnce(s1, pid, ev2, s2);
    StaleView(s1, i, pid, w, q, s2);
  }

  lemma AttachedAtOnce(s1: State, pid: int, ev: seq<Event>, s2: State)
    requires s1.WellFormed() && TerminateStep(s1, [], Ok, s1) && TakeOverStep(s1, pid, false, ev, ElfFailed, s2)
    ensures AttachStep(s1, pid, Exists, false, ev, ElfFailed, s2)
  {
    hide TerminateStep, TakeOverStep;
    assert LetGoThenTakeOver(s1, pid, false, [], ev, Ok, s1, ElfFailed, s2);
    assert [] + ev == ev;
  }

  lemma StaleView(s1: State, i: nat, pid: int, w: Wait, q: Proc, s2: State)
    requires s1.Sound() && !s1.Active() && i < s1.count && s1.table[i].enabledPhy && pid > 0
    requires q.written == {} && q.image == q.mem && s2 == Adopted(s1, pid, true, w, q)
    requires s1.table[i].addr in q.mem && q.mem[s1.table[i].addr] != s1.table[i].ogByte
    ensures s2.Sound() && s2.Active() && !s2.Inv()
    ensures var addr := s1.table[i].addr; addr in s2.View() && s2.View()[addr] == s1.table[i].ogByte != q.image[addr]
  {
    RestoredAt(s2.table, 0, s2.count, s2.proc.mem, i);
  }

  lemma ExitStep(s: State, gone: Proc, s1: State)
    requires s.Inv() && s.Active() && s.proc.phase == Running && gone == s.proc.(phase := Gone)
    requires s1 == AfterWait(s, Exited, gone) && !s.proc.trapped
    ensures ContinueStep(s, false, [WaitEvent(Exited, gone)], ProcExited, s1) && s1.Inv() && !s1.Active()
  {
    var ev := [WaitEvent(Exited, gone)];
    assert StatusStep(s, false, ev, ProcExited, s1);
    assert ValidateStep(s, ev, ProcExited, s1);
    assert ValidatedThenResumed(s, false, ev, [], ProcExited, s1, ProcExited, s1);
    assert ev + [] == ev;
  }

  lemma StaleTakeOver(s1: State, pid: int, p: Proc, w: Wait, q: Proc, s2: State)
    requires s1.Sound() && !s1.Active() && pid > 0 && Acquired(p) && q == p.(phase := Halted)
    requires w == Wait.Stopped(true, true, false) && s2 == Adopted(s1, pid, true, w, q)
    ensures TerminateStep(s1, [], Ok, s1) && TakeOverStep(s1, pid, false, [AcquireEvent(pid, p), WaitEvent(w, q)], ElfFailed, s2)
  {
    assert [AcquireEvent(pid, p), WaitEvent(w, q)][1..] == [WaitEvent(w, q)];
  }
}

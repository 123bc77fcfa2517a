/**
 What a caller gets from the calls that wait for, resume, end and start a process: the code and the status, in terms of
 what the logged waits have reported.
 */
module CallAnswers {
  import opened Codes
  import opened Words
  import opened Tracee
  import opened DebuggerState
  import opened BreakpointSpec
  import opened LifecycleSpec
  import opened LaunchSpec
  import opened SteppingSpec

  // ----- one wait -----

  /**
   One wait. The code and the status follow from its report; a blocking one distinguishes the stops, and reports a hit
   breakpoint exactly for a kernel trap one past the address of an entry.
   */
  lemma StatusAnswers(s: State, blocking: bool, ev: seq<Event>, code: Code, s': State)
    requires s.count <= |s.table| && s.pid > 0 && StatusStep(s, blocking, ev, code, s')
    ensures |ev| == 1 && ev[0].WaitEvent? && s'.proc == ev[0].at && s'.table == s.table && s'.count == s.count
    ensures var w, rip := ev[0].report, ev[0].at.rip;
      && (code == BreakpointHit <==>
            && blocking && w == Wait.Stopped(true, true, true)
            && exists i :: 0 <= i < s.count &&
                 (s.table[i].addr + 1 == rip || (rip == 0 && s.table[i].addr == 0xFFFF_FFFF_FFFF_FFFF)))
      && (code == ProcStopped <==> blocking && w == Wait.Stopped(true, true, false))
      && (code == PtraceGetregsFailed <==> blocking && w.Stopped? && w.siginfo && !w.regs)
      && (code == PtraceError <==> blocking && w.Stopped? && !w.siginfo)
      && (code == WaitpidFailed <==> w.Failed?)
      && (code == ProcNotAttached <==> w == NoChild(Exists))
      && (code == SystemError <==> w == NoChild(Unknown))
      && (code == ProcNotFound <==> w == NoChild(Vanished))
      && (code == ProcExited <==> w.Exited?)
      && (code == ProcTerminated <==> w.Signaled?)
      && (code == Ok <==>
            || w.NoChange? || w.Continued? || (w.Stopped? && !blocking)
            || (w == Wait.Stopped(true, true, true) && forall i :: 0 <= i < s.count ==>
                  s.table[i].addr + 1 != rip && !(rip == 0 && s.table[i].addr == 0xFFFF_FFFF_FFFF_FFFF)))
    ensures var w := ev[0].report;
      && s'.status == (if w.Stopped? then STOPPED else if w.Continued? then RUNNING else if w.Exited? then EXITED
                       else if w.Signaled? then TERMINATED else if w == NoChild(Vanished) then NONE else s.status)
      && s'.pid == (if w.Exited? || w.Signaled? || w == NoChild(Vanished) then 0 else s.pid)
      && s'.isAttached == (s.isAttached && w != NoChild(Vanished))
  {
  }

  /** A running program that comes back having run into a planted breakpoint is reported as that. */
  lemma TrapIsReported(s: State, ev: seq<Event>, code: Code, s': State)
    requires s.count <= |s.table| && s.pid > 0 && s.proc.phase == Running && StatusStep(s, true, ev, code, s')
    requires s'.proc.trapped && s'.ArmedAt(Before(s'.proc.rip)) && ev[0].report.siginfo && ev[0].report.regs
    ensures code == BreakpointHit && s'.status == STOPPED
  {
    var i :| ArmedEntry(s'.table, 0, s'.count, Before(s'.proc.rip), i);
  }

  // ----- the status and what was last seen -----

  /** Whether the last report of a stop or of going on was of a stop; before if there is none. */
  ghost function SeenStopped(before: bool, ev: seq<Event>): bool {
    if ev == [] then before
    else
      var e := ev[|ev| - 1];
      if e.WaitEvent? && e.report.Stopped? then true
      else if e.WaitEvent? && e.report.Continued? then false
      else SeenStopped(before, ev[..|ev| - 1])
  }

  lemma {:induction false} SeenJoined(before: bool, ev1: seq<Event>, ev2: seq<Event>)
    ensures SeenStopped(before, ev1 + ev2) == SeenStopped(SeenStopped(before, ev1), ev2)
  {
    if ev2 == [] {
      assert ev1 + ev2 == ev1;
    } else {
      assert (ev1 + ev2)[..|ev1 + ev2| - 1] == ev1 + ev2[..|ev2| - 1];
      SeenJoined(before, ev1, ev2[..|ev2| - 1]);
    }
  }

  /** Some wait has reported a stop or going on. */
  ghost predicate Reported(ev: seq<Event>) {
    exists i :: 0 <= i < |ev| && ReportedAt(ev[i])
  }

  predicate ReportedAt(e: Event) {
    e.WaitEvent? && (e.report.Stopped? || e.report.Continued?)
  }

  lemma ReportedJoined(ev1: seq<Event>, ev2: seq<Event>)
    ensures Reported(ev1 + ev2) <==> Reported(ev1) || Reported(ev2)
  {
    var ev := ev1 + ev2;
    if i :| 0 <= i < |ev1| && ReportedAt(ev1[i]) {
      assert ev[i] == ev1[i];
    }
    if i :| 0 <= i < |ev2| && ReportedAt(ev2[i]) {
      assert ev[|ev1| + i] == ev2[i];
    }
    if i :| 0 <= i < |ev| && ReportedAt(ev[i]) {
      assert ev[i] == if i < |ev1| then ev1[i] else ev2[i - |ev1|];
    }
  }

  /**
   An inferior that is active is marked as stopped exactly if that is what was last seen of its process; and if it was not
   active before, that was seen in between.
   */
  ghost predicate Tracks(s: State, ev: seq<Event>, s': State) {
    s'.Active() ==>
      && (s'.status == STOPPED <==> SeenStopped(s.status == STOPPED, ev))
      && (s.Active() || Reported(ev))
  }

  lemma TracksJoined(s: State, ev1: seq<Event>, s1: State, ev2: seq<Event>, s': State)
    requires Tracks(s, ev1, s1) && Tracks(s1, ev2, s') && (s'.Active() ==> s1.Active())
    ensures Tracks(s, ev1 + ev2, s')
  {
    SeenJoined(s.status == STOPPED, ev1, ev2);
    ReportedJoined(ev1, ev2);
  }

  /** Once a stop or going on has been reported, what was seen before plays no part. */
  lemma {:induction false} SeenAnew(before: bool, before': bool, ev: seq<Event>, i: nat)
    requires i < |ev| && ReportedAt(ev[i])
    ensures SeenStopped(before, ev) == SeenStopped(before', ev)
  {
    if i < |ev| - 1 {
      SeenAnew(before, before', ev[..|ev| - 1], i);
    }
  }

  /** A process that was acquired in between has been reported on since. */
  lemma TracksAnew(s: State, ev1: seq<Event>, s1: State, ev2: seq<Event>, s': State, i: nat)
    requires Tracks(s1, ev2, s')
    requires s'.Active() ==> i < |ev2| && ev2[i].WaitEvent? && (ev2[i].report.Stopped? || ev2[i].report.Continued?)
    ensures Tracks(s, ev1 + ev2, s')
  {
    if s'.Active() {
      assert ReportedAt(ev2[i]);
      ReportedJoined(ev1, ev2);
      SeenJoined(s.status == STOPPED, ev1, ev2);
      SeenAnew(SeenStopped(s.status == STOPPED, ev1), s1.status == STOPPED, ev2, i);
    }
  }

  lemma TracksNothing(s: State, ev: seq<Event>, s': State)
    requires s'.status == s.status && forall i :: 0 <= i < |ev| ==> !ev[i].WaitEvent?
    ensures Tracks(s, ev, s')
  {
    SeenNothing(s.status == STOPPED, ev);
  }

  lemma {:induction false} SeenNothing(before: bool, ev: seq<Event>)
    requires forall i :: 0 <= i < |ev| ==> !ev[i].WaitEvent?
    ensures SeenStopped(before, ev) == before
  {
    if ev != [] {
      SeenNothing(before, ev[..|ev| - 1]);
    }
  }

  lemma StatusTracks(s: State, blocking: bool, ev: seq<Event>, code: Code, s': State)
    requires s.Sound() && StatusStep(s, blocking, ev, code, s')
    ensures Tracks(s, ev, s') && (s'.Active() ==> s.Active())
  {
    StatusCarries(s, blocking, ev, code, s');
    if ev != [] {
      assert ev[..|ev| - 1] == [];
    }
  }

  // ----- the answer of a resumed program -----

  /** What a blocking wait of a resumed program leads to; how a call goes on after a success is left open. */
  ghost predicate Answers(t: Table, n: nat, w: Wait, rip: nat, code: Code)
    requires n <= |t|
  {
    && code !in {ProcRunning, InvalidState}
    && (code == BreakpointHit <==>
          && w == Wait.Stopped(true, true, true)
          && exists i :: 0 <= i < n && (t[i].addr + 1 == rip || (rip == 0 && t[i].addr == 0xFFFF_FFFF_FFFF_FFFF)))
    && (code == ProcStopped <==> w == Wait.Stopped(true, true, false))
    && (code == PtraceGetregsFailed <==> w.Stopped? && w.siginfo && !w.regs)
    && (code == PtraceError <==> w.Stopped? && !w.siginfo)
    && (code == WaitpidFailed <==> w.Failed?)
    && (code == ProcNotAttached <==> w == NoChild(Exists))
    && (code == SystemError <==> w == NoChild(Unknown))
    && (code == ProcNotFound <==> w == NoChild(Vanished))
    && (code == ProcExited <==> w.Exited?)
    && (code == ProcTerminated <==> w.Signaled?)
    && (code in {Ok, PtracePeektextFailed, PtraceContFailed} <==>
          || w.NoChange? || w.Continued?
          || (w == Wait.Stopped(true, true, true) && forall i :: 0 <= i < n ==>
                t[i].addr + 1 != rip && !(rip == 0 && t[i].addr == 0xFFFF_FFFF_FFFF_FFFF)))
  }

  /** The last event is a wait, and the code answers its report. */
  ghost predicate AnswersLast(t: Table, n: nat, ev: seq<Event>, code: Code)
    requires n <= |t|
  {
    ev != [] && ev[|ev| - 1].WaitEvent? && Answers(t, n, ev[|ev| - 1].report, ev[|ev| - 1].at.rip, code)
  }

  lemma BlockingAnswers(s: State, ev: seq<Event>, code: Code, s': State)
    requires s.count <= |s.table| && s.pid > 0 && StatusStep(s, true, ev, code, s')
    ensures AnswersLast(s.table, s.count, ev, code)
    ensures code == Ok || code in {BreakpointHit, ProcStopped, PtraceGetregsFailed, PtraceError, WaitpidFailed,
      ProcNotAttached, SystemError, ProcNotFound, ProcExited, ProcTerminated}
  {
    StatusAnswers(s, true, ev, code, s');
  }

  lemma SameAddresses(t: Table, t': Table, n: nat, w: Wait, rip: nat, code: Code)
    requires n <= |t| && n <= |t'| && forall i :: 0 <= i < n ==> t'[i].addr == t[i].addr
    requires Answers(t, n, w, rip, code)
    ensures Answers(t', n, w, rip, code)
  {
    var b := Before(rip);
    if i :| 0 <= i < n && t[i].addr == b {
      assert t'[i].addr == b;
    }
    if i :| 0 <= i < n && t'[i].addr == b {
      assert t[i].addr == b;
    }
    Behind(t, n, rip);
    Behind(t', n, rip);
  }

  lemma Behind(t: Table, n: nat, rip: nat)
    requires n <= |t|
    ensures (exists i :: 0 <= i < n && (t[i].addr + 1 == rip || (rip == 0 && t[i].addr == 0xFFFF_FFFF_FFFF_FFFF)))
            <==> exists i :: 0 <= i < n && t[i].addr == Before(rip)
  {
    if i :| 0 <= i < n && (t[i].addr + 1 == rip || (rip == 0 && t[i].addr == 0xFFFF_FFFF_FFFF_FFFF)) {
      assert t[i].addr == Before(rip);
    }
    if i :| 0 <= i < n && t[i].addr == Before(rip) {
      assert t[i].addr + 1 == rip || (rip == 0 && t[i].addr == 0xFFFF_FFFF_FFFF_FFFF);
    }
  }

  lemma OpenAnswers(t: Table, n: nat, w: Wait, rip: nat, code: Code)
    requires n <= |t| && Answers(t, n, w, rip, Ok) && code in {Ok, PtracePeektextFailed, PtraceContFailed}
    ensures Answers(t, n, w, rip, code)
  {
  }

  lemma GoAnswers(s: State, ev: seq<Event>, code: Code, s': State)
    requires s.Sound() && s.Active() && GoStep(s, ev, code, s')
    ensures ev != [] ==> AnswersLast(s.table, s.count, ev, code)
    ensures Tracks(s, ev, s')
  {
    if ev == [] {
      TracksNothing(s, ev, s');
    } else {
      hide Answers, State.View, State.Intact, Distinct;
      BlockingAnswers(Going(s), ev[1..], code, s');
      StatusTracks(Going(s), true, ev[1..], code, s');
      AfterOne(s, ev, code, s');
    }
  }

  lemma AfterOne(s: State, ev: seq<Event>, code: Code, s': State)
    requires s.count <= |s.table| && s.Active() && |ev| > 1 && !ev[0].WaitEvent? && AnswersLast(s.table, s.count, ev[1..], code)
    requires Tracks(s, ev[1..], s')
    ensures AnswersLast(s.table, s.count, ev, code) && Tracks(s, ev, s')
  {
    hide Answers;
    TracksNothing(s, ev[..1], s);
    SeenJoined(s.status == STOPPED, ev[..1], ev[1..]);
    assert ev[..1] + ev[1..] == ev;
    assert ev[1..][|ev| - 2] == ev[|ev| - 1];
  }

  lemma PlainAnswers(s: State, ev: seq<Event>, code: Code, s': State)
    requires s.Sound() && s.Active() && PlainStep(s, ev, code, s')
    ensures ev != [] ==> AnswersLast(s.table, s.count, ev, code)
    ensures Tracks(s, ev, s')
  {
    if ev == [] {
      TracksNothing(s, ev, s');
    } else {
      hide Answers, State.View, State.Intact, Distinct;
      BlockingAnswers(Going(s), ev[1..], code, s');
      StatusTracks(Going(s), true, ev[1..], code, s');
      AfterOne(s, ev, code, s');
    }
  }

  lemma StepThenPlantAnswers(s: State, i: nat, ev: seq<Event>, code: Code, s': State)
    requires s.Sound() && s.Active() && i < s.count && StepThenPlant(s, i, ev, code, s')
    ensures ev != [] ==> AnswersLast(s.table, s.count, ev, code)
    ensures Tracks(s, ev, s')
  {
    if ev == [] {
      TracksNothing(s, ev, s');
    } else {
      var s1, c := StepThenPlantParts(s, i, ev, code, s');
      hide StepThenPlant, StatusStep, StatusCode, EnableStep, Answers, State.View, State.Intact, Distinct;
      BlockingAnswers(Going(s), ev[1..], c, s1);
      StatusTracks(Going(s), true, ev[1..], c, s1);
      if c == Ok {
        EnabledStatus(s1, i, code, s');
        OpenAnswers(s.table, s.count, ev[1].report, ev[1].at.rip, code);
      }
      AfterOne(s, ev, code, s');
    }
  }

  lemma EnabledStatus(s: State, i: nat, code: Code, s': State)
    requires i < s.count <= |s.table| && (EnableStep(s, i, code, s') || DisableStep(s, i, code, s'))
    ensures s'.status == s.status && code in {Ok, PtracePeektextFailed, PtracePoketextFailed}
    ensures EnableStep(s, i, code, s') ==> code in {Ok, PtracePeektextFailed}
  {
  }

  lemma HandleAnswers(s: State, ev: seq<Event>, code: Code, s': State)
    requires s.Sound() && s.Active() && HandleStep(s, ev, code, s')
    ensures ev != [] ==> AnswersLast(s.table, s.count, ev, code)
    ensures ev == [] ==> code in {BreakpointNotFound, PtraceGetregsFailed, PtraceSetregsFailed, PtraceStepFailed,
      PtracePeektextFailed, PtracePoketextFailed}
    ensures Tracks(s, ev, s')
  {
    hide StepOverStep, AnswersLast, Distinct;
    if i :| HitEntry(s, i) && StepOverStep(s, i, ev, code, s') {
      StepOverAnswers(s, i, ev, code, s');
    } else {
      TracksNothing(s, ev, s');
    }
  }

  lemma StepOverAnswers(s: State, i: nat, ev: seq<Event>, code: Code, s': State)
    requires s.Sound() && s.Active() && HitEntry(s, i) && StepOverStep(s, i, ev, code, s')
    ensures ev != [] ==> AnswersLast(s.table, s.count, ev, code)
    ensures ev == [] ==> code in {PtraceSetregsFailed, PtraceStepFailed, PtracePeektextFailed, PtracePoketextFailed}
    ensures Tracks(s, ev, s')
  {
    hide DisableStep, StepThenPlant, Answers, State.View, State.Intact, Distinct;
    if ev == [] && code == PtraceSetregsFailed && s' == s {
      TracksNothing(s, ev, s');
    } else {
      var c: Code, s1: State :| LiftedThenStepped(s, i, c, s1, ev, code, s');
      LiftForStep(s, i, c, s1);
      EnabledStatus(Rewound(s), i, c, s1);
      if c != Ok {
        TracksNothing(s, ev, s');
      } else {
        StepThenPlantAnswers(s1, i, ev, code, s');
        StepThenPlantCarries(s1, i, ev, code, s');
        if ev != [] {
          SameAddresses(s1.table, s.table, s.count, ev[|ev| - 1].report, ev[|ev| - 1].at.rip, code);
        }
      }
    }
  }

  lemma ResumeAnswers(s: State, single: bool, ev: seq<Event>, code: Code, s': State)
    requires s.Sound() && s.Active() && if single then SingleStep(s, ev, code, s') else ResumeStep(s, ev, code, s')
    ensures ev != [] ==> AnswersLast(s.table, s.count, ev, code)
    ensures ev == [] ==> code in {PtraceGetregsFailed, PtraceSetregsFailed, PtraceStepFailed, PtracePeektextFailed,
      PtracePoketextFailed, PtraceContFailed}
    ensures Tracks(s, ev, s')
  {
    hide HandleStep, GoStep, PlainStep, AnswersLast, Tracks, State.View, State.Intact, Distinct, StandsBehind, HitEntry,
      SteppedOver, Carries;
    if single {
      var ev1: seq<Event>, ev2: seq<Event>, c: Code, s1: State :|
        HandledOrStepped(s, ev1, ev2, c, s1, code, s') && ev == ev1 + ev2;
      var _ := HandleFacts(s, ev1, c, s1);
      HandleAnswers(s, ev1, c, s1);
      if c == BreakpointNotFound {
        assert ev == ev2;
        PlainAnswers(s, ev2, code, s');
        PlainCodes(s, ev2, code, s');
      } else {
        assert ev == ev1;
      }
    } else {
      var ev1: seq<Event>, ev2: seq<Event>, c: Code, s1: State :|
        HandledThenGone(s, ev1, ev2, c, s1, code, s') && ev == ev1 + ev2;
      var i := HandleFacts(s, ev1, c, s1);
      HandleAnswers(s, ev1, c, s1);
      if c == BreakpointNotFound {
        assert ev == ev2;
        GoAnswers(s, ev2, code, s');
        GoFacts(s, ev2, code, s');
      } else if c == Ok {
        GoneAfterAnswers(s, i, ev1, ev2, s1, code, s');
      } else {
        assert ev == ev1;
      }
    }
  }

  lemma PlainCodes(s: State, ev: seq<Event>, code: Code, s': State)
    requires s.count <= |s.table| && PlainStep(s, ev, code, s')
    ensures ev == [] ==> code == PtraceStepFailed
  {
  }

  lemma GoneAfterAnswers(s: State, i: nat, ev1: seq<Event>, ev2: seq<Event>, s1: State, code: Code, s': State)
    requires s.Sound() && s.Active() && i < s.count && SteppedOver(s, i, ev1, Ok, s1) && AnswersLast(s.table, s.count, ev1, Ok)
    requires s1.Sound() && s1.Active() && GoStep(s1, ev2, code, s') && Tracks(s, ev1, s1)
    ensures ev1 + ev2 != [] && AnswersLast(s.table, s.count, ev1 + ev2, code) && Tracks(s, ev1 + ev2, s')
  {
    hide GoStep, Answers, Tracks, State.View, State.Intact, Distinct;
    GoAnswers(s1, ev2, code, s');
    GoFacts(s1, ev2, code, s');
    TracksJoined(s, ev1, s1, ev2, s');
    var ev := ev1 + ev2;
    if ev2 == [] {
      assert ev == ev1;
      OpenAnswers(s.table, s.count, ev[|ev| - 1].report, ev[|ev| - 1].at.rip, code);
    } else {
      assert ev[|ev| - 1] == ev2[|ev2| - 1];
      hide SteppedOver;
      SteppedAddresses(s, i, ev1, s1);
      SameAddresses(s1.table, s.table, s.count, ev[|ev| - 1].report, ev[|ev| - 1].at.rip, code);
    }
  }

  lemma SteppedAddresses(s: State, i: nat, ev: seq<Event>, s1: State)
    requires s.WellFormed() && i < s.count && SteppedOver(s, i, ev, Ok, s1)
    ensures s1.count == s.count && |s1.table| == |s.table|
    ensures forall j :: 0 <= j < s.count ==> s1.table[j].addr == s.table[j].addr
  {
  }

  // ----- continuing and stepping -----

  /**
   A continue or a single step, of which nothing was resumed: either the wait it begins with says why, or a call failed
   before the program could be resumed.
   */
  lemma NotResumedAnswers(s: State, single: bool, ev: seq<Event>, code: Code, s': State)
    requires s.Sound() && ContinueStep(s, single, ev, code, s') && |ev| <= 1
    ensures ev == [] <==> s.pid <= 0
    ensures code == InvalidState <==> s.pid <= 0
    ensures ev != [] ==>
      && ev[0].WaitEvent?
      && var w := ev[0].report;
         && (code == WaitpidFailed <==> w.Failed?)
         && (code == ProcNotAttached <==> w == NoChild(Exists))
         && (code == SystemError <==> w == NoChild(Unknown))
         && (code == ProcNotFound <==> w == NoChild(Vanished))
         && (code == ProcExited <==> w.Exited?)
         && (code == ProcTerminated <==> w.Signaled?)
         && (code == ProcRunning <==> w.Continued? || (w.NoChange? && s.status == RUNNING))
         && (code in {PtraceGetregsFailed, PtraceSetregsFailed, PtraceStepFailed, PtracePeektextFailed,
                      PtracePoketextFailed, PtraceContFailed}
             <==> w.Stopped? || (w.NoChange? && s.status == STOPPED))
  {
    hide SingleStep, ResumeStep, ValidateStep, State.View, State.Intact, Distinct, AnswersLast, Tracks, Carries;
    var ev1: seq<Event>, ev2: seq<Event>, c: Code, mid: State :|
      ValidatedThenResumed(s, single, ev1, ev2, c, mid, code, s') && ev == ev1 + ev2;
    ValidateFacts(s, ev1, c, mid);
    ValidateAnswers(s, ev1, c, mid);
    hide ContinueStep, StatusCode, AfterWait, State.WellFormed;
    assert ev == ev1;
    if c == Ok {
      assert ev2 == [];
      ResumeAnswers(mid, single, ev2, code, s');
    }
    if ev != [] {
      NotResumedCases(ev[0].report, s.status, c, code);
    }
  }

  lemma NotResumedCases(w: Wait, status: Status, c: Code, code: Code)
    requires status in {RUNNING, STOPPED}
    requires c == if w.Failed? then WaitpidFailed else if w == NoChild(Exists) then ProcNotAttached
                  else if w == NoChild(Unknown) then SystemError else if w == NoChild(Vanished) then ProcNotFound
                  else if w.Exited? then ProcExited else if w.Signaled? then ProcTerminated
                  else if w.Continued? || (w.NoChange? && status == RUNNING) then ProcRunning else Ok
    requires if c == Ok then code in {PtraceGetregsFailed, PtraceSetregsFailed, PtraceStepFailed, PtracePeektextFailed,
                                      PtracePoketextFailed, PtraceContFailed}
             else code == c
    ensures code == WaitpidFailed <==> w.Failed?
    ensures code == ProcNotAttached <==> w == NoChild(Exists)
    ensures code == SystemError <==> w == NoChild(Unknown)
    ensures code == ProcNotFound <==> w == NoChild(Vanished)
    ensures code == ProcExited <==> w.Exited?
    ensures code == ProcTerminated <==> w.Signaled?
    ensures code == ProcRunning <==> w.Continued? || (w.NoChange? && status == RUNNING)
    ensures code in {PtraceGetregsFailed, PtraceSetregsFailed, PtraceStepFailed, PtracePeektextFailed,
                     PtracePoketextFailed, PtraceContFailed}
            <==> w.Stopped? || (w.NoChange? && status == STOPPED)
    ensures code != InvalidState
  {
    if w.NoChild? {
      match w.probe {
        case Exists =>
        case Vanished =>
        case Unknown =>
      }
    }
  }

  lemma ValidateAnswers(s: State, ev: seq<Event>, code: Code, mid: State)
    requires s.Sound() && ValidateStep(s, ev, code, mid)
    ensures ev == [] <==> s.pid <= 0
    ensures ev == [] ==> code == InvalidState
    ensures ev != [] ==>
      && |ev| == 1 && ev[0].WaitEvent?
      && var w := ev[0].report;
         code == if w.Failed? then WaitpidFailed else if w == NoChild(Exists) then ProcNotAttached
                 else if w == NoChild(Unknown) then SystemError else if w == NoChild(Vanished) then ProcNotFound
                 else if w.Exited? then ProcExited else if w.Signaled? then ProcTerminated
                 else if w.Continued? || (w.NoChange? && s.status == RUNNING) then ProcRunning else Ok
    ensures code == Ok ==> ev[0].report.Stopped? || (ev[0].report.NoChange? && s.status == STOPPED)
    ensures Tracks(s, ev, mid) && (mid.Active() ==> s.Active())
  {
    var c: Code :| StatusStep(s, false, ev, c, mid) && code == Validated(c, mid.status);
    if s.pid > 0 {
      StatusAnswers(s, false, ev, c, mid);
    }
    hide StatusCode, AfterWait, State.View, State.Intact, Distinct;
    StatusTracks(s, false, ev, c, mid);
  }

  /**
   A continue or a single step that has resumed the program. It does so only if the process is stopped, as the wait it
   begins with says or as it was; and it answers the last wait: a hit breakpoint exactly for a kernel trap one past the
   address of an entry, an ordinary stop, and so on. Any other report means that the program goes on, or has come to a
   kernel trap elsewhere, and the code is Ok unless a call failed afterwards.
   */
  lemma ResumedAnswers(s: State, single: bool, ev: seq<Event>, code: Code, s': State)
    requires s.Sound() && ContinueStep(s, single, ev, code, s') && |ev| > 1
    ensures ev[0].WaitEvent? && (ev[0].report.Stopped? || (ev[0].report.NoChange? && s.status == STOPPED))
    ensures ev[|ev| - 1].WaitEvent? && code !in {ProcRunning, InvalidState}
    ensures var w, rip := ev[|ev| - 1].report, ev[|ev| - 1].at.rip;
      && (code == BreakpointHit <==>
            && w == Wait.Stopped(true, true, true)
            && exists i :: 0 <= i < s.count &&
                 (s.table[i].addr + 1 == rip || (rip == 0 && s.table[i].addr == 0xFFFF_FFFF_FFFF_FFFF)))
      && (code == ProcStopped <==> w == Wait.Stopped(true, true, false))
      && (code == PtraceGetregsFailed <==> w.Stopped? && w.siginfo && !w.regs)
      && (code == PtraceError <==> w.Stopped? && !w.siginfo)
      && (code == WaitpidFailed <==> w.Failed?)
      && (code == ProcNotAttached <==> w == NoChild(Exists))
      && (code == SystemError <==> w == NoChild(Unknown))
      && (code == ProcNotFound <==> w == NoChild(Vanished))
      && (code == ProcExited <==> w.Exited?)
      && (code == ProcTerminated <==> w.Signaled?)
      && (code in {Ok, PtracePeektextFailed, PtraceContFailed} <==>
            || w.NoChange? || w.Continued?
            || (w == Wait.Stopped(true, true, true) && forall i :: 0 <= i < s.count ==>
                  s.table[i].addr + 1 != rip && !(rip == 0 && s.table[i].addr == 0xFFFF_FFFF_FFFF_FFFF)))
  {
    hide ContinueStep, Distinct, State.View, State.Intact;
    ResumedLast(s, single, ev, code, s');
  }

  lemma ResumedLast(s: State, single: bool, ev: seq<Event>, code: Code, s': State)
    requires s.Sound() && ContinueStep(s, single, ev, code, s') && |ev| > 1
    ensures ev[0].WaitEvent? && (ev[0].report.Stopped? || (ev[0].report.NoChange? && s.status == STOPPED))
    ensures AnswersLast(s.table, s.count, ev, code)
  {
    hide SingleStep, ResumeStep, State.View, State.Intact, Distinct, Answers, Tracks, Carries, StatusCode, AfterWait;
    var ev1: seq<Event>, ev2: seq<Event>, c: Code, mid: State :|
      ValidatedThenResumed(s, single, ev1, ev2, c, mid, code, s') && ev == ev1 + ev2;
    ValidateFacts(s, ev1, c, mid);
    ValidateAnswers(s, ev1, c, mid);
    hide ContinueStep;
    ResumeAnswers(mid, single, ev2, code, s');
    assert ev[0] == ev1[0] && ev[|ev| - 1] == ev2[|ev2| - 1];
  }

  lemma ContinueTracks(s: State, single: bool, ev: seq<Event>, code: Code, s': State)
    requires s.Sound() && ContinueStep(s, single, ev, code, s')
    ensures Tracks(s, ev, s')
  {
    hide SingleStep, ResumeStep, State.View, State.Intact, Distinct, Tracks, AnswersLast, Carries;
    var ev1: seq<Event>, ev2: seq<Event>, c: Code, mid: State :|
      ValidatedThenResumed(s, single, ev1, ev2, c, mid, code, s') && ev == ev1 + ev2;
    ValidateFacts(s, ev1, c, mid);
    ValidateAnswers(s, ev1, c, mid);
    hide ContinueStep;
    if c == Ok {
      ResumeAnswers(mid, single, ev2, code, s');
      TracksJoined(s, ev1, mid, ev2, s');
    } else {
      assert ev == ev1;
    }
  }

  /** A stopped process that the next wait has nothing new about is not taken for a running one. */
  lemma StoppedIsResumed(s: State, single: bool, ev: seq<Event>, code: Code, s': State)
    requires s.Sound() && ContinueStep(s, single, ev, code, s') && ev != [] && ev[0].WaitEvent?
    requires s.status == STOPPED && ev[0].report.NoChange?
    ensures code !in {ProcRunning, InvalidState}
  {
    hide ContinueStep, State.View, State.Intact, Distinct;
    if |ev| == 1 {
      NotResumedAnswers(s, single, ev, code, s');
    } else {
      ResumedAnswers(s, single, ev, code, s');
    }
  }

  // ----- what is resumed, and from where -----

  /**
   The program stands behind no planted breakpoint: it is stepped or continued as it is. Behind one it is stepped from
   that one's address, with its own byte back; a success, and a continue that comes as far as to go on, have it planted
   again over the byte that is there then.
   */
  lemma GoesOnAnswers(s: State, single: bool, ev: seq<Event>, code: Code, s': State)
    requires s.Sound() && ContinueStep(s, single, ev, code, s') && |ev| > 1
    ensures ev[0].WaitEvent? && (|ev| == 3 || (|ev| == 5 && !single && ev[4].WaitEvent?)) && ev[2].WaitEvent?
    ensures s'.count == s.count && |s'.table| == |s.table| && s'.proc.rip == ev[|ev| - 1].at.rip
    ensures var rip := ev[0].at.rip;
      (forall i :: 0 <= i < s.count && s.table[i].enabledPhy ==>
         s.table[i].addr + 1 != rip && !(rip == 0 && s.table[i].addr == 0xFFFF_FFFF_FFFF_FFFF)) ==>
        && |ev| == 3 && ev[1] == (if single then StepEvent(ev[0].at) else ContinueEvent(ev[0].at))
        && s'.table == s.table && s'.proc == ev[2].at
    ensures var rip := ev[0].at.rip;
      forall i :: 0 <= i < s.count && s.table[i].enabledPhy
                  && (s.table[i].addr + 1 == rip || (rip == 0 && s.table[i].addr == 0xFFFF_FFFF_FFFF_FFFF)) ==>
        var addr := s.table[i].addr;
        && ev[1].StepEvent?
        && ev[1].from == ev[0].at.(rip := addr, trapped := false, mem := ev[0].at.mem[addr := s.table[i].ogByte])
        && s'.table == s.table[i := s'.table[i]]
        && (|ev| == 3 && !single ==> code != Ok)
        && ((|ev| == 3 && code == Ok) || |ev| == 5 ==>
              && addr in ev[2].at.mem && s'.table[i] == Breakpoint(addr, ev[2].at.mem[addr], true, true))
        && (|ev| == 3 && code == Ok ==> s'.proc == ev[2].at.(mem := ev[2].at.mem[addr := 0xCC]))
        && (|ev| == 3 && code !in {Ok, PtraceContFailed} ==> s'.proc == ev[2].at && !s'.table[i].enabledPhy)
        && (|ev| == 5 ==>
              && ev[3] == ContinueEvent(ev[2].at.(mem := ev[2].at.mem[addr := 0xCC]))
              && s'.proc == ev[4].at)
  {
    hide ContinueStep, ResumedOnly, Carries, StatusCode, State.View, State.Intact, Distinct, StandsBehind;
    var mid := ContinueFacts(s, single, ev, code, s');
    assert mid.proc == ev[0].at && ResumedOnly(mid, single, ev[1..], code, s');
    hide AfterWait, Continues;
    var tail := ev[1..];
    assert |tail| == |ev| - 1 && forall i :: 0 <= i < |tail| ==> tail[i] == ev[i + 1];
    if StandsBehind(mid) {
      var i := ResumedBehind(mid, single, tail, code, s');
      OnlyOnePast(mid, i);
    } else {
      ResumedFromHere(mid, single, tail, code, s');
    }
  }

  lemma OnlyOnePast(s: State, i: nat)
    requires s.WellFormed() && HitEntry(s, i)
    ensures s.table[i].addr + 1 == s.proc.rip || (s.proc.rip == 0 && s.table[i].addr == 0xFFFF_FFFF_FFFF_FFFF)
    ensures forall j :: 0 <= j < s.count
                        && (s.table[j].addr + 1 == s.proc.rip || (s.proc.rip == 0 && s.table[j].addr == 0xFFFF_FFFF_FFFF_FFFF)) ==>
              j == i
  {
  }

  lemma ResumedFromHere(s: State, single: bool, ev: seq<Event>, code: Code, s': State)
    requires s.WellFormed() && !StandsBehind(s) && ev != [] && ResumedOnly(s, single, ev, code, s')
    ensures |ev| == 2 && ev[0] == (if single then StepEvent(s.proc) else ContinueEvent(s.proc)) && ev[1].WaitEvent?
    ensures s'.proc == ev[1].at && s'.table == s.table && s'.count == s.count
    ensures forall i :: 0 <= i < s.count && s.table[i].enabledPhy ==>
      s.table[i].addr + 1 != s.proc.rip && !(s.proc.rip == 0 && s.table[i].addr == 0xFFFF_FFFF_FFFF_FFFF)
  {
    hide AllGoOnArmed, Distinct;
    forall i | 0 <= i < s.count && s.table[i].enabledPhy
      ensures s.table[i].addr + 1 != s.proc.rip && !(s.proc.rip == 0 && s.table[i].addr == 0xFFFF_FFFF_FFFF_FFFF)
    {
      assert !HitEntry(s, i);
    }
  }

  lemma ResumedBehind(s: State, single: bool, ev: seq<Event>, code: Code, s': State) returns (i: nat)
    requires s.WellFormed() && StandsBehind(s) && ev != [] && ResumedOnly(s, single, ev, code, s')
    ensures HitEntry(s, i) && (|ev| == 2 || (|ev| == 4 && !single && ev[3].WaitEvent?)) && ev[0].StepEvent? && ev[1].WaitEvent?
    ensures s'.count == s.count && |s'.table| == |s.table| && s'.table == s.table[i := s'.table[i]]
    ensures var addr := s.table[i].addr;
      && ev[0].from == s.proc.(rip := addr, trapped := false, mem := s.proc.mem[addr := s.table[i].ogByte])
      && (|ev| == 2 && !single ==> code != Ok)
      && ((|ev| == 2 && code == Ok) || |ev| == 4 ==>
            addr in ev[1].at.mem && s'.table[i] == Breakpoint(addr, ev[1].at.mem[addr], true, true))
      && (|ev| == 2 && code == Ok ==> s'.proc == ev[1].at.(mem := ev[1].at.mem[addr := 0xCC]))
      && (|ev| == 2 && code !in {Ok, PtraceContFailed} ==> s'.proc == ev[1].at && !s'.table[i].enabledPhy)
      && (|ev| == 4 ==> ev[2] == ContinueEvent(ev[1].at.(mem := ev[1].at.mem[addr := 0xCC])) && s'.proc == ev[3].at)
    ensures s'.proc.rip == ev[|ev| - 1].at.rip
  {
    hide AllGoOnArmed, Distinct, SteppedOver, Carries;
    assert Resumes(s, single, ev, code, s');
    var k :| HitEntry(s, k) && ResumedOver(s, k, single, ev, code, s');
    i := HitIndex(s, k);
    if SteppedOver(s, i, ev, code, s') {
      SteppedOverAnswers(s, i, ev, code, s');
    } else if code == PtraceContFailed && SteppedOver(s, i, ev, Ok, s') {
      SteppedOverAnswers(s, i, ev, Ok, s');
    } else {
      var s1: State :| SteppedThenGone(s, i, s1, ev, s');
      SteppedOverAnswers(s, i, ev[..2], Ok, s1);
      assert ev[..2][0] == ev[0] && ev[..2][1] == ev[1];
    }
  }

  lemma HitIndex(s: State, k: int) returns (i: nat)
    requires s.count <= |s.table| && HitEntry(s, k)
    ensures i == k < s.count
  {
    i := k;
  }

  lemma SteppedOverAnswers(s: State, i: nat, ev: seq<Event>, code: Code, s': State)
    requires s.WellFormed() && HitEntry(s, i) && SteppedOver(s, i, ev, code, s')
    ensures |ev| == 2 && ev[0].StepEvent? && ev[1].WaitEvent?
    ensures s'.count == s.count && |s'.table| == |s.table| && s'.table == s.table[i := s'.table[i]]
    ensures var addr := s.table[i].addr;
      && ev[0].from == s.proc.(rip := addr, trapped := false, mem := s.proc.mem[addr := s.table[i].ogByte])
      && if code == Ok then
           && addr in ev[1].at.mem && s'.table[i] == Breakpoint(addr, ev[1].at.mem[addr], true, true)
           && s'.proc == ev[1].at.(mem := ev[1].at.mem[addr := 0xCC])
         else
           s'.proc == ev[1].at && !s'.table[i].enabledPhy
  {
    hide ReplantedAfter;
    RestoredAt(s.table, 0, s.count, s.proc.mem, i);
  }
}

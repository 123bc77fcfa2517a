/** What a caller gets from the calls that end a process and from those that start or take over one. */
module LifecycleAnswers {
  import opened Codes
  import opened Words
  import opened Tracee
  import opened DebuggerState
  import opened BreakpointSpec
  import opened LifecycleSpec
  import opened LaunchSpec
  import opened SteppingSpec
  import opened CallAnswers

  // ----- ending -----

  /** Killing: the signal's own answer, and then the wait's, decide; only a success lets go of the process. */
  lemma KillAnswers(s: State, ev: seq<Event>, code: Code, s': State)
    requires s.Sound() && KillStep(s, ev, code, s')
    ensures s.status != RUNNING && s.status != STOPPED ==> ev == [] && code == Ok && s' == s
    ensures s.status == RUNNING || s.status == STOPPED ==>
      && |ev| > 0 && ev[0].KillEvent? && |ev| == (if ev[0].answer == Sent then 2 else 1)
      && (|ev| == 2 ==> ev[1].WaitEvent?)
      && (code == KillFailed <==> ev[0].answer == Refused)
      && (code == WaitpidFailed <==> |ev| == 2 && (ev[1].report.Failed? || ev[1].report.NoChild?))
      && (code == Ok <==>
            ev[0].answer == NoProcess || (|ev| == 2 && !ev[1].report.Failed? && !ev[1].report.NoChild?))
    ensures code == Ok && (s.status == RUNNING || s.status == STOPPED) ==>
      s'.status == NONE && s'.pid == 0 && !s'.isAttached && s'.proc.phase == Gone
    ensures code != Ok ==> s'.status == s.status && s'.pid == s.pid && s'.isAttached == s.isAttached
    ensures s'.table == s.table && s'.count == s.count && s'.proc.mem == s.proc.mem
    ensures Tracks(s, ev, s')
  {
    if s.Active() {
      match ev[0].answer {
        case Sent =>
          if code == WaitpidFailed {
            SeenKilled(s.status == STOPPED, ev);
          }
        case NoProcess =>
        case Refused =>
          TracksNothing(s, ev, s');
      }
    } else {
      TracksNothing(s, ev, s');
    }
  }

  lemma SeenKilled(before: bool, ev: seq<Event>)
    requires |ev| == 2 && ev[0].KillEvent? && ev[1].WaitEvent? && (ev[1].report.Failed? || ev[1].report.NoChild?)
    ensures SeenStopped(before, ev) == before
  {
    var init := ev[..1];
    assert ev[..|ev| - 1] == init;
    SeenNothing(before, init);
  }

  /**
   Detaching: refused for a process that was not attached; a success if the process is found to have ended, or is let go;
   an error of the wait otherwise. Only a process that is let go is forgotten.
   */
  lemma DetachAnswers(s: State, ev: seq<Event>, code: Code, s': State)
    requires s.Sound() && DetachStep(s, ev, code, s')
    ensures !s.isAttached ==> ev == [] && code == ProcNotAttached && s' == s
    ensures s.isAttached && s.pid <= 0 ==> ev == [] && code == InvalidState && s' == s
    ensures s.isAttached && s.pid > 0 ==>
      && |ev| > 0 && ev[0].WaitEvent?
      && var w := ev[0].report;
         && (w.Exited? ==> |ev| == 1 && code == Ok && s'.status == EXITED && s'.pid == 0)
         && (w.Signaled? ==> |ev| == 1 && code == Ok && s'.status == TERMINATED && s'.pid == 0)
         && (w.Failed? ==> |ev| == 1 && code == WaitpidFailed)
         && (w == NoChild(Exists) ==> |ev| == 1 && code == ProcNotAttached)
         && (w == NoChild(Unknown) ==> |ev| == 1 && code == SystemError)
         && (w == NoChild(Vanished) ==> |ev| == 1 && code == ProcNotFound && s'.status == NONE && s'.pid == 0)
         && (w.NoChange? || w.Stopped? || w.Continued? ==>
               && (code == Ok <==> |ev| == 2)
               && (|ev| == 2 ==> ev[1].DetachEvent? && s'.status == NONE && s'.pid == 0 && !s'.isAttached)
               && (|ev| == 1 ==>
                     && code in {PtraceDetachFailed, PtracePeektextFailed, PtracePoketextFailed}
                     && s'.isAttached && s'.pid == s.pid))
    ensures Tracks(s, ev, s')
  {
    hide State.View, State.Intact, Distinct, Carries, LetGoStep;
    if s.isAttached && s.pid > 0 {
      var s1, c := DetachParts(s, ev, code, s');
      DetachWaits(s, ev, code, s', s1, c);
      hide DetachStep, AfterWait, StatusCode, SameBreakpoints, Unflagged, Tracks;
      AllProbes(ev[0].report);
      if c == Ok {
        LetGoFacts(s1, ev[1..], code, s');
        LetGoStatus(s1, ev[1..], code, s');
        assert ev == ev[..1] + ev[1..];
        TracksJoined(s, ev[..1], s1, ev[1..], s');
      } else {
        assert ev == ev[..1];
      }
    } else {
      NothingToDetach(s, ev, code, s');
      TracksNothing(s, ev, s');
    }
  }

  /** What the wait that a detach begins with makes of the state. */
  lemma DetachWaits(s: State, ev: seq<Event>, code: Code, s': State, s1: State, c: Code)
    requires s.Sound() && DetachStep(s, ev, code, s') && s.isAttached && s.pid > 0 && |ev| > 0 && ev[0].WaitEvent?
    requires s1 == AfterWait(s, ev[0].report, ev[0].at) && c == StatusCode(s, false, ev[0].report, ev[0].at.rip)
    ensures Tracks(s, ev[..1], s1) && (s1.Active() ==> s.Active()) && s1.isAttached == (ev[0].report != NoChild(Vanished))
    ensures ev[0].report.Exited? ==> c == ProcExited && s1.status == EXITED && s1.pid == 0
    ensures ev[0].report.Signaled? ==> c == ProcTerminated && s1.status == TERMINATED && s1.pid == 0
    ensures ev[0].report.Failed? ==> c == WaitpidFailed
    ensures ev[0].report == NoChild(Exists) ==> c == ProcNotAttached
    ensures ev[0].report == NoChild(Unknown) ==> c == SystemError
    ensures ev[0].report == NoChild(Vanished) ==> c == ProcNotFound && s1.status == NONE && s1.pid == 0
    ensures ev[0].report.NoChange? || ev[0].report.Stopped? || ev[0].report.Continued? ==> c == Ok && s1.pid == s.pid
  {
    assert StatusStep(s, false, ev[..1], c, s1);
    StatusAnswers(s, false, ev[..1], c, s1);
    StatusTracks(s, false, ev[..1], c, s1);
  }

  lemma LetGoStatus(s1: State, ev: seq<Event>, code: Code, s': State)
    requires s1.Sound() && s1.Active() && LetGoStep(s1, ev, code, s')
    ensures Tracks(s1, ev, s')
    ensures code == Ok ==> |ev| == 1 && ev[0].DetachEvent? && s'.status == NONE && s'.pid == 0 && !s'.isAttached
    ensures code != Ok ==> ev == [] && s'.isAttached == s1.isAttached && s'.pid == s1.pid && s'.status == s1.status
  {
    var c, s2 :| LiftedThenLetGo(s1, c, s2, ev, code, s');
    UnsetAllIsTransparent(s1, c, s2);
    hide UnsetAllStep, State.View, State.Intact, Distinct;
    TracksNothing(s1, ev, s2);
  }

  lemma DetachCodes(s: State, ev: seq<Event>, code: Code, s': State)
    requires s.Sound() && DetachStep(s, ev, code, s')
    ensures code.Refused() ==> code.PtraceDetachFailed? || code.PtracePeektextFailed? || code.PtracePoketextFailed?
  {
    hide DetachStep, Tracks, Distinct, State.View, State.Intact, LeavesView, Unflagged;
    DetachAnswers(s, ev, code, s');
    DetachLeavesView(s, ev, code, s');
    if s.isAttached && s.pid > 0 {
      AllProbes(ev[0].report);
    }
  }

  /**
   Letting go of whatever is held: a process that was run is killed and never detached from, one that was attached is
   detached from and never killed; that it has ended, or vanished, is as good as a success.
   */
  lemma TerminateAnswers(s: State, ev: seq<Event>, code: Code, s': State)
    requires s.Sound() && TerminateStep(s, ev, code, s')
    ensures s.status != RUNNING && s.status != STOPPED ==> ev == [] && code == Ok && s' == s
    ensures (s.status == RUNNING || s.status == STOPPED) && !s.isAttached ==>
      && |ev| > 0 && ev[0].KillEvent?
      && (code == KillFailed <==> ev[0].answer == Refused)
      && (code == WaitpidFailed <==> |ev| == 2 && ev[1].WaitEvent? && (ev[1].report.Failed? || ev[1].report.NoChild?))
      && code in {Ok, KillFailed, WaitpidFailed}
      && forall i :: 0 <= i < |ev| ==> !ev[i].DetachEvent?
    ensures (s.status == RUNNING || s.status == STOPPED) && s.isAttached ==>
      && |ev| > 0 && ev[0].WaitEvent?
      && (|ev| == 1 || (|ev| == 2 && ev[1].DetachEvent?))
      && var w := ev[0].report;
         && (code == Ok <==> w.Exited? || w.Signaled? || w == NoChild(Vanished) || (|ev| == 2 && ev[1].DetachEvent?))
         && (code == WaitpidFailed <==> w.Failed?)
         && (code == ProcNotAttached <==> w == NoChild(Exists))
         && (code == SystemError <==> w == NoChild(Unknown))
         && (code in {PtraceDetachFailed, PtracePeektextFailed, PtracePoketextFailed} <==>
               |ev| == 1 && (w.NoChange? || w.Stopped? || w.Continued?))
    ensures Tracks(s, ev, s')
  {
    hide KillStep, DetachStep, State.View, State.Intact, Distinct, Carries;
    if !s.Active() {
      TracksNothing(s, ev, s');
    } else if !s.isAttached {
      KillAnswers(s, ev, code, s');
      KillCarries(s, ev, code, s');
    } else {
      var c :| DetachStep(s, ev, c, s') && code == Forgiven(c);
      DetachAnswers(s, ev, c, s');
      DetachLeavesView(s, ev, c, s');
      AllProbes(ev[0].report);
    }
  }

  lemma AllProbes(w: Wait)
    ensures w.NoChild? ==> w == NoChild(Exists) || w == NoChild(Vanished) || w == NoChild(Unknown)
  {
    if w.NoChild? {
      match w.probe {
        case Exists =>
        case Vanished =>
        case Unknown =>
      }
    }
  }

  // ----- attaching -----

  /** What is left of an attach, code and status, as the first report of a process that was acquired says. */
  lemma TakeOverAnswers(s: State, pid: int, loaded: bool, ev: seq<Event>, code: Code, s': State)
    requires s.Sound() && !s.Active() && TakeOverStep(s, pid, loaded, ev, code, s')
    ensures ev == [] ==> code in {ProcNotFound, PtraceAttachFailed} && s' == s
    ensures ev != [] ==>
      && |ev| == 2 && ev[0].AcquireEvent? && ev[0].pid == pid && ev[1].WaitEvent?
      && var w := ev[1].report;
         && (code == WaitpidFailed <==> w.Failed?)
         && (code == ProcNotFound <==> w.NoChild?)
         && (code == ProcExited <==> w.Exited?)
         && (code == ProcTerminated <==> w.Signaled?)
         && (code == ElfFailed <==> (w.Stopped? || w.Continued?) && !loaded)
         && (code in {Ok, PtracePeektextFailed} <==> (w.Stopped? || w.Continued?) && loaded)
         && (if w.Stopped? || w.Continued? then
               && s'.pid == pid && s'.isAttached && s'.status == (if w.Stopped? then STOPPED else RUNNING)
               && (s'.proc.phase == Halted <==> w.Stopped?)
             else
               s'.status == s.status && s'.pid == s.pid)
    ensures Tracks(s, ev, s')
  {
    if ev == [] {
      TracksNothing(s, ev, s');
    } else {
      assert ev[1..][0] == ev[1];
      assert ev[1].report.Stopped? || ev[1].report.Continued? ==> ReportedAt(ev[1]);
      if (ev[1].report.Stopped? || ev[1].report.Continued?) && loaded {
        AdoptedFacts(s, pid, true, ev[1].report, ev[1].at);
        ReplantFacts(Adopted(s, pid, true, ev[1].report, ev[1].at), code, s');
      }
    }
  }

  lemma TakeOverCodes(s: State, pid: int, loaded: bool, ev: seq<Event>, code: Code, s': State)
    requires s.Sound() && !s.Active() && TakeOverStep(s, pid, loaded, ev, code, s')
    ensures code.Refused() ==> code.PtracePeektextFailed? || (code.PtraceAttachFailed? && ev == [])
  {
    TakeOverAnswers(s, pid, loaded, ev, code, s');
    hide TakeOverStep, Tracks, State.WellFormed;
  }

  /** ev ends with the acquisition of a process and its first report. */
  predicate EndsAcquired(ev: seq<Event>) {
    |ev| >= 2 && ev[|ev| - 2].AcquireEvent? && ev[|ev| - 1].WaitEvent?
  }

  /** The two parts of an attach to a process that exists. */
  lemma AttachParts(s: State, pid: int, loaded: bool, ev: seq<Event>, code: Code, s': State)
    returns (ev2: seq<Event>, s1: State)
    requires s.Sound() && AttachStep(s, pid, Exists, loaded, ev, code, s')
    ensures Tracks(s, ev, s') && (EndsAcquired(ev) <==> ev2 != [])
    ensures (exists i :: 0 <= i < |ev| && ev[i].AcquireEvent?) ==> ev2 != []
    ensures ev2 != [] ==>
      && |ev2| == 2 && |ev| >= 2 && ev[|ev| - 2] == ev2[0] && ev[|ev| - 1] == ev2[1]
      && s1.Sound() && !s1.Active() && TakeOverStep(s1, pid, loaded, ev2, code, s')
    ensures ev2 == [] ==>
      code in {ProcNotFound, PtraceAttachFailed, KillFailed, WaitpidFailed, ProcNotAttached, SystemError,
               PtraceDetachFailed, PtracePeektextFailed, PtracePoketextFailed}
  {
    hide TerminateStep, TakeOverStep, State.View, State.Intact, Distinct, Carries, Tracks, EndsAcquired, SameBreakpoints,
      Unflagged, LeavesView;
    var ev1: seq<Event>, c: Code;
    ev1, ev2, c, s1 :| LetGoThenTakeOver(s, pid, loaded, ev1, ev2, c, s1, code, s') && ev == ev1 + ev2;
    hide AttachStep;
    TerminateCarries(s, ev1, c, s1);
    TerminateLeavesView(s, ev1, c, s1);
    TerminateCodes(s, ev1, c, s1);
    if c == Ok {
      TakeOverTracks(s1, pid, loaded, ev2, code, s');
      TookOver(s, ev1, s1, ev2, s');
    } else {
      assert ev == ev1;
    }
    JoinedAcquisition(ev1, ev2);
  }

  lemma TakeOverTracks(s: State, pid: int, loaded: bool, ev: seq<Event>, code: Code, s': State)
    requires s.Sound() && !s.Active() && TakeOverStep(s, pid, loaded, ev, code, s')
    ensures Tracks(s, ev, s') && (ev == [] ==> code in {ProcNotFound, PtraceAttachFailed} && s' == s)
    ensures ev != [] ==> |ev| == 2 && ev[0].AcquireEvent? && ev[1].WaitEvent?
    ensures ev != [] && s'.Active() ==> ev[1].report.Stopped? || ev[1].report.Continued?
  {
    TakeOverAnswers(s, pid, loaded, ev, code, s');
  }

  /** An attach that has acquired no process: what is said of it, then what letting go of the old one says. */
  lemma NotAttachedAnswers(s: State, pid: int, probe: Probe, loaded: bool, ev: seq<Event>, code: Code, s': State)
    requires s.Sound() && AttachStep(s, pid, probe, loaded, ev, code, s') && !EndsAcquired(ev)
    ensures probe == Vanished ==> ev == [] && code == ProcNotFound && s' == s
    ensures probe == Unknown ==> ev == [] && code == SystemError && s' == s
    ensures forall i :: 0 <= i < |ev| ==> !ev[i].AcquireEvent?
    ensures code in {ProcNotFound, PtraceAttachFailed, KillFailed, WaitpidFailed, ProcNotAttached, SystemError,
                     PtraceDetachFailed, PtracePeektextFailed, PtracePoketextFailed}
  {
    AllProbeResults(probe);
    if probe == Exists {
      var ev2, s1 := AttachParts(s, pid, loaded, ev, code, s');
    }
  }

  /** An attach that has acquired a process: the first report of it decides. */
  lemma AttachedAnswers(s: State, pid: int, probe: Probe, loaded: bool, ev: seq<Event>, code: Code, s': State)
    requires s.Sound() && AttachStep(s, pid, probe, loaded, ev, code, s') && EndsAcquired(ev)
    ensures probe == Exists && ev[|ev| - 2].pid == pid
    ensures var w := ev[|ev| - 1].report;
      && (code == WaitpidFailed <==> w.Failed?)
      && (code == ProcNotFound <==> w.NoChild?)
      && (code == ProcExited <==> w.Exited?)
      && (code == ProcTerminated <==> w.Signaled?)
      && (code == ElfFailed <==> (w.Stopped? || w.Continued?) && !loaded)
      && (code in {Ok, PtracePeektextFailed} <==> (w.Stopped? || w.Continued?) && loaded)
      && (s'.status == RUNNING || s'.status == STOPPED ==>
            && s'.pid == pid && s'.isAttached
            && (s'.status == STOPPED <==> w.Stopped?) && (s'.status == STOPPED <==> s'.proc.phase == Halted))
  {
    AllProbeResults(probe);
    if probe == Exists {
      var ev2, s1 := AttachParts(s, pid, loaded, ev, code, s');
      hide AttachStep, State.View, State.Intact, Distinct, TakeOverStep;
      TakeOverAnswers(s1, pid, loaded, ev2, code, s');
    }
  }

  lemma AttachTracks(s: State, pid: int, probe: Probe, loaded: bool, ev: seq<Event>, code: Code, s': State)
    requires s.Sound() && AttachStep(s, pid, probe, loaded, ev, code, s')
    ensures Tracks(s, ev, s')
  {
    AllProbeResults(probe);
    if probe == Exists {
      var ev2, s1 := AttachParts(s, pid, loaded, ev, code, s');
    } else {
      TracksNothing(s, ev, s');
    }
  }

  /** With no acquisition in the first part and at most one in the second. */
  lemma JoinedAcquisition(ev1: seq<Event>, ev2: seq<Event>)
    requires forall i :: 0 <= i < |ev1| ==> !ev1[i].AcquireEvent?
    requires ev2 == [] || (|ev2| == 2 && ev2[0].AcquireEvent? && ev2[1].WaitEvent?)
    ensures EndsAcquired(ev1 + ev2) <==> ev2 != []
    ensures (exists i :: 0 <= i < |ev1 + ev2| && (ev1 + ev2)[i].AcquireEvent?) <==> ev2 != []
    ensures ev2 != [] ==>
      |ev1 + ev2| >= 2 && (ev1 + ev2)[|ev1 + ev2| - 2] == ev2[0] && (ev1 + ev2)[|ev1 + ev2| - 1] == ev2[1]
  {
    var ev := ev1 + ev2;
    if ev2 == [] {
      assert ev == ev1;
    } else {
      assert ev[|ev1|] == ev2[0] && ev[|ev1| + 1] == ev2[1];
    }
  }

  lemma AllProbeResults(probe: Probe)
    ensures probe in {Exists, Vanished, Unknown}
  {
    match probe {
      case Exists =>
      case Vanished =>
      case Unknown =>
    }
  }

  lemma TerminateCodes(s: State, ev: seq<Event>, code: Code, s': State)
    requires s.Sound() && TerminateStep(s, ev, code, s')
    ensures code in {Ok, KillFailed, WaitpidFailed, ProcNotAttached, SystemError, PtraceDetachFailed, PtracePeektextFailed,
                     PtracePoketextFailed}
    ensures Tracks(s, ev, s')
  {
    TerminateAnswers(s, ev, code, s');
    hide TerminateStep, Tracks, State.WellFormed;
    if s.Active() && s.isAttached {
      AllProbes(ev[0].report);
      AttachedCodes(ev, code);
    }
  }

  lemma AttachedCodes(ev: seq<Event>, code: Code)
    requires |ev| > 0 && ev[0].WaitEvent?
    requires var w := ev[0].report;
      && (w.NoChild? ==> w == NoChild(Exists) || w == NoChild(Vanished) || w == NoChild(Unknown))
      && (code == Ok <==> w.Exited? || w.Signaled? || w == NoChild(Vanished) || (|ev| == 2 && ev[1].DetachEvent?))
      && (code == WaitpidFailed <==> w.Failed?)
      && (code == ProcNotAttached <==> w == NoChild(Exists))
      && (code == SystemError <==> w == NoChild(Unknown))
      && (code in {PtraceDetachFailed, PtracePeektextFailed, PtracePoketextFailed} <==>
            |ev| == 1 && (w.NoChange? || w.Stopped? || w.Continued?))
    requires |ev| == 1 || (|ev| == 2 && ev[1].DetachEvent?)
    ensures code in {Ok, WaitpidFailed, ProcNotAttached, SystemError, PtraceDetachFailed, PtracePeektextFailed,
                     PtracePoketextFailed}
  {
  }

  /** After an acquisition, what was seen before it plays no part. */
  lemma TookOver(s: State, ev1: seq<Event>, s1: State, ev2: seq<Event>, s': State)
    requires Tracks(s1, ev2, s') && !s1.Active() && Tracks(s, ev1, s1)
    requires if ev2 == [] then s' == s1 else
      |ev2| == 2 && ev2[1].WaitEvent? && (s'.Active() ==> ev2[1].report.Stopped? || ev2[1].report.Continued?)
    ensures Tracks(s, ev1 + ev2, s')
    ensures ev2 != [] ==> (ev1 + ev2)[|ev1 + ev2| - 2] == ev2[0] && (ev1 + ev2)[|ev1 + ev2| - 1] == ev2[1]
  {
    if ev2 == [] {
      assert ev1 + ev2 == ev1;
    } else {
      var ev := ev1 + ev2;
      assert ev[|ev| - 1] == ev2[1];
      if s'.Active() {
        TracksAnew(s, ev1, s1, ev2, s', 1);
      }
    }
  }

  /** A process attached to at a stop, of which the next wait has nothing new, is not taken for a running one. */
  lemma AttachedIsResumed(s: State, pid: int, probe: Probe, loaded: bool, ev: seq<Event>, s1: State, single: bool,
                          ev1: seq<Event>, code: Code, s': State)
    requires s.Sound() && AttachStep(s, pid, probe, loaded, ev, Ok, s1) && EndsAcquired(ev) && ev[|ev| - 1].report.Stopped?
    requires s1.Sound() && ContinueStep(s1, single, ev1, code, s') && ev1 != [] && ev1[0].WaitEvent? && ev1[0].report.NoChange?
    ensures s1.status == STOPPED && code !in {ProcRunning, InvalidState}
  {
    hide AttachStep, ContinueStep, Distinct;
    AttachedAnswers(s, pid, probe, loaded, ev, Ok, s1);
    AttachedIsActive(s, pid, probe, loaded, ev, s1);
    StoppedIsResumed(s1, single, ev1, code, s');
  }

  lemma AttachedIsActive(s: State, pid: int, probe: Probe, loaded: bool, ev: seq<Event>, s1: State)
    requires s.Sound() && AttachStep(s, pid, probe, loaded, ev, Ok, s1)
    ensures s1.Active() && s1.pid == pid > 0
  {
    AllProbeResults(probe);
    var ev2, m := AttachParts(s, pid, loaded, ev, Ok, s1);
    hide AttachStep, FreshlyArmed;
    TakeOverFacts(m, pid, loaded, ev2, Ok, s1);
  }

  // ----- running -----

  /** Planting everything and going on: an error of the planting or of PTRACE_CONT, or what the last wait answers. */
  lemma LaunchAnswers(s: State, ev: seq<Event>, code: Code, s': State)
    requires s.Sound() && s.Active() && LaunchStep(s, ev, code, s')
    ensures ev == [] ==>
      && code in {PtracePeektextFailed, PtraceContFailed}
      && s'.status == s.status && s'.pid == s.pid && s'.isAttached == s.isAttached && s'.proc.phase == s.proc.phase
    ensures ev != [] ==>
      |ev| == 2 && ev[0].ContinueEvent? && AnswersLast(s.table, s.count, ev, code) && !code.Refused()
    ensures Tracks(s, ev, s') && s.count <= |s.table|
  {
    hide ReplantStep, GoStep, Answers, Restored, State.Intact, Distinct;
    var c, s1 :| PlantedThenGone(s, c, s1, ev, code, s');
    ReplantFacts(s, c, s1);
    if c == Ok {
      GoFacts(s1, ev, code, s');
      GoAnswers(s1, ev, code, s');
      if ev != [] {
        SameAddresses(s1.table, s.table, s.count, ev[|ev| - 1].report, ev[|ev| - 1].at.rip, code);
      }
    } else {
      TracksNothing(s, ev, s');
    }
  }

  /** The parent's side: the child's own report, then the first wait's, then what LaunchAnswers says. */
  lemma ParentAnswers(s: State, pid: int, report: Report, ev: seq<Event>, code: Code, s': State)
    requires s.Sound() && !s.Active() && pid > 0 && ParentStep(s, pid, report, ev, code, s')
    ensures !report.Silent? ==> ev == [] && s' == s && code == if report.Child? then report.code else SystemError
    ensures report.Silent? ==>
      && |ev| > 0 && ev[0].WaitEvent?
      && var w := ev[0].report;
         && (w.Failed? || w.NoChild? ==> |ev| == 1 && code == WaitpidFailed && s'.status == s.status && s'.pid == s.pid)
         && (w.Exited? ==> |ev| == 1 && code == ProcChild && s'.status == s.status && s'.pid == s.pid)
         && (w.Signaled? ==> |ev| == 1 && code == Aborted)
         && ((w.Stopped? || w.Continued?) && |ev| == 1 ==>
               && code in {PtracePeektextFailed, PtraceContFailed}
               && s'.pid == pid && !s'.isAttached && s'.status == (if w.Stopped? then STOPPED else RUNNING)
               && (s'.status == STOPPED <==> s'.proc.phase == Halted))
         && ((w.Stopped? || w.Continued?) && |ev| != 1 ==>
               |ev| == 3 && ev[1].ContinueEvent? && AnswersLast(s.table, s.count, ev, code))
    ensures code != Aborted ==> Tracks(s, ev, s')
  {
    if !report.Silent? {
      TracksNothing(s, ev, s');
    } else if ev[0].report.Stopped? || ev[0].report.Continued? {
      StoppedChildAnswers(s, pid, report, ev, code, s');
    }
  }

  lemma StoppedChildAnswers(s: State, pid: int, report: Report, ev: seq<Event>, code: Code, s': State)
    requires s.Sound() && !s.Active() && pid > 0 && report.Silent? && ParentStep(s, pid, report, ev, code, s')
    requires ev[0].report.Stopped? || ev[0].report.Continued?
    ensures ev[0].WaitEvent? && Tracks(s, ev, s')
    ensures |ev| == 1 ==>
      && code in {PtracePeektextFailed, PtraceContFailed} && s'.pid == pid && !s'.isAttached
      && s'.status == (if ev[0].report.Stopped? then STOPPED else RUNNING)
      && (s'.status == STOPPED <==> s'.proc.phase == Halted)
    ensures |ev| != 1 ==> |ev| == 3 && ev[1].ContinueEvent? && AnswersLast(s.table, s.count, ev, code)
  {
    assert ev[..1][0] == ev[0];
    var w, p := ev[0].report, ev[0].at;
    var s1 := Adopted(s, pid, false, w, p);
    hide LaunchStep, State.View, State.Intact, Distinct, Answers, Tracks;
    AdoptedFacts(s, pid, false, w, p);
    LaunchAnswers(s1, ev[1..], code, s');
    assert ev[..1] == [WaitEvent(w, p)];
    AdoptedTracks(s, pid, w, p, ev[..1]);
    TracksJoined(s, ev[..1], s1, ev[1..], s');
    hide ParentStep;
    assert ev[..1] + ev[1..] == ev;
    if |ev| > 1 {
      assert ev[1..][0] == ev[1] && ev[1..][1] == ev[2];
    }
  }

  lemma AdoptedTracks(s: State, pid: int, w: Wait, p: Proc, ev: seq<Event>)
    requires ev == [WaitEvent(w, p)] && (w.Stopped? || w.Continued?)
    ensures Tracks(s, ev, Adopted(s, pid, false, w, p))
  {
    assert ReportedAt(ev[0]);
  }

  /** Starting a program, when no process is held: no pipe, no fork, or what ParentAnswers says of the new process. */
  lemma StartAnswers(s: State, piped: bool, report: Report, ev: seq<Event>, code: Code, s': State)
    requires s.Sound() && !s.Active() && StartStep(s, piped, report, ev, code, s')
    ensures ev == [] ==> s' == s && code == if piped then ForkFailed else PipeFailed
    ensures ev != [] ==>
      && piped && ev[0].AcquireEvent? && ev[0].pid > 0
      && ParentStep(s.(proc := ev[0].proc), ev[0].pid, report, ev[1..], code, s')
    ensures code != Aborted ==> Tracks(s, ev, s')
    ensures code != Aborted && s'.Active() ==>
      |ev| > 1 && ev[1].WaitEvent? && (ev[1].report.Stopped? || ev[1].report.Continued?)
  {
    if ev == [] {
      TracksNothing(s, ev, s');
    } else {
      var s1 := s.(proc := ev[0].proc);
      hide ParentStep, Tracks;
      ParentAnswers(s1, ev[0].pid, report, ev[1..], code, s');
      if code != Aborted {
        TracksNothing(s, ev[..1], s1);
        StartTracks(s, s1, ev, s');
      }
    }
  }

  lemma StartTracks(s: State, s1: State, ev: seq<Event>, s': State)
    requires ev != [] && ev[0].AcquireEvent? && s1.status == s.status && Tracks(s1, ev[1..], s')
    ensures Tracks(s, ev, s')
  {
    SeenNothing(s.status == STOPPED, ev[..1]);
    SeenJoined(s.status == STOPPED, ev[..1], ev[1..]);
    ReportedJoined(ev[..1], ev[1..]);
    assert ev[..1] + ev[1..] == ev;
  }

  /**
   A run of a file that is there and executable: killing the old process comes first, for which there are n events, then
   starting the new one. No process is acquired only if the old one is not got rid of, or there is no pipe or no fork.
   */
  lemma RunAnswers(s: State, piped: bool, report: Report, ev: seq<Event>, code: Code, s': State) returns (n: nat, s1: State)
    requires s.Sound() && RunStep(s, true, true, piped, report, ev, code, s')
    ensures n <= |ev| && n <= 2 && (n == 0 <==> s.status != RUNNING && s.status != STOPPED)
    ensures forall i :: 0 <= i < n ==> !ev[i].AcquireEvent?
    ensures n > 0 ==> ev[0].KillEvent? && (code == KillFailed <==> ev[0].answer == Refused)
    ensures |ev| == n ==>
      code in {KillFailed, WaitpidFailed, PipeFailed, ForkFailed} && (code == PipeFailed ==> !piped) && (code == ForkFailed ==> piped)
    ensures |ev| == n && code == WaitpidFailed ==>
      n == 2 && ev[1].WaitEvent? && (ev[1].report.Failed? || ev[1].report.NoChild?)
    ensures |ev| > n ==> piped && ev[n].AcquireEvent? && StartedFrom(s, s1, ev[n], report, ev[n + 1..], code, s')
    ensures code != Aborted ==> Tracks(s, ev, s')
  {
    hide KillStep, StartStep, ParentStep, Carries, Tracks, State.View, State.Intact, Distinct, StartedFrom;
    var ev1: seq<Event>, ev2: seq<Event>, c: Code, m: State :|
      KilledThenStarted(s, piped, report, ev1, ev2, c, m, code, s') && ev == ev1 + ev2;
    hide RunStep;
    n, s1 := |ev1|, m;
    KilledPart(s, ev1, c, s1);
    TwoParts(ev1, ev2);
    if c == Ok {
      StartedPart(s, ev1, s1, piped, report, ev2, code, s');
    }
  }

  lemma TwoParts(ev1: seq<Event>, ev2: seq<Event>)
    ensures var ev := ev1 + ev2;
      && (forall i :: 0 <= i < |ev1| ==> ev[i] == ev1[i])
      && (if ev2 == [] then ev == ev1 else |ev| > |ev1| && ev[|ev1|] == ev2[0] && ev[|ev1| + 1..] == ev2[1..])
  {
  }

  lemma KilledPart(s: State, ev: seq<Event>, code: Code, s1: State)
    requires s.Sound() && KillStep(s, ev, code, s1)
    ensures s1.Sound() && |ev| <= 2 && (ev == [] <==> s.status != RUNNING && s.status != STOPPED)
    ensures (code == Ok <==> !s1.Active()) && code in {Ok, KillFailed, WaitpidFailed}
    ensures s1.table == s.table && s1.count == s.count && Tracks(s, ev, s1)
    ensures forall i :: 0 <= i < |ev| ==> !ev[i].AcquireEvent?
    ensures ev != [] ==> ev[0].KillEvent? && (code == KillFailed <==> ev[0].answer == Refused)
    ensures ev == [] ==> code == Ok
    ensures code == WaitpidFailed ==> |ev| == 2 && ev[1].WaitEvent? && (ev[1].report.Failed? || ev[1].report.NoChild?)
  {
    KillCarries(s, ev, code, s1);
    KillAnswers(s, ev, code, s1);
  }

  lemma StartedPart(s: State, ev1: seq<Event>, s1: State, piped: bool, report: Report, ev2: seq<Event>, code: Code, s': State)
    requires s1.Sound() && !s1.Active() && s1.table == s.table && s1.count == s.count
    requires StartStep(s1, piped, report, ev2, code, s')
    ensures ev2 == [] ==> code == if piped then ForkFailed else PipeFailed
    ensures ev2 != [] ==> piped && ev2[0].AcquireEvent? && StartedFrom(s, s1, ev2[0], report, ev2[1..], code, s')
    ensures code != KillFailed && (code != Aborted ==> Tracks(s, ev1 + ev2, s'))
  {
    hide ParentStep, Tracks;
    StartAnswers(s1, piped, report, ev2, code, s');
    StartCodes(s1, piped, report, ev2, code, s');
    if code != Aborted {
      TracksAnew(s, ev1, s1, ev2, s', 1);
    }
  }

  lemma StartCodes(s: State, piped: bool, report: Report, ev: seq<Event>, code: Code, s': State)
    requires s.Sound() && !s.Active() && StartStep(s, piped, report, ev, code, s')
    ensures code != KillFailed
  {
    if ev != [] {
      hide ParentStep, Answers;
      ParentAnswers(s.(proc := ev[0].proc), ev[0].pid, report, ev[1..], code, s');
      ParentCodes(s.(proc := ev[0].proc), ev[0].pid, report, ev[1..], code, s');
    }
  }

  lemma ParentCodes(s: State, pid: int, report: Report, ev: seq<Event>, code: Code, s': State)
    requires s.Sound() && !s.Active() && pid > 0 && ParentStep(s, pid, report, ev, code, s')
    ensures code.Refused() ==> code.PtracePeektextFailed? || code.PtraceContFailed?
    ensures code.Refused() ==>
      |ev| == 1 && ev[0].WaitEvent? && (ev[0].report.Stopped? || ev[0].report.Continued?)
  {
    if report.Silent? && (ev[0].report.Stopped? || ev[0].report.Continued?) {
      hide LaunchStep, State.View, State.Intact, Distinct;
      AdoptedFacts(s, pid, false, ev[0].report, ev[0].at);
      LaunchAnswers(Adopted(s, pid, false, ev[0].report, ev[0].at), ev[1..], code, s');
    }
  }

  /** A run of a file that is not there, or not executable, changes nothing. */
  lemma NotRunAnswers(s: State, hasPath: bool, executable: bool, piped: bool, report: Report, ev: seq<Event>, code: Code, s': State)
    requires s.WellFormed() && RunStep(s, hasPath, executable, piped, report, ev, code, s')
    ensures !hasPath ==> code == FileNotFound && ev == [] && s' == s
    ensures hasPath && !executable ==> code == NotExecutable && ev == [] && s' == s
    ensures !hasPath || !executable ==> Tracks(s, ev, s')
  {
    if !hasPath || !executable {
      TracksNothing(s, ev, s');
    }
  }

  /** From s1 on, where nothing is held any more, the acquired process is taken over or given up as ParentAnswers says. */
  ghost predicate StartedFrom(s: State, s1: State, acquired: Event, report: Report, ev: seq<Event>, code: Code, s': State)
  {
    && acquired.AcquireEvent? && acquired.pid > 0 && s1.Sound() && !s1.Active() && s1.table == s.table && s1.count == s.count
    && ParentStep(s1.(proc := acquired.proc), acquired.pid, report, ev, code, s')
  }

  // ----- setting registers -----

  lemma RegistersAnswers(s: State, rip: nat, ev: seq<Event>, code: Code, s': State)
    requires s.Sound() && RegistersStep(s, rip, ev, code, s')
    ensures s.pid <= 0 ==> ev == [] && code == InvalidState && s' == s
    ensures s.pid > 0 ==>
      && |ev| == 1 && ev[0].WaitEvent? && s'.table == s.table && s'.count == s.count && s'.proc.mem == ev[0].at.mem
      && var w := ev[0].report;
         && (code == WaitpidFailed <==> w.Failed?)
         && (code == ProcNotAttached <==> w == NoChild(Exists))
         && (code == SystemError <==> w == NoChild(Unknown))
         && (code == ProcNotFound <==> w == NoChild(Vanished))
         && (code == ProcExited <==> w.Exited?)
         && (code == ProcTerminated <==> w.Signaled?)
         && (code in {Ok, PtraceSetregsFailed} <==> w.NoChange? || w.Stopped? || w.Continued?)
    ensures s'.proc.rip == (if code == Ok then rip else if ev == [] then s.proc.rip else ev[0].at.rip)
    ensures Tracks(s, ev, s')
  {
    hide StatusStep, StatusCode, AfterWait, State.View, State.Intact, State.Has, Distinct;
    var c: Code, mid: State :| WaitedThenSet(s, rip, ev, c, mid, code, s');
    OneReport(s, ev, c, mid);
    StatusTracks(s, false, ev, c, mid);
    if s.pid > 0 {
      StatusAnswers(s, false, ev, c, mid);
      AllProbes(ev[0].report);
    }
  }
}

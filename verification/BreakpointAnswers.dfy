/**
 What a caller gets from each breakpoint operation: its code, and what has changed, in terms of the table and of memory
 alone.
 */
module BreakpointAnswers {
  import opened Codes
  import opened Words
  import opened Tracee
  import opened DebuggerState
  import opened BreakpointSpec
  import opened BreakpointMap

  lemma CreateAnswers(s: State, i: nat, code: Code, s': State)
    requires s.WellFormed() && i < s.count && CreateStep(s, i, code, s')
    ensures s.table[i].enabledPhy ==> code == Ok && s' == s
    ensures code != Ok ==> code == PtracePeektextFailed && s' == s
    ensures code == Ok && !s.table[i].enabledPhy ==>
      var bp := s.table[i];
      && bp.addr in s.proc.mem && s'.proc.mem == s.proc.mem[bp.addr := 0xCC]
      && s'.table == s.table[i := Breakpoint(bp.addr, s.proc.mem[bp.addr], bp.enabledLog, true)]
      && s' == s.(table := s'.table, proc := s.proc.(mem := s'.proc.mem))
      && (exists a :: bp.addr <= a < bp.addr + 8 && a in s.proc.mem && s.proc.mem[a] != 0xFF)
  {
    if code == Ok && !s.table[i].enabledPhy {
      SomeByteLeft(s.proc.mem, s.table[i].addr);
    }
  }

  lemma SomeByteLeft(m: Memory, addr: nat)
    requires Mapped(m, addr, 8) && FromBytes(Read(m, addr, 8)) != ALL_ONES
    ensures exists a :: addr <= a < addr + 8 && a in m && m[a] != 0xFF
  {
    var b := Read(m, addr, 8);
    AllOnesBytes(b);
    hide FromBytes;
    var k :| 0 <= k < 8 && b[k] != 0xFF;
    assert b[k] == m[addr + k];
  }

  lemma RemoveAnswers(s: State, i: nat, code: Code, s': State)
    requires s.WellFormed() && i < s.count && RemoveStep(s, i, code, s')
    ensures !s.table[i].enabledPhy ==> code == Ok && s' == s
    ensures code != Ok ==> code in {PtracePeektextFailed, PtracePoketextFailed} && s' == s
    ensures code == Ok && s.table[i].enabledPhy ==>
      var bp := s.table[i];
      && bp.addr in s.proc.mem && s'.proc.mem == s.proc.mem[bp.addr := bp.ogByte]
      && s'.table == s.table[i := Breakpoint(bp.addr, bp.ogByte, bp.enabledLog, false)]
      && s' == s.(table := s'.table, proc := s.proc.(mem := s'.proc.mem))
  {
  }

  /** Enabling and disabling by address: the logical flag is set in any case, and only in a live process is more done. */
  lemma FindAnswers(s: State, addr: nat, enable: bool, code: Code, s': State)
    requires s.WellFormed() && FindAnd(s, addr, enable, code, s')
    ensures code == BreakpointNotFound <==> forall i :: 0 <= i < s.count ==> s.table[i].addr != addr
    ensures code == BreakpointNotFound ==> s' == s
    ensures forall i :: 0 <= i < s.count && s.table[i].addr == addr ==>
      && s'.count == s.count && |s'.table| == |s.table|
      && s'.table == s.table[i := s'.table[i]] && s'.table[i].addr == addr && s'.table[i].enabledLog == enable
      && (s.status != RUNNING && s.status != STOPPED ==>
            code == Ok && s'.proc == s.proc && s'.table[i] == s.table[i].(enabledLog := enable))
      && ((s.status == RUNNING || s.status == STOPPED) && code == Ok ==> s'.table[i].enabledPhy == enable)
  {
    if s.Has(addr) {
      var i :| 0 <= i < s.count && s.table[i].addr == addr &&
        if enable then EnableStep(s, i, code, s') else DisableStep(s, i, code, s');
      forall j | 0 <= j < s.count && s.table[j].addr == addr
        ensures j == i
      {
      }
      if enable {
        EnabledAt(s, i, code, s');
      } else {
        DisabledFlagAt(s, i, code, s');
      }
    }
  }

  lemma EnabledAt(s: State, i: nat, code: Code, s': State)
    requires i < s.count <= |s.table| && EnableStep(s, i, code, s')
    ensures s'.count == s.count && |s'.table| == |s.table| && code in {Ok, PtracePeektextFailed}
    ensures s'.table == s.table[i := s'.table[i]] && s'.table[i].addr == s.table[i].addr && s'.table[i].enabledLog
    ensures !s.Active() ==> code == Ok && s'.proc == s.proc && s'.table[i] == s.table[i].(enabledLog := true)
    ensures s.Active() && code == Ok ==> s'.table[i].enabledPhy
  {
  }

  lemma DisabledFlagAt(s: State, i: nat, code: Code, s': State)
    requires i < s.count <= |s.table| && DisableStep(s, i, code, s')
    ensures s'.count == s.count && |s'.table| == |s.table| && code in {Ok, PtracePeektextFailed, PtracePoketextFailed}
    ensures s'.table == s.table[i := s'.table[i]] && s'.table[i].addr == s.table[i].addr && !s'.table[i].enabledLog
    ensures !s.Active() ==> code == Ok && s'.proc == s.proc && s'.table[i] == s.table[i].(enabledLog := false)
    ensures s.Active() && code == Ok ==> !s'.table[i].enabledPhy
  {
  }

  /** A set: refused when the 256 slots are in use or the address is, otherwise an entry at the end. */
  lemma SetAnswers(s: State, addr: nat, code: Code, s': State)
    requires s.WellFormed() && SetStep(s, addr, code, s')
    ensures |s.table| == 256
    ensures code == BreakpointLimitReached <==> s.count == 256
    ensures code == BreakpointAlreadyExists <==> s.count < 256 && exists i :: 0 <= i < s.count && s.table[i].addr == addr
    ensures code in {BreakpointLimitReached, BreakpointAlreadyExists} ==> s' == s
    ensures code !in {BreakpointLimitReached, BreakpointAlreadyExists} ==>
      && s.count < 256 && s'.count == s.count + 1 && |s'.table| == 256 && s'.table == s.table[s.count := s'.table[s.count]]
      && s'.table[s.count].addr == addr && s'.table[s.count].enabledLog
      && (s.status != RUNNING && s.status != STOPPED ==>
            code == Ok && s'.proc == s.proc && s'.table[s.count] == s.table[s.count].(addr := addr, enabledLog := true))
      && (s.status == RUNNING || s.status == STOPPED ==>
            code in {Ok, PtracePeektextFailed} && (code == Ok ==> s'.table[s.count].enabledPhy))
  {
    if s.count < MAX_BREAKPOINTS && !s.Has(addr) {
      GrownAnswers(s, addr, code, s');
    }
  }

  lemma GrownAnswers(s: State, addr: nat, code: Code, s': State)
    requires s.WellFormed() && s.count < MAX_BREAKPOINTS && !s.Has(addr) && SetStep(s, addr, code, s')
    ensures code in {Ok, PtracePeektextFailed} && s'.count == s.count + 1 && |s'.table| == |s.table|
    ensures s'.table == s.table[s.count := s'.table[s.count]]
    ensures s'.table[s.count].addr == addr && s'.table[s.count].enabledLog
    ensures !s.Active() ==> code == Ok && s'.proc == s.proc && s'.table == Grown(s, addr).table
    ensures s.Active() && code == Ok ==> s'.table[s.count].enabledPhy
  {
  }

  /** An unset: what it does to the table is UnsetRemovesOneKey; without a process memory is not touched. */
  lemma UnsetAnswers(s: State, addr: nat, code: Code, s': State)
    requires s.WellFormed() && UnsetStep(s, addr, code, s')
    ensures code == BreakpointNotFound <==> forall i :: 0 <= i < s.count ==> s.table[i].addr != addr
    ensures code == Ok ==> s'.count == s.count - 1
    ensures code != Ok ==> s'.count == s.count && code in {BreakpointNotFound, PtracePeektextFailed, PtracePoketextFailed}
    ensures s.status != RUNNING && s.status != STOPPED ==> code in {Ok, BreakpointNotFound} && s'.proc == s.proc
    ensures s'.status == s.status && s'.pid == s.pid && s'.isAttached == s.isAttached
  {
    if s.Has(addr) {
      hide DisableStep;
      var i, s1 :| UnsetAt(s, addr, i, code, s1, s');
      DisabledFlagAt(s, i, code, s1);
      DisabledRest(s, i, code, s1);
    }
  }

  lemma DisabledRest(s: State, i: nat, code: Code, s': State)
    requires i < s.count <= |s.table| && DisableStep(s, i, code, s')
    ensures s'.status == s.status && s'.pid == s.pid && s'.isAttached == s.isAttached
  {
  }

  /** Clearing drops everything, or stops at a planted last entry, with those before it as they were. */
  lemma ClearAllAnswers(s: State, code: Code, s': State)
    requires s.WellFormed() && ClearAllStep(s, code, s')
    ensures code in {Ok, PtracePeektextFailed, PtracePoketextFailed} && (code == Ok <==> s'.count == 0)
    ensures s'.count <= s.count && |s'.table| == |s.table| && forall i :: 0 <= i < s'.count ==> s'.table[i] == s.table[i]
    ensures s.status != RUNNING && s.status != STOPPED ==> code == Ok && s'.proc == s.proc && s'.table == s.table
    ensures s.status == RUNNING || s.status == STOPPED ==>
      forall i :: s'.count <= i < s.count ==> s'.table[i] == s.table[i].(enabledPhy := false)
  {
    hide Restored, Distinct;
  }

  /** Planting all: what it has come to is planted over the bytes memory had, and the rest is as it was. */
  lemma SetAllAnswers(s: State, code: Code, s': State) returns (k: nat)
    requires s.WellFormed() && SetAllStep(s, code, s')
    ensures code in {Ok, PtracePeektextFailed} && k <= s.count == s'.count && |s'.table| == |s.table|
    ensures code == Ok <==> k == s.count
    ensures forall i :: k <= i < |s.table| ==> s'.table[i] == s.table[i]
    ensures forall i :: 0 <= i < k && s.table[i].enabledPhy ==> s'.table[i] == s.table[i]
    ensures forall i :: 0 <= i < k && !s.table[i].enabledPhy ==>
      var bp := s.table[i];
      && bp.addr in s.proc.mem && s'.table[i] == Breakpoint(bp.addr, s.proc.mem[bp.addr], bp.enabledLog, true)
      && bp.addr in s'.proc.mem && s'.proc.mem[bp.addr] == 0xCC
    ensures forall a :: a in s.proc.mem && (forall i :: 0 <= i < k ==> s.table[i].addr != a) ==>
      a in s'.proc.mem && s'.proc.mem[a] == s.proc.mem[a]
  {
    var n :| PlantedUpTo(s, n, s') && (code == Ok <==> n == s.count);
    k := n;
    forall i | 0 <= i < k && !s.table[i].enabledPhy
      ensures s.table[i].addr in s'.proc.mem && s'.proc.mem[s.table[i].addr] == 0xCC
    {
      assert UnarmedEntry(s.table, k, s.table[i].addr, i);
    }
  }

  /** Lifting all: what it has come to is lifted, with the saved bytes back in memory, and the rest is as it was. */
  lemma UnsetAllAnswers(s: State, code: Code, s': State) returns (k: nat)
    requires s.WellFormed() && UnsetAllStep(s, code, s')
    ensures code in {Ok, PtracePeektextFailed, PtracePoketextFailed} && k <= s.count == s'.count && |s'.table| == |s.table|
    ensures code == Ok <==> k == s.count
    ensures forall i :: k <= i < |s.table| ==> s'.table[i] == s.table[i]
    ensures forall i :: 0 <= i < k ==> s'.table[i] == s.table[i].(enabledPhy := false)
    ensures forall i :: 0 <= i < k && s.table[i].enabledPhy ==>
      s.table[i].addr in s'.proc.mem && s'.proc.mem[s.table[i].addr] == s.table[i].ogByte
    ensures forall a :: a in s.proc.mem && (forall i :: 0 <= i < k ==> s.table[i].addr != a) ==>
      a in s'.proc.mem && s'.proc.mem[a] == s.proc.mem[a]
  {
    var n :| LiftedUpTo(s, n, s') && (code == Ok <==> n == s.count);
    k := n;
    forall i | 0 <= i < k && s.table[i].enabledPhy
      ensures s.table[i].addr in s'.proc.mem && s'.proc.mem[s.table[i].addr] == s.table[i].ogByte
    {
      RestoredAt(s.table, 0, k, s.proc.mem, i);
    }
    forall a | a in s.proc.mem && (forall i :: 0 <= i < k ==> s.table[i].addr != a)
      ensures a in s'.proc.mem && s'.proc.mem[a] == s.proc.mem[a]
    {
      RestoredElsewhere(s.table, 0, k, s.proc.mem, a);
    }
  }
}

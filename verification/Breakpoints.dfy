/** The inferior, and the breakpoint engine that works on it (lib/sylvan/breakpoint.c). */
module Breakpoints {
  import opened Codes
  import opened Words
  import opened Tracee
  import opened DebuggerState
  import opened BreakpointSpec

  class Inferior {
    var pid: int
    var status: Status
    var isAttached: bool
    var hasPath: bool
    const breakpoints: array<Breakpoint>
    var breakpointCount: nat
    const os: Kernel

    ghost function Snapshot(): State
      reads this, breakpoints, os
    {
      State(status, pid, isAttached, breakpoints[..], breakpointCount, os.Value())
    }

    ghost predicate Valid()
      reads this, breakpoints, os
    {
      Snapshot().WellFormed()
    }

    predicate Active()
      reads this
    {
      status == RUNNING || status == STOPPED
    }

    /** A new inferior is zeroed memory: no process, no breakpoints, every slot clean. */
    constructor ()
      ensures Snapshot().Inv() && !Active() && breakpointCount == 0
      ensures forall i :: 0 <= i < breakpoints.Length ==> !breakpoints[i].enabledPhy
      ensures fresh(breakpoints) && fresh(os) && os.log == []
    {
      pid, status, isAttached, hasPath, breakpointCount := 0, NONE, false, false, 0;
      breakpoints := new Breakpoint[MAX_BREAKPOINTS](_ => Breakpoint(0, 0, false, false));
      os := new Kernel();
    }
  }

  method FindByAddr(inf: Inferior, addr: nat) returns (code: Code, index: nat)
    requires inf.Valid()
    ensures code == if inf.Snapshot().Has(addr) then Ok else BreakpointNotFound
    ensures code == Ok ==> index < inf.breakpointCount && inf.breakpoints[index].addr == addr
  {
    for i := 0 to inf.breakpointCount
      invariant forall j :: 0 <= j < i ==> inf.breakpoints[j].addr != addr
    {
      if inf.breakpoints[i].addr == addr {
        assert inf.Snapshot().table[i].addr == addr;
        return Ok, i;
      }
    }
    return BreakpointNotFound, 0;
  }

  /** Plants one breakpoint: the low byte of the word at its address becomes INT3. */
  method CreatePhysical(inf: Inferior, i: nat) returns (code: Code)
    requires inf.Valid() && i < inf.breakpointCount && inf.Active()
    modifies inf.breakpoints, inf.os`mem, inf.os`setbacks, inf.os`failures, inf.os`refused
    ensures CreateStep(old(inf.Snapshot()), i, code, inf.Snapshot())
    ensures inf.Valid() && inf.os.setbacks >= old(inf.os.setbacks)
    ensures code == Ok <==> inf.os.setbacks == old(inf.os.setbacks)
    ensures code == PtracePeektextFailed ==> inf.os.refused in {PeekRequest, PokeRequest}
  {
    hide ToBytes, FromBytes, PatchLow, Low, Mapped, Read, Write;
    var bp := inf.breakpoints[i];
    if bp.enabledPhy {
      return Ok;
    }
    var data, _ := inf.os.Peek(bp.addr);
    if data == ALL_ONES {
      return PtracePeektextFailed;
    }
    var ok := inf.os.Poke(bp.addr, PatchLow(data, INT3));
    if !ok {
      return PtracePeektextFailed;
    }
    PatchIsByteWrite(old(inf.os.mem), bp.addr, data, INT3);
    inf.breakpoints[i] := bp.(ogByte := Low(data), enabledPhy := true);
    return Ok;
  }

  /** Lifts one breakpoint: the saved byte goes back. */
  method RemovePhysical(inf: Inferior, i: nat) returns (code: Code)
    requires inf.Valid() && i < inf.breakpointCount && inf.Active()
    modifies inf.breakpoints, inf.os`mem, inf.os`setbacks, inf.os`failures, inf.os`refused
    ensures RemoveStep(old(inf.Snapshot()), i, code, inf.Snapshot())
    ensures inf.Valid() && inf.os.setbacks >= old(inf.os.setbacks)
    ensures code == Ok <==> inf.os.setbacks == old(inf.os.setbacks)
    ensures code == PtracePeektextFailed ==> inf.os.refused == PeekRequest
    ensures code == PtracePoketextFailed ==> inf.os.refused == PokeRequest
  {
    hide ToBytes, FromBytes, PatchLow, Low, Mapped, Read, Write;
    var bp := inf.breakpoints[i];
    if !bp.enabledPhy {
      return Ok;
    }
    var data, _ := inf.os.Peek(bp.addr);
    if data == ALL_ONES {
      return PtracePeektextFailed;
    }
    var ok := inf.os.Poke(bp.addr, PatchLow(data, bp.ogByte));
    if !ok {
      return PtracePoketextFailed;
    }
    PatchIsByteWrite(old(inf.os.mem), bp.addr, data, bp.ogByte);
    inf.breakpoints[i] := bp.(enabledPhy := false);
    return Ok;
  }

  method EnableAt(inf: Inferior, i: nat) returns (code: Code)
    requires inf.Valid() && i < inf.breakpointCount
    modifies inf.breakpoints, inf.os`mem, inf.os`setbacks, inf.os`failures, inf.os`refused
    ensures EnableStep(old(inf.Snapshot()), i, code, inf.Snapshot())
    ensures inf.Valid() && inf.os.setbacks >= old(inf.os.setbacks)
    ensures code in {PtracePeektextFailed, PtracePoketextFailed} <==> inf.os.setbacks > old(inf.os.setbacks)
    ensures code == PtracePeektextFailed ==> inf.os.refused in {PeekRequest, PokeRequest}
  {
    inf.breakpoints[i] := inf.breakpoints[i].(enabledLog := true);
    if inf.Active() {
      code := CreatePhysical(inf, i);
    } else {
      code := Ok;
    }
  }

  method DisableAt(inf: Inferior, i: nat) returns (code: Code)
    requires inf.Valid() && i < inf.breakpointCount
    modifies inf.breakpoints, inf.os`mem, inf.os`setbacks, inf.os`failures, inf.os`refused
    ensures DisableStep(old(inf.Snapshot()), i, code, inf.Snapshot())
    ensures inf.Valid() && inf.os.setbacks >= old(inf.os.setbacks)
    ensures code in {PtracePeektextFailed, PtracePoketextFailed} <==> inf.os.setbacks > old(inf.os.setbacks)
    ensures code == PtracePeektextFailed ==> inf.os.refused == PeekRequest
    ensures code == PtracePoketextFailed ==> inf.os.refused == PokeRequest
  {
    inf.breakpoints[i] := inf.breakpoints[i].(enabledLog := false);
    if inf.Active() {
      code := RemovePhysical(inf, i);
    } else {
      code := Ok;
    }
  }

  method EnableBreakpoint(inf: Inferior, addr: nat) returns (code: Code)
    requires inf.Valid()
    modifies inf.breakpoints, inf.os`mem, inf.os`setbacks, inf.os`failures, inf.os`refused
    ensures FindAnd(old(inf.Snapshot()), addr, true, code, inf.Snapshot())
    ensures inf.Valid() && inf.os.setbacks >= old(inf.os.setbacks)
    ensures code in {PtracePeektextFailed, PtracePoketextFailed} <==> inf.os.setbacks > old(inf.os.setbacks)
    ensures code == PtracePeektextFailed ==> inf.os.refused in {PeekRequest, PokeRequest}
  {
    var found, i := FindByAddr(inf, addr);
    if found != Ok {
      return BreakpointNotFound;
    }
    assert old(inf.Snapshot()).table[i].addr == addr;
    code := EnableAt(inf, i);
  }

  method DisableBreakpoint(inf: Inferior, addr: nat) returns (code: Code)
    requires inf.Valid()
    modifies inf.breakpoints, inf.os`mem, inf.os`setbacks, inf.os`failures, inf.os`refused
    ensures FindAnd(old(inf.Snapshot()), addr, false, code, inf.Snapshot())
    ensures inf.Valid() && inf.os.setbacks >= old(inf.os.setbacks)
    ensures code in {PtracePeektextFailed, PtracePoketextFailed} <==> inf.os.setbacks > old(inf.os.setbacks)
    ensures code == PtracePeektextFailed ==> inf.os.refused == PeekRequest
    ensures code == PtracePoketextFailed ==> inf.os.refused == PokeRequest
  {
    var found, i := FindByAddr(inf, addr);
    if found != Ok {
      return BreakpointNotFound;
    }
    assert old(inf.Snapshot()).table[i].addr == addr;
    code := DisableAt(inf, i);
  }

  /** The slot past the last entry is taken over; its physical flag and saved byte stay as they were left. */
  method SetBreakpoint(inf: Inferior, addr: nat) returns (code: Code)
    requires inf.Valid()
    modifies inf`breakpointCount, inf.breakpoints, inf.os`mem, inf.os`setbacks, inf.os`failures, inf.os`refused
    ensures SetStep(old(inf.Snapshot()), addr, code, inf.Snapshot())
    ensures inf.Valid() && inf.os.setbacks >= old(inf.os.setbacks)
    ensures code in {PtracePeektextFailed, PtracePoketextFailed} <==> inf.os.setbacks > old(inf.os.setbacks)
    ensures code == PtracePeektextFailed ==> inf.os.refused in {PeekRequest, PokeRequest}
  {
    hide CreateStep;
    if inf.breakpointCount == MAX_BREAKPOINTS {
      return BreakpointLimitReached;
    }
    var found, _ := FindByAddr(inf, addr);
    if found != BreakpointNotFound {
      return BreakpointAlreadyExists;
    }
    var i := inf.breakpointCount;
    inf.breakpointCount := i + 1;
    inf.breakpoints[i] := inf.breakpoints[i].(addr := addr);
    inf.breakpoints[i] := inf.breakpoints[i].(enabledLog := true);
    ghost var s1 := inf.Snapshot();
    assert s1 == Grown(old(inf.Snapshot()), addr);
    if !inf.Active() {
      return Ok;
    }
    assert s1.table[i := s1.table[i].(enabledLog := true)] == s1.table;
    code := EnableAt(inf, i);
  }

  method UnsetBreakpoint(inf: Inferior, addr: nat) returns (code: Code)
    requires inf.Valid()
    modifies inf`breakpointCount, inf.breakpoints, inf.os`mem, inf.os`setbacks, inf.os`failures, inf.os`refused
    ensures UnsetStep(old(inf.Snapshot()), addr, code, inf.Snapshot())
    ensures inf.Valid() && inf.os.setbacks >= old(inf.os.setbacks)
    ensures code in {PtracePeektextFailed, PtracePoketextFailed} <==> inf.os.setbacks > old(inf.os.setbacks)
    ensures code == PtracePeektextFailed ==> inf.os.refused == PeekRequest
    ensures code == PtracePoketextFailed ==> inf.os.refused == PokeRequest
  {
    var found, i := FindByAddr(inf, addr);
    if found != Ok {
      return BreakpointNotFound;
    }
    hide DisableStep;
    assert inf.Snapshot().table[i].addr == addr;
    ghost var s := inf.Snapshot();
    code := DisableAt(inf, i);
    ghost var s1 := inf.Snapshot();
    if code == Ok {
      DropEntry(inf, i);
    }
    assert UnsetAt(s, addr, i, code, s1, inf.Snapshot());
  }

  /** The last entry moves into the freed place. */
  method DropEntry(inf: Inferior, i: nat)
    requires inf.Valid() && i < inf.breakpointCount
    modifies inf`breakpointCount, inf.breakpoints
    ensures var s := old(inf.Snapshot());
      inf.Snapshot() == s.(count := s.count - 1, table := s.table[i := s.table[if s.count == 1 then i else s.count - 1]])
    ensures inf.Valid()
  {
    ghost var s := inf.Snapshot();
    inf.breakpointCount := inf.breakpointCount - 1;
    if inf.breakpointCount != 0 {
      inf.breakpoints[i] := inf.breakpoints[inf.breakpointCount];
    }
    assert inf.Snapshot().table == s.table[i := s.table[if s.count == 1 then i else s.count - 1]];
  }

  method ClearAllBreakpoints(inf: Inferior) returns (code: Code)
    requires inf.Valid()
    modifies inf`breakpointCount, inf.breakpoints, inf.os`mem, inf.os`setbacks, inf.os`failures, inf.os`refused
    ensures ClearAllStep(old(inf.Snapshot()), code, inf.Snapshot())
    ensures inf.Valid() && inf.os.setbacks >= old(inf.os.setbacks)
    ensures code in {PtracePeektextFailed, PtracePoketextFailed} <==> inf.os.setbacks > old(inf.os.setbacks)
    ensures code == PtracePeektextFailed ==> inf.os.refused == PeekRequest
    ensures code == PtracePoketextFailed ==> inf.os.refused == PokeRequest
  {
    if !inf.Active() {
      inf.breakpointCount := 0;
      return Ok;
    }
    code := ClearLiveBreakpoints(inf);
  }

  /** Lifts and drops the entries from the last one down. */
  method ClearLiveBreakpoints(inf: Inferior) returns (code: Code)
    requires inf.Valid() && inf.Active()
    modifies inf`breakpointCount, inf.breakpoints, inf.os`mem, inf.os`setbacks, inf.os`failures, inf.os`refused
    ensures ClearAllStep(old(inf.Snapshot()), code, inf.Snapshot())
    ensures inf.Valid() && inf.os.setbacks >= old(inf.os.setbacks)
    ensures code in {PtracePeektextFailed, PtracePoketextFailed} <==> inf.os.setbacks > old(inf.os.setbacks)
    ensures code == PtracePeektextFailed ==> inf.os.refused == PeekRequest
    ensures code == PtracePoketextFailed ==> inf.os.refused == PokeRequest
  {
    ghost var s := inf.Snapshot();
    LiftedNone(s, s.count);
    hide ClearedDownTo, ClearAllStep, Distinct;
    while inf.breakpointCount != 0
      invariant inf.breakpointCount <= s.count && inf.Active() && inf.os.setbacks == old(inf.os.setbacks)
      invariant inf.Valid() && ClearedDownTo(s, inf.breakpointCount, inf.Snapshot())
    {
      code := ClearLast(inf, s);
      if code != Ok {
        ClearedSoFar(s, inf.breakpointCount, code, inf.Snapshot());
        return code;
      }
    }
    ClearedSoFar(s, 0, Ok, inf.Snapshot());
    return Ok;
  }

  /** Lifts the last entry, and drops it if that succeeds. */
  method ClearLast(inf: Inferior, ghost s: State) returns (code: Code)
    requires inf.Valid() && inf.Active() && s.WellFormed() && 0 < inf.breakpointCount <= s.count
    requires ClearedDownTo(s, inf.breakpointCount, inf.Snapshot())
    modifies inf`breakpointCount, inf.breakpoints, inf.os`mem, inf.os`setbacks, inf.os`failures, inf.os`refused
    ensures inf.breakpointCount == old(inf.breakpointCount) - if code == Ok then 1 else 0
    ensures inf.Valid() && ClearedDownTo(s, inf.breakpointCount, inf.Snapshot())
    ensures code in {Ok, PtracePeektextFailed, PtracePoketextFailed}
    ensures inf.os.setbacks >= old(inf.os.setbacks) && (code == Ok <==> inf.os.setbacks == old(inf.os.setbacks))
    ensures code == PtracePeektextFailed ==> inf.os.refused == PeekRequest
    ensures code == PtracePoketextFailed ==> inf.os.refused == PokeRequest
  {
    hide RemoveStep, ClearedDownTo;
    ghost var k, before := inf.breakpointCount, inf.Snapshot();
    code := RemovePhysical(inf, inf.breakpointCount - 1);
    RemoveFailed(before, k - 1, code, inf.Snapshot());
    if code == Ok {
      inf.breakpointCount := inf.breakpointCount - 1;
      ClearedOneMore(s, k, before, inf.Snapshot());
    }
  }

  /** Forgets which breakpoints were planted: the process they were planted in is gone. */
  method ResetPhysical(inf: Inferior)
    requires inf.Valid()
    modifies inf.breakpoints
    ensures inf.Snapshot() == old(inf.Snapshot()).(table := Disarmed(old(inf.Snapshot()).table, 0, inf.breakpointCount))
    ensures inf.Valid()
  {
    for i := 0 to inf.breakpointCount
      invariant inf.breakpoints[..] == Disarmed(old(inf.breakpoints[..]), 0, i)
    {
      inf.breakpoints[i] := inf.breakpoints[i].(enabledPhy := false);
    }
  }

  method SetAllPhysical(inf: Inferior) returns (code: Code)
    requires inf.Valid() && inf.Active()
    modifies inf.breakpoints, inf.os`mem, inf.os`setbacks, inf.os`failures, inf.os`refused
    ensures SetAllStep(old(inf.Snapshot()), code, inf.Snapshot())
    ensures inf.Valid() && inf.os.setbacks >= old(inf.os.setbacks)
    ensures code in {PtracePeektextFailed, PtracePoketextFailed} <==> inf.os.setbacks > old(inf.os.setbacks)
    ensures code == PtracePeektextFailed ==> inf.os.refused in {PeekRequest, PokeRequest}
  {
    ghost var s := inf.Snapshot();
    PlantedNone(s);
    hide CreateStep, PlantedUpTo, SetAllStep;
    for i := 0 to inf.breakpointCount
      invariant inf.Valid() && PlantedUpTo(s, i, inf.Snapshot())
      invariant inf.os.setbacks == old(inf.os.setbacks)
    {
      ghost var before := inf.Snapshot();
      code := CreatePhysical(inf, i);
      CreateFailed(before, i, code, inf.Snapshot());
      if code != Ok {
        PlantedSoFar(s, i, code, inf.Snapshot());
        return code;
      }
      PlantedOneMore(s, i, before, inf.Snapshot());
    }
    PlantedSoFar(s, inf.breakpointCount, Ok, inf.Snapshot());
    return Ok;
  }

  method UnsetAllPhysical(inf: Inferior) returns (code: Code)
    requires inf.Valid() && inf.Active()
    modifies inf.breakpoints, inf.os`mem, inf.os`setbacks, inf.os`failures, inf.os`refused
    ensures UnsetAllStep(old(inf.Snapshot()), code, inf.Snapshot())
    ensures inf.Valid() && inf.os.setbacks >= old(inf.os.setbacks)
    ensures code in {PtracePeektextFailed, PtracePoketextFailed} <==> inf.os.setbacks > old(inf.os.setbacks)
    ensures code == PtracePeektextFailed ==> inf.os.refused == PeekRequest
    ensures code == PtracePoketextFailed ==> inf.os.refused == PokeRequest
  {
    ghost var s := inf.Snapshot();
    LiftedNone(s, 0);
    hide RemoveStep, LiftedUpTo, UnsetAllStep;
    for i := 0 to inf.breakpointCount
      invariant inf.Valid() && LiftedUpTo(s, i, inf.Snapshot())
      invariant inf.os.setbacks == old(inf.os.setbacks)
    {
      ghost var before := inf.Snapshot();
      code := RemovePhysical(inf, i);
      RemoveFailed(before, i, code, inf.Snapshot());
      if code != Ok {
        LiftedSoFar(s, i, code, inf.Snapshot());
        return code;
      }
      LiftedOneMore(s, i, before, inf.Snapshot());
    }
    LiftedSoFar(s, inf.breakpointCount, Ok, inf.Snapshot());
    return Ok;
  }

  // ----- one more turn of each loop, and its end -----

  lemma PlantedSoFar(s: State, k: nat, code: Code, s': State)
    requires s.WellFormed() && PlantedUpTo(s, k, s') && code in {Ok, PtracePeektextFailed} && (code == Ok <==> k == s.count)
    ensures SetAllStep(s, code, s')
  {
  }

  lemma LiftedSoFar(s: State, k: nat, code: Code, s': State)
    requires s.WellFormed() && LiftedUpTo(s, k, s') && code in {Ok, PtracePeektextFailed, PtracePoketextFailed}
    requires code == Ok <==> k == s.count
    ensures UnsetAllStep(s, code, s')
  {
  }

  lemma ClearedSoFar(s: State, k: nat, code: Code, s': State)
    requires s.WellFormed() && s.Active() && ClearedDownTo(s, k, s') && (code == Ok <==> k == 0)
    requires code in {Ok, PtracePeektextFailed, PtracePoketextFailed}
    ensures ClearAllStep(s, code, s')
  {
  }

  lemma CreateFailed(s: State, i: nat, code: Code, s': State)
    requires i < s.count <= |s.table| && CreateStep(s, i, code, s')
    ensures code in {Ok, PtracePeektextFailed} && (code != Ok ==> s' == s)
  {
  }

  lemma RemoveFailed(s: State, i: nat, code: Code, s': State)
    requires i < s.count <= |s.table| && RemoveStep(s, i, code, s')
    ensures code in {Ok, PtracePeektextFailed, PtracePoketextFailed} && (code != Ok ==> s' == s)
  {
  }

  lemma PlantedNone(s: State)
    requires s.WellFormed()
    ensures PlantedUpTo(s, 0, s)
  {
    assert Armed(s.table, 0, s.proc.mem) == s.table;
    assert Planted(s.table, 0, s.proc.mem) == s.proc.mem;
  }

  lemma LiftedNone(s: State, at: nat)
    requires s.WellFormed() && at <= s.count
    ensures at == 0 ==> LiftedUpTo(s, 0, s)
    ensures at == s.count ==> ClearedDownTo(s, s.count, s)
  {
    assert Disarmed(s.table, at, at) == s.table;
    assert Restored(s.table, at, at, s.proc.mem) == s.proc.mem;
  }

  lemma PlantedOneMore(s: State, k: nat, s1: State, s2: State)
    requires s.WellFormed() && k < s.count && PlantedUpTo(s, k, s1) && CreateStep(s1, k, Ok, s2)
    ensures PlantedUpTo(s, k + 1, s2)
  {
    hide FromBytes, Read, Mapped;
    assert s1.table[k] == s.table[k];
    PlantedByteOneMore(s.table, k, s.proc.mem, s2.proc.mem);
    ArmedOneMore(s.table, k, s.proc.mem, s2.table);
  }

  lemma PlantedByteOneMore(t: Table, k: nat, m: Memory, m': Memory)
    requires k < |t| && Distinct(t, k + 1)
    requires if t[k].enabledPhy then m' == Planted(t, k, m)
             else t[k].addr in m && m' == Planted(t, k, m)[t[k].addr := INT3]
    ensures Planted(t, k + 1, m) == m'
    ensures !t[k].enabledPhy ==> Planted(t, k, m)[t[k].addr] == m[t[k].addr]
  {
    assert forall i :: 0 <= i < k ==> t[i].addr != t[k].addr;
    var k' := k + 1;
    forall a | a in m
      ensures a in m' && Planted(t, k', m)[a] == m'[a]
    {
      assert forall i :: UnarmedEntry(t, k, a, i) ==> UnarmedEntry(t, k', a, i);
      assert forall i :: UnarmedEntry(t, k', a, i) ==> i == k || UnarmedEntry(t, k, a, i);
      assert UnarmedEntry(t, k', a, k) <==> !t[k].enabledPhy && t[k].addr == a;
    }
  }

  lemma ArmedOneMore(t: Table, k: nat, m: Memory, t': Table)
    requires k < |t| && (!t[k].enabledPhy ==> t[k].addr in m)
    requires t' == if t[k].enabledPhy then Armed(t, k, m)
                   else Armed(t, k, m)[k := t[k].(enabledPhy := true, ogByte := m[t[k].addr])]
    ensures Armed(t, k + 1, m) == t'
  {
  }

  lemma LiftedOneMore(s: State, k: nat, s1: State, s2: State)
    requires s.WellFormed() && k < s.count && LiftedUpTo(s, k, s1) && RemoveStep(s1, k, Ok, s2)
    ensures LiftedUpTo(s, k + 1, s2)
  {
    hide FromBytes, Read, Mapped;
    assert s1.table[k] == s.table[k];
    hide Restored;
    RestoredKeys(s.table, 0, k, s.proc.mem);
    RestoredOneMore(s.table, 0, k, 0, k + 1, k, s.proc.mem, s2.proc.mem);
    assert Disarmed(s.table, 0, k + 1) == s2.table;
  }

  lemma ClearedOneMore(s: State, k: nat, s1: State, s2: State)
    requires s.WellFormed() && 0 < k <= s.count && ClearedDownTo(s, k, s1)
    requires |s2.table| == |s.table| && RemoveStep(s1, k - 1, Ok, s2.(count := k))
    requires s2.count == k - 1
    ensures ClearedDownTo(s, k - 1, s2)
  {
    RestoredOneMore(s.table, k, s.count, k - 1, s.count, k - 1, s.proc.mem, s2.proc.mem);
    assert Disarmed(s.table, k - 1, s.count) == s2.table;
  }

  /** Lifting a range and then its neighbour is lifting the longer range. */
  lemma RestoredOneMore(t: Table, lo: nat, hi: nat, lo': nat, hi': nat, k: nat, m: Memory, m': Memory)
    requires lo <= hi <= |t| && lo' <= k < hi' <= |t| && Distinct(t, hi')
    requires (lo' == lo && k == hi && hi' == hi + 1) || (lo' == k && lo == k + 1 && hi' == hi)
    requires if t[k].enabledPhy then t[k].addr in m && m' == Restored(t, lo, hi, m)[t[k].addr := t[k].ogByte]
             else m' == Restored(t, lo, hi, m)
    ensures Restored(t, lo', hi', m) == m'
  {
    forall a | a in m
      ensures a in m' && Restored(t, lo', hi', m)[a] == m'[a]
    {
      if i :| ArmedEntry(t, lo', hi', a, i) {
        RestoredAt(t, lo', hi', m, i);
        if i != k {
          assert t[i].addr != t[k].addr;
          RestoredAt(t, lo, hi, m, i);
        }
      } else {
        assert !ArmedEntry(t, lo', hi', a, k);
        forall i | lo' <= i < hi' && t[i].enabledPhy
          ensures t[i].addr != a
        {
          assert !ArmedEntry(t, lo', hi', a, i);
        }
        RestoredElsewhere(t, lo, hi, m, a);
        RestoredElsewhere(t, lo', hi', m, a);
      }
    }
  }
}

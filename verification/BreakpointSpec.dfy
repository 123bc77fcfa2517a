/** What each breakpoint operation does to the debugger's state, and what all of them keep. */
module BreakpointSpec {
  import opened Codes
  import opened Words
  import opened Tracee
  import opened DebuggerState

  // ----- what each operation does -----

  /** Planting entry i: a PEEK that fails, or reads eight 0xFF bytes, and a failed POKE leave everything as it was. */
  ghost predicate CreateStep(s: State, i: nat, code: Code, s': State)
    requires i < s.count <= |s.table|
  {
    var bp := s.table[i];
    if bp.enabledPhy then
      code == Ok && s' == s
    else if code == Ok then
      && Mapped(s.proc.mem, bp.addr, 8)
      && FromBytes(Read(s.proc.mem, bp.addr, 8)) != ALL_ONES
      && bp.addr in s.proc.mem
      && s' == s.(table := s.table[i := bp.(enabledPhy := true, ogByte := s.proc.mem[bp.addr])],
                  proc := s.proc.(mem := s.proc.mem[bp.addr := INT3]))
    else
      code == PtracePeektextFailed && s' == s
  }

  /** Lifting entry i. */
  ghost predicate RemoveStep(s: State, i: nat, code: Code, s': State)
    requires i < s.count <= |s.table|
  {
    var bp := s.table[i];
    if !bp.enabledPhy then
      code == Ok && s' == s
    else if code == Ok then
      && Mapped(s.proc.mem, bp.addr, 8)
      && FromBytes(Read(s.proc.mem, bp.addr, 8)) != ALL_ONES
      && bp.addr in s.proc.mem
      && s' == s.(table := s.table[i := bp.(enabledPhy := false)],
                  proc := s.proc.(mem := s.proc.mem[bp.addr := bp.ogByte]))
    else
      (code == PtracePeektextFailed || code == PtracePoketextFailed) && s' == s
  }

  ghost predicate EnableStep(s: State, i: nat, code: Code, s': State)
    requires i < s.count <= |s.table|
  {
    var s1 := s.(table := s.table[i := s.table[i].(enabledLog := true)]);
    if s.Active() then CreateStep(s1, i, code, s') else code == Ok && s' == s1
  }

  ghost predicate DisableStep(s: State, i: nat, code: Code, s': State)
    requires i < s.count <= |s.table|
  {
    var s1 := s.(table := s.table[i := s.table[i].(enabledLog := false)]);
    if s.Active() then RemoveStep(s1, i, code, s') else code == Ok && s' == s1
  }

  /** A new entry takes over the next free slot, with whatever physical flag and saved byte were left in it. */
  ghost predicate SetStep(s: State, addr: nat, code: Code, s': State)
    requires s.WellFormed()
  {
    if s.count == MAX_BREAKPOINTS then
      code == BreakpointLimitReached && s' == s
    else if s.Has(addr) then
      code == BreakpointAlreadyExists && s' == s
    else
      var s1 := s.(count := s.count + 1,
                   table := s.table[s.count := s.table[s.count].(addr := addr, enabledLog := true)]);
      if s.Active() then CreateStep(s1, s.count, code, s') else code == Ok && s' == s1
  }

  /** The last entry moves into the place of the one that is removed; its old slot keeps its contents. */
  ghost predicate UnsetStep(s: State, addr: nat, code: Code, s': State)
    requires s.WellFormed()
  {
    if !s.Has(addr) then
      code == BreakpointNotFound && s' == s
    else
      exists i, s1: State :: UnsetAt(s, addr, i, code, s1, s')
  }

  ghost predicate UnsetAt(s: State, addr: nat, i: int, code: Code, s1: State, s': State)
    requires s.WellFormed()
  {
    && 0 <= i < s.count && s.table[i].addr == addr && DisableStep(s, i, code, s1)
    && |s1.table| == |s.table|
    && s' == if code != Ok then s1
             else s1.(count := s.count - 1, table := s1.table[i := s1.table[if s.count == 1 then i else s.count - 1]])
  }

  ghost predicate FindAnd(s: State, addr: nat, enable: bool, code: Code, s': State)
    requires s.WellFormed()
  {
    if !s.Has(addr) then code == BreakpointNotFound && s' == s
    else exists i :: 0 <= i < s.count && s.table[i].addr == addr &&
                     if enable then EnableStep(s, i, code, s') else DisableStep(s, i, code, s')
  }

  /** Clearing goes from the last entry down and stops at the first that cannot be lifted. */
  ghost predicate ClearAllStep(s: State, code: Code, s': State)
    requires s.WellFormed()
  {
    if !s.Active() then code == Ok && s' == s.(count := 0)
    else
      && code in {Ok, PtracePeektextFailed, PtracePoketextFailed}
      && exists k :: ClearedDownTo(s, k, s') && (code == Ok <==> k == 0)
  }

  ghost predicate ClearedDownTo(s: State, k: nat, s': State)
    requires s.WellFormed()
  {
    && k <= s.count
    && s' == s.(count := k, table := Disarmed(s.table, k, s.count),
                proc := s.proc.(mem := Restored(s.table, k, s.count, s.proc.mem)))
    && forall i :: k <= i < s.count && s.table[i].enabledPhy ==> s.table[i].addr in s.proc.mem
  }

  /** Planting all goes up and stops at the first that cannot be planted. It does not look at enabledLog. */
  ghost predicate SetAllStep(s: State, code: Code, s': State)
    requires s.WellFormed()
  {
    && code in {Ok, PtracePeektextFailed}
    && exists k :: PlantedUpTo(s, k, s') && (code == Ok <==> k == s.count)
  }

  ghost predicate PlantedUpTo(s: State, k: nat, s': State)
    requires s.WellFormed()
  {
    && k <= s.count
    && s' == s.(table := Armed(s.table, k, s.proc.mem), proc := s.proc.(mem := Planted(s.table, k, s.proc.mem)))
    && forall i :: 0 <= i < k && !s.table[i].enabledPhy ==> s.table[i].addr in s.proc.mem
  }

  /** Lifting all goes up and stops at the first that cannot be lifted. */
  ghost predicate UnsetAllStep(s: State, code: Code, s': State)
    requires s.WellFormed()
  {
    && code in {Ok, PtracePeektextFailed, PtracePoketextFailed}
    && exists k :: LiftedUpTo(s, k, s') && (code == Ok <==> k == s.count)
  }

  ghost predicate LiftedUpTo(s: State, k: nat, s': State)
    requires s.WellFormed()
  {
    && k <= s.count
    && s' == s.(table := Disarmed(s.table, 0, k), proc := s.proc.(mem := Restored(s.table, 0, k, s.proc.mem)))
    && forall i :: 0 <= i < k && s.table[i].enabledPhy ==> s.table[i].addr in s.proc.mem
  }

  // ----- what they all keep -----

  /** s' shows the program the same memory, with the same process, and nothing else of the program changed. */
  ghost predicate Transparent(s: State, s': State)
    requires s.WellFormed()
  {
    && s'.WellFormed() && s'.View() == s.View()
    && s'.proc == s.proc.(mem := s'.proc.mem)
    && s'.status == s.status && s'.pid == s.pid && s'.isAttached == s.isAttached
    && (s.Intact() ==> s'.Intact())
  }

  lemma PointKeepsView(t: Table, t': Table, n: nat, m: Memory, m': Memory, i: nat)
    requires i < n <= |t| && Distinct(t, n)
    requires |t'| == |t| && t' == t[i := t'[i]] && t'[i].addr == t[i].addr
    requires t[i].addr in m && t[i].addr in m' && m' == m[t[i].addr := m'[t[i].addr]]
    requires Restored(t', 0, n, m')[t[i].addr] == Restored(t, 0, n, m)[t[i].addr]
    ensures Distinct(t', n) && Restored(t', 0, n, m') == Restored(t, 0, n, m)
  {
    forall j | 0 <= j < n
      ensures t'[j] == t[j] || t'[j].addr == t[j].addr == t[i].addr
    {
      assert j != i ==> t'[j] == t[j];
    }
    forall a | a in m && a != t[i].addr
      ensures Restored(t', 0, n, m')[a] == Restored(t, 0, n, m)[a]
    {
      RestoredOffPoint(t, t', 0, n, m, m', t[i].addr, a);
    }
  }

  lemma CreateIsTransparent(s: State, i: nat, code: Code, s': State)
    requires s.WellFormed() && i < s.count && CreateStep(s, i, code, s')
    ensures Transparent(s, s')
    ensures code == Ok ==> s'.table[i].enabledPhy
  {
    if s' != s {
      RestoredAt(s'.table, 0, s'.count, s'.proc.mem, i);
      RestoredElsewhere(s.table, 0, s.count, s.proc.mem, s.table[i].addr);
      PointKeepsView(s.table, s'.table, s.count, s.proc.mem, s'.proc.mem, i);
    }
  }

  lemma RemoveIsTransparent(s: State, i: nat, code: Code, s': State)
    requires s.WellFormed() && i < s.count && RemoveStep(s, i, code, s')
    ensures Transparent(s, s')
    ensures code == Ok ==> !s'.table[i].enabledPhy
  {
    if s' != s {
      RestoredAt(s.table, 0, s.count, s.proc.mem, i);
      RestoredElsewhere(s'.table, 0, s'.count, s'.proc.mem, s.table[i].addr);
      PointKeepsView(s.table, s'.table, s.count, s.proc.mem, s'.proc.mem, i);
    }
  }

  lemma SameArmingKeepsView(t: Table, t': Table, n: nat, m: Memory)
    requires n <= |t| && n <= |t'| && Distinct(t, n)
    requires forall j :: 0 <= j < n ==>
      t'[j].addr == t[j].addr && t'[j].ogByte == t[j].ogByte && t'[j].enabledPhy == t[j].enabledPhy
    ensures Distinct(t', n) && Restored(t', 0, n, m) == Restored(t, 0, n, m)
  {
    forall a | a in m
      ensures Restored(t', 0, n, m)[a] == Restored(t, 0, n, m)[a]
    {
      if j :| ArmedEntry(t, 0, n, a, j) {
        RestoredAt(t, 0, n, m, j);
        RestoredAt(t', 0, n, m, j);
      } else {
        forall j | 0 <= j < n && t'[j].enabledPhy
          ensures t'[j].addr != a
        {
          assert !ArmedEntry(t, 0, n, a, j);
        }
        RestoredElsewhere(t', 0, n, m, a);
      }
    }
  }

  lemma EnableIsTransparent(s: State, i: nat, code: Code, s': State)
    requires s.WellFormed() && i < s.count && EnableStep(s, i, code, s')
    ensures Transparent(s, s')
    ensures s.Active() && code == Ok ==> s'.table[i].enabledPhy
  {
    var s1 := s.(table := s.table[i := s.table[i].(enabledLog := true)]);
    SameArmingKeepsView(s.table, s1.table, s.count, s.proc.mem);
    if s.Active() {
      CreateIsTransparent(s1, i, code, s');
    }
  }

  lemma DisableIsTransparent(s: State, i: nat, code: Code, s': State)
    requires s.WellFormed() && i < s.count && DisableStep(s, i, code, s')
    ensures Transparent(s, s')
    ensures s.Active() && code == Ok ==> !s'.table[i].enabledPhy
  {
    var s1 := s.(table := s.table[i := s.table[i].(enabledLog := false)]);
    SameArmingKeepsView(s.table, s1.table, s.count, s.proc.mem);
    if s.Active() {
      RemoveIsTransparent(s1, i, code, s');
    }
  }

  /** The next free slot carries no leftover physical flag. */
  predicate SlotClean(s: State, addr: nat)
    requires s.count <= |s.table|
  {
    s.count < |s.table| && !s.Has(addr) ==> !s.table[s.count].enabledPhy
  }

  lemma SetIsTransparent(s: State, addr: nat, code: Code, s': State)
    requires s.WellFormed() && SetStep(s, addr, code, s') && SlotClean(s, addr)
    ensures Transparent(s, s')
    ensures s.Active() && code == Ok ==> s'.table[s.count].addr == addr && s'.table[s.count].enabledPhy
  {
    if s.count < MAX_BREAKPOINTS && !s.Has(addr) {
      var s1 := s.(count := s.count + 1,
                   table := s.table[s.count := s.table[s.count].(addr := addr, enabledLog := true)]);
      GrowIsTransparent(s, s1, addr);
      if s.Active() {
        CreateIsTransparent(s1, s.count, code, s');
      }
    }
  }

  lemma GrowIsTransparent(s: State, s1: State, addr: nat)
    requires s.WellFormed() && s.count < MAX_BREAKPOINTS && !s.Has(addr) && !s.table[s.count].enabledPhy
    requires s1 == s.(count := s.count + 1,
                      table := s.table[s.count := s.table[s.count].(addr := addr, enabledLog := true)])
    ensures Transparent(s, s1)
  {
    GrowKeepsView(s.table, s1.table, s.count, s.proc.mem);
  }

  lemma GrowKeepsView(t: Table, t': Table, n: nat, m: Memory)
    requires n < |t| == |t'| && Distinct(t, n) && t'[..n] == t[..n] && !t'[n].enabledPhy
    requires forall j :: 0 <= j < n ==> t[j].addr != t'[n].addr
    ensures Distinct(t', n + 1) && Restored(t', 0, n + 1, m) == Restored(t, 0, n, m)
  {
    forall j | 0 <= j < n
      ensures t'[j] == t[j]
    {
      assert t'[..n][j] == t[..n][j];
    }
    forall a | a in m
      ensures Restored(t', 0, n + 1, m)[a] == Restored(t, 0, n, m)[a]
    {
      if j :| ArmedEntry(t, 0, n, a, j) {
        RestoredAt(t, 0, n, m, j);
        RestoredAt(t', 0, n + 1, m, j);
      } else {
        forall j | 0 <= j < n + 1 && t'[j].enabledPhy
          ensures t'[j].addr != a
        {
          assert !ArmedEntry(t, 0, n, a, j);
        }
        RestoredElsewhere(t', 0, n + 1, m, a);
      }
    }
  }

  lemma UnsetIsTransparent(s: State, addr: nat, code: Code, s': State)
    requires s.WellFormed() && s.Active() && UnsetStep(s, addr, code, s')
    ensures Transparent(s, s')
  {
    if s.Has(addr) {
      var i, s1 :| UnsetAt(s, addr, i, code, s1, s');
      DisableIsTransparent(s, i, code, s1);
      if code == Ok {
        ShrinkIsTransparent(s1, s', i);
      }
    }
  }

  lemma ShrinkIsTransparent(s1: State, s': State, i: nat)
    requires s1.WellFormed() && i < s1.count && !s1.table[i].enabledPhy
    requires s' == s1.(count := s1.count - 1,
                       table := s1.table[i := s1.table[if s1.count == 1 then i else s1.count - 1]])
    ensures Transparent(s1, s')
  {
    ShrinkKeepsView(s1.table, s'.table, s1.count, s1.proc.mem, i);
  }

  /** Moving the last entry over an unarmed one loses nothing. */
  lemma ShrinkKeepsView(t: Table, t': Table, n: nat, m: Memory, i: nat)
    requires i < n <= |t| == |t'| && Distinct(t, n) && !t[i].enabledPhy
    requires t' == t[i := t[if n == 1 then i else n - 1]]
    ensures Distinct(t', n - 1) && Restored(t', 0, n - 1, m) == Restored(t, 0, n, m)
  {
    forall a | a in m
      ensures Restored(t', 0, n - 1, m)[a] == Restored(t, 0, n, m)[a]
    {
      if j :| ArmedEntry(t, 0, n, a, j) {
        RestoredAt(t, 0, n, m, j);
        RestoredAt(t', 0, n - 1, m, if j == n - 1 then i else j);
      } else {
        forall j | 0 <= j < n - 1 && t'[j].enabledPhy
          ensures t'[j].addr != a
        {
          assert !ArmedEntry(t, 0, n, a, if j == i then n - 1 else j);
        }
        RestoredElsewhere(t', 0, n - 1, m, a);
      }
    }
  }

  /** Lifting the entries of a range, and then forgetting entries only of that range, leaves the view. */
  lemma LiftKeepsView(t: Table, lo: nat, hi: nat, n: nat, n': nat, m: Memory)
    requires lo <= n' <= n <= |t| && hi <= n && Distinct(t, n) && (n' == n || hi == n)
    requires lo <= hi
    ensures Distinct(Disarmed(t, lo, hi), n')
    ensures Restored(Disarmed(t, lo, hi), 0, n', Restored(t, lo, hi, m)) == Restored(t, 0, n, m)
  {
    var t', m' := Disarmed(t, lo, hi), Restored(t, lo, hi, m);
    assert forall j :: 0 <= j < n ==> t'[j].addr == t[j].addr;
    forall a | a in m
      ensures Restored(t', 0, n', m')[a] == Restored(t, 0, n, m)[a]
    {
      if j :| ArmedEntry(t, 0, n, a, j) {
        LiftKeepsArmed(t, lo, hi, n, n', m, j);
      } else {
        LiftKeepsOther(t, lo, hi, n, n', m, a);
      }
    }
  }

  lemma LiftKeepsArmed(t: Table, lo: nat, hi: nat, n: nat, n': nat, m: Memory, j: nat)
    requires lo <= n' <= n <= |t| && lo <= hi <= n && Distinct(t, n) && (n' == n || hi == n)
    requires j < n && t[j].enabledPhy && t[j].addr in m
    ensures Restored(Disarmed(t, lo, hi), 0, n', Restored(t, lo, hi, m))[t[j].addr] == Restored(t, 0, n, m)[t[j].addr]
  {
    hide Restored;
    RestoredKeys(t, lo, hi, m);
    var t', m', a := Disarmed(t, lo, hi), Restored(t, lo, hi, m), t[j].addr;
    RestoredAt(t, 0, n, m, j);
    if lo <= j < hi {
      RestoredAt(t, lo, hi, m, j);
      assert forall i :: 0 <= i < n && i != j ==> t[i].addr != a;
      RestoredElsewhere(t', 0, n', m', a);
    } else {
      assert forall i :: lo <= i < hi ==> t[i].addr != a;
      RestoredElsewhere(t, lo, hi, m, a);
      RestoredAt(t', 0, n', m', j);
    }
  }

  lemma LiftKeepsOther(t: Table, lo: nat, hi: nat, n: nat, n': nat, m: Memory, a: nat)
    requires lo <= n' <= n <= |t| && lo <= hi <= n && a in m && forall j :: !ArmedEntry(t, 0, n, a, j)
    ensures Restored(Disarmed(t, lo, hi), 0, n', Restored(t, lo, hi, m))[a] == Restored(t, 0, n, m)[a]
  {
    hide Restored;
    RestoredKeys(t, lo, hi, m);
    forall j | 0 <= j < n && t[j].enabledPhy
      ensures t[j].addr != a
    {
      assert !ArmedEntry(t, 0, n, a, j);
    }
    RestoredElsewhere(t, 0, n, m, a);
    RestoredElsewhere(t, lo, hi, m, a);
    RestoredElsewhere(Disarmed(t, lo, hi), 0, n', Restored(t, lo, hi, m), a);
  }

  lemma PlantKeepsView(t: Table, k: nat, n: nat, m: Memory)
    requires k <= n <= |t| && Distinct(t, n)
    requires forall i :: 0 <= i < k && !t[i].enabledPhy ==> t[i].addr in m
    ensures Distinct(Armed(t, k, m), n)
    ensures Restored(Armed(t, k, m), 0, n, Planted(t, k, m)) == Restored(t, 0, n, m)
  {
    var t', m' := Armed(t, k, m), Planted(t, k, m);
    forall a | a in m
      ensures Restored(t', 0, n, m')[a] == Restored(t, 0, n, m)[a]
    {
      if j :| UnarmedEntry(t, k, a, j) {
        RestoredAt(t', 0, n, m', j);
        forall i | 0 <= i < n && t[i].enabledPhy
          ensures t[i].addr != a
        {
          assert i != j;
          assert if i < j then t[i].addr != t[j].addr else t[j].addr != t[i].addr;
        }
        RestoredElsewhere(t, 0, n, m, a);
      } else if j :| ArmedEntry(t, 0, n, a, j) {
        RestoredAt(t, 0, n, m, j);
        RestoredAt(t', 0, n, m', j);
      } else {
        forall j | 0 <= j < n && t'[j].enabledPhy
          ensures t'[j].addr != a
        {
          assert !UnarmedEntry(t, k, a, j) && !ArmedEntry(t, 0, n, a, j);
        }
        RestoredElsewhere(t', 0, n, m', a);
        forall j | 0 <= j < n && t[j].enabledPhy
          ensures t[j].addr != a
        {
          assert !ArmedEntry(t, 0, n, a, j);
        }
        RestoredElsewhere(t, 0, n, m, a);
      }
    }
  }

  lemma SetAllIsTransparent(s: State, code: Code, s': State)
    requires s.WellFormed() && SetAllStep(s, code, s')
    ensures Transparent(s, s')
    ensures code == Ok ==> forall i :: 0 <= i < s.count ==> s'.table[i].enabledPhy
  {
    var k :| PlantedUpTo(s, k, s') && (code == Ok <==> k == s.count);
    PlantKeepsView(s.table, k, s.count, s.proc.mem);
    if s.Intact() {
      PlantedIntact(s, k, s');
    }
  }

  lemma PlantedIntact(s: State, k: nat, s': State)
    requires s.WellFormed() && PlantedUpTo(s, k, s') && s.Intact()
    ensures s'.Intact()
  {
    forall i | 0 <= i < s'.count && s'.table[i].enabledPhy && s'.table[i].addr !in s'.proc.written
      ensures s'.table[i].addr in s'.proc.mem && s'.proc.mem[s'.table[i].addr] == INT3
    {
      assert i < k && !s.table[i].enabledPhy ==> UnarmedEntry(s.table, k, s.table[i].addr, i);
    }
  }

  lemma UnsetAllIsTransparent(s: State, code: Code, s': State)
    requires s.WellFormed() && UnsetAllStep(s, code, s')
    ensures Transparent(s, s')
    ensures code == Ok ==> s'.proc.mem == s.View() && forall i :: 0 <= i < s.count ==> !s'.table[i].enabledPhy
  {
    var k :| LiftedUpTo(s, k, s') && (code == Ok <==> k == s.count);
    LiftKeepsView(s.table, 0, k, s.count, s.count, s.proc.mem);
    if s.Intact() {
      LiftedIntact(s, 0, k, s.count, s');
    }
  }

  lemma LiftedIntact(s: State, lo: nat, hi: nat, n': nat, s': State)
    requires s.WellFormed() && s.Intact() && lo <= hi <= s.count && n' <= s.count && (n' == s.count || n' <= lo)
    requires s' == s.(count := n', table := Disarmed(s.table, lo, hi),
                      proc := s.proc.(mem := Restored(s.table, lo, hi, s.proc.mem)))
    ensures s'.Intact()
  {
    forall i | 0 <= i < s'.count && s'.table[i].enabledPhy && s'.table[i].addr !in s'.proc.written
      ensures s'.table[i].addr in s'.proc.mem && s'.proc.mem[s'.table[i].addr] == INT3
    {
      forall j | lo <= j < hi
        ensures s.table[j].addr != s.table[i].addr
      {
        assert if i < j then s.table[i].addr != s.table[j].addr else s.table[j].addr != s.table[i].addr;
      }
      RestoredElsewhere(s.table, lo, hi, s.proc.mem, s.table[i].addr);
    }
  }

  lemma ClearAllIsTransparent(s: State, code: Code, s': State)
    requires s.WellFormed() && s.Active() && ClearAllStep(s, code, s')
    ensures Transparent(s, s')
    ensures code == Ok ==> s'.count == 0 && s'.proc.mem == s.View()
  {
    var k :| ClearedDownTo(s, k, s') && (code == Ok <==> k == 0);
    LiftKeepsView(s.table, k, s.count, s.count, k, s.proc.mem);
    if s.Intact() {
      LiftedIntact(s, k, s.count, k, s');
    }
  }

  lemma TransparentTransitive(s: State, s1: State, s2: State)
    requires s.WellFormed() && Transparent(s, s1) && Transparent(s1, s2)
    ensures Transparent(s, s2)
  {
  }

  // ----- whole runs of breakpoint operations -----

  datatype Operation =
    | Create(i: nat)
    | Remove(i: nat)
    | Enable(addr: nat)
    | Disable(addr: nat)
    | Set(addr: nat)
    | Unset(addr: nat)
    | ClearAll
    | SetAll
    | UnsetAll

  ghost predicate Step(s: State, op: Operation, code: Code, s': State) {
    && s.WellFormed()
    && match op
       case Create(i) => i < s.count && CreateStep(s, i, code, s')
       case Remove(i) => i < s.count && RemoveStep(s, i, code, s')
       case Enable(addr) => FindAnd(s, addr, true, code, s')
       case Disable(addr) => FindAnd(s, addr, false, code, s')
       case Set(addr) => SetStep(s, addr, code, s')
       case Unset(addr) => UnsetStep(s, addr, code, s')
       case ClearAll => ClearAllStep(s, code, s')
       case SetAll => SetAllStep(s, code, s')
       case UnsetAll => UnsetAllStep(s, code, s')
  }

  lemma StepIsTransparent(s: State, op: Operation, code: Code, s': State)
    requires s.Active() && Step(s, op, code, s')
    requires op.Set? ==> SlotClean(s, op.addr)
    ensures Transparent(s, s')
  {
    match op {
      case Create(i) => CreateIsTransparent(s, i, code, s');
      case Remove(i) => RemoveIsTransparent(s, i, code, s');
      case Enable(addr) =>
        if s.Has(addr) {
          var i :| 0 <= i < s.count && s.table[i].addr == addr && EnableStep(s, i, code, s');
          EnableIsTransparent(s, i, code, s');
        }
      case Disable(addr) =>
        if s.Has(addr) {
          var i :| 0 <= i < s.count && s.table[i].addr == addr && DisableStep(s, i, code, s');
          DisableIsTransparent(s, i, code, s');
        }
      case Set(addr) => SetIsTransparent(s, addr, code, s');
      case Unset(addr) => UnsetIsTransparent(s, addr, code, s');
      case ClearAll => ClearAllIsTransparent(s, code, s');
      case SetAll => SetAllIsTransparent(s, code, s');
      case UnsetAll => UnsetAllIsTransparent(s, code, s');
    }
  }

  /** A run: the states, and between any two of them an operation with its return code. */
  ghost predicate Run(states: seq<State>, ops: seq<Operation>, codes: seq<Code>) {
    && |states| == |ops| + 1 == |codes| + 1
    && forall k :: 0 <= k < |ops| ==> Step(states[k], ops[k], codes[k], states[k + 1])
  }

  /** No set in the run takes over a slot with a leftover physical flag. */
  ghost predicate CleanRun(states: seq<State>, ops: seq<Operation>)
    requires |states| == |ops| + 1
  {
    forall k :: 0 <= k < |ops| && ops[k].Set? ==>
      states[k].count <= |states[k].table| && SlotClean(states[k], ops[k].addr)
  }

  /**
   Whatever sequence of breakpoint operations is issued, and wherever each of them fails, the program's view of
   its memory is the same after every one of them, and every armed entry has its breakpoint instruction in place.
   */
  lemma {:induction false} RunKeepsView(states: seq<State>, ops: seq<Operation>, codes: seq<Code>, k: nat)
    requires Run(states, ops, codes) && CleanRun(states, ops) && k <= |ops|
    requires states[0].WellFormed() && states[0].Active() && states[0].Intact()
    ensures Transparent(states[0], states[k])
    ensures states[k].View() == states[0].View() && states[k].Intact()
  {
    if k > 0 {
      RunKeepsView(states, ops, codes, k - 1);
      assert Step(states[k - 1], ops[k - 1], codes[k - 1], states[k]);
      StepIsTransparent(states[k - 1], ops[k - 1], codes[k - 1], states[k]);
      TransparentTransitive(states[0], states[k - 1], states[k]);
    }
  }

  // ----- runs in which no flag is left over -----

  /** No slot past the last entry carries a physical flag. */
  predicate SparesClean(s: State)
    requires s.count <= |s.table|
  {
    forall i :: s.count <= i < |s.table| ==> !s.table[i].enabledPhy
  }

  /** The entry to be unset is the last one, or the last one is not planted. */
  predicate Tidy(s: State, addr: nat)
    requires 0 < s.count <= |s.table|
  {
    s.table[s.count - 1].addr == addr || !s.table[s.count - 1].enabledPhy
  }

  lemma DisabledTable(s: State, i: nat, s1: State)
    requires s.WellFormed() && s.Active() && i < s.count && DisableStep(s, i, Ok, s1)
    ensures s1.count == s.count && s1.table == s.table[i := s1.table[i]]
    ensures s1.table[i].addr == s.table[i].addr && !s1.table[i].enabledPhy
  {
  }

  /** A successful unset in a live process leaves a flag behind exactly if a planted last entry moves. */
  lemma UnsetLeavesFlagExactly(s: State, addr: nat, s': State)
    requires s.WellFormed() && s.Active() && SparesClean(s) && UnsetStep(s, addr, Ok, s')
    ensures 0 < s.count && |s'.table| == |s.table| && s'.count == s.count - 1
    ensures SparesClean(s') <==> Tidy(s, addr)
  {
    var i, s1 :| UnsetAt(s, addr, i, Ok, s1, s');
    DisabledTable(s, i, s1);
    hide DisableStep;
    MovedSpares(s.table, s.count, i, s1.table[i], s'.table);
  }

  lemma MovedSpares(t: Table, n: nat, i: nat, e: Breakpoint, t': Table)
    requires i < n <= |t| && Distinct(t, n) && !e.enabledPhy
    requires var t1 := t[i := e]; t' == t1[i := t1[if n == 1 then i else n - 1]]
    requires forall j :: n <= j < |t| ==> !t[j].enabledPhy
    ensures (forall j :: n - 1 <= j < |t| ==> !t'[j].enabledPhy)
            <==> t[n - 1].addr == t[i].addr || !t[n - 1].enabledPhy
  {
    assert t[n - 1].addr == t[i].addr <==> i == n - 1;
    assert !t'[n - 1].enabledPhy <==> i == n - 1 || !t[n - 1].enabledPhy;
  }

  lemma PointKeepsSpares(s: State, op: Operation, code: Code, s': State)
    requires s.Active() && Step(s, op, code, s') && SparesClean(s)
    requires op.Create? || op.Remove? || op.Enable? || op.Disable?
    ensures s'.count <= |s'.table| && SparesClean(s')
  {
  }

  lemma SetKeepsSpares(s: State, addr: nat, code: Code, s': State)
    requires s.WellFormed() && s.Active() && SetStep(s, addr, code, s') && SparesClean(s)
    ensures s'.count <= |s'.table| && SparesClean(s')
  {
  }

  lemma RangeKeepsSpares(s: State, op: Operation, code: Code, s': State)
    requires s.Active() && Step(s, op, code, s') && SparesClean(s) && (op.ClearAll? || op.SetAll? || op.UnsetAll?)
    ensures s'.count <= |s'.table| && SparesClean(s')
  {
    hide Restored, Planted, Distinct;
  }

  lemma FailedUnsetKeepsSpares(s: State, addr: nat, code: Code, s': State)
    requires s.WellFormed() && s.Active() && UnsetStep(s, addr, code, s') && SparesClean(s) && code != Ok
    ensures s'.count <= |s'.table| && SparesClean(s')
  {
    if s.Has(addr) {
      var i, s1 :| UnsetAt(s, addr, i, code, s1, s');
    }
  }

  lemma TidyStep(s: State, op: Operation, code: Code, s': State)
    requires s.WellFormed() && s.Active() && SparesClean(s) && Step(s, op, code, s')
    requires op.Unset? && code == Ok ==> 0 < s.count && Tidy(s, op.addr)
    ensures s'.WellFormed() && s'.Active() && SparesClean(s')
  {
    hide SparesClean, Tidy, CreateStep, RemoveStep, EnableStep, DisableStep, SetStep, UnsetStep, FindAnd, ClearAllStep,
      SetAllStep, UnsetAllStep, Distinct, State.View, State.Intact;
    assert op.Set? ==> SlotClean(s, op.addr) by {
      SpareSlot(s);
    }
    StepIsTransparent(s, op, code, s');
    if op.Set? {
      SetKeepsSpares(s, op.addr, code, s');
    } else if op.ClearAll? || op.SetAll? || op.UnsetAll? {
      RangeKeepsSpares(s, op, code, s');
    } else if !op.Unset? {
      PointKeepsSpares(s, op, code, s');
    } else if code == Ok {
      UnsetLeavesFlagExactly(s, op.addr, s');
    } else {
      FailedUnsetKeepsSpares(s, op.addr, code, s');
    }
  }

  lemma SpareSlot(s: State)
    requires s.count <= |s.table| && SparesClean(s)
    ensures s.count < |s.table| ==> !s.table[s.count].enabledPhy
  {
  }

  /** Every successful unset in the run is tidy. */
  ghost predicate TidyRun(states: seq<State>, ops: seq<Operation>, codes: seq<Code>)
    requires |states| == |ops| + 1 == |codes| + 1
  {
    forall k :: 0 <= k < |ops| && ops[k].Unset? && codes[k] == Ok ==>
      0 < states[k].count <= |states[k].table| && Tidy(states[k], ops[k].addr)
  }

  /**
   From a table whose spare slots are clean, they stay clean over any run on a live process whose successful unsets are
   all tidy, whatever else fails.
   */
  lemma {:induction false} TidyRunKeepsSpares(states: seq<State>, ops: seq<Operation>, codes: seq<Code>, k: nat)
    requires Run(states, ops, codes) && TidyRun(states, ops, codes) && k <= |ops|
    requires states[0].WellFormed() && states[0].Active() && SparesClean(states[0])
    ensures states[k].WellFormed() && states[k].Active() && SparesClean(states[k])
  {
    hide Step, Tidy, SparesClean, Distinct;
    if k > 0 {
      TidyRunKeepsSpares(states, ops, codes, k - 1);
      assert Step(states[k - 1], ops[k - 1], codes[k - 1], states[k]);
      TidyStep(states[k - 1], ops[k - 1], codes[k - 1], states[k]);
    }
  }

  /** So no set in such a run takes over a leftover flag, and the view is the same all along. */
  lemma TidyRunKeepsView(states: seq<State>, ops: seq<Operation>, codes: seq<Code>, k: nat)
    requires Run(states, ops, codes) && TidyRun(states, ops, codes) && k <= |ops|
    requires states[0].WellFormed() && states[0].Active() && states[0].Intact() && SparesClean(states[0])
    ensures CleanRun(states, ops) && Transparent(states[0], states[k])
    ensures states[k].View() == states[0].View() && states[k].Intact()
  {
    hide Step, Tidy, SparesClean, Transparent;
    forall j | 0 <= j < |ops| && ops[j].Set?
      ensures states[j].count <= |states[j].table| && SlotClean(states[j], ops[j].addr)
    {
      TidyRunKeepsSpares(states, ops, codes, j);
      SpareSlot(states[j]);
    }
    RunKeepsView(states, ops, codes, k);
  }

  /**
   Exactly when a successful set really plants its breakpoint: the slot it takes over is clean, or the leftover flag
   and byte happen to tell the truth because the program itself has that very instruction there.
   */
  lemma SetPlantsExactlyWhenClean(s: State, addr: nat, s': State)
    requires s.WellFormed() && s.Active() && s.count < MAX_BREAKPOINTS && !s.Has(addr) && addr in s.proc.mem
    requires SetStep(s, addr, Ok, s')
    ensures s'.proc.mem[addr] == INT3 && s'.View() == s.View()
            <==> SlotClean(s, addr) || s.proc.mem[addr] == s.table[s.count].ogByte == INT3
  {
    if SlotClean(s, addr) {
      SetIsTransparent(s, addr, Ok, s');
    } else {
      assert s'.proc == s.proc;
      RestoredElsewhere(s.table, 0, s.count, s.proc.mem, addr);
      DirtySlotView(s, addr, s');
    }
  }

  lemma DirtySlotView(s: State, addr: nat, s': State)
    requires s.WellFormed() && s.count < MAX_BREAKPOINTS && !s.Has(addr) && addr in s.proc.mem
    requires s' == s.(count := s.count + 1,
                      table := s.table[s.count := s.table[s.count].(addr := addr, enabledLog := true)])
    requires s.table[s.count].enabledPhy
    ensures s'.WellFormed() && s'.View() == s.View()[addr := s.table[s.count].ogByte]
  {
    RestoredAt(s'.table, 0, s'.count, s.proc.mem, s.count);
    forall a | a in s.proc.mem && a != addr
      ensures s'.View()[a] == s.View()[a]
    {
      if j :| ArmedEntry(s.table, 0, s.count, a, j) {
        RestoredAt(s.table, 0, s.count, s.proc.mem, j);
        RestoredAt(s'.table, 0, s'.count, s.proc.mem, j);
      } else {
        forall j | 0 <= j < s'.count && s'.table[j].enabledPhy
          ensures s'.table[j].addr != a
        {
          assert !ArmedEntry(s.table, 0, s.count, a, j);
        }
        RestoredElsewhere(s'.table, 0, s'.count, s.proc.mem, a);
      }
    }
  }

  // ----- the run that leaves a leftover flag -----

  function AfterCreate(s: State, i: nat): State
    requires i < |s.table| && s.table[i].addr in s.proc.mem
  {
    s.(table := s.table[i := s.table[i].(enabledPhy := true, ogByte := s.proc.mem[s.table[i].addr])],
       proc := s.proc.(mem := s.proc.mem[s.table[i].addr := INT3]))
  }

  function Grown(s: State, addr: nat): State
    requires s.count < |s.table|
  {
    s.(count := s.count + 1, table := s.table[s.count := s.table[s.count].(addr := addr, enabledLog := true)])
  }

  lemma PlantableByte(m: Memory, addr: nat)
    requires Mapped(m, addr, 8) && addr in m && m[addr] != 0xFF
    ensures FromBytes(Read(m, addr, 8)) != ALL_ONES
  {
    AllOnesBytes(Read(m, addr, 8));
    assert Read(m, addr, 8)[0] == m[addr];
  }

  lemma SetCanSucceed(s: State, addr: nat)
    requires s.WellFormed() && s.Active() && s.count < MAX_BREAKPOINTS && !s.Has(addr)
    requires Mapped(s.proc.mem, addr, 8) && addr in s.proc.mem && s.proc.mem[addr] != 0xFF
    requires !s.table[s.count].enabledPhy
    ensures SetStep(s, addr, Ok, AfterCreate(Grown(s, addr), s.count))
  {
    PlantableByte(s.proc.mem, addr);
  }

  lemma MappedSameKeys(m: Memory, m': Memory, addr: nat)
    requires Mapped(m, addr, 8) && m.Keys <= m'.Keys
    ensures Mapped(m', addr, 8)
  {
    forall a | addr <= a < addr + 8
      ensures a in m'
    {
      assert a in m;
    }
  }

  function AfterUnsetFirst(s: State): State
    requires 2 <= |s.table|
  {
    s.(count := 1, table := s.table[0 := s.table[1]],
       proc := s.proc.(mem := s.proc.mem[s.table[0].addr := s.table[0].ogByte]))
  }

  lemma UnsetFirstCanSucceed(s: State)
    requires s.WellFormed() && s.Active() && s.count == 2 && s.table[0].enabledPhy
    requires var a := s.table[0].addr; Mapped(s.proc.mem, a, 8) && a in s.proc.mem && s.proc.mem[a] != 0xFF
    ensures UnsetStep(s, s.table[0].addr, Ok, AfterUnsetFirst(s))
  {
    var a := s.table[0].addr;
    var t1 := s.table[0 := s.table[0].(enabledLog := false)];
    var s2 := s.(table := t1[0 := t1[0].(enabledPhy := false)],
                 proc := s.proc.(mem := s.proc.mem[a := s.table[0].ogByte]));
    PlantableByte(s.proc.mem, a);
    assert DisableStep(s, 0, Ok, s2);
    assert UnsetAt(s, a, 0, Ok, s2, AfterUnsetFirst(s));
  }

  /** After set a, set b on an empty table. */
  lemma TwoSets(s: State, a: nat, b: nat) returns (s1: State, s2: State)
    requires s.WellFormed() && s.Active() && s.count == 0 && a != b
    requires forall i :: 0 <= i < |s.table| ==> !s.table[i].enabledPhy
    requires forall x | x in {a, b} :: Mapped(s.proc.mem, x, 8) && x in s.proc.mem && s.proc.mem[x] != 0xFF
    ensures SetStep(s, a, Ok, s1) && s1.WellFormed() && SetStep(s1, b, Ok, s2) && s2.WellFormed()
    ensures s2.Active() && s2.count == 2
    ensures s2.table[0] == Breakpoint(a, s.proc.mem[a], true, true)
    ensures s2.table[1] == Breakpoint(b, s.proc.mem[b], true, true)
    ensures s2.proc.mem == s.proc.mem[a := INT3][b := INT3]
  {
    SetCanSucceed(s, a);
    s1 := AfterCreate(Grown(s, a), 0);
    assert s1.table[0].addr == a;
    MappedSameKeys(s.proc.mem, s1.proc.mem, b);
    SetCanSucceed(s1, b);
    s2 := AfterCreate(Grown(s1, b), 1);
  }

  /**
   Set a, set b, unset a, set c on an empty table whose slots are all clean: every call succeeds, yet the entry of c
   is marked as planted although its byte was never patched, and the view at c is now the byte saved for b.
   */
  lemma UnsetThenSetLeavesUnplanted(s: State, a: nat, b: nat, c: nat)
    returns (s1: State, s2: State, s3: State, s4: State)
    requires s.WellFormed() && s.Active() && s.count == 0
    requires forall i :: 0 <= i < |s.table| ==> !s.table[i].enabledPhy
    requires a != b && a != c && b != c
    requires forall x | x in {a, b, c} :: Mapped(s.proc.mem, x, 8) && x in s.proc.mem && s.proc.mem[x] != 0xFF
    ensures SetStep(s, a, Ok, s1) && s1.WellFormed() && SetStep(s1, b, Ok, s2) && s2.WellFormed()
    ensures UnsetStep(s2, a, Ok, s3) && s3.WellFormed() && SetStep(s3, c, Ok, s4)
    ensures s4.WellFormed() && s4.count == 2 && s4.table[1].addr == c && s4.table[1].enabledPhy
    ensures c in s4.proc.mem && s4.proc.mem[c] == s.proc.mem[c]
    ensures c in s4.View() && s4.View()[c] == s.proc.mem[b]
  {
    hide SetStep, UnsetStep, Restored;
    s1, s2 := TwoSets(s, a, b);
    MappedSameKeys(s.proc.mem, s2.proc.mem, a);
    UnsetFirstCanSucceed(s2);
    s3 := AfterUnsetFirst(s2);
    s4 := SetOverLeftover(s3, b, c);
  }

  lemma SetOverLeftover(s3: State, b: nat, c: nat) returns (s4: State)
    requires s3.WellFormed() && s3.Active() && s3.count == 1 && s3.table[0].addr == b != c
    requires s3.table[1].enabledPhy && c in s3.proc.mem
    ensures SetStep(s3, c, Ok, s4) && s4.proc == s3.proc
    ensures s4.WellFormed() && s4.count == 2 && s4.table[1].addr == c && s4.table[1].enabledPhy
    ensures c in s4.View() && s4.View()[c] == s3.table[1].ogByte
  {
    s4 := Grown(s3, c);
    DirtySlotView(s3, c, s4);
  }
}

/** The breakpoint array with its swap-removal, seen as a finite map from addresses to entries. */
module BreakpointMap {
  import opened Codes
  import opened Tracee
  import opened DebuggerState
  import opened BreakpointSpec

  ghost function Entries(s: State): map<nat, Breakpoint>
    requires s.WellFormed()
  {
    Collect(s.table, s.count)
  }

  ghost function Collect(t: Table, n: nat): map<nat, Breakpoint>
    requires n <= |t|
  {
    if n == 0 then map[] else Collect(t, n - 1)[t[n - 1].addr := t[n - 1]]
  }

  lemma {:induction false} CollectAt(t: Table, n: nat, i: nat)
    requires i < n <= |t| && Distinct(t, n)
    ensures t[i].addr in Collect(t, n) && Collect(t, n)[t[i].addr] == t[i]
  {
    if i < n - 1 {
      CollectAt(t, n - 1, i);
    }
  }

  lemma {:induction false} CollectHas(t: Table, n: nat, addr: nat)
    requires n <= |t|
    ensures addr in Collect(t, n) <==> exists i :: 0 <= i < n && t[i].addr == addr
  {
    if n > 0 {
      CollectHas(t, n - 1, addr);
      if addr in Collect(t, n) {
        assert t[n - 1].addr == addr || addr in Collect(t, n - 1);
      }
    }
  }

  lemma {:induction false} CollectSize(t: Table, n: nat)
    requires n <= |t| && Distinct(t, n)
    ensures |Collect(t, n)| == n
  {
    if n > 0 {
      CollectSize(t, n - 1);
      CollectHas(t, n - 1, t[n - 1].addr);
    }
  }

  lemma EntryAt(s: State, i: nat)
    requires s.WellFormed() && i < s.count
    ensures s.table[i].addr in Entries(s) && Entries(s)[s.table[i].addr] == s.table[i]
  {
    CollectAt(s.table, s.count, i);
  }

  /** Scanning the array finds exactly the keys of the map. */
  lemma HasIsKey(s: State, addr: nat)
    requires s.WellFormed()
    ensures s.Has(addr) <==> addr in Entries(s)
  {
    CollectHas(s.table, s.count, addr);
  }

  /** The array has one slot in use for each key. */
  lemma CountIsSize(s: State)
    requires s.WellFormed()
    ensures |Entries(s)| == s.count
  {
    CollectSize(s.table, s.count);
  }

  /** The map changed at most at one key, where it has a given entry now. */
  ghost predicate UpdatedAt(s: State, addr: nat, s': State)
    requires s.WellFormed() && s'.WellFormed()
  {
    && addr in Entries(s')
    && Entries(s') == Entries(s)[addr := Entries(s')[addr]]
  }

  lemma EntryUpdate(s: State, i: nat, s': State)
    requires s.WellFormed() && i < s.count && s'.count == s.count && |s'.table| == |s.table|
    requires s'.table == s.table[i := s'.table[i]] && s'.table[i].addr == s.table[i].addr
    ensures s'.WellFormed() && UpdatedAt(s, s.table[i].addr, s')
  {
    var addr := s.table[i].addr;
    EntryAt(s', i);
    forall a
      ensures a in Entries(s') <==> a in Entries(s)
      ensures a in Entries(s) && a != addr ==> Entries(s')[a] == Entries(s)[a]
    {
      HasIsKey(s, a);
      HasIsKey(s', a);
      if a in Entries(s) {
        var j :| 0 <= j < s.count && s.table[j].addr == a;
        assert s'.table[j].addr == a;
        EntryAt(s, j);
        EntryAt(s', j);
      }
      if a in Entries(s') {
        var j :| 0 <= j < s.count && s'.table[j].addr == a;
        assert s.table[j].addr == a;
      }
    }
  }

  /**
   A set that gets past its two checks adds exactly its own key, also when planting then fails and an error is
   returned; otherwise nothing changes.
   */
  lemma SetAddsOneKey(s: State, addr: nat, code: Code, s': State)
    requires s.WellFormed() && SetStep(s, addr, code, s')
    ensures s'.WellFormed()
    ensures if code == BreakpointLimitReached || code == BreakpointAlreadyExists then s' == s
            else addr !in Entries(s) && UpdatedAt(s, addr, s') && Entries(s')[addr].enabledLog
    ensures (code == BreakpointLimitReached <==> |Entries(s)| == MAX_BREAKPOINTS)
    ensures (code == BreakpointAlreadyExists <==> addr in Entries(s) && |Entries(s)| < MAX_BREAKPOINTS)
  {
    CountIsSize(s);
    HasIsKey(s, addr);
    if s.count < MAX_BREAKPOINTS && !s.Has(addr) {
      GrownEntries(s, addr);
      if s.Active() && s' != Grown(s, addr) {
        EntryUpdate(Grown(s, addr), s.count, s');
      }
    }
  }

  lemma GrownEntries(s: State, addr: nat)
    requires s.WellFormed() && s.count < MAX_BREAKPOINTS && !s.Has(addr)
    ensures Grown(s, addr).WellFormed() && UpdatedAt(s, addr, Grown(s, addr))
    ensures Entries(Grown(s, addr))[addr].enabledLog
  {
    var s' := Grown(s, addr);
    EntryAt(s', s.count);
    forall a | a != addr
      ensures a in Entries(s') <==> a in Entries(s)
      ensures a in Entries(s) ==> Entries(s')[a] == Entries(s)[a]
    {
      HasIsKey(s, a);
      HasIsKey(s', a);
      if a in Entries(s) {
        var j :| 0 <= j < s.count && s.table[j].addr == a;
        assert s'.table[j] == s.table[j];
        EntryAt(s, j);
        EntryAt(s', j);
      }
      if a in Entries(s') {
        var j :| 0 <= j < s'.count && s'.table[j].addr == a;
        assert s.table[j].addr == a;
      }
    }
  }

  /** A successful unset removes exactly its own key: the entry that moves keeps all its fields. */
  lemma UnsetRemovesOneKey(s: State, addr: nat, code: Code, s': State)
    requires s.WellFormed() && UnsetStep(s, addr, code, s')
    ensures s'.WellFormed()
    ensures code == BreakpointNotFound <==> addr !in Entries(s)
    ensures code == Ok ==> Entries(s') == Entries(s) - {addr}
    ensures code == BreakpointNotFound ==> s' == s
    ensures code != Ok && code != BreakpointNotFound ==>
      UpdatedAt(s, addr, s') && Entries(s')[addr] == Entries(s)[addr].(enabledLog := false)
  {
    HasIsKey(s, addr);
    if s.Has(addr) {
      var i, s1: State :| UnsetAt(s, addr, i, code, s1, s');
      DisableUpdates(s, i, code, s1);
      if code == Ok {
        ShrinkRemoves(s1, i, s');
        RemoveUpdated(Entries(s), Entries(s1), addr);
      }
    }
  }

  lemma DisableUpdates(s: State, i: nat, code: Code, s1: State)
    requires s.WellFormed() && i < s.count && DisableStep(s, i, code, s1)
    ensures s1.WellFormed() && s1.count == s.count && s1.table[i].addr == s.table[i].addr
    ensures UpdatedAt(s, s.table[i].addr, s1) && s.table[i].addr in Entries(s)
    ensures code != BreakpointNotFound
    ensures code != Ok ==>
      Entries(s1)[s.table[i].addr] == Entries(s)[s.table[i].addr].(enabledLog := false)
  {
    EntryUpdate(s, i, s1);
    EntryAt(s, i);
    EntryAt(s1, i);
  }

  lemma RemoveUpdated(m: map<nat, Breakpoint>, m1: map<nat, Breakpoint>, addr: nat)
    requires addr in m1 && m1 == m[addr := m1[addr]]
    ensures m1 - {addr} == m - {addr}
  {
  }

  lemma ShrinkRemoves(s1: State, i: nat, s': State)
    requires s1.WellFormed() && i < s1.count
    requires s' == s1.(count := s1.count - 1,
                       table := s1.table[i := s1.table[if s1.count == 1 then i else s1.count - 1]])
    ensures s'.WellFormed() && Entries(s') == Entries(s1) - {s1.table[i].addr}
  {
    var addr, last := s1.table[i].addr, s1.count - 1;
    forall a
      ensures a in Entries(s') <==> a in Entries(s1) && a != addr
      ensures a in Entries(s1) && a != addr ==> a in Entries(s') && Entries(s')[a] == Entries(s1)[a]
    {
      HasIsKey(s1, a);
      HasIsKey(s', a);
      if a in Entries(s1) && a != addr {
        var j :| 0 <= j < s1.count && s1.table[j].addr == a;
        var j' := if j == last then i else j;
        assert s'.table[j'] == s1.table[j];
        EntryAt(s1, j);
        EntryAt(s', j');
      }
      if a in Entries(s') {
        var j :| 0 <= j < s'.count && s'.table[j].addr == a;
        assert s1.table[if j == i then last else j].addr == a;
      }
    }
  }

  /** Whatever fails, the count stays in 0..256 and the addresses stay distinct. */
  lemma StepKeepsWellFormed(s: State, op: Operation, code: Code, s': State)
    requires Step(s, op, code, s')
    ensures s'.WellFormed()
  {
    hide UpdatedAt, CreateStep, RemoveStep, EnableStep, DisableStep, Distinct;
    match op {
      case Set(addr) => SetAddsOneKey(s, addr, code, s');
      case Unset(addr) => UnsetRemovesOneKey(s, addr, code, s');
      case _ => OtherKeepsKeys(s, op, code, s');
    }
  }

  /** So they do over any run of operations. */
  lemma {:induction false} RunKeepsWellFormed(states: seq<State>, ops: seq<Operation>, codes: seq<Code>, k: nat)
    requires Run(states, ops, codes) && states[0].WellFormed() && k <= |ops|
    ensures states[k].WellFormed()
  {
    if k > 0 {
      hide Step, Distinct;
      RunKeepsWellFormed(states, ops, codes, k - 1);
      assert Step(states[k - 1], ops[k - 1], codes[k - 1], states[k]);
      StepKeepsWellFormed(states[k - 1], ops[k - 1], codes[k - 1], states[k]);
    }
  }

  /** No other operation adds a key, and only clearing removes any. */
  lemma OtherKeepsKeys(s: State, op: Operation, code: Code, s': State)
    requires Step(s, op, code, s') && !op.Set? && !op.Unset?
    ensures s'.WellFormed()
    ensures Entries(s').Keys <= Entries(s).Keys
    ensures !op.ClearAll? ==> Entries(s').Keys == Entries(s).Keys
  {
    assert s'.count <= s.count && (op.ClearAll? || s'.count == s.count);
    assert |s'.table| == |s.table| && forall i :: 0 <= i < s'.count ==> s'.table[i].addr == s.table[i].addr;
    forall a
      ensures s'.Has(a) ==> s.Has(a)
      ensures !op.ClearAll? && s.Has(a) ==> s'.Has(a)
    {
      if i :| 0 <= i < s'.count && s'.table[i].addr == a {
        assert s.table[i].addr == a;
      }
      if i :| 0 <= i < s.count && s.table[i].addr == a && !op.ClearAll? {
        assert s'.table[i].addr == a;
      }
    }
    forall a
      ensures a in Entries(s') ==> a in Entries(s)
      ensures !op.ClearAll? && a in Entries(s) ==> a in Entries(s')
    {
      HasIsKey(s, a);
      HasIsKey(s', a);
    }
  }
}

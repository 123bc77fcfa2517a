/**
 The debugger's state as a value: the inferior's fields, the breakpoint table with all its slots (the ones
 past the count keep what was last in them), and the traced process. `View` is the memory the program would
 have if no breakpoint were planted in it.
 */
module DebuggerState {
  import opened Words
  import opened Tracee

  const MAX_BREAKPOINTS: nat := 256

  datatype Breakpoint = Breakpoint(addr: nat, ogByte: byte, enabledLog: bool, enabledPhy: bool)

  type Table = seq<Breakpoint>

  datatype Status = NONE | TERMINATED | RUNNING | EXITED | STOPPED

  datatype State = State(status: Status, pid: int, isAttached: bool, table: Table, count: nat, proc: Proc) {
    predicate Active() {
      status == RUNNING || status == STOPPED
    }

    ghost predicate WellFormed() {
      && |table| == MAX_BREAKPOINTS
      && count <= MAX_BREAKPOINTS
      && Distinct(table, count)
    }

    predicate Has(addr: nat)
      requires count <= |table|
    {
      exists i :: 0 <= i < count && table[i].addr == addr
    }

    ghost function View(): Memory
      requires count <= |table|
    {
      Restored(table, 0, count, proc.mem)
    }

    /** Where a breakpoint is marked as planted. */
    ghost predicate ArmedAt(addr: nat)
      requires count <= |table|
    {
      exists i :: ArmedEntry(table, 0, count, addr, i)
    }

    /** Every armed entry has the breakpoint instruction at its address, unless something was stored there. */
    ghost predicate Intact()
      requires count <= |table|
    {
      forall i :: 0 <= i < count && table[i].enabledPhy && table[i].addr !in proc.written ==>
        table[i].addr in proc.mem && proc.mem[table[i].addr] == INT3
    }

    /** Every byte nobody stored to since the process was acquired is in the view as it was then. */
    ghost predicate Conserved()
      requires count <= |table|
    {
      forall a :: a in proc.image && a !in proc.written ==> a in View() && View()[a] == proc.image[a]
    }

    /** The inferior has a process exactly while it is active. */
    predicate Alive() {
      pid >= 0 && (Active() <==> pid > 0)
    }

    /** What holds between any two calls. */
    ghost predicate Sound() {
      WellFormed() && Alive()
    }

    /** What holds as long as no stale physical flag has been taken for a planted breakpoint. */
    ghost predicate Inv() {
      Sound() && (Active() ==> Intact() && Conserved())
    }
  }

  ghost predicate Distinct(t: Table, n: nat)
    requires n <= |t|
  {
    forall i, j :: 0 <= i < j < n ==> t[i].addr != t[j].addr
  }

  // ----- memory with some of the breakpoints lifted or planted -----

  ghost predicate ArmedEntry(t: Table, lo: nat, hi: nat, addr: nat, i: int)
    requires hi <= |t|
  {
    lo <= i < hi && t[i].enabledPhy && t[i].addr == addr
  }

  ghost function RestoredByte(t: Table, lo: nat, hi: nat, m: Memory, addr: nat): byte
    requires hi <= |t| && addr in m
  {
    if i :| ArmedEntry(t, lo, hi, addr, i) then t[i].ogByte else m[addr]
  }

  /** The memory with the breakpoints of entries lo..hi lifted: what the saved bytes cover is put back. */
  ghost function Restored(t: Table, lo: nat, hi: nat, m: Memory): Memory
    requires hi <= |t|
  {
    map a | a in m :: RestoredByte(t, lo, hi, m, a)
  }

  /** The entries lo..hi marked as lifted. */
  function Disarmed(t: Table, lo: nat, hi: nat): Table {
    seq(|t|, i requires 0 <= i < |t| => if lo <= i < hi then t[i].(enabledPhy := false) else t[i])
  }

  ghost predicate UnarmedEntry(t: Table, n: nat, addr: nat, i: int)
    requires n <= |t|
  {
    0 <= i < n && !t[i].enabledPhy && t[i].addr == addr
  }

  /** The memory with the breakpoints of the first n entries planted. */
  ghost function Planted(t: Table, n: nat, m: Memory): Memory
    requires n <= |t|
  {
    map a | a in m :: if exists i :: UnarmedEntry(t, n, a, i) then INT3 else m[a]
  }

  /** The first n entries marked as planted, each with the byte it covers. */
  ghost function Armed(t: Table, n: nat, m: Memory): Table {
    seq(|t|, i requires 0 <= i < |t| =>
      if i < n && !t[i].enabledPhy && t[i].addr in m
      then t[i].(enabledPhy := true, ogByte := m[t[i].addr]) else t[i])
  }

  lemma RestoredKeys(t: Table, lo: nat, hi: nat, m: Memory)
    requires hi <= |t|
    ensures Restored(t, lo, hi, m).Keys == m.Keys
  {
  }

  /** With distinct addresses the byte of an armed entry is what the view has at its address. */
  lemma RestoredAt(t: Table, lo: nat, hi: nat, m: Memory, i: nat)
    requires lo <= i < hi <= |t| && Distinct(t, hi)
    requires t[i].enabledPhy && t[i].addr in m
    ensures Restored(t, lo, hi, m)[t[i].addr] == t[i].ogByte
  {
    assert ArmedEntry(t, lo, hi, t[i].addr, i);
  }

  lemma RestoredElsewhere(t: Table, lo: nat, hi: nat, m: Memory, addr: nat)
    requires hi <= |t| && addr in m
    requires forall i :: lo <= i < hi && t[i].enabledPhy ==> t[i].addr != addr
    ensures Restored(t, lo, hi, m)[addr] == m[addr]
  {
  }

  /** Where no breakpoint is planted the view is what memory has. */
  lemma NotArmedView(s: State, a: nat)
    requires s.WellFormed() && a in s.proc.mem && !s.ArmedAt(a)
    ensures s.View()[a] == s.proc.mem[a]
  {
    forall i | 0 <= i < s.count && s.table[i].enabledPhy
      ensures s.table[i].addr != a
    {
      assert !ArmedEntry(s.table, 0, s.count, a, i);
    }
    RestoredElsewhere(s.table, 0, s.count, s.proc.mem, a);
  }

  /** A change to the entry at one address and to the byte there shows nowhere else. */
  lemma RestoredOffPoint(t: Table, t': Table, lo: nat, hi: nat, m: Memory, m': Memory, point: nat, a: nat)
    requires hi <= |t| == |t'| && Distinct(t, hi) && Distinct(t', hi)
    requires forall j :: lo <= j < hi ==> t'[j] == t[j] || t'[j].addr == t[j].addr == point
    requires a in m && a in m' && m'[a] == m[a] && a != point
    ensures Restored(t', lo, hi, m')[a] == Restored(t, lo, hi, m)[a]
  {
    if j :| ArmedEntry(t, lo, hi, a, j) {
      RestoredAt(t, lo, hi, m, j);
      RestoredAt(t', lo, hi, m', j);
    } else {
      forall j | lo <= j < hi && t'[j].enabledPhy
        ensures t'[j].addr != a
      {
        assert !ArmedEntry(t, lo, hi, a, j);
      }
      RestoredElsewhere(t', lo, hi, m', a);
    }
  }
}

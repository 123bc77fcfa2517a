/** Writing bytes into the program's memory for the user, and what that means under planted breakpoints. */
module MemorySpec {
  import opened Codes
  import opened Words
  import opened Tracee
  import opened DebuggerState
  import opened LifecycleSpec

  /** How far an address is past another, in 64-bit arithmetic. */
  function Offset(addr: nat, a: nat): nat
    requires addr < SPACE && a < SPACE
  {
    if a >= addr then a - addr else a + SPACE - addr
  }

  predicate Covers(addr: nat, n: nat, a: nat)
    requires addr < SPACE
  {
    a < SPACE && Offset(addr, a) < n
  }

  /** Memory with bytes put from an address on, wrapping around at the end of the address space. */
  function Put(m: Memory, addr: nat, data: seq<byte>): Memory
    requires addr < SPACE
  {
    map a | a in m :: if Covers(addr, |data|, a) then data[Offset(addr, a)] else m[a]
  }

  /** A user's write of n bytes got through and is recorded. */
  ghost predicate Stored(s: State, addr: nat, data: seq<byte>, s': State)
    requires addr < SPACE
  {
    && s' == s.(proc := s.proc.(mem := Put(s.proc.mem, addr, data), written := s'.proc.written))
    && (forall a :: a in s'.proc.written <==> a in s.proc.written || Covers(addr, |data|, a))
    && forall a :: Covers(addr, |data|, a) ==> a in s.proc.mem
  }

  lemma StoredCarries(s: State, addr: nat, data: seq<byte>, s': State)
    requires s.WellFormed() && addr < SPACE && Stored(s, addr, data, s')
    ensures Carries(s, s')
  {
    RanCarries(s, s');
  }

  /**
   Writing through planted breakpoints: the view takes the written byte exactly where no breakpoint is planted, or
   where the byte it covers is already the one written. Everywhere else the view is as before.
   */
  lemma StoredView(s: State, addr: nat, data: seq<byte>, s': State, a: nat)
    requires s.WellFormed() && addr < SPACE && Stored(s, addr, data, s') && a in s.proc.mem
    ensures !Covers(addr, |data|, a) ==> s'.View()[a] == s.View()[a]
    ensures Covers(addr, |data|, a) ==>
      (s'.View()[a] == data[Offset(addr, a)] <==> !s.ArmedAt(a) || s.View()[a] == data[Offset(addr, a)])
  {
    if i :| ArmedEntry(s.table, 0, s.count, a, i) {
      RestoredAt(s.table, 0, s.count, s.proc.mem, i);
      RestoredAt(s'.table, 0, s'.count, s'.proc.mem, i);
    }
  }

  /** A write that keeps clear of the planted breakpoints is that write on the view. */
  lemma StoredDisjointView(s: State, addr: nat, data: seq<byte>, s': State)
    requires s.WellFormed() && addr < SPACE && Stored(s, addr, data, s')
    requires forall a :: Covers(addr, |data|, a) ==> !s.ArmedAt(a)
    ensures s'.View() == Put(s.View(), addr, data)
  {
    forall a | a in s.proc.mem
      ensures s'.View()[a] == Put(s.View(), addr, data)[a]
    {
      StoredView(s, addr, data, s', a);
    }
  }

  /** Adding up an address and an offset in 64-bit arithmetic. */
  function WrapAdd(addr: nat, n: nat): (r: nat)
    requires addr < SPACE && n < SPACE
    ensures r < SPACE
  {
    if addr + n < SPACE then addr + n else addr + n - SPACE
  }

  /** Writing a chunk behind what is already written is writing the two together. */
  lemma PutAppend(m: Memory, addr: nat, d1: seq<byte>, d2: seq<byte>)
    requires addr < SPACE && |d1| < SPACE && |d1| + |d2| <= SPACE
    ensures Put(Put(m, addr, d1), WrapAdd(addr, |d1|), d2) == Put(m, addr, d1 + d2)
  {
    forall a | a in m && a < SPACE
      ensures Put(Put(m, addr, d1), WrapAdd(addr, |d1|), d2)[a] == Put(m, addr, d1 + d2)[a]
    {
      OffsetShift(addr, |d1|, a);
    }
  }

  lemma OffsetShift(addr: nat, n: nat, a: nat)
    requires addr < SPACE && n < SPACE && a < SPACE
    ensures Offset(WrapAdd(addr, n), a) == if Offset(addr, a) >= n then Offset(addr, a) - n
                                           else Offset(addr, a) + SPACE - n
  {
  }

  lemma WriteIsPut(m: Memory, addr: nat, b: seq<byte>)
    requires addr < SPACE && addr + |b| <= SPACE
    ensures Write(m, addr, b) == Put(m, addr, b)
  {
  }

  ghost function Range(at: nat, n: nat): (r: set<nat>)
    ensures forall a :: a in r <==> at <= a < at + n
  {
    if n == 0 then {} else Range(at, n - 1) + {at + n - 1}
  }

  lemma StoredNone(s: State, addr: nat)
    requires addr < SPACE
    ensures Stored(s, addr, [], s)
  {
    assert Put(s.proc.mem, addr, []) == s.proc.mem;
  }

  /** One POKE of a chunk, behind what is already written. */
  lemma StoredMore(s: State, addr: nat, d1: seq<byte>, s1: State, d2: seq<byte>, s2: State)
    requires s.WellFormed() && addr < SPACE && |d1| < SPACE && |d1| + |d2| <= SPACE && Stored(s, addr, d1, s1)
    requires var at := WrapAdd(addr, |d1|);
      && at + |d2| <= SPACE && (forall a | at <= a < at + |d2| :: a in s1.proc.mem)
      && s2 == s1.(proc := s1.proc.(mem := Write(s1.proc.mem, at, d2), written := s2.proc.written))
      && forall a :: a in s2.proc.written <==> a in s1.proc.written || at <= a < at + |d2|
    ensures Stored(s, addr, d1 + d2, s2)
  {
    var at := WrapAdd(addr, |d1|);
    WriteIsPut(s1.proc.mem, at, d2);
    PutAppend(s.proc.mem, addr, d1, d2);
    forall a: nat
      ensures Covers(addr, |d1 + d2|, a) <==> Covers(addr, |d1|, a) || at <= a < at + |d2|
    {
      if a < SPACE {
        OffsetShift(addr, |d1|, a);
      }
    }
  }

  /** A word with its first bytes replaced: what is left of the data, masked into the word that is there. */
  method CombineTail(current: word, rest: seq<byte>) returns (w: word)
    requires 1 <= |rest| < 8
    ensures ToBytes(w) == rest + ToBytes(current)[|rest|..]
  {
    var padded := rest + seq(8 - |rest|, _ => 0 as byte);
    var update := FromBytes(padded);
    w := Masked(current, update, TailMask(|rest|));
    assert ToBytes(update) == padded by { ToFromBytes(padded); }
    MaskedTailBytes(current, update, |rest|);
    assert padded[..|rest|] == rest;
  }

  /** Writing back the word that is there with its first bytes replaced writes just those bytes. */
  lemma TailWrite(m: Memory, addr: nat, b: seq<byte>, w: seq<byte>)
    requires Mapped(m, addr, 8) && |b| < 8 && w == b + Read(m, addr, 8)[|b|..]
    ensures Write(m, addr, w) == Write(m, addr, b)
  {
    forall a | a in m
      ensures Write(m, addr, w)[a] == Write(m, addr, b)[a]
    {
      if addr + |b| <= a < addr + 8 {
        assert w[a - addr] == Read(m, addr, 8)[a - addr];
      } else if addr <= a < addr + |b| {
        assert w[a - addr] == b[a - addr];
      }
    }
  }

  /** After a successful write, reading a word inside what was written gives back the written bytes. */
  lemma StoredReadsBack(s: State, addr: nat, data: seq<byte>, s': State, k: nat)
    requires s.WellFormed() && addr < SPACE && addr + |data| <= SPACE && Stored(s, addr, data, s') && k + 8 <= |data|
    ensures Mapped(s'.proc.mem, addr + k, 8)
    ensures ToBytes(FromBytes(Read(s'.proc.mem, addr + k, 8))) == data[k..k + 8]
  {
    hide ToBytes, FromBytes;
    forall a | addr + k <= a < addr + k + 8
      ensures a in s'.proc.mem && s'.proc.mem[a] == data[a - addr]
    {
      assert Covers(addr, |data|, a);
    }
    ToFromBytes(Read(s'.proc.mem, addr + k, 8));
    assert Read(s'.proc.mem, addr + k, 8) == data[k..k + 8];
  }

  /** sylvan_set_memory: all the bytes are stored, or a prefix of whole chunks is. */
  ghost predicate WriteStep(s: State, addr: nat, data: seq<byte>, code: Code, s': State)
    requires addr < SPACE
  {
    exists done: nat :: StoredUpTo(s, addr, data, done, code, s')
  }

  ghost predicate StoredUpTo(s: State, addr: nat, data: seq<byte>, done: nat, code: Code, s': State)
    requires addr < SPACE
  {
    && done <= |data| && Stored(s, addr, data[..done], s')
    && (code == Ok ==> done == |data|)
    && (code != Ok ==> done % 8 == 0 && (code == PtracePokedataFailed || (code == InvalidArgument && done == 0)))
    && (code == InvalidArgument <==> data != [] && addr == 0) && (data == [] ==> code == Ok)
  }

  /** What has been stored, byte by byte, where the bytes do not run past the end of the address space. */
  lemma StoredPlainly(s: State, addr: nat, data: seq<byte>, s': State)
    requires addr < SPACE && addr + |data| <= 0x1_0000_0000_0000_0000 && Stored(s, addr, data, s')
    ensures s' == s.(proc := s.proc.(mem := s'.proc.mem, written := s'.proc.written)) && s'.proc.mem.Keys == s.proc.mem.Keys
    ensures forall a :: addr <= a < addr + |data| ==>
      a in s.proc.mem && s'.proc.mem[a] == data[a - addr] && a in s'.proc.written
    ensures forall a :: a in s.proc.mem && !(addr <= a < addr + |data|) ==>
      s'.proc.mem[a] == s.proc.mem[a] && (a in s'.proc.written <==> a in s.proc.written)
  {
    forall a | addr <= a < addr + |data|
      ensures a in s.proc.mem && s'.proc.mem[a] == data[a - addr] && a in s'.proc.written
    {
      assert Covers(addr, |data|, a);
    }
  }

  /** And where they do: they go on at address zero. */
  lemma StoredAround(s: State, addr: nat, data: seq<byte>, s': State, k: nat)
    requires addr < SPACE && k < |data| <= 0x1_0000_0000_0000_0000 && Stored(s, addr, data, s')
    ensures var a := (addr + k) % 0x1_0000_0000_0000_0000; a in s'.proc.mem && s'.proc.mem[a] == data[k]
  {
    var a := (addr + k) % 0x1_0000_0000_0000_0000;
    assert Offset(addr, a) == k;
    assert Covers(addr, |data|, a);
  }
}

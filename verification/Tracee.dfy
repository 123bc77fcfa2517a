/**
 The traced process as ptrace and waitpid show it to the debugger. What the operating system and the
 tracee decide (whether a call fails, what a wait reports, what the running program stores) is chosen
 arbitrarily by each method here, so every proof about a caller covers every choice.
 */
module Tracee {
  import opened Codes
  import opened Words

  /** Tracee memory: the mapped bytes. */
  type Memory = map<nat, byte>

  /** Addresses and sizes are 64-bit. */
  const SPACE: nat := 0x1_0000_0000_0000_0000

  /** The one-byte breakpoint instruction. */
  const INT3: byte := 0xCC

  datatype Phase = Gone | Halted | Running

  /** What waitpid, and where it matters the probe that follows it, tells the debugger. */
  datatype Wait =
    | NoChange
    | Failed
    | NoChild(probe: Probe)
    | Exited
    | Signaled
    | Stopped(siginfo: bool, regs: bool, kernelTrap: bool)
    | Continued

  /** What kill(pid, 0) says. */
  datatype Probe = Exists | Vanished | Unknown

  datatype Kill = Sent | NoProcess | Refused

  /**
   The kernel's side of a traced process. `image` is its memory when the debugger acquired it, `written` the addresses
   the program or the user's memory writes have touched since. `trapped` says, while the program is stopped, that the
   last thing it did was to execute a breakpoint instruction; its rip is one past that instruction then.
   */
  datatype Proc = Proc(phase: Phase, mem: Memory, rip: nat, written: set<nat>, image: Memory, trapped: bool)

  /** What the kernel has done for the debugger, with the process as it was at that moment. */
  datatype Event =
    | WaitEvent(report: Wait, at: Proc)
    | StepEvent(from: Proc)
    | ContinueEvent(from: Proc)
    | AcquireEvent(pid: int, proc: Proc)
    | DetachEvent(proc: Proc)
    | KillEvent(answer: Kill)

  /** The return address of the one-byte breakpoint instruction is one past it; 64-bit arithmetic. */
  function Before(rip: nat): nat {
    if rip == 0 then SPACE - 1 else rip - 1
  }

  /** The calls that can be refused. */
  datatype Request =
    | PeekRequest
    | PokeRequest
    | GetRegsRequest
    | SetRegsRequest
    | ContRequest
    | StepRequest
    | KillRequest
    | ForkRequest
    | AttachRequest(vanished: bool)  // whether it says that there is no such process
    | DetachRequest

  /** A code that says that a call was refused names the call. Planting answers a refused POKE like a refused PEEK. */
  predicate Blames(code: Code, last: Request) {
    && (code.KillFailed? ==> last == KillRequest)
    && (code.ForkFailed? ==> last == ForkRequest)
    && (code.PtraceAttachFailed? ==> last == AttachRequest(false))
    && (code.PtraceDetachFailed? ==> last == DetachRequest)
    && (code.PtraceContFailed? ==> last == ContRequest)
    && (code.PtraceStepFailed? ==> last == StepRequest)
    && (code.PtraceSetregsFailed? ==> last == SetRegsRequest)
    && (code.PtracePeektextFailed? ==> last == PeekRequest || last == PokeRequest)
    && (code.PtracePoketextFailed? ==> last == PokeRequest)
  }

  lemma NotBlamed(code: Code, last: Request)
    requires !code.Refused()
    ensures Blames(code, last)
  {
  }

  lemma Blamed(code: Code, last: Request)
    requires code.Refused()
    requires && (code.KillFailed? ==> last.KillRequest?) && (code.ForkFailed? ==> last.ForkRequest?)
             && (code.PtraceAttachFailed? ==> last == AttachRequest(false)) && (code.PtraceDetachFailed? ==> last.DetachRequest?)
             && (code.PtraceContFailed? ==> last.ContRequest?) && (code.PtraceStepFailed? ==> last.StepRequest?)
             && (code.PtraceSetregsFailed? ==> last.SetRegsRequest?)
             && (code.PtracePeektextFailed? ==> last.PeekRequest? || last.PokeRequest?)
             && (code.PtracePoketextFailed? ==> last.PokeRequest?)
    ensures Blames(code, last)
  {
  }

  lemma BlamesMeans(code: Code, last: Request)
    requires Blames(code, last)
    ensures (code.KillFailed? ==> last.KillRequest?) && (code.ForkFailed? ==> last.ForkRequest?)
    ensures (code.PtraceAttachFailed? ==> last == AttachRequest(false)) && (code.PtraceDetachFailed? ==> last.DetachRequest?)
    ensures (code.PtraceContFailed? ==> last.ContRequest?) && (code.PtraceStepFailed? ==> last.StepRequest?)
    ensures (code.PtraceSetregsFailed? ==> last.SetRegsRequest?) && (code.PtracePoketextFailed? ==> last.PokeRequest?)
    ensures code.PtracePeektextFailed? ==> last.PeekRequest? || last.PokeRequest?
  {
  }

  // ----- memory -----

  predicate Mapped(m: Memory, addr: nat, n: nat) {
    addr + n <= SPACE && forall a | addr <= a < addr + n :: a in m
  }

  function Read(m: Memory, addr: nat, n: nat): (b: seq<byte>)
    requires Mapped(m, addr, n)
    ensures |b| == n && forall k :: 0 <= k < n ==> b[k] == m[addr + k]
  {
    seq(n, k requires 0 <= k < n => m[addr + k])
  }

  function Write(m: Memory, addr: nat, b: seq<byte>): (m': Memory)
    ensures m'.Keys == m.Keys
    ensures forall a :: a in m && addr <= a < addr + |b| ==> m'[a] == b[a - addr]
    ensures forall a :: a in m && !(addr <= a < addr + |b|) ==> m'[a] == m[a]
  {
    map a | a in m :: if addr <= a < addr + |b| then b[a - addr] else m[a]
  }

  lemma WriteBack(m: Memory, addr: nat, b: seq<byte>, first: byte)
    requires Mapped(m, addr, 8) && b == Read(m, addr, 8)[0 := first]
    ensures Write(m, addr, b) == m[addr := first]
  {
    var m' := Write(m, addr, b);
    assert addr in m;
    forall a | a in m
      ensures m'[a] == m[addr := first][a]
    {
      if addr <= a < addr + 8 {
        assert b[a - addr] == if a == addr then first else Read(m, addr, 8)[a - addr];
      }
    }
    assert m'.Keys == m[addr := first].Keys;
  }

  /** Patching the low byte of the word at an address and writing the word back changes that one byte. */
  lemma PatchIsByteWrite(m: Memory, addr: nat, w: word, b: byte)
    requires Mapped(m, addr, 8) && w == FromBytes(Read(m, addr, 8))
    ensures addr in m && Low(w) == m[addr]
    ensures Write(m, addr, ToBytes(PatchLow(w, b))) == m[addr := b]
  {
    ToFromBytes(Read(m, addr, 8));
    assert Low(w) == ToBytes(w)[0];
    PatchLowBytes(w, b);
    WriteBack(m, addr, ToBytes(PatchLow(w, b)), b);
  }

  // ----- the running program -----

  /** The program ran: it may have changed anything, and every address it changed is recorded. */
  ghost predicate Ran(p: Proc, q: Proc) {
    && p.written <= q.written
    && q.image == p.image
    && forall a {:trigger a in q.mem} {:trigger a in p.mem} ::
         a !in q.written ==> (a in p.mem <==> a in q.mem) && (a in p.mem ==> q.mem[a] == p.mem[a])
  }

  /** A process just acquired: nothing has been written to it yet. */
  ghost predicate Acquired(p: Proc) {
    p.phase == Running && p.written == {} && p.image == p.mem && !p.trapped
  }

  function Resumed(p: Proc): Proc {
    p.(phase := Running, trapped := false)
  }

  /** What a wait can report of a process that was p before it and is q after it. Only a non-blocking one sees no change. */
  ghost predicate Waits(p: Proc, blocking: bool, w: Wait, q: Proc) {
    && (blocking ==> w != NoChange)
    && Ran(p, q)
    && (p.phase != Running ==> q == p.(phase := q.phase))
    && (p.phase == Gone ==> q.phase == Gone)
    && (p.phase == Running && q.trapped ==>
          w.Stopped? && w.kernelTrap && Before(q.rip) in q.mem && q.mem[Before(q.rip)] == INT3)
    && (w.Stopped? ==> q.phase == Halted)
    && (w.NoChild? || w.Exited? || w.Signaled? ==> q.phase == Gone)
    && (w.Continued? ==> q.phase == Running)
    && (w.NoChange? || w.Failed? ==> q.phase == p.phase)
  }

  class Kernel {
    var phase: Phase
    var mem: Memory
    var rip: nat
    ghost var written: set<nat>
    ghost var image: Memory
    ghost var trapped: bool
    /** How many ptrace, kill and fork calls have failed, or were a PEEK that looks like it: one that returned all ones. */
    ghost var setbacks: nat
    /** How many ptrace, kill and fork calls have failed. */
    ghost var failures: nat
    /** The last of the calls that `setbacks` counts. */
    ghost var refused: Request
    /** What has been done so far, but for reading and writing. */
    ghost var log: seq<Event>

    ghost function Value(): Proc
      reads this
    {
      Proc(phase, mem, rip, written, image, trapped)
    }

    constructor ()
      ensures Value() == Proc(Gone, map[], 0, {}, map[], false) && log == []
    {
      phase, mem, rip, written, image, trapped := Gone, map[], 0, {}, map[], false;
      setbacks, failures, refused, log := 0, 0, PeekRequest, [];
    }

    /** Records whether a call failed. */
    ghost method Record(ok: bool, request: Request)
      modifies `setbacks, `failures, `refused
      ensures setbacks == old(setbacks) + if ok then 0 else 1
      ensures failures == old(failures) + if ok then 0 else 1
      ensures refused == if ok then old(refused) else request
    {
      setbacks := setbacks + if ok then 0 else 1;
      failures := failures + if ok then 0 else 1;
      refused := if ok then refused else request;
    }

    /** PTRACE_PEEKTEXT and PTRACE_PEEKDATA: a failure returns all ones and sets errno. */
    method Peek(addr: nat) returns (w: word, errno: bool)
      modifies `setbacks, `failures, `refused
      ensures setbacks == old(setbacks) + if w == ALL_ONES then 1 else 0
      ensures refused == if w == ALL_ONES then PeekRequest else old(refused)
      ensures failures == old(failures) + if errno then 1 else 0
      ensures errno ==> w == ALL_ONES
      ensures !errno ==> phase == Halted && Mapped(mem, addr, 8) && w == FromBytes(Read(mem, addr, 8))
    {
      errno := *;
      if phase != Halted || addr + 8 > SPACE || exists a | addr <= a < addr + 8 :: a !in mem {
        errno := true;
      }
      w := if errno then ALL_ONES else FromBytes(Read(mem, addr, 8));
      setbacks := setbacks + if w == ALL_ONES then 1 else 0;
      failures := failures + if errno then 1 else 0;
      refused := if w == ALL_ONES then PeekRequest else refused;
    }

    /** PTRACE_POKETEXT and PTRACE_POKEDATA. */
    method Poke(addr: nat, w: word) returns (ok: bool)
      modifies `mem, `setbacks, `failures, `refused
      ensures refused == if ok then old(refused) else PokeRequest
      ensures setbacks == old(setbacks) + (if ok then 0 else 1) && failures == old(failures) + if ok then 0 else 1
      ensures ok ==> phase == Halted && Mapped(mem, addr, 8) && mem == Write(old(mem), addr, ToBytes(w))
      ensures !ok ==> mem == old(mem)
    {
      ok := *;
      if phase != Halted || addr + 8 > SPACE || exists a | addr <= a < addr + 8 :: a !in mem {
        ok := false;
      }
      if ok {
        mem := Write(mem, addr, ToBytes(w));
      }
      Record(ok, PokeRequest);
    }

    method GetRip() returns (ok: bool, r: nat)
      modifies `setbacks, `failures, `refused
      ensures refused == if ok then old(refused) else GetRegsRequest
      ensures setbacks == old(setbacks) + (if ok then 0 else 1) && failures == old(failures) + if ok then 0 else 1
      ensures ok ==> phase == Halted && r == rip
    {
      ok := *;
      ok := ok && phase == Halted;
      r := rip;
      Record(ok, GetRegsRequest);
    }

    /** A program that is put elsewhere does not stand behind a breakpoint instruction it has executed any more. */
    method SetRip(r: nat) returns (ok: bool)
      modifies `rip, `trapped, `setbacks, `failures, `refused
      ensures refused == if ok then old(refused) else SetRegsRequest
      ensures setbacks == old(setbacks) + (if ok then 0 else 1) && failures == old(failures) + if ok then 0 else 1
      ensures ok ==> phase == Halted && Value() == old(Value()).(rip := r, trapped := false)
      ensures !ok ==> Value() == old(Value())
    {
      ok := *;
      ok := ok && phase == Halted;
      if ok {
        rip, trapped := r, false;
      }
      Record(ok, SetRegsRequest);
    }

    /** PTRACE_CONT. */
    method Cont() returns (ok: bool)
      modifies `phase, `trapped, `log, `setbacks, `failures, `refused
      ensures refused == if ok then old(refused) else ContRequest
      ensures setbacks == old(setbacks) + (if ok then 0 else 1) && failures == old(failures) + if ok then 0 else 1
      ensures ok ==> old(phase) == Halted && Value() == Resumed(old(Value())) && log == old(log) + [ContinueEvent(old(Value()))]
      ensures !ok ==> Value() == old(Value()) && log == old(log)
    {
      ok := *;
      ok := ok && phase == Halted;
      if ok {
        log := log + [ContinueEvent(Value())];
        phase, trapped := Running, false;
      }
      Record(ok, ContRequest);
    }

    /** PTRACE_SINGLESTEP. */
    method SingleStep() returns (ok: bool)
      modifies `phase, `trapped, `log, `setbacks, `failures, `refused
      ensures refused == if ok then old(refused) else StepRequest
      ensures setbacks == old(setbacks) + (if ok then 0 else 1) && failures == old(failures) + if ok then 0 else 1
      ensures ok ==> old(phase) == Halted && Value() == Resumed(old(Value())) && log == old(log) + [StepEvent(old(Value()))]
      ensures !ok ==> Value() == old(Value()) && log == old(log)
    {
      ok := *;
      ok := ok && phase == Halted;
      if ok {
        log := log + [StepEvent(Value())];
        phase, trapped := Running, false;
      }
      Record(ok, StepRequest);
    }

    /** waitpid, preceded by whatever a running program does until then. */
    method WaitPid(blocking: bool) returns (w: Wait)
      modifies this
      ensures setbacks == old(setbacks) && failures == old(failures) && refused == old(refused)
      ensures Waits(old(Value()), blocking, w, Value()) && log == old(log) + [WaitEvent(w, Value())]
    {
      w := *;
      if blocking && w == NoChange {
        w := Failed;
      }
      if phase == Gone && (w.Stopped? || w.Continued?) {
        w := Exited;
      }
      if phase == Running {
        RunOn(w);
      }
      if w.Stopped? {
        phase := Halted;
      } else if w.NoChild? || w.Exited? || w.Signaled? {
        phase := Gone;
      } else if w.Continued? {
        phase := Running;
      }
      log := log + [WaitEvent(w, Value())];
    }

    /** The program runs until w is to be reported. */
    method RunOn(w: Wait)
      modifies `mem, `rip, `written, `trapped
      ensures Ran(old(Value()), Value())
      ensures trapped ==> w.Stopped? && w.kernelTrap && Before(rip) in mem && mem[Before(rip)] == INT3
    {
      ghost var before := mem;
      var mem1: Memory := *;
      var rip1: nat := *;
      mem, rip := mem1, rip1;
      written := written + set a | a in before.Keys + mem.Keys && (a !in before || a !in mem || before[a] != mem[a]);
      trapped := *;
      trapped := trapped && w.Stopped? && w.kernelTrap && Before(rip) in mem && mem[Before(rip)] == INT3;
    }

    /** kill(pid, SIGKILL). */
    method SendKill() returns (r: Kill)
      modifies `phase, `log, `setbacks, `failures, `refused
      ensures refused == if r != Refused then old(refused) else KillRequest
      ensures setbacks == old(setbacks) + (if r != Refused then 0 else 1) && failures == old(failures) + if r != Refused then 0 else 1
      ensures phase == if r == Refused then old(phase) else Gone
      ensures log == old(log) + [KillEvent(r)]
    {
      r := *;
      if r != Refused {
        phase := Gone;
      }
      log := log + [KillEvent(r)];
      Record(r != Refused, KillRequest);
    }

    /**
     PTRACE_ATTACH. The process brings its own memory. `vanished` is whether a refusal is ESRCH. `held` is the process the inferior holds when the call
     is issued: there is none, at every call.
     */
    method Attach(pid: int, ghost held: int) returns (ok: bool, vanished: bool)
      requires held == 0
      modifies this
      ensures refused == if ok then old(refused) else AttachRequest(vanished)
      ensures setbacks == old(setbacks) + (if ok then 0 else 1) && failures == old(failures) + if ok then 0 else 1
      ensures ok ==> pid > 0 && Acquired(Value()) && log == old(log) + [AcquireEvent(pid, Value())]
      ensures !ok ==> Value() == old(Value()) && log == old(log)
    {
      ok := *;
      ok := ok && pid > 0;
      if ok {
        NewProcess(pid);
      }
      vanished := *;
      Record(ok, AttachRequest(vanished));
    }

    /** fork, and the exec in the child. As for Attach, nothing is held when it is issued. */
    method Fork(ghost held: int) returns (pid: int)
      requires held == 0
      modifies this
      ensures pid != 0
      ensures refused == if pid > 0 then old(refused) else ForkRequest
      ensures setbacks == old(setbacks) + (if pid > 0 then 0 else 1) && failures == old(failures) + if pid > 0 then 0 else 1
      ensures pid > 0 ==> Acquired(Value()) && log == old(log) + [AcquireEvent(pid, Value())]
      ensures pid < 0 ==> Value() == old(Value()) && log == old(log)
    {
      pid := *;
      if pid == 0 {
        pid := -1;
      }
      if pid > 0 {
        NewProcess(pid);
      }
      Record(pid > 0, ForkRequest);
    }

    method NewProcess(pid: int)
      modifies `phase, `mem, `rip, `written, `image, `trapped, `log
      ensures Acquired(Value()) && log == old(log) + [AcquireEvent(pid, Value())]
    {
      phase := Running;
      var mem1: Memory := *;
      var rip1: nat := *;
      mem, rip := mem1, rip1;
      written, image, trapped := {}, mem, false;
      log := log + [AcquireEvent(pid, Value())];
    }

    /** PTRACE_DETACH: the process goes on with the memory it has. A process that is gone counts as detached. */
    method Detach() returns (ok: bool)
      modifies `phase, `log, `setbacks, `failures, `refused
      ensures refused == if ok then old(refused) else DetachRequest
      ensures setbacks == old(setbacks) + (if ok then 0 else 1) && failures == old(failures) + if ok then 0 else 1
      ensures phase == if ok then Gone else old(phase)
      ensures log == if ok then old(log) + [DetachEvent(old(Value()))] else old(log)
    {
      ok := *;
      if ok {
        log := log + [DetachEvent(Value())];
        phase := Gone;
      }
      Record(ok, DetachRequest);
    }
  }
}

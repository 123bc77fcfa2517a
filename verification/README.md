# Verification of the sylvan debugger

Dafny models of the parts of sylvan in which the most can go wrong, and proofs of what they keep:

* **The breakpoint engine and the life of the debugged process** (`lib/sylvan/breakpoint.c`, `lib/sylvan/inferior.c`).
  The inferior is a class with the fields of the C structure and a 256-slot array of breakpoints; the traced process is
  an object that stands for the kernel. Its ptrace, waitpid, kill and fork methods decide arbitrarily whether they
  succeed, what a wait reports, and what the running program does to its memory, so everything proved holds for every
  choice. It counts the calls that were refused, apart from those that only look like it, remembers the last one, and keeps
  a log of every acquisition, wait, step, continue, kill and detach with the process as it was at that moment. Every method is proved against a relation over the state before, the events it has
  added to the log, its code and the state after (`...Step`), so that what was done is pinned down; the properties are proved
  about these relations. What a caller gets, the code and the status, is stated once more without them, by the reports in
  the log and by which call was refused. The central notion is the *view*: the memory with the saved byte at every entry that is marked
  as planted, which is what the program would see without a debugger.
* **The hash table** (`include/uthash.h`), its nodes in two doubly linked structures at once, with bucket doubling, the
  in-place merge sort and in-order addition; **the command registry** (`src/command_registry.c`), its client.
* **The symbol tables** (`lib/sylvan/symbol.c`) and **the disassembly loop** (`src/disassemble.c`).

What the files hold:

| file | what is in it |
|---|---|
| Words, Tracee, Codes | bytes and words; the kernel's side of a traced process; the return codes |
| DebuggerState, BreakpointSpec, BreakpointMap, Breakpoints | the state and its view; what each breakpoint operation does and keeps; the table as a map; the engine |
| LifecycleSpec, LaunchSpec, SteppingSpec, MemorySpec | waiting and ending; attaching and running; continuing and stepping; storing bytes |
| BreakpointAnswers, CallAnswers, LifecycleAnswers | what a caller gets from each operation and call, in plain terms |
| Inferiors, Sessions | the calls; whole sessions |
| Bits, HashNodes, Buckets, MergeSorts, ListSorts, HashTables | the hash table from its bit tricks up |
| Registry, Dictionaries | the alias table; the hash table as an ordered dictionary over whole runs |
| Symbols, Disassembly | sorted lookup; the decode loop |

## Where the code departs from what it is meant to do

The models follow the code. Each departure is a statement that is proved:

* A set reuses a slot without clearing its physical flag (lib/sylvan/breakpoint.c:150-152), and an unset leaves a stale
  copy in the slot it frees (178-179). `SetPlantsExactlyWhenClean` says that a successful set plants its breakpoint if
  and only if the next slot carries no such leftover flag or that flag happens to be true, `DirtySlotView` what is seen
  otherwise, and `UnsetThenSetLeavesUnplanted` gives the four-call run. `UnsetLeavesFlagExactly` says which unsets leave a
  flag behind, and `TidyRunKeepsView` that runs without such ones keep the view. No other breakpoint operation can change
  it.
* A word of eight 0xFF bytes looks like a failed PEEK when a breakpoint is planted or lifted, and a failed POKE while
  planting returns the PEEK's code (lib/sylvan/breakpoint.c:43-49).
* A set that fails to plant leaves its entry in the table all the same (`SetAddsOneKey`); planting all ignores the
  logical flag (`SetAllStep`).
* After an ordinary stop the breakpoint that was stepped over stays lifted (lib/sylvan/inferior.c:538-539);
  `StepThenPlantTable` says exactly when it is planted again.
* Whether a program stands behind a breakpoint it has run into is read off the table and rip alone
  (lib/sylvan/inferior.c:520-525), not off the last stop. `GoesOnRightExactly` says when that is right. A breakpoint set
  right behind a stopped program sends it one byte back (`SetBehindGoesBack`), one disabled after it was hit lets it go on
  in the middle of an instruction (`DisableAfterHitGoesAstray`), and a plain step from a planted address executes the
  breakpoint (`SetHereIsFetched`).
* Writing memory does not look at the breakpoints; `StoredView` says exactly where the written byte is seen.
* A child that a signal kills before its first stop fails an assertion (lib/sylvan/inferior.c:459-467): the code `Aborted`,
  exactly in that case. An attach whose symbols cannot be loaded keeps the flags of the last process (302-306):
  `StaleFlagsExactly` says when that is harmless, `StaleAttach` gives the run in which it is not.
* An alias of an alias is accepted but stands for nothing (`AliasWorksExactly`). An unreadable ELF file leaves the DWARF
  table unsorted: distinct names are then all found if and only if they were read in order (`AllFoundExactlyWhenSorted`),
  and `FailedLoadMisses` is a run that misses one.
* The disassembler keeps the size of the requested range in an `int` (src/disassemble.c:171), so that a multiple of 2^32
  asks for a whole function (`Disassemble`).

## Model

| member | source | states |
|---|---|---|
| Tracee.PatchIsByteWrite | lib/sylvan/breakpoint.c:43-51 | writing back a word with a patched low byte changes one byte of memory, however it overlaps other breakpoints' words |
| Tracee.BlamesMeans | lib/sylvan/inferior.c:134-607 | which refused call each error code stands for; that the codes of the calls below stand in this relation to the last refused call is part of their contracts |
| Words.AllOnesBytes | lib/sylvan/breakpoint.c:43-45 | a PEEK reads as failed exactly on eight 0xFF bytes |
| Words.MaskedTailBytes | lib/sylvan/inferior.c:760-764 | the mask of a 1 to 7 byte tail takes exactly that many bytes from the new word and the others from memory |
| Breakpoints.FindByAddr | lib/sylvan/breakpoint.c:15-30 | finds an entry exactly if one has the address |
| Breakpoints.CreatePhysical | lib/sylvan/breakpoint.c:35-55 | plants one entry and saves the byte it covers, or changes nothing; fails exactly if a ptrace call fails or reads all ones |
| Breakpoints.RemovePhysical | lib/sylvan/breakpoint.c:60-80 | puts one saved byte back, or changes nothing; fails exactly if a ptrace call fails or reads all ones |
| Breakpoints.EnableAt | lib/sylvan/breakpoint.c:82-93 | sets the logical flag, and plants in a live process |
| Breakpoints.DisableAt | lib/sylvan/breakpoint.c:95-106 | clears the logical flag, and lifts in a live process |
| Breakpoints.EnableBreakpoint | lib/sylvan/breakpoint.c:111-120 | the same by address, an unknown one changing nothing |
| Breakpoints.DisableBreakpoint | lib/sylvan/breakpoint.c:125-134 | the same by address, an unknown one changing nothing |
| Breakpoints.SetBreakpoint | lib/sylvan/breakpoint.c:139-158 | limit, duplicate, and the new entry in the next slot with that slot's leftover flag and byte |
| Breakpoints.UnsetBreakpoint | lib/sylvan/breakpoint.c:163-182 | lifts the entry, and only after that moves the last one into its place |
| Breakpoints.ClearAllBreakpoints | lib/sylvan/breakpoint.c:184-202 | lifts and drops entries from the last down, stopping at the first that fails |
| Breakpoints.ResetPhysical | lib/sylvan/breakpoint.c:204-216 | clears the physical flag of all entries and nothing else |
| Breakpoints.SetAllPhysical | lib/sylvan/breakpoint.c:218-231 | plants entries from the first up, stopping at the first that fails |
| Breakpoints.UnsetAllPhysical | lib/sylvan/breakpoint.c:233-246 | lifts entries from the first up, stopping at the first that fails |
| BreakpointSpec.CreateIsTransparent | lib/sylvan/breakpoint.c:35-55 | planting, successful or not, leaves the view and keeps every planted breakpoint planted |
| BreakpointSpec.RemoveIsTransparent | lib/sylvan/breakpoint.c:60-80 | so does lifting |
| BreakpointSpec.SetIsTransparent | lib/sylvan/breakpoint.c:139-158 | so does a set into a clean slot, and on success its breakpoint is planted |
| BreakpointSpec.UnsetIsTransparent | lib/sylvan/breakpoint.c:163-182 | so does an unset, swap with the last entry included |
| BreakpointSpec.ClearAllIsTransparent | lib/sylvan/breakpoint.c:184-202 | so does clearing, also when it stops halfway; on success memory is the view |
| BreakpointSpec.SetAllIsTransparent | lib/sylvan/breakpoint.c:218-231 | so does planting all, also when it stops halfway |
| BreakpointSpec.UnsetAllIsTransparent | lib/sylvan/breakpoint.c:233-246 | so does lifting all; on success memory is the view everywhere |
| BreakpointSpec.RunKeepsView | lib/sylvan/breakpoint.c:35-246 | over any run of operations on a live process, whatever fails, the view never changes and planted breakpoints are planted |
| BreakpointSpec.SetPlantsExactlyWhenClean | lib/sylvan/breakpoint.c:150-157 | a successful set plants its breakpoint and keeps the view if and only if the slot it takes over has no leftover physical flag, or its leftover byte and the byte at the address are both the breakpoint instruction already |
| BreakpointSpec.DirtySlotView | lib/sylvan/breakpoint.c:150-157 | with a leftover flag the view changes at the new address alone, to the byte left in the slot |
| BreakpointSpec.UnsetThenSetLeavesUnplanted | lib/sylvan/breakpoint.c:139-182 | set a, set b, unset a, set c succeeds and leaves c marked as planted but not planted |
| BreakpointSpec.UnsetLeavesFlagExactly | lib/sylvan/breakpoint.c:163-182 | a successful unset leaves a flag in a spare slot if and only if a planted last entry moves |
| BreakpointSpec.TidyRunKeepsSpares | lib/sylvan/breakpoint.c:35-246 | over any run on a live process in which no planted last entry moves, the spare slots stay clean |
| BreakpointSpec.TidyRunKeepsView | lib/sylvan/breakpoint.c:35-246 | no set in such a run takes over a leftover flag, and the view never changes |
| BreakpointMap.HasIsKey | lib/sylvan/breakpoint.c:15-30 | the scan finds exactly the keys of the map that the array stands for |
| BreakpointMap.CountIsSize | lib/sylvan/breakpoint.c:139-182 | the count is the size of that map |
| BreakpointMap.SetAddsOneKey | lib/sylvan/breakpoint.c:139-158 | a set adds exactly its own key, an error while planting included; limit and duplicate are reported exactly then |
| BreakpointMap.UnsetRemovesOneKey | lib/sylvan/breakpoint.c:163-182 | a successful unset removes exactly its own key, every other entry with all its fields intact |
| BreakpointMap.OtherKeepsKeys | lib/sylvan/breakpoint.c:82-246 | no other operation adds a key and only clearing removes any |
| BreakpointMap.StepKeepsWellFormed | lib/sylvan/breakpoint.c:35-246 | every operation keeps the count in 0..256 and the addresses distinct, whatever fails |
| BreakpointMap.RunKeepsWellFormed | lib/sylvan/breakpoint.c:139-202 | so do all runs |
| BreakpointAnswers.CreateAnswers | lib/sylvan/breakpoint.c:35-55 | planting puts 0xCC at the address and saves the byte that was there; nothing is done if it is planted already, and an error changes nothing |
| BreakpointAnswers.RemoveAnswers | lib/sylvan/breakpoint.c:60-80 | lifting puts the saved byte back, with the same exceptions |
| BreakpointAnswers.FindAnswers | lib/sylvan/breakpoint.c:82-134 | BreakpointNotFound exactly for an address that no entry has; otherwise the logical flag is set or cleared whatever follows, and only in a live process is anything planted or lifted |
| BreakpointAnswers.SetAnswers | lib/sylvan/breakpoint.c:139-158 | refused exactly for the 257th breakpoint or an address that has one; otherwise one entry more, at the end, also when planting it fails |
| BreakpointAnswers.UnsetAnswers | lib/sylvan/breakpoint.c:163-182 | one entry less exactly on a success; without a process memory is not touched |
| BreakpointAnswers.ClearAllAnswers | lib/sylvan/breakpoint.c:184-202 | success exactly if no entry is left; those dropped are lifted, those left are as they were; without a process only the count changes |
| BreakpointAnswers.SetAllAnswers | lib/sylvan/breakpoint.c:218-231 | a first part of the entries is planted with 0xCC over the bytes memory had, the whole table exactly on a success; the rest of table and memory is as it was |
| BreakpointAnswers.UnsetAllAnswers | lib/sylvan/breakpoint.c:233-246 | a first part is lifted with its saved bytes back in memory, the whole table exactly on a success; the rest is as it was |
| Inferiors.UpdateStatus | lib/sylvan/inferior.c:30-107 | one wait, and for every report the state and the code that StatusAnswers spells out |
| Inferiors.AnswerStop | lib/sylvan/inferior.c:76-95 | BreakpointHit exactly for a kernel trap one past the address of an entry, ProcStopped exactly for a stop of another kind, errors exactly if siginfo or the registers cannot be read |
| CallAnswers.StatusAnswers | lib/sylvan/inferior.c:30-107 | for every report of a blocking and of a non-blocking wait the one code it leads to, and the status, pid and attachment after it |
| CallAnswers.TrapIsReported | lib/sylvan/inferior.c:76-95 | a running program that comes back having run into a planted breakpoint is reported as BreakpointHit |
| LifecycleSpec.StatusCarries | lib/sylvan/inferior.c:30-107 | a wait keeps the process, the view off the bytes stored to and the table; the exit codes mean that the process is gone |
| Inferiors.KillProcess | lib/sylvan/inferior.c:134-164 | success means no process; it fails exactly if the signal is refused or the wait fails, and the inferior is as it was then |
| LifecycleAnswers.KillAnswers | lib/sylvan/inferior.c:134-164 | the answer of kill and the report of the wait decide: KillFailed exactly if the signal is refused, WaitpidFailed exactly if the wait fails; no process left counts as success |
| Inferiors.Detach | lib/sylvan/inferior.c:317-343 | lets the process go exactly if it succeeds with no status left, and then with its view; fails exactly if a ptrace call does or the wait says so |
| LifecycleAnswers.DetachAnswers | lib/sylvan/inferior.c:317-343 | the code and the status for every report: success for a process that has ended, or is let go; an error of the wait otherwise, and the process kept |
| LifecycleSpec.DetachLeavesView | lib/sylvan/inferior.c:317-343 | when PTRACE_DETACH is issued, memory is the view the process had at the last wait, bytes stored to included: every planted breakpoint and nothing else is taken out |
| LifecycleSpec.LetGoFacts | lib/sylvan/inferior.c:329-340 | lifting everything before PTRACE_DETACH makes memory the view from before the lifting; any failure keeps the view and the process |
| LifecycleSpec.LetGoConserves | lib/sylvan/inferior.c:317-343 | if the view was conserved up to the detach, every byte not stored to leaves as it was when the process was acquired |
| Inferiors.TerminateOrDetach | lib/sylvan/inferior.c:169-188 | success means inactive with pid 0; what is detached from on the way leaves with its view |
| LifecycleAnswers.TerminateAnswers | lib/sylvan/inferior.c:169-188 | a process that was run is killed and never detached from, one that was attached the other way round; that it has ended or vanished is a success, every other failure is passed on |
| LifecycleSpec.TerminateCarries | lib/sylvan/inferior.c:169-188 | whatever it returns keeps the view of what is still held |
| LaunchSpec.ReplantFacts | lib/sylvan/inferior.c:305-311 | whatever flags there were: after resetting them, planting all covers the bytes memory had, which stay in view, also when planting stops halfway |
| Inferiors.ReplantAll | lib/sylvan/inferior.c:464-468 | resetting and planting all, failing exactly if a ptrace call fails or reads all ones |
| Inferiors.TakeOver | lib/sylvan/inferior.c:266-312 | each report of the first wait, and the state after it; PtracePeektextFailed exactly if planting fails |
| LaunchSpec.TakeOverFacts | lib/sylvan/inferior.c:252-312 | on success every breakpoint is planted over the bytes the process had at the recorded first stop; the invariant holds unless symbols could not be loaded and flags were left |
| LaunchSpec.StaleFlagsExactly | lib/sylvan/inferior.c:302-306 | after an attach whose symbols could not be loaded the invariant holds if and only if every leftover flag at an address not stored to is over the process's own breakpoint instruction, and saves it |
| Sessions.StaleAttach | lib/sylvan/inferior.c:302-306 | a continue that finds the process gone and such an attach: the run in which the invariant breaks, for any planted entry over another byte |
| Inferiors.Attach | lib/sylvan/inferior.c:245-312 | issues PTRACE_ATTACH only when nothing is held any more; on success every breakpoint is planted over the bytes of the recorded first stop; if no call is refused, a process that exists is acquired unless the wait for the old one fails; ProcNotFound of a refused PTRACE_ATTACH exactly for ESRCH |
| LifecycleAnswers.TakeOverAnswers | lib/sylvan/inferior.c:266-312 | code and status by the first report: STOPPED exactly for a stop, RUNNING exactly for going on, and then attached under its pid; ElfFailed exactly if then the symbols cannot be loaded |
| LifecycleAnswers.AttachedAnswers | lib/sylvan/inferior.c:245-312 | an attach that has acquired a process: the same codes, and while active STOPPED exactly if the process is halted |
| LifecycleAnswers.NotAttachedAnswers | lib/sylvan/inferior.c:245-265 | one that has not: never a success, and the reasons there can be |
| LifecycleAnswers.AttachedIsResumed | lib/sylvan/inferior.c:245-312 | after a success at a stop, a continue or step whose wait has nothing new is not refused with ProcRunning |
| LaunchSpec.AttachPlants | lib/sylvan/inferior.c:245-312 | the last two events of a successful attach are the acquisition and that stop, reached from what was acquired |
| LaunchSpec.AttachLeavesView | lib/sylvan/inferior.c:245-312 | an attach resumes nothing, and a process it detaches from leaves with its view |
| LaunchSpec.AttachKeeps | lib/sylvan/inferior.c:245-312 | it keeps the invariant whenever the symbols are loaded or no flag was set |
| Inferiors.HandleParent | lib/sylvan/inferior.c:412-474 | the child's failure, each report of the first wait, and the launch, as ParentAnswers spells them out; a refused call exactly if the child stopped but was not continued |
| LifecycleAnswers.ParentAnswers | lib/sylvan/inferior.c:412-474 | the code for each report of the child and of the first wait; a failed launch leaves it STOPPED exactly if it is halted |
| LaunchSpec.ParentKeeps | lib/sylvan/inferior.c:412-474 | aborts exactly if the recorded first wait says that the child was killed, and keeps the invariant otherwise |
| Inferiors.PlantAndGo | lib/sylvan/inferior.c:464-474 | plants, continues and waits, each only if what was before it succeeded |
| LifecycleAnswers.LaunchAnswers | lib/sylvan/inferior.c:464-474 | an error of planting or of PTRACE_CONT with the state kept, or the answer to the last wait |
| LaunchSpec.LaunchFacts | lib/sylvan/inferior.c:464-474 | PTRACE_CONT is issued only with every breakpoint planted over the bytes of the first stop, which are in view |
| Inferiors.RunProgram | lib/sylvan/inferior.c:479-508 | forks only when nothing is held any more; if no call is refused, there is a pipe, the file can be run and the old process is got rid of, a process is started; everything it continues is armed, and it aborts exactly for a killed child |
| Inferiors.StartProgram | lib/sylvan/inferior.c:490-508 | ForkFailed exactly if there is a pipe and the fork is refused; otherwise a new process is acquired |
| LifecycleAnswers.RunAnswers | lib/sylvan/inferior.c:486-508 | no process is acquired only if the old one cannot be killed, or there is no pipe or no fork, each with its own code; otherwise what ParentAnswers says |
| LifecycleAnswers.NotRunAnswers | lib/sylvan/inferior.c:479-486 | a missing or not executable file, in that order, and nothing is changed |
| LaunchSpec.RunLaunches | lib/sylvan/inferior.c:479-508 | each continue follows an acquisition and its first stop, with every breakpoint planted over the bytes of that stop |
| LaunchSpec.RunKeeps | lib/sylvan/inferior.c:479-508 | a run keeps the table's breakpoints and, unless it aborts, the invariant |
| Inferiors.StepOver | lib/sylvan/inferior.c:525-545 | if a step is issued, what SteppedOver says; if none is, a ptrace call failed |
| LifecycleSpec.GoFacts | lib/sylvan/inferior.c:576-583 | a continue keeps the view and the table, and the program goes on from exactly the state it was in |
| SteppingSpec.LiftForStep | lib/sylvan/inferior.c:525-533 | before the step, memory is the old one with just the view's byte put back at the breakpoint, and rip is its address |
| SteppingSpec.StepThenPlantTable | lib/sylvan/inferior.c:535-544 | the breakpoint is planted again exactly after the reports of ReplantedAfter, over the byte read after the step, which is saved; memory is otherwise what the step left, the rest of the table untouched |
| SteppingSpec.StepOverFacts | lib/sylvan/inferior.c:525-545 | both together, for every result of a step over |
| SteppingSpec.SuccessIsReplanted | lib/sylvan/inferior.c:85-96 | the reports after which a breakpoint is planted again: never an ordinary stop |
| Inferiors.HandleBreakpointAtCurrentAddr | lib/sylvan/inferior.c:513-545 | steps over the planted entry right before rip, if there is one; gives up before the step only if a ptrace call failed |
| SteppingSpec.HandleFacts | lib/sylvan/inferior.c:513-545 | what that keeps and resumes: nothing, or one step over |
| SteppingSpec.StepOverCanSucceed | lib/sylvan/inferior.c:513-545 | a success is possible: a run of it, for any planted breakpoint behind which the program stands |
| SteppingSpec.GoesOnRightExactly | lib/sylvan/inferior.c:517-525 | the program goes on where it should if and only if a planted breakpoint right before rip coincides with a breakpoint instruction, not its own, that it has just run into |
| SteppingSpec.AfterStopGoesOnRight | lib/sylvan/inferior.c:517-525 | right after a wait, that fails only for a stop of another kind, or by an instruction of its own, right behind a planted breakpoint |
| SteppingSpec.SetBehindGoesBack | lib/sylvan/inferior.c:517-525 | a breakpoint set right behind a stopped program makes the next resume go one byte back |
| SteppingSpec.DisableAfterHitGoesAstray | lib/sylvan/inferior.c:517-525 | a breakpoint disabled after it was hit makes the next resume start in the middle of the instruction |
| SteppingSpec.FetchesOwnByteExactly | lib/sylvan/inferior.c:591-607 | the byte at rip is the program's own if and only if no breakpoint is planted there, or its own byte is that instruction |
| SteppingSpec.SetHereIsFetched | lib/sylvan/inferior.c:591-607 | a breakpoint set where a stopped program stands is executed by a plain step |
| SteppingSpec.ResumesAtAddress | lib/sylvan/inferior.c:570-607 | whatever a continue or single step resumes first starts at ResumeAddress |
| Inferiors.ValidateProcessState | lib/sylvan/inferior.c:550-565 | success means stopped |
| CallAnswers.NotResumedAnswers | lib/sylvan/inferior.c:550-607 | a continue or step that resumes nothing: ProcRunning exactly for a process going on, InvalidState exactly without one, the wait's own errors, or a failed call with the process stopped |
| CallAnswers.ResumedAnswers | lib/sylvan/inferior.c:570-607 | one that resumes: only a stopped process, and BreakpointHit exactly for a kernel trap one past the address of an entry at the last wait, ProcStopped exactly for another stop, and so on for every report |
| CallAnswers.GoesOnAnswers | lib/sylvan/inferior.c:513-607 | what is resumed and from where: as it stands, by the call asked for, unless it is one past a planted breakpoint; then it is stepped from that one's address with the saved byte back, and what a success leaves is planted again with 0xCC over the byte that is there then |
| CallAnswers.StoppedIsResumed | lib/sylvan/inferior.c:550-607 | a stopped process of which the wait has nothing new is not refused as running |
| Inferiors.ContinueInferior | lib/sylvan/inferior.c:570-586 | for every result, just the events of Continues: a wait, then nothing, a step over, a continue from where it stood, or both in turn; if nothing is resumed of a stopped process a ptrace call failed; the codes are those of NotResumedAnswers and ResumedAnswers |
| SteppingSpec.ResumeFacts | lib/sylvan/inferior.c:576-586 | what is continued has every breakpoint planted, the one stepped over included; no stop or exit of a resumed program is reported unless it was resumed |
| Inferiors.StepInstruction | lib/sylvan/inferior.c:591-607 | the same for a single step: one step, over the planted breakpoint right before rip or plainly; the codes likewise |
| SteppingSpec.SingleStepFacts | lib/sylvan/inferior.c:591-607 | what is stepped, and what is kept |
| Inferiors.SetRegisters | lib/sylvan/inferior.c:631-646 | success sets rip of an active process; it fails exactly if PTRACE_SETREGS does |
| LifecycleAnswers.RegistersAnswers | lib/sylvan/inferior.c:631-646 | the code for every report of the wait; rip is as given exactly on a success, and otherwise as the wait found it |
| Inferiors.GetMemory | lib/sylvan/inferior.c:710-723 | fails exactly if the PEEK does, whatever it reads; success gives the little-endian word at the address, eight 0xFF bytes included |
| Inferiors.SetMemory | lib/sylvan/inferior.c:729-772 | fails exactly if a PEEK or POKE does, or the address is 0 and there is something to write; success writes exactly the given bytes for every size, failure exactly a prefix of whole chunks; 64-bit wrap-around of addresses included |
| MemorySpec.CombineTail | lib/sylvan/inferior.c:760-764 | the word written for the tail is the rest of the data followed by what memory had |
| MemorySpec.StoredView | lib/sylvan/inferior.c:729-772 | the view takes a written byte if and only if no breakpoint is planted there or the saved byte equals it; elsewhere it stays |
| MemorySpec.StoredDisjointView | lib/sylvan/inferior.c:729-772 | a write clear of planted breakpoints is that write on the view |
| MemorySpec.StoredReadsBack | lib/sylvan/inferior.c:710-772 | reading inside what was written gives the written bytes |
| MemorySpec.StoredPlainly | lib/sylvan/inferior.c:729-772 | what is stored, byte by byte, where the bytes end before the end of the address space; everything else stays |
| MemorySpec.StoredAround | lib/sylvan/inferior.c:742-768 | and where they do not: they go on at address 0 |
| MemorySpec.PutAppend | lib/sylvan/inferior.c:742-752 | chunks written one behind the other are one write |
| Sessions.CallKeeps | lib/sylvan/inferior.c:30-772 | every call keeps the table well formed and a process held exactly while active; a clean one, which a caller can tell beforehand, keeps the invariant |
| Sessions.Session | lib/sylvan/inferior.c:30-772 | any sequence of calls leaves a trace that is just those calls, ends early only with an abort, and is what the kernel has logged |
| Sessions.SessionIsSound | lib/sylvan/inferior.c:30-772 | at every point of any such trace the inferior has a process exactly while active |
| Sessions.CleanSessionKeepsInv | lib/sylvan/inferior.c:30-772 | as long as the calls are clean, planted means planted, and bytes not stored to are seen as they were acquired |
| Sessions.SessionLeavesAsFound | lib/sylvan/inferior.c:245-343 | in a clean session every process detached from, by an attach too, has every byte not stored to as it was acquired |
| Sessions.SessionGoesArmed | lib/sylvan/inferior.c:570-607 | in a clean session, whenever a stopped program is continued, every breakpoint planted before is planted |
| Sessions.CallTracks | lib/sylvan/inferior.c:30-772 | every call leaves an active inferior marked as stopped exactly if the last report of a stop or of going on was of a stop, and one that becomes active has seen such a report |
| Sessions.SessionTracks | lib/sylvan/inferior.c:30-772 | at every point of a session the status of an active inferior is STOPPED or RUNNING as the last such report in the whole log says |
| Sessions.CallEvents | lib/sylvan/inferior.c:134-607 | which calls acquire, kill, detach from, continue and step a process, and that no others do |
| Sessions.CallSucceeds | lib/sylvan/inferior.c:245-772 | a success means that the call has done what it is for: the process started, attached to, let go, continued or stepped, the registers and bytes written, the breakpoint there or gone |
| Bits.BucketIsMod | include/uthash.h:430-433 | the bucket is the hash value modulo the number of buckets |
| Bits.BucketSplits | include/uthash.h:854-855 | doubling sends bucket b to b or b plus the old number |
| Bits.IdealIsCeiling | include/uthash.h:846-849 | the shift-and-mask formula is the number of items over the new number of buckets, rounded up |
| Buckets.PushFront | include/uthash.h:767-777 | a node goes to the front of its chain; every chain stays doubly linked and every node in its bucket |
| Buckets.UnlinkFromChain | include/uthash.h:789-802 | a node leaves its chain, head, count and both link directions kept |
| Buckets.CountOne | include/uthash.h:856-860 | one more element keeps both counters of the expansion exact |
| Buckets.Redistribute | include/uthash.h:850-871 | every node of every old chain ends up in the new bucket of its hash value, and none is lost or doubled |
| Buckets.MultBounds | include/uthash.h:856-860 | expand_mult is large enough for the bucket's length, and zero exactly for an ideal one |
| Buckets.MultExactly | include/uthash.h:856-860 | its exact value: the length over the ideal rounded up, but 1 for one element too many, and one less for an ideal of 1 |
| Buckets.ExpansionBounds | include/uthash.h:846-860 | every new bucket holds at most (expand_mult + 1) times the ideal length; nonideal_items is the true excess |
| Buckets.ExpansionSplits | include/uthash.h:850-871 | an element of old bucket b is in b or b plus the old number after the expansion, and nowhere else |
| Buckets.CountsAddUp | include/uthash.h:516-563 | the counts of the buckets add up to the number of elements |
| HashTables.HashTable.MakeTable | include/uthash.h:212-242 | 32 empty buckets |
| HashTables.HashTable.AppendList | include/uthash.h:278-284 | a new element at the tail, links and both ends kept |
| HashTables.HashTable.Find | include/uthash.h:153-173 | finds an element exactly if one has the key, by way of its chain alone |
| HashTables.HashTable.AddToBucket | include/uthash.h:767-786 | all elements are in their buckets afterwards, expanded or not |
| HashTables.HashTable.Add | include/uthash.h:396-415 | both structures stay valid; the order gets the element at its end |
| HashTables.HashTable.Delete | include/uthash.h:447-477 | both structures stay valid without exactly this element; the last one takes the table with it |
| HashTables.HashTable.ExpandBuckets | include/uthash.h:804-883 | twice the buckets, the same elements, exact counters, and the verdict on further expansion |
| HashTables.HashTable.Sort | include/uthash.h:886-972 | the order list becomes its merge sort, in place, with both ends and all previous links; the buckets are untouched |
| HashTables.HashTable.FindPlace | include/uthash.h:286-293 | the first element that is larger |
| HashTables.HashTable.AddInOrder | include/uthash.h:350-381 | both structures stay valid; the element stands before the first larger one |
| HashTables.InsertKeepsSorted | include/uthash.h:350-381 | an in-order add keeps a sorted list sorted |
| HashTables.PassesOwnCheck | include/uthash.h:516-563 | a valid table passes the table's own consistency check, and every element is in bucket hashv mod num_buckets |
| ListSorts.SplitRun | include/uthash.h:906-915 | where the second run starts, and how long the first is |
| ListSorts.MergeRuns | include/uthash.h:916-957 | the merge loop relinks two runs into their merge, previous links included, the rest of the list still reachable |
| ListSorts.SortPass | include/uthash.h:899-962 | one pass over the list, and whether it was the last |
| ListSorts.SortList | include/uthash.h:886-972 | the whole in-place sort terminates with the list that SortFrom describes |
| MergeSorts.SortIsStableSort | include/uthash.h:886-972 | for every total preorder: sorted, a permutation, and stable |
| MergeSorts.SortPermutes | include/uthash.h:886-972 | for any comparison function at all, no element is lost or doubled |
| MergeSorts.MergeStable | include/uthash.h:916-957 | a merge keeps equal elements in order, those of the first run first |
| Dictionaries.Execute | include/uthash.h:153-173 | find, and add or delete by what was found, is the operation of an insertion-ordered dictionary |
| Dictionaries.Run | include/uthash.h:1060-1062 | over any run from an empty table every answer is the dictionary's, and iteration gives the survivors in insertion order |
| Dictionaries.DictionaryLaws | include/uthash.h:153-173 | put maps a new key and leaves an old one alone, remove unmaps, get changes nothing, and no operation touches another key |
| Dictionaries.StaysThere | include/uthash.h:153-173 | what was put first under a key is there after any run that does not remove it |
| Registry.CommandRegistry.LookupCommand | src/command_registry.c:142-159 | an alias is replaced once, then the name is looked up among the commands |
| Registry.CommandRegistry.InsertAlias | src/command_registry.c:45-93 | succeeds exactly for a new name whose target stands for a command; success changes the lookup of that name only, failure of none |
| Registry.AliasWorksExactly | src/command_registry.c:142-159 | an alias stands for something if and only if its target is the name of a command |
| Registry.CommandRegistry.VisitAlias | src/command_registry.c:102-112 | a turn of the loop deletes and frees the element if it is the user's and keeps the rest in order |
| Registry.CommandRegistry.NextAlias | src/command_registry.c:102-112 | between two turns the successor is asked of an element that has not been freed |
| Registry.CommandRegistry.DeleteUserAliases | src/command_registry.c:98-112 | frees exactly the user's aliases and leaves the others, unfreed, in their order in a valid table; every link or kind the loop reads is asked of an element that is not freed |
| Registry.CommandRegistry.FreeAliasTable | src/command_registry.c:98-114 | afterwards no alias is left, and names stand for themselves |
| Registry.CommandRegistry.InitCommands | src/command_registry.c:118-135 | both tables hold their built-in lists, in order |
| Symbols.SymbolTable.constructor | lib/sylvan/symbol.c:20-31 | an empty table with room for 256 symbols |
| Symbols.SymbolTable.Add | lib/sylvan/symbol.c:78-95 | appends a symbol, doubling the capacity when full, and keeps all the others |
| Symbols.StrCmpTransitive | lib/sylvan/symbol.c:97-102 | comparing names is an order that can be searched by |
| Symbols.StrCmpIsLexicographic | lib/sylvan/symbol.c:97-102 | the first character in which two names differ decides, and a name is smaller than any longer one that it starts |
| Symbols.SymbolTable.Lookup | lib/sylvan/symbol.c:104-109 | the loop of the binary search ends where Search does |
| Symbols.SearchIsExact | lib/sylvan/symbol.c:104-109 | in a sorted table a name is found if and only if it is there |
| Symbols.SymbolTable.Sort | lib/sylvan/symbol.c:264-268 | sorted by name and a permutation |
| Symbols.SymbolTables.LoadTables | lib/sylvan/symbol.c:253-271 | success leaves both tables sorted with all they were given; an ELF failure leaves the DWARF table as it was read, and then distinct names are all found if and only if they were read in order |
| Symbols.SymbolTables.GetLabelAddr | lib/sylvan/symbol.c:239-251 | the DWARF table is asked first |
| Symbols.SymbolTables.LoadAndGet | lib/sylvan/symbol.c:239-271 | after a successful load a lookup succeeds if and only if the name was read, with an address of that name, from DWARF if there is one; after a failed one it searches the DWARF entries as they were read, and what it finds is true |
| Symbols.AllFoundExactlyWhenSorted | lib/sylvan/symbol.c:97-109 | among distinct names a search finds every one if and only if the table is sorted |
| Symbols.UnsortedSearchMisses | lib/sylvan/symbol.c:264-268 | three symbols of which one is missed |
| Symbols.SymbolTables.FailedLoadMisses | lib/sylvan/symbol.c:239-271 | a load of them that fails on the ELF file, and a lookup that then misses one |
| Disassembly.PrintOpcodes | src/disassemble.c:234-248 | the opcode string reads back as the bytes of the instruction; it is two upper-case hexadecimal digits a byte with a blank between bytes |
| Disassembly.OpcodesReadBack | src/disassemble.c:234-248 | the same for every sequence of bytes |
| Disassembly.DecodeAll | src/disassemble.c:208-282 | the loop terminates; the instructions partition the bytes consumed without gap or overlap, each at its address; of a whole function the list ends at the first text that begins with the letters ret, if there is one; each other reason to stop is the true one |
| Disassembly.Disassemble | src/disassemble.c:153-307 | success exactly if something was listed or there was nothing to list; stops at the first text that begins with the letters ret exactly for a whole function |

## Left out

- fork, exec, pipes, word expansion, path lookup and `/proc`: only what the parent sees of them is kept, as parameters of `RunProgram` and `Attach`.
- ptrace, waitpid and kill: the methods of `Tracee.Kernel`, which choose arbitrarily; a wait interrupted by a signal and repeated is one wait, and a POKE writes all of its word or nothing.
- Registers other than rip, auxiliary vectors, and the reading of registers for the user.
- sylvan_inferior_destroy, sylvan_set_filepath and sylvan_set_args; NULL inferiors and other NULL arguments, except where an error path is part of a property.
- Texts of error messages and the user interface: readline, tables, colours, help, the parsing of arguments in the command handlers.
- sylvan_set_breakpoint_function and its label lookup wrapper: a lookup followed by a set, both modelled.
- A process that PTRACE_ATTACH caught but whose first wait failed is forgotten, as in the code; what becomes of it is not modelled.
- libdwarf and libelf: a list of names and addresses, or nothing. Zydis: an arbitrary function that consumes between one and all of the remaining bytes.
- Symbols.SymbolTable.Sort: the library's qsort is an insertion sort here, of which only sortedness and permutation are used, and bsearch a halving search; running out of memory while symbols are added is not modelled.
- Disassembly.Disassemble: starts from the bytes of the segment; finding and reading them in the file is left out, and so is the `offset > size` exit, which a decoder that stays within its buffer never takes.
- Registry.CommandRegistry.InsertAlias: its three allocations succeed or fail as one.
- Registry.CommandRegistry.InitCommands: the built-in lists are parameters that name everything once.
- The hash function is an arbitrary function of the key; Bloom filter, HASH_SELECT and non-fatal running out of memory are not enabled in the repository, and counters are unbounded, so that wrap-around beyond 2^32 elements is not modelled.
- Sessions.Session: says nothing of the state of a debugger that has aborted.
- Sessions.CleanSessionKeepsInv: the condition on an attach without symbols is that no flag is set when it is called, which is more than is needed where detaching from the old process lifts them; the exact condition for the attach itself is `StaleFlagsExactly`.

/** Return codes of the library that the modelled functions use. */
module Codes {
  datatype Code =
    | Ok
    | OutOfMemory
    | InvalidArgument
    | InvalidState
    | FileNotFound
    | ProcNotFound
    | ProcNotAttached
    | ProcExited
    | ProcTerminated
    | ProcRunning
    | ProcStopped
    | ProcChild
    | SystemError
    | ForkFailed
    | PipeFailed
    | WaitpidFailed
    | KillFailed
    | NotExecutable
    | PtraceError
    | PtraceAttachFailed
    | PtraceDetachFailed
    | PtraceContFailed
    | PtraceStepFailed
    | PtraceGetregsFailed
    | PtraceSetregsFailed
    | PtracePeektextFailed
    | PtracePoketextFailed
    | PtracePeekdataFailed
    | PtracePokedataFailed
    | BreakpointAlreadyExists
    | BreakpointNotFound
    | BreakpointLimitReached
    | BreakpointHit
    | ElfFailed
    | DwarfNotFound
    | SymbolNotFound
    | Aborted  // a failed assert ended the debugger: no return value in the library
  {
    /** The codes that say that a call of the kernel was refused; no wait leads to one of them. */
    predicate Refused() {
      || KillFailed? || ForkFailed? || PtraceAttachFailed? || PtraceDetachFailed? || PtraceContFailed? || PtraceStepFailed?
      || PtraceSetregsFailed? || PtracePeektextFailed? || PtracePoketextFailed?
    }
  }
}

/** Data model of the native-execution (NCE) engine: the guest register
    context, the live host/guest CPU frame a signal handler sees, the
    kernel-facing thread context, the per-thread execution parameters and the
    halt-reason bitmask.

    Register widths follow the fields the engine copies between: general
    registers, pc and sp are 64-bit, vector registers 128-bit, and pstate,
    fpcr and fpsr are 32-bit in the guest context. */
module NceTypes {
  import opened Wrappers

  /** x0..x30: the general registers the engine saves and restores. */
  const NumGprs := 31
  /** q0..q31. */
  const NumVregs := 32
  /** r[0..28] of the kernel thread context; x29 and x30 travel as fp and lr. */
  const NumContextGprs := 29
  /** Supervisor-call arguments live in x0..x7. */
  const NumSvcArgs := 8
  /** Host callee-saved general registers x19..x30. */
  const FirstHostSavedReg := 19
  const NumHostSavedRegs := 12
  /** Index of x30 (the host return address) inside the saved host registers. */
  const HostLinkRegIndex := 11
  /** Host callee-saved vector registers q8..q15. */
  const FirstHostSavedVreg := 8
  const NumHostSavedVregs := 8
  /** Width of one guest instruction, skipped on a data abort. */
  const InstructionWidth: bv64 := 4

  // ---------------------------------------------------------------------
  // Halt reasons: one bit each, combinable.
  // ---------------------------------------------------------------------

  const StepThreadBit: bv64 := 0x0000_0001
  const DataAbortBit: bv64 := 0x0000_0004
  const BreakLoopBit: bv64 := 0x0200_0000
  const SupervisorCallBit: bv64 := 0x0400_0000
  const InstructionBreakpointBit: bv64 := 0x0800_0000
  const PrefetchAbortBit: bv64 := 0x2000_0000

  /** True when every bit of `reason` is present in `mask`. */
  predicate HasReason(mask: bv64, reason: bv64) {
    mask & reason == reason
  }

  // ---------------------------------------------------------------------
  // Register state
  // ---------------------------------------------------------------------

  /** Host callee-saved state parked in the guest context while guest code
      runs: x19..x30, q8..q15 and the host stack pointer. */
  datatype HostContext = HostContext(savedRegs: seq<bv64>, savedVregs: seq<bv128>, hostSp: bv64) {
    predicate WellFormed() {
      |savedRegs| == NumHostSavedRegs && |savedVregs| == NumHostSavedVregs
    }
  }

  /** The engine's per-instance guest context. `esrEl1` is the halt-reason
      bitmask; `svc` is the last supervisor-call number. */
  datatype GuestContext = GuestContext(
    cpuRegisters: seq<bv64>,
    vectorRegisters: seq<bv128>,
    pc: bv64,
    sp: bv64,
    pstate: bv32,
    fpcr: bv32,
    fpsr: bv32,
    tpidrEl0: bv64,
    tpidrroEl0: bv64,
    esrEl1: bv64,
    svc: bv32,
    host: HostContext)
  {
    predicate WellFormed() {
      |cpuRegisters| == NumGprs && |vectorRegisters| == NumVregs && host.WellFormed()
    }
  }

  /** The live register frame of the interrupted thread, as a signal handler
      reads and rewrites it. `pstate` is 64-bit here. */
  datatype CpuState = CpuState(
    x: seq<bv64>,
    q: seq<bv128>,
    pc: bv64,
    sp: bv64,
    pstate: bv64,
    fpcr: bv32,
    fpsr: bv32)
  {
    predicate WellFormed() {
      |x| == NumGprs && |q| == NumVregs
    }
  }

  /** The kernel's view of a thread's registers, read and written by the
      debugger and by state save. */
  datatype ThreadContext = ThreadContext(
    r: seq<bv64>,
    fp: bv64,
    lr: bv64,
    sp: bv64,
    pc: bv64,
    pstate: bv32,
    v: seq<bv128>,
    fpcr: bv32,
    fpsr: bv32,
    tpidr: bv64)
  {
    predicate WellFormed() {
      |r| == NumContextGprs && |v| == NumVregs
    }
  }

  // ---------------------------------------------------------------------
  // Threads and the engine
  // ---------------------------------------------------------------------

  datatype SpinLock = Unlocked | Locked

  type ThreadId = nat

  /** Index of the emulated core an engine instance serves; a thread's
      `nativeContext` names the engine whose guest context it runs on. */
  type CoreIndex = nat

  /** Per-guest-thread block shared between the running side and any
      interrupter. */
  datatype NativeExecutionParameters = NativeExecutionParameters(
    nativeContext: Option<CoreIndex>,
    lock: SpinLock,
    isRunning: bool,
    tpidrEl0: bv64,
    tpidrroEl0: bv64)

  /** One engine instance: its guest context and the running-thread slot. */
  datatype Engine = Engine(core: CoreIndex, ctx: GuestContext, runningThread: Option<ThreadId>)

  /** An engine together with the parameter blocks of the kernel threads it
      may run. */
  datatype Machine = Machine(engine: Engine, threads: map<ThreadId, NativeExecutionParameters>) {
    predicate WellFormed() {
      && engine.ctx.WellFormed()
      && (engine.runningThread.Some? ==> engine.runningThread.value in threads)
    }

    /** Guest code of a known thread is executing on this engine: the only
        state in which the guest fault handlers are reached. */
    predicate InGuestCode() {
      WellFormed() && engine.runningThread.Some?
    }

    /** Between slices: no thread is bound to this engine and none is marked
        running. */
    predicate Quiescent() {
      && WellFormed()
      && engine.runningThread.None?
      && forall t :: t in threads ==> !threads[t].isRunning
    }
  }
}

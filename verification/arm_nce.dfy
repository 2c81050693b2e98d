/** The native-execution engine: entering and leaving guest code, the guest
    fault handlers, the interrupt handshake and the register accessors.

    The engine runs sequentially here. The raw transfer into guest code is an
    input (`GuestExit`): it says how the slice ended and what the live
    registers held at that moment; both ways out pass through
    `SaveGuestContext`, whose x0 is the halt reason `RunThread` returns. */
module ArmNce {
  import opened Wrappers
  import opened NceTypes

  // ---------------------------------------------------------------------
  // Halt-reason bitmask: writers OR bits in, the single reader drains it.
  // ---------------------------------------------------------------------

  /** `fetch_or` of one reason: the pending reasons plus `reason`. */
  function Latch(mask: bv64, reason: bv64): (r: bv64)
    ensures HasReason(r, mask) && HasReason(r, reason)
  {
    mask | reason
  }

  /** Latching adds no other bit: every mask holding both the pending
      reasons and the new one holds the result. */
  lemma LatchAddsNothingElse(mask: bv64, reason: bv64, b: bv64)
    requires HasReason(b, mask) && HasReason(b, reason)
    ensures HasReason(b, Latch(mask, reason))
  {
  }

  /** The result is clear exactly when nothing was pending and nothing was
      latched. */
  lemma LatchZero(mask: bv64, reason: bv64)
    ensures Latch(mask, reason) == 0 <==> mask == 0 && reason == 0
  {
  }

  /** Latching is monotone: bits already present stay present. */
  lemma LatchKeeps(mask: bv64, reason: bv64, bits: bv64)
    requires HasReason(mask, bits)
    ensures HasReason(Latch(mask, reason), bits)
  {
  }

  /** `b` holds every one of `reasons`. */
  predicate HoldsAll(b: bv64, reasons: seq<bv64>) {
    forall i :: 0 <= i < |reasons| ==> HasReason(b, reasons[i])
  }

  /** Reasons latched one after another, starting from `mask`, in the order
      the writers' `fetch_or`s happened. */
  function LatchAll(mask: bv64, reasons: seq<bv64>): (r: bv64)
    ensures HasReason(r, mask) && HoldsAll(r, reasons)
    decreases |reasons|
  {
    if |reasons| == 0 then mask
    else
      var n := |reasons| - 1;
      var prefix := LatchAll(mask, reasons[..n]);
      var r := Latch(prefix, reasons[n]);
      LatchKeeps(prefix, reasons[n], mask);
      forall i | 0 <= i < n
        ensures HasReason(r, reasons[i])
      {
        assert reasons[..n][i] == reasons[i];
        LatchKeeps(prefix, reasons[n], reasons[i]);
      }
      r
  }

  /** The writers add no other bit: every mask holding `mask` and all the
      reasons holds the result. */
  lemma {:induction false} LatchAllAddsNothingElse(mask: bv64, reasons: seq<bv64>, b: bv64)
    requires HasReason(b, mask) && HoldsAll(b, reasons)
    ensures HasReason(b, LatchAll(mask, reasons))
    decreases |reasons|
  {
    if |reasons| > 0 {
      var n := |reasons| - 1;
      assert HoldsAll(b, reasons[..n]) by {
        forall i | 0 <= i < n
          ensures HasReason(b, reasons[..n][i])
        {
          assert reasons[..n][i] == reasons[i];
        }
      }
      LatchAllAddsNothingElse(mask, reasons[..n], b);
      LatchAddsNothingElse(LatchAll(mask, reasons[..n]), reasons[n], b);
    }
  }

  /** The mask ends clear exactly when it started clear and every reason
      latched was empty. */
  lemma LatchAllZero(mask: bv64, reasons: seq<bv64>)
    ensures LatchAll(mask, reasons) == 0 <==> mask == 0 && forall i :: 0 <= i < |reasons| ==> reasons[i] == 0
  {
    if mask == 0 && forall i :: 0 <= i < |reasons| ==> reasons[i] == 0 {
      assert HoldsAll(0, reasons);
      LatchAllAddsNothingElse(mask, reasons, 0);
    }
  }

  // ---------------------------------------------------------------------
  // Context save / restore (the register shuffles of the transfer path)
  // ---------------------------------------------------------------------

  /** A guest context together with the live register frame. */
  datatype Frame = Frame(ctx: GuestContext, cpu: CpuState)

  /** `u32(value)`: keeps the low 32 bits. */
  function Truncate32(value: bv64): (r: bv32)
    ensures r as bv64 == value & 0xFFFF_FFFF
  {
    (value & 0xFFFF_FFFF) as bv32
  }

  /** Widening a 32-bit value and truncating it again gives it back. */
  lemma TruncateWidened(value: bv32)
    ensures Truncate32(value as bv64) == value
  {
  }

  /** The guest context with every guest register taken from `cpu`. */
  function CaptureGuestRegisters(ctx: GuestContext, cpu: CpuState): GuestContext {
    ctx.(cpuRegisters := cpu.x, vectorRegisters := cpu.q, fpsr := cpu.fpsr, fpcr := cpu.fpcr,
         pc := cpu.pc, sp := cpu.sp, pstate := Truncate32(cpu.pstate))
  }

  /** Leaves guest code: captures the guest registers, puts the host's
      callee-saved registers and stack back, resumes at the host return
      address and drains the halt reasons into x0. */
  function SaveGuestContext(ctx: GuestContext, cpu: CpuState): (f: Frame)
    requires ctx.WellFormed() && cpu.WellFormed()
    ensures f.ctx.WellFormed() && f.cpu.WellFormed()
    // every guest register is captured (pstate truncated to 32 bits)
    ensures f.ctx.cpuRegisters == cpu.x && f.ctx.vectorRegisters == cpu.q
    ensures f.ctx.pc == cpu.pc && f.ctx.sp == cpu.sp
    ensures f.ctx.fpcr == cpu.fpcr && f.ctx.fpsr == cpu.fpsr
    ensures f.ctx.pstate == Truncate32(cpu.pstate)
    // tpidr_el0 and the rest of the context are left alone
    ensures f.ctx.tpidrEl0 == ctx.tpidrEl0 && f.ctx.tpidrroEl0 == ctx.tpidrroEl0
    ensures f.ctx.svc == ctx.svc && f.ctx.host == ctx.host
    // the halt reasons surface in x0 exactly once
    ensures f.ctx.esrEl1 == 0 && f.cpu.x[0] == ctx.esrEl1
    // host state is back: stack, callee-saved registers, return address
    ensures f.cpu.sp == ctx.host.hostSp
    ensures f.cpu.pc == ctx.host.savedRegs[HostLinkRegIndex]
    ensures f.cpu.x[FirstHostSavedReg..] == ctx.host.savedRegs
    ensures f.cpu.q[FirstHostSavedVreg..FirstHostSavedVreg + NumHostSavedVregs] == ctx.host.savedVregs
    // scratch registers keep whatever the guest left in them
    ensures f.cpu.x[1..FirstHostSavedReg] == cpu.x[1..FirstHostSavedReg]
    ensures f.cpu.q[..FirstHostSavedVreg] == cpu.q[..FirstHostSavedVreg]
    ensures f.cpu.q[FirstHostSavedVreg + NumHostSavedVregs..] == cpu.q[FirstHostSavedVreg + NumHostSavedVregs..]
    ensures f.cpu.pstate == cpu.pstate && f.cpu.fpcr == cpu.fpcr && f.cpu.fpsr == cpu.fpsr
  {
    var saved := CaptureGuestRegisters(ctx, cpu);
    var scratch := cpu.x[1..FirstHostSavedReg];
    var x := [ctx.esrEl1] + scratch + ctx.host.savedRegs;
    assert x[1..FirstHostSavedReg] == scratch;
    assert x[FirstHostSavedReg..] == ctx.host.savedRegs;
    var low := cpu.q[..FirstHostSavedVreg];
    var high := cpu.q[FirstHostSavedVreg + NumHostSavedVregs..];
    var q := low + ctx.host.savedVregs + high;
    assert q[..FirstHostSavedVreg] == low;
    assert q[FirstHostSavedVreg..FirstHostSavedVreg + NumHostSavedVregs] == ctx.host.savedVregs;
    assert q[FirstHostSavedVreg + NumHostSavedVregs..] == high;
    var hostCpu := cpu.(sp := ctx.host.hostSp, x := x, q := q,
                        pc := ctx.host.savedRegs[HostLinkRegIndex]);
    Frame(saved.(esrEl1 := 0), hostCpu)
  }

  /** Result of entering guest code: the updated context, the live frame and
      the thread-parameter pointer that was passed in x9. */
  datatype Restored = Restored(ctx: GuestContext, cpu: CpuState, params: bv64)

  /** Enters guest code as the engine writes it: parks the host stack pointer
      and callee-saved vector registers, then loads the guest registers into
      the live frame. The guest `sp` goes to PC and the guest `pc` to SP. */
  function RestoreGuestContext(ctx: GuestContext, cpu: CpuState): (r: Restored)
    requires ctx.WellFormed() && cpu.WellFormed()
    ensures r.ctx.WellFormed() && r.cpu.WellFormed()
    ensures r.params == cpu.x[9]
    ensures r.ctx.host.hostSp == cpu.sp
    ensures r.ctx.host.savedVregs == cpu.q[FirstHostSavedVreg..FirstHostSavedVreg + NumHostSavedVregs]
    ensures r.ctx.host.savedRegs == ctx.host.savedRegs
    ensures r.ctx == ctx.(host := r.ctx.host)
    ensures r.cpu.x == ctx.cpuRegisters && r.cpu.q == ctx.vectorRegisters
    ensures r.cpu.pc == ctx.sp && r.cpu.sp == ctx.pc
    ensures r.cpu.pstate == ctx.pstate as bv64 && r.cpu.fpcr == ctx.fpcr && r.cpu.fpsr == ctx.fpsr
  {
    var host := ctx.host.(savedVregs := cpu.q[FirstHostSavedVreg..FirstHostSavedVreg + NumHostSavedVregs],
                          hostSp := cpu.sp);
    var guestCpu := CpuState(ctx.cpuRegisters, ctx.vectorRegisters, ctx.sp, ctx.pc,
                             ctx.pstate as bv64, ctx.fpcr, ctx.fpsr);
    Restored(ctx.(host := host), guestCpu, cpu.x[9])
  }

  /** Entering guest code with PC taken from the guest `pc` and SP from the
      guest `sp`, which is what makes save and restore inverse. */
  function RestoreGuestContextIntended(ctx: GuestContext, cpu: CpuState): (r: Restored)
    requires ctx.WellFormed() && cpu.WellFormed()
    ensures r.ctx.WellFormed() && r.cpu.WellFormed()
    ensures r.params == cpu.x[9]
    ensures r.ctx.host.hostSp == cpu.sp
    ensures r.ctx == ctx.(host := r.ctx.host)
    ensures r.cpu.pc == ctx.pc && r.cpu.sp == ctx.sp
  {
    var r := RestoreGuestContext(ctx, cpu);
    r.(cpu := r.cpu.(pc := ctx.pc, sp := ctx.sp))
  }

  /** The guest-visible registers of a context (everything a save can
      capture). */
  predicate SameGuestRegisters(a: GuestContext, b: GuestContext) {
    && a.cpuRegisters == b.cpuRegisters && a.vectorRegisters == b.vectorRegisters
    && a.pc == b.pc && a.sp == b.sp && a.pstate == b.pstate
    && a.fpcr == b.fpcr && a.fpsr == b.fpsr && a.tpidrEl0 == b.tpidrEl0
  }

  /** As written, restoring a context and saving it straight back exchanges
      pc and sp; every other guest register survives. */
  lemma RestoreThenSaveExchangesPcSp(ctx: GuestContext, cpu: CpuState)
    requires ctx.WellFormed() && cpu.WellFormed()
    ensures var r := RestoreGuestContext(ctx, cpu);
            var f := SaveGuestContext(r.ctx, r.cpu);
            && f.ctx.pc == ctx.sp && f.ctx.sp == ctx.pc
            && f.ctx.cpuRegisters == ctx.cpuRegisters && f.ctx.vectorRegisters == ctx.vectorRegisters
            && f.ctx.pstate == ctx.pstate && f.ctx.fpcr == ctx.fpcr && f.ctx.fpsr == ctx.fpsr
            && f.ctx.tpidrEl0 == ctx.tpidrEl0
  {
    var r := RestoreGuestContext(ctx, cpu);
    var f := SaveGuestContext(r.ctx, r.cpu);
    TruncateWidened(ctx.pstate);
  }

  /** A concrete context on which the written save/restore pair is not a
      round trip: pc 0x1000 and sp 0x2000 come back as pc 0x2000. */
  lemma RestoreThenSaveIsNotRoundTrip(ctx: GuestContext, cpu: CpuState)
    requires ctx.WellFormed() && cpu.WellFormed()
    requires ctx.pc == 0x1000 && ctx.sp == 0x2000
    ensures var r := RestoreGuestContext(ctx, cpu);
            var f := SaveGuestContext(r.ctx, r.cpu);
            f.ctx.pc == 0x2000 && !SameGuestRegisters(f.ctx, ctx)
  {
    RestoreThenSaveExchangesPcSp(ctx, cpu);
  }

  /** With the intended restore, save undoes restore on every guest register;
      only the drained halt reasons and the parked host state differ. */
  lemma RestoreThenSaveRoundTrip(ctx: GuestContext, cpu: CpuState)
    requires ctx.WellFormed() && cpu.WellFormed()
    ensures var r := RestoreGuestContextIntended(ctx, cpu);
            var f := SaveGuestContext(r.ctx, r.cpu);
            && f.ctx == ctx.(esrEl1 := 0, host := r.ctx.host)
            && f.cpu.x[0] == ctx.esrEl1
  {
    var r := RestoreGuestContextIntended(ctx, cpu);
    TruncateWidened(ctx.pstate);
  }

  // ---------------------------------------------------------------------
  // Guest fault handlers
  // ---------------------------------------------------------------------

  /** Host page geometry used to round a faulting address down. */
  const PageBits := 12
  const PageSize: bv64 := 0x1000
  const PageMask: bv64 := 0xFFF

  /** What a guest fault handler decided: resume guest code (`resume`) or
      return to the host with the context saved. */
  datatype FaultResult = FaultResult(resume: bool, m: Machine, cpu: CpuState)

  /** Unresolvable fault. A data abort (fault address is not PC) skips the
      instruction and resumes. A prefetch abort latches `PrefetchAbort`,
      forces the running thread's lock to Locked and leaves guest code. */
  function HandleFailedGuestFault(m: Machine, cpu: CpuState, faultAddr: bv64): (r: FaultResult)
    requires m.InGuestCode() && cpu.WellFormed()
    ensures r.m.WellFormed() && r.cpu.WellFormed()
    ensures r.resume <==> cpu.pc != faultAddr
    // data abort: exactly one instruction skipped, nothing else touched
    ensures cpu.pc != faultAddr ==> r.m == m && r.cpu == cpu.(pc := cpu.pc + InstructionWidth)
    // prefetch abort: the bit surfaces in x0, the lock is held, the context is saved
    ensures cpu.pc == faultAddr ==>
      var t := m.engine.runningThread.value;
      && r.cpu.x[0] == m.engine.ctx.esrEl1 | PrefetchAbortBit
      && HasReason(r.cpu.x[0], PrefetchAbortBit)
      && r.m.engine.ctx.esrEl1 == 0
      && r.m.threads == m.threads[t := m.threads[t].(lock := Locked)]
      && r.m.engine.runningThread == m.engine.runningThread
      && r.m.engine.ctx == CaptureGuestRegisters(m.engine.ctx, cpu).(esrEl1 := 0)
      && r.cpu.pc == m.engine.ctx.host.savedRegs[HostLinkRegIndex]
  {
    if cpu.pc != faultAddr then
      FaultResult(true, m, cpu.(pc := cpu.pc + InstructionWidth))
    else
      var t := m.engine.runningThread.value;
      var ctx := m.engine.ctx.(esrEl1 := Latch(m.engine.ctx.esrEl1, PrefetchAbortBit));
      var threads := m.threads[t := m.threads[t].(lock := Locked)];
      var f := SaveGuestContext(ctx, cpu);
      FaultResult(false, Machine(m.engine.(ctx := f.ctx), threads), f.cpu)
  }

  /** The page that contains `addr`. */
  function PageOf(addr: bv64): (page: bv64)
    ensures page & PageMask == 0
    ensures page <= addr && addr - page < PageSize
  {
    addr & !PageMask
  }

  /** Illegal access: ask guest memory to make the faulting page valid; on
      success resume at the same instruction, otherwise treat the fault as
      unresolvable. `invalidate` is the memory manager's answer for an
      (address, size) range. */
  function HandleGuestAccessFault(m: Machine, cpu: CpuState, faultAddr: bv64,
                                  invalidate: (bv64, bv64) -> bool): (r: FaultResult)
    requires m.InGuestCode() && cpu.WellFormed()
    ensures invalidate(PageOf(faultAddr), PageSize) ==> r == FaultResult(true, m, cpu)
    ensures !invalidate(PageOf(faultAddr), PageSize) ==> r == HandleFailedGuestFault(m, cpu, faultAddr)
  {
    if invalidate(PageOf(faultAddr), PageSize) then FaultResult(true, m, cpu)
    else HandleFailedGuestFault(m, cpu, faultAddr)
  }

  /** What the single-instruction interpreter made of the faulting
      instruction: the frame after executing it and where to continue. */
  datatype Emulation = Emulation(cpu: CpuState, nextPc: bv64)

  /** Misaligned access: if the interpreter executed the instruction, resume
      at its continuation; otherwise treat the fault as unresolvable. */
  function HandleGuestAlignmentFault(m: Machine, cpu: CpuState, faultAddr: bv64,
                                     emulated: Option<Emulation>): (r: FaultResult)
    requires m.InGuestCode() && cpu.WellFormed()
    requires emulated.Some? ==> emulated.value.cpu.WellFormed()
    ensures emulated.Some? ==>
      r.resume && r.m == m && r.cpu == emulated.value.cpu.(pc := emulated.value.nextPc)
    ensures emulated.None? ==> r == HandleFailedGuestFault(m, cpu, faultAddr)
  {
    match emulated
    case Some(e) => FaultResult(true, m, e.cpu.(pc := e.nextPc))
    case None => HandleFailedGuestFault(m, cpu, faultAddr)
  }

  // ---------------------------------------------------------------------
  // Running a thread
  // ---------------------------------------------------------------------

  /** How a guest slice ended.
      - `Halted`: guest code stopped for `latched` reasons (supervisor call,
        break, step...) with the live registers `cpu`. When the slice ended
        at a supervisor call, `svc` is the call number the supervisor-call
        stub stored in the guest context on the way out.
      - `PrefetchAborted`: guest code jumped to unmapped memory at `cpu.pc`.
      `tpidrEl0` is the thread-local pointer the guest left in its parameter
      block. */
  datatype GuestExit =
    | Halted(latched: bv64, cpu: CpuState, tpidrEl0: bv64, svc: Option<bv32>)
    | PrefetchAborted(cpu: CpuState, tpidrEl0: bv64)

  /** The supervisor-call number in the context after a slice: the one the
      stub stored, or the previous one when no call was made. */
  function SvcAfter(previous: bv32, exit: GuestExit): bv32 {
    if exit.Halted? && exit.svc.Some? then exit.svc.value else previous
  }

  /** Which transfer mechanism carried the thread into guest code. */
  datatype TransferPath = NotEntered | Trampoline | ExceptionLevelChange

  datatype RunResult = RunResult(reason: bv64, m: Machine, path: TransferPath)

  /** The halt reasons a slice that started with a clear bitmask reports. */
  function ExitReason(exit: GuestExit): bv64 {
    match exit
    case Halted(latched, _, _, _) => latched
    case PrefetchAborted(_, _) => PrefetchAbortBit
  }

  /** Publishes the engine as the owner of thread `t`: binds the running
      slot, points the thread at this engine's context, hands the context's
      thread-local pointers to the thread and marks it running. */
  function EnterThread(m: Machine, t: ThreadId): (r: Machine)
    requires m.WellFormed() && t in m.threads
    ensures r.InGuestCode() && r.engine.runningThread == Some(t)
    ensures r.engine.ctx == m.engine.ctx && r.engine.core == m.engine.core
    ensures r.threads.Keys == m.threads.Keys
    ensures r.threads[t].isRunning && r.threads[t].nativeContext == Some(m.engine.core)
    ensures r.threads[t].tpidrEl0 == m.engine.ctx.tpidrEl0
    ensures r.threads[t].tpidrroEl0 == m.engine.ctx.tpidrroEl0
    ensures r.threads[t].lock == m.threads[t].lock
    ensures forall u :: u in m.threads && u != t ==> r.threads[u] == m.threads[u]
  {
    var p := m.threads[t].(nativeContext := Some(m.engine.core), tpidrEl0 := m.engine.ctx.tpidrEl0,
                           tpidrroEl0 := m.engine.ctx.tpidrroEl0, isRunning := true);
    Machine(m.engine.(runningThread := Some(t)), m.threads[t := p])
  }

  /** The guest slice itself, from entry to the return at the host call site:
      the frame it returns is the host's, with the halt reasons in x0. */
  function RunGuest(m: Machine, exit: GuestExit): (r: Frame)
    requires m.InGuestCode() && m.engine.ctx.esrEl1 == 0 && exit.cpu.WellFormed()
    ensures r.ctx.WellFormed() && r.cpu.WellFormed()
    ensures r.cpu.x[0] == ExitReason(exit) && r.ctx.esrEl1 == 0
    ensures r.ctx == CaptureGuestRegisters(m.engine.ctx, exit.cpu).(esrEl1 := 0, svc := SvcAfter(m.engine.ctx.svc, exit))
  {
    match exit
    case Halted(latched, cpu, _, _) =>
      var ctx := m.engine.ctx.(esrEl1 := Latch(m.engine.ctx.esrEl1, latched), svc := SvcAfter(m.engine.ctx.svc, exit));
      SaveGuestContext(ctx, cpu)
    case PrefetchAborted(cpu, _) =>
      var f := HandleFailedGuestFault(m, cpu, cpu.pc);
      Frame(f.m.engine.ctx, f.cpu)
  }

  /** Threads whose parameter block a slice of `t` ended with: the prefetch
      abort path leaves the lock held, a halt leaves it as it was. */
  function ThreadsAfterExit(m: Machine, t: ThreadId, exit: GuestExit): map<ThreadId, NativeExecutionParameters>
    requires t in m.threads
  {
    var p := m.threads[t].(tpidrEl0 := exit.tpidrEl0);
    m.threads[t := if exit.PrefetchAborted? then p.(lock := Locked) else p]
  }

  /** The entry path of `RunThread`: enter `t`, run guest code until `exit`,
      then detach the thread and persist its thread-local pointer. */
  function EnterAndRun(m: Machine, t: ThreadId, postHandlers: set<bv64>, exit: GuestExit): (r: RunResult)
    requires m.WellFormed() && t in m.threads && exit.cpu.WellFormed() && m.engine.ctx.esrEl1 == 0
    ensures r.m.WellFormed() && r.m.threads.Keys == m.threads.Keys
    ensures r.m.engine.ctx.esrEl1 == 0 && r.m.engine.core == m.engine.core
    ensures r.path == (if m.engine.ctx.pc in postHandlers then Trampoline else ExceptionLevelChange)
    ensures r.reason == ExitReason(exit)
    ensures r.m.engine.runningThread.None?
  {
    var entered := EnterThread(m, t);
    var path := if m.engine.ctx.pc in postHandlers then Trampoline else ExceptionLevelChange;
    var f := RunGuest(entered, exit);
    var threads := ThreadsAfterExit(entered, t, exit);
    var p := threads[t];
    var left := Machine(entered.engine.(runningThread := None, ctx := f.ctx.(tpidrEl0 := p.tpidrEl0)),
                        threads[t := p.(isRunning := false, nativeContext := None)]);
    RunResult(f.cpu.x[0], left, path)
  }

  /** After the slice the thread is detached and no longer running, its
      final thread-local pointer is copied back into the context, a halt
      leaves its lock as it was on entry and a prefetch abort leaves it held,
      and no other thread changes. */
  lemma EnterAndRunDetachesThread(m: Machine, t: ThreadId, postHandlers: set<bv64>, exit: GuestExit)
    requires m.WellFormed() && t in m.threads && exit.cpu.WellFormed() && m.engine.ctx.esrEl1 == 0
    ensures var r := EnterAndRun(m, t, postHandlers, exit);
            && !r.m.threads[t].isRunning && r.m.threads[t].nativeContext.None?
            && r.m.threads[t].tpidrroEl0 == m.engine.ctx.tpidrroEl0
            && r.m.engine.ctx.tpidrEl0 == exit.tpidrEl0 == r.m.threads[t].tpidrEl0
            && r.m.threads[t].lock == (if exit.PrefetchAborted? then Locked else m.threads[t].lock)
            && forall u :: u in m.threads && u != t ==> r.m.threads[u] == m.threads[u]
  {
  }

  /** After the slice the context holds the registers the guest left, with
      its final thread-local pointer. */
  lemma EnterAndRunCapturesRegisters(m: Machine, t: ThreadId, postHandlers: set<bv64>, exit: GuestExit)
    requires m.WellFormed() && t in m.threads && exit.cpu.WellFormed() && m.engine.ctx.esrEl1 == 0
    ensures var r := EnterAndRun(m, t, postHandlers, exit);
            SameGuestRegisters(r.m.engine.ctx, CaptureGuestRegisters(m.engine.ctx, exit.cpu).(tpidrEl0 := exit.tpidrEl0))
  {
  }

  /** Runs thread `t` for one slice and returns the halt reasons. A reason
      already latched is returned at once without entering guest code;
      otherwise the thread is entered, guest code runs until `exit`, and the
      thread is detached again. `postHandlers` holds the guest addresses that
      have a registered trampoline. */
  function RunThread(m: Machine, t: ThreadId, postHandlers: set<bv64>, exit: GuestExit): (r: RunResult)
    requires m.WellFormed() && t in m.threads && exit.cpu.WellFormed()
    ensures r.m.WellFormed() && r.m.threads.Keys == m.threads.Keys
    ensures r.m.engine.ctx.esrEl1 == 0 && r.m.engine.core == m.engine.core
    // fast path: the pending reasons, exactly once, and no thread touched
    ensures m.engine.ctx.esrEl1 != 0 ==>
      && r.path == NotEntered
      && r.reason == m.engine.ctx.esrEl1
      && r.m.threads == m.threads
      && r.m.engine == m.engine.(ctx := m.engine.ctx.(esrEl1 := 0))
    // entry path: the slice's reasons, then the thread is detached
    ensures m.engine.ctx.esrEl1 == 0 ==> r == EnterAndRun(m, t, postHandlers, exit) && r.path != NotEntered
  {
    var ctx := m.engine.ctx;
    if ctx.esrEl1 != 0 then
      RunResult(ctx.esrEl1, m.(engine := m.engine.(ctx := ctx.(esrEl1 := 0))), NotEntered)
    else
      EnterAndRun(m, t, postHandlers, exit)
  }

  /** After a run the supervisor-call number reads as the one the slice's
      stub stored; a run that stored none, or did not enter guest code,
      leaves the previous number. */
  lemma RunThreadSvcNumber(m: Machine, t: ThreadId, postHandlers: set<bv64>, exit: GuestExit)
    requires m.WellFormed() && t in m.threads && exit.cpu.WellFormed()
    ensures var r := RunThread(m, t, postHandlers, exit);
            GetSvcNumber(r.m.engine.ctx)
              == (if r.path != NotEntered && exit.Halted? && exit.svc.Some? then exit.svc.value else GetSvcNumber(m.engine.ctx))
  {
  }

  /** Single-stepping is left to the interpreter: it always reports
      `StepThread` and changes nothing. */
  function StepThread(m: Machine, t: ThreadId): (r: (bv64, Machine))
    ensures r.0 == StepThreadBit && HasReason(r.0, StepThreadBit) && r.1 == m
  {
    (StepThreadBit, m)
  }

  /** Running from a quiescent engine leaves it quiescent: no slot bound and
      no thread marked running. */
  lemma RunThreadPreservesQuiescence(m: Machine, t: ThreadId, postHandlers: set<bv64>, exit: GuestExit)
    requires m.Quiescent() && t in m.threads && exit.cpu.WellFormed()
    ensures RunThread(m, t, postHandlers, exit).m.Quiescent()
  {
    var r := RunThread(m, t, postHandlers, exit);
    forall u | u in r.m.threads
      ensures !r.m.threads[u].isRunning
    {
      if u != t || m.engine.ctx.esrEl1 != 0 {
        assert r.m.threads[u] == m.threads[u];
      }
    }
  }

  /** Halt reasons are observed exactly once: a second run straight after any
      run enters guest code and reports only the new slice's reasons. */
  lemma HaltReasonsDrainedOnce(m: Machine, t: ThreadId, postHandlers: set<bv64>,
                               exit1: GuestExit, exit2: GuestExit)
    requires m.WellFormed() && t in m.threads && exit1.cpu.WellFormed() && exit2.cpu.WellFormed()
    ensures var r1 := RunThread(m, t, postHandlers, exit1);
            var r2 := RunThread(r1.m, t, postHandlers, exit2);
            r2.path != NotEntered && r2.reason == ExitReason(exit2)
  {
  }

  /** A prefetch abort ends the run with `PrefetchAbort` reported, the
      thread's lock held and the thread no longer marked running. */
  lemma PrefetchAbortTerminatesRun(m: Machine, t: ThreadId, postHandlers: set<bv64>,
                                   cpu: CpuState, tpidr: bv64)
    requires m.WellFormed() && t in m.threads && cpu.WellFormed() && m.engine.ctx.esrEl1 == 0
    ensures var r := RunThread(m, t, postHandlers, PrefetchAborted(cpu, tpidr));
            && HasReason(r.reason, PrefetchAbortBit)
            && r.m.threads[t].lock == Locked
            && !r.m.threads[t].isRunning
            && r.m.engine.ctx.pc == cpu.pc
  {
  }

  // ---------------------------------------------------------------------
  // Thread-parameter lock and the interrupt handshake
  // ---------------------------------------------------------------------

  /** Spin-lock acquisition, one attempt: `None` when the lock is held and
      the caller would keep spinning. */
  function TryAcquire(p: NativeExecutionParameters): (r: Option<NativeExecutionParameters>)
    ensures r.Some? <==> p.lock == Unlocked
    ensures r.Some? ==> r.value == p.(lock := Locked)
  {
    if p.lock == Unlocked then Some(p.(lock := Locked)) else None
  }

  /** Takes thread `t`'s parameter lock before handing it to another engine;
      `None` while another party holds it. */
  function LockThread(m: Machine, t: ThreadId): (r: Option<Machine>)
    requires m.WellFormed() && t in m.threads
    ensures r.Some? <==> m.threads[t].lock == Unlocked
    ensures r.Some? ==> r.value.engine == m.engine && r.value.threads == m.threads[t := m.threads[t].(lock := Locked)]
  {
    match TryAcquire(m.threads[t])
    case Some(p) => Some(m.(threads := m.threads[t := p]))
    case None => None
  }

  /** Hands thread `t` back: its thread-local pointers flow into this
      engine's context, it is detached from the context and unlocked. */
  function UnlockThread(m: Machine, t: ThreadId): (r: Machine)
    requires m.WellFormed() && t in m.threads
    ensures r.WellFormed()
    ensures r.engine.ctx == m.engine.ctx.(tpidrEl0 := m.threads[t].tpidrEl0, tpidrroEl0 := m.threads[t].tpidrroEl0)
    ensures r.threads == m.threads[t := m.threads[t].(nativeContext := None, lock := Unlocked)]
    ensures r.engine.runningThread == m.engine.runningThread
  {
    var p := m.threads[t];
    Machine(m.engine.(ctx := m.engine.ctx.(tpidrEl0 := p.tpidrEl0, tpidrroEl0 := p.tpidrroEl0)),
            m.threads[t := p.(nativeContext := None, lock := Unlocked)])
  }

  /** Locking a thread and unlocking it again only moves its thread-local
      pointers into the engine and detaches it. */
  lemma LockThenUnlockReleases(m: Machine, t: ThreadId)
    requires m.WellFormed() && t in m.threads && m.threads[t].lock == Unlocked
    ensures var l := LockThread(m, t);
            l.Some? && UnlockThread(l.value, t).threads[t] == m.threads[t].(nativeContext := None)
  {
  }

  /** How an interrupt request ended. `SignalSent`: the target was running,
      the lock stays held for the running side to release. `NotRunning`: the
      lock was taken and released at once. `LockBusy`: someone else holds the
      lock and the requester is still spinning. */
  datatype InterruptOutcome = SignalSent | NotRunning | LockBusy

  /** Asks thread `t` to stop: always latches `BreakLoop`, then takes the
      lock; keeps it when the thread is running (a signal goes out), drops it
      otherwise. */
  function SignalInterrupt(m: Machine, t: ThreadId): (r: (Machine, InterruptOutcome))
    requires m.WellFormed() && t in m.threads
    ensures r.0.WellFormed() && r.0.engine.runningThread == m.engine.runningThread
    ensures r.0.engine.ctx == m.engine.ctx.(esrEl1 := Latch(m.engine.ctx.esrEl1, BreakLoopBit))
    ensures HasReason(r.0.engine.ctx.esrEl1, BreakLoopBit)
    ensures HasReason(r.0.engine.ctx.esrEl1, m.engine.ctx.esrEl1)
    ensures r.1 == LockBusy <==> m.threads[t].lock == Locked
    ensures r.1 == SignalSent <==> m.threads[t].lock == Unlocked && m.threads[t].isRunning
    ensures r.1 == SignalSent ==> r.0.threads == m.threads[t := m.threads[t].(lock := Locked)]
    ensures r.1 != SignalSent ==> r.0.threads == m.threads
  {
    var esr := Latch(m.engine.ctx.esrEl1, BreakLoopBit);
    assert HasReason(esr, BreakLoopBit) && HasReason(esr, m.engine.ctx.esrEl1);
    var latched := m.(engine := m.engine.(ctx := m.engine.ctx.(esrEl1 := esr)));
    var p := m.threads[t];
    match p.lock
    case Locked => (latched, LockBusy)
    case Unlocked =>
      if p.isRunning then (latched.(threads := m.threads[t := p.(lock := Locked)]), SignalSent)
      else (latched, NotRunning)
  }

  /** An interrupt that arrives before the thread is scheduled is not lost:
      the next run returns `BreakLoop` without entering guest code. */
  lemma InterruptBeforeRunShortCircuits(m: Machine, t: ThreadId, postHandlers: set<bv64>, exit: GuestExit)
    requires m.WellFormed() && t in m.threads && exit.cpu.WellFormed()
    ensures var (m1, _) := SignalInterrupt(m, t);
            var r := RunThread(m1, t, postHandlers, exit);
            && r.path == NotEntered
            && HasReason(r.reason, BreakLoopBit)
            && r.m.threads == m1.threads
  {
  }

  // ---------------------------------------------------------------------
  // Register accessors
  // ---------------------------------------------------------------------

  /** The kernel thread context read from the guest context: r0..r28, fp =
      x29, lr = x30, and the special registers. */
  function GetContext(ctx: GuestContext): (tc: ThreadContext)
    requires ctx.WellFormed()
    ensures tc.WellFormed()
    ensures forall i :: 0 <= i < NumContextGprs ==> tc.r[i] == ctx.cpuRegisters[i]
    ensures tc.fp == ctx.cpuRegisters[29] && tc.lr == ctx.cpuRegisters[30]
    ensures tc.sp == ctx.sp && tc.pc == ctx.pc && tc.tpidr == ctx.tpidrEl0
    ensures tc.pstate == ctx.pstate && tc.v == ctx.vectorRegisters
    ensures tc.fpcr == ctx.fpcr && tc.fpsr == ctx.fpsr
  {
    ThreadContext(ctx.cpuRegisters[..NumContextGprs], ctx.cpuRegisters[29], ctx.cpuRegisters[30],
                  ctx.sp, ctx.pc, ctx.pstate, ctx.vectorRegisters, ctx.fpcr, ctx.fpsr, ctx.tpidrEl0)
  }

  /** Writes a kernel thread context into the guest context; halt reasons,
      svc, tpidrro_el0 and the host area are untouched. */
  function SetContext(ctx: GuestContext, tc: ThreadContext): (r: GuestContext)
    requires ctx.WellFormed() && tc.WellFormed()
    ensures r.WellFormed()
    ensures forall i :: 0 <= i < NumContextGprs ==> r.cpuRegisters[i] == tc.r[i]
    ensures r.cpuRegisters[29] == tc.fp && r.cpuRegisters[30] == tc.lr
    ensures r.sp == tc.sp && r.pc == tc.pc && r.pstate == tc.pstate && r.vectorRegisters == tc.v
    ensures r.fpcr == tc.fpcr && r.fpsr == tc.fpsr && r.tpidrEl0 == tc.tpidr
    ensures r.esrEl1 == ctx.esrEl1 && r.svc == ctx.svc && r.tpidrroEl0 == ctx.tpidrroEl0 && r.host == ctx.host
  {
    ctx.(cpuRegisters := tc.r + [tc.fp, tc.lr], sp := tc.sp, pc := tc.pc, pstate := tc.pstate,
         vectorRegisters := tc.v, fpcr := tc.fpcr, fpsr := tc.fpsr, tpidrEl0 := tc.tpidr)
  }

  /** Setting a thread context and reading it back reproduces every field. */
  lemma SetThenGetContext(ctx: GuestContext, tc: ThreadContext)
    requires ctx.WellFormed() && tc.WellFormed()
    ensures GetContext(SetContext(ctx, tc)) == tc
  {
    var r := SetContext(ctx, tc);
    assert r.cpuRegisters[..NumContextGprs] == tc.r;
  }

  /** Reading the thread context and writing it back changes nothing. */
  lemma GetThenSetContext(ctx: GuestContext)
    requires ctx.WellFormed()
    ensures SetContext(ctx, GetContext(ctx)) == ctx
  {
    var tc := GetContext(ctx);
    assert tc.r + [tc.fp, tc.lr] == ctx.cpuRegisters;
  }

  /** The supervisor-call number last extracted from guest code. */
  function GetSvcNumber(ctx: GuestContext): bv32 {
    ctx.svc
  }

  /** Reads the eight supervisor-call arguments from x0..x7. */
  method GetSvcArguments(ctx: GuestContext) returns (args: seq<bv64>)
    requires ctx.WellFormed()
    ensures |args| == NumSvcArgs
    ensures forall i :: 0 <= i < NumSvcArgs ==> args[i] == ctx.cpuRegisters[i]
  {
    args := [];
    var i := 0;
    while i < NumSvcArgs
      invariant 0 <= i <= NumSvcArgs && |args| == i
      invariant forall j :: 0 <= j < i ==> args[j] == ctx.cpuRegisters[j]
    {
      args := args + [ctx.cpuRegisters[i]];
      i := i + 1;
    }
  }

  /** Writes the eight supervisor-call results into x0..x7 and nothing else. */
  method SetSvcArguments(ctx: GuestContext, args: seq<bv64>) returns (r: GuestContext)
    requires ctx.WellFormed() && |args| == NumSvcArgs
    ensures r.WellFormed()
    ensures forall i :: 0 <= i < NumSvcArgs ==> r.cpuRegisters[i] == args[i]
    ensures forall i :: NumSvcArgs <= i < NumGprs ==> r.cpuRegisters[i] == ctx.cpuRegisters[i]
    ensures r == ctx.(cpuRegisters := r.cpuRegisters)
  {
    r := ctx;
    var i := 0;
    while i < NumSvcArgs
      invariant 0 <= i <= NumSvcArgs && r.WellFormed()
      invariant forall j :: 0 <= j < i ==> r.cpuRegisters[j] == args[j]
      invariant forall j :: i <= j < NumGprs ==> r.cpuRegisters[j] == ctx.cpuRegisters[j]
      invariant r == ctx.(cpuRegisters := r.cpuRegisters)
    {
      r := r.(cpuRegisters := r.cpuRegisters[i := args[i]]);
      i := i + 1;
    }
  }

  /** Sets the read-only thread pointer of the guest context and nothing else. */
  function SetTpidrroEl0(ctx: GuestContext, value: bv64): (r: GuestContext)
    ensures r.tpidrroEl0 == value && r == ctx.(tpidrroEl0 := r.tpidrroEl0)
  {
    ctx.(tpidrroEl0 := value)
  }
}

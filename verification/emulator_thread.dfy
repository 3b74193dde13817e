/** One emulated hardware thread and the routines that change it in place. */
module EmulatorThread {
  import opened Traps
  import opened ScatterGather
  import Tlb
  import opened TlbProgram

  /** How the data accesses of a thread are translated. */
  function Translator(b: Tlb.Buffer, isStore: bool, flags: Flags, asid: nat, memorySize: nat): nat -> Tlb.Translation {
    (va: nat) => Tlb.Translate(b, Tlb.Access(va, isStore, true, flags.supervisor, asid, flags.mmu), memorySize)
  }

  class HardwareThread {
    const handlers: Handlers
    var pc: nat
    var flags: Flags
    var subcycle: nat
    var scalar: seq<nat>
    var vector: seq<Lanes>
    var saved0: Saved
    var saved1: Saved
    var crashed: bool

    ghost function State(): Thread
      reads this
    {
      Thread(pc, flags, subcycle, scalar, vector, saved0, saved1, crashed)
    }

    constructor (handlers: Handlers, th: Thread)
      ensures State() == th && this.handlers == handlers
    {
      this.handlers := handlers;
      pc, flags, subcycle, scalar, vector := th.pc, th.flags, th.subcycle, th.scalar, th.vector;
      saved0, saved1, crashed := th.saved0, th.saved1, th.crashed;
    }

    method RaiseTrap(t: Trap)
      modifies this
      ensures State() == Traps.RaiseTrap(old(State()), handlers, t)
      ensures if (handlers.stopOnFault || handlers.trapHandler == 0) && t.kind !in [TlbMiss, Interrupt, Syscall] then
                crashed && saved0 == old(saved0) && flags == old(flags) && pc == U32(old(pc) - 4)
              else
                HandlerFinds(old(State()), State(), handlers, t)
    {
      if (handlers.stopOnFault || handlers.trapHandler == 0)
         && t.kind != TlbMiss && t.kind != Interrupt && t.kind != Syscall
      {
        pc := U32(pc - 4);
        crashed := true;
        return;
      }
      HandedOver(State(), handlers, t);
      SaveState(t);
      EnterHandler(t.kind);
    }

    /** Goes on at the handler, with interrupts off and as supervisor. */
    method EnterHandler(kind: TrapType)
      modifies this`pc, this`flags, this`subcycle
      ensures flags == Flags(false, if kind == TlbMiss then false else old(flags.mmu), true) && subcycle == 0
      ensures pc == if kind == TlbMiss then handlers.tlbMissHandler else handlers.trapHandler
    {
      flags := flags.(interrupt := false);
      if kind == TlbMiss {
        pc := handlers.tlbMissHandler;
        flags := flags.(mmu := false);
      } else {
        pc := handlers.trapHandler;
      }
      subcycle := 0;
      flags := flags.(supervisor := true);
    }

    /** Pushes the thread's state on the stack of two. */
    method SaveState(t: Trap)
      modifies this`saved0, this`saved1
      ensures saved1 == old(saved0)
      ensures saved0 == old(saved0).(
                cause := Code(t.kind) + (if t.isStore then 0x10 else 0) + (if t.isData then 0x20 else 0),
                pc := if subcycle != 0 && t.kind == Interrupt then pc else U32(pc - 4), flags := flags,
                subcycle := subcycle, accessAddress := t.address, syscallIndex := t.syscallIndex)
    {
      saved1 := saved0;
      var trapPc := if subcycle != 0 && t.kind == Interrupt then pc else U32(pc - 4);
      var cause := Code(t.kind) + (if t.isStore then 0x10 else 0) + if t.isData then 0x20 else 0;
      saved0 := saved0.(cause := cause, pc := trapPc, flags := flags, subcycle := subcycle,
                        accessAddress := t.address, syscallIndex := t.syscallIndex);
    }

    /** Takes a pending interrupt if interrupts are enabled. */
    method TryToDispatchInterrupt(pending: bool)
      modifies this
      ensures State() == if old(flags.interrupt) && pending then DispatchInterrupt(old(State()), handlers) else old(State())
      ensures old(flags.interrupt) && pending ==>
                && HandlerFinds(old(State()), State(), handlers, Trap(Interrupt, 0, false, false, 0))
                && (old(pc) < TWO32 ==> SavesPlace(saved0, old(State())))
    {
      if flags.interrupt && pending {
        if subcycle == 0 {
          pc := U32(pc + 4);
        }
        RaiseTrap(Trap(Interrupt, 0, false, false, 0));
      }
    }

    method Eret(pending: bool)
      modifies this
      ensures var r := Traps.Eret(old(State()), handlers);
              State() == if old(flags.supervisor) && r.flags.interrupt && pending then DispatchInterrupt(r, handlers) else r
      ensures !old(flags.supervisor) && !handlers.stopOnFault && handlers.trapHandler != 0 ==>
                HandlerFinds(old(State()), State(), handlers, Trap(PrivilegedOp, 0, false, false, 0))
    {
      if !flags.supervisor {
        RaiseTrap(Trap(PrivilegedOp, 0, false, false, 0));
        return;
      }
      flags, pc, subcycle := saved0.flags, saved0.pc, saved0.subcycle;
      saved0 := saved1;
      TryToDispatchInterrupt(pending);
    }

    /** The lane at physical address `pa`; the pc has moved past the instruction. */
    method AccessLane(i: Inst, masked: bool, pa: nat, memory: map<nat, nat>) returns (stored: map<nat, nat>)
      requires RegistersExist(i, State()) && subcycle < NUM_LANES && (masked ==> pa in memory)
      modifies this`vector, this`subcycle, this`pc
      ensures stored == if masked && !i.isLoad then memory[pa := old(vector)[i.destReg][old(subcycle)]] else memory
      ensures vector == if masked && i.isLoad then PutLane(old(vector), i.destReg, old(subcycle), memory[pa]) else old(vector)
      ensures subcycle == (old(subcycle) + 1) % NUM_LANES
      ensures pc == if old(subcycle) + 1 == NUM_LANES then old(pc) else U32(old(pc) - 4)
    {
      stored := memory;
      if masked {
        if i.isLoad {
          vector := vector[i.destReg := vector[i.destReg][subcycle := memory[pa]]];
        } else {
          stored := memory[pa := vector[i.destReg][subcycle]];
        }
      }
      subcycle := subcycle + 1;
      if subcycle == NUM_LANES {
        subcycle := 0;
      } else {
        pc := U32(pc - 4);
      }
    }

    /** The lane at its address, unless that is of a device. `th` is the thread before the fetch. */
    method FinishLane(i: Inst, masked: bool, pa: nat, memory: map<nat, nat>, ghost th: Thread) returns (stored: map<nat, nat>)
      requires RegistersExist(i, th) && th.subcycle < NUM_LANES && th.pc < TWO32 && State() == th.(pc := U32(th.pc + 4))
      requires masked == Masked(i, th.scalar, th.subcycle)
      modifies this
      ensures match LaneAt(Machine(th, memory, []), i, pa)
              case Done(m) => State() == m.thread && stored == m.memory
              case Trapped(t) => false
              case Crashed => State() == old(State()).(crashed := true) && stored == memory
    {
      stored := memory;
      if pa >= Tlb.DEVICE_BASE || (masked && pa !in memory) {
        crashed := true;
        return;
      }
      stored := AccessLane(i, masked, pa, memory);
    }

    /** The physical address of a data access; without one, its trap is raised or the emulator stops. */
    method Locate(va: nat, isStore: bool, dtlb: TlbArray, asid: nat, memorySize: nat) returns (found: bool, pa: nat)
      requires dtlb.Valid()
      modifies this
      ensures var t := Translator(dtlb.Contents(), isStore, old(flags), asid, memorySize)(va);
              if t.Physical? then found && pa == t.address && State() == old(State())
              else if t.OutOfRange? then !found && State() == old(State()).(crashed := true)
              else !found && State() == Traps.RaiseTrap(old(State()), handlers, Trap(FaultOf(t), va, isStore, true, 0))
    {
      var t := dtlb.TranslateAddress(Tlb.Access(va, isStore, true, flags.supervisor, asid, flags.mmu), memorySize);
      if t.Physical? {
        return true, t.address;
      }
      found, pa := false, 0;
      if t.OutOfRange? {
        crashed := true;
      } else {
        RaiseTrap(Trap(FaultOf(t), va, isStore, true, 0));
      }
    }

    /** Fetches and runs one lane of a scatter or gather, translating by the buffer. */
    method ExecuteScatterGather(i: Inst, memory: map<nat, nat>, dtlb: TlbArray, asid: nat, memorySize: nat)
      returns (stored: map<nat, nat>)
      requires RegistersExist(i, State()) && subcycle < NUM_LANES && pc < TWO32 && dtlb.Valid()
      modifies this
      ensures match LaneStep(Machine(old(State()), memory, []), i,
                             Translator(dtlb.Contents(), !i.isLoad, old(flags), asid, memorySize))
              case Done(m) => State() == m.thread && stored == m.memory
              case Trapped(t) => State() == Take(old(State()), handlers, t) && stored == memory
              case Crashed => State() == old(State()).(pc := U32(old(pc) + 4), crashed := true) && stored == memory
    {
      stored := memory;
      ghost var th := State();
      pc := U32(pc + 4);
      var lane := subcycle;
      var masked := !i.hasMask || Bit(scalar[i.maskReg], lane);
      var va := U32(vector[i.ptrReg][lane] + i.offset);
      assert masked == Masked(i, th.scalar, lane) && va == Address(i, th.vector, lane);
      if masked && va % 4 != 0 {
        RaiseTrap(Trap(UnalignedAccess, va, !i.isLoad, true, 0));
        return;
      }
      var found, pa := Locate(va, !i.isLoad, dtlb, asid, memorySize);
      if found {
        stored := FinishLane(i, masked, pa, memory, th);
      }
    }
  }
}

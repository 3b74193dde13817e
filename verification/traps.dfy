/** Raising and returning from traps, with two levels of saved state. */
module Traps {
  const TWO32 := 0x1_0000_0000

  function U32(x: int): nat {
    x % TWO32
  }

  type Lanes = s: seq<nat> | |s| == 16 witness seq(16, _ => 0)

  datatype TrapType =
    | Reset | IllegalInstruction | PrivilegedOp | Interrupt | Syscall | UnalignedAccess
    | PageFault | TlbMiss | IllegalStore | SupervisorAccess | NotExecutable | Breakpoint

  function Code(t: TrapType): nat {
    match t
    case Reset => 0 case IllegalInstruction => 1 case PrivilegedOp => 2 case Interrupt => 3
    case Syscall => 4 case UnalignedAccess => 5 case PageFault => 6 case TlbMiss => 7
    case IllegalStore => 8 case SupervisorAccess => 9 case NotExecutable => 10 case Breakpoint => 11
  }

  datatype Flags = Flags(interrupt: bool, mmu: bool, supervisor: bool)
  datatype Saved = Saved(cause: nat, pc: nat, accessAddress: nat, scratchpad0: nat, scratchpad1: nat,
                         subcycle: nat, syscallIndex: nat, flags: Flags)

  datatype Thread = Thread(pc: nat, flags: Flags, subcycle: nat, scalar: seq<nat>, vector: seq<Lanes>,
                           saved0: Saved, saved1: Saved, crashed: bool)

  datatype Handlers = Handlers(trapHandler: nat, tlbMissHandler: nat, stopOnFault: bool)

  /** What is reported with a trap. */
  datatype Trap = Trap(kind: TrapType, address: nat, isStore: bool, isData: bool, syscallIndex: nat)

  predicate StopsOn(h: Handlers, t: Trap) {
    (h.stopOnFault || h.trapHandler == 0) && t.kind != TlbMiss && t.kind != Interrupt && t.kind != Syscall
  }

  /** The thread's pc has already moved past the instruction, except in an interrupted
      multi-cycle instruction. */
  function RaiseTrap(th: Thread, h: Handlers, t: Trap): Thread {
    if StopsOn(h, t) then th.(pc := U32(th.pc - 4), crashed := true)
    else
      th.(saved1 := th.saved0,
          saved0 := th.saved0.(
            cause := Code(t.kind) + (if t.isStore then 0x10 else 0) + (if t.isData then 0x20 else 0),
            pc := if th.subcycle != 0 && t.kind == Interrupt then th.pc else U32(th.pc - 4),
            flags := th.flags, subcycle := th.subcycle, accessAddress := t.address, syscallIndex := t.syscallIndex),
          flags := Flags(false, if t.kind == TlbMiss then false else th.flags.mmu, true),
          pc := if t.kind == TlbMiss then h.tlbMissHandler else h.trapHandler,
          subcycle := 0)
  }

  /** An interrupt between two instructions. */
  function DispatchInterrupt(th: Thread, h: Handlers): Thread {
    RaiseTrap(if th.subcycle == 0 then th.(pc := U32(th.pc + 4)) else th, h, Trap(Interrupt, 0, false, false, 0))
  }

  function Eret(th: Thread, h: Handlers): Thread {
    if !th.flags.supervisor then RaiseTrap(th, h, Trap(PrivilegedOp, 0, false, false, 0))
    else
      th.(flags := th.saved0.flags, pc := th.saved0.pc, subcycle := th.saved0.subcycle, saved0 := th.saved1)
  }

  /** A trap taken by a thread that stands before an instruction: an interrupt is taken there,
      everything else after the instruction was fetched. */
  function Take(th: Thread, h: Handlers, t: Trap): Thread {
    if t.kind == Interrupt then DispatchInterrupt(th, h) else RaiseTrap(th.(pc := U32(th.pc + 4)), h, t)
  }

  /** What a handler does: compute, which may change all but where to return, or be trapped itself. */
  datatype Action =
    | Compute(pc: nat, flags: Flags, subcycle: nat, scalar: seq<nat>, vector: seq<Lanes>, scratchpad0: nat, scratchpad1: nat)
    | Nested(trap: Trap, body: seq<Action>)

  function Perform(th: Thread, h: Handlers, a: Action): Thread
    decreases a, 1
  {
    match a
    case Compute(pc, flags, subcycle, scalar, vector, s0, s1) =>
      th.(pc := pc, flags := flags, subcycle := subcycle, scalar := scalar, vector := vector,
          saved0 := th.saved0.(scratchpad0 := s0, scratchpad1 := s1))
    case Nested(t, body) => Eret(PerformAll(Take(th, h, t), h, body), h)
  }

  function PerformAll(th: Thread, h: Handlers, body: seq<Action>): Thread
    decreases body, 0
  {
    if body == [] then th else PerformAll(Perform(th, h, body[0]), h, body[1..])
  }

  /** Every trap in the run is handled, and its handler restores the registers before it returns. */
  predicate Restoring(th: Thread, h: Handlers, a: Action)
    decreases a, 1
  {
    match a
    case Compute(_, _, _, _, _, _, _) => true
    case Nested(t, body) =>
      var end := PerformAll(Take(th, h, t), h, body);
      && !StopsOn(h, t) && RestoringAll(Take(th, h, t), h, body)
      && end.flags.supervisor && end.scalar == th.scalar && end.vector == th.vector
  }

  predicate RestoringAll(th: Thread, h: Handlers, body: seq<Action>)
    decreases body, 0
  {
    body == [] || (Restoring(th, h, body[0]) && RestoringAll(Perform(th, h, body[0]), h, body[1..]))
  }

  /** How deep traps are nested: 0 for none. */
  function Depth(a: Action): nat
    decreases a, 1
  {
    match a
    case Compute(_, _, _, _, _, _, _) => 0
    case Nested(_, body) => 1 + DepthAll(body)
  }

  function DepthAll(body: seq<Action>): nat
    decreases body, 0
  {
    if body == [] then 0
    else
      var d, e := Depth(body[0]), DepthAll(body[1..]);
      if d > e then d else e
  }

  // ------------------------------------------------------------- resumption

  /** Where a thread stands. */
  ghost predicate SamePlace(a: Thread, b: Thread) {
    a.pc == b.pc && a.flags == b.flags && a.subcycle == b.subcycle && a.crashed == b.crashed
  }

  ghost predicate SavesPlace(s: Saved, th: Thread) {
    s.pc == th.pc && s.flags == th.flags && s.subcycle == th.subcycle
  }

  lemma TakeSaves(th: Thread, h: Handlers, t: Trap)
    requires th.pc < TWO32 && !StopsOn(h, t)
    ensures var r := Take(th, h, t);
            SavesPlace(r.saved0, th) && r.saved1 == th.saved0 && r.crashed == th.crashed
  {
  }

  /** The kernel's numbers of the traps, which are the low four bits of the cause. */
  const KERNEL_TRAPS: seq<TrapType> :=
    [Reset, IllegalInstruction, PrivilegedOp, Interrupt, Syscall, UnalignedAccess,
     PageFault, TlbMiss, IllegalStore, SupervisorAccess, NotExecutable, Breakpoint]

  /** The cause tells the kernel which trap it was. */
  ghost predicate CauseTells(cause: nat, t: Trap) {
    && cause < 64 && cause % 16 < |KERNEL_TRAPS| && KERNEL_TRAPS[cause % 16] == t.kind
    && (cause / 16 % 2 == 1 <==> t.isStore) && (cause / 32 % 2 == 1 <==> t.isData)
  }

  lemma CauseDecodes(t: Trap)
    ensures CauseTells(Code(t.kind) + (if t.isStore then 0x10 else 0) + (if t.isData then 0x20 else 0), t)
  {
    var code := Code(t.kind);
    var cause := code + (if t.isStore then 0x10 else 0) + (if t.isData then 0x20 else 0);
    assert code < |KERNEL_TRAPS| && KERNEL_TRAPS[code] == t.kind;
    assert cause % 16 == code;
  }

  /** What the handler finds in `r` after the trap `t` came on `th`: a miss of the translation
      buffer goes to its own handler with the translation off, everything else to the common
      one with the translation as it was. */
  ghost predicate HandlerFinds(th: Thread, r: Thread, h: Handlers, t: Trap) {
    && (t.kind == TlbMiss ==> r.pc == h.tlbMissHandler && !r.flags.mmu)
    && (t.kind != TlbMiss ==> r.pc == h.trapHandler && r.flags.mmu == th.flags.mmu)
    && !r.flags.interrupt && r.flags.supervisor && r.subcycle == 0
    && CauseTells(r.saved0.cause, t) && r.saved0.accessAddress == t.address && r.saved0.syscallIndex == t.syscallIndex
    && r.saved1 == th.saved0
    && r.saved0.scratchpad0 == th.saved0.scratchpad0 && r.saved0.scratchpad1 == th.saved0.scratchpad1
    && r.scalar == th.scalar && r.vector == th.vector && r.crashed == th.crashed
  }

  lemma HandedOver(th: Thread, h: Handlers, t: Trap)
    requires !StopsOn(h, t)
    ensures HandlerFinds(th, RaiseTrap(th, h, t), h, t)
  {
    CauseDecodes(t);
  }

  /** Where a trap goes: a fault that nobody handles, or that the emulator is told to stop on,
      leaves the thread on the instruction; any other is handed over to its handler. */
  lemma TrapGoesTo(th: Thread, h: Handlers, t: Trap)
    requires th.pc < TWO32
    ensures var r := Take(th, h, t);
            if (h.stopOnFault || h.trapHandler == 0) && t.kind !in [TlbMiss, Interrupt, Syscall] then
              r == th.(crashed := true)
            else
              SavesPlace(r.saved0, th)
              && HandlerFinds(th, r, h, if t.kind == Interrupt then Trap(Interrupt, 0, false, false, 0) else t)
  {
    if t.kind == Interrupt {
      HandedOver(if th.subcycle == 0 then th.(pc := U32(th.pc + 4)) else th, h, Trap(Interrupt, 0, false, false, 0));
    } else if !StopsOn(h, t) {
      HandedOver(th.(pc := U32(th.pc + 4)), h, t);
    }
  }

  /** A body without traps leaves what was saved alone, but for the scratchpads. */
  lemma {:induction false} QuietBody(th: Thread, h: Handlers, body: seq<Action>)
    requires DepthAll(body) == 0
    ensures var r := PerformAll(th, h, body);
            r.saved1 == th.saved1 && r.crashed == th.crashed
            && r.saved0 == th.saved0.(scratchpad0 := r.saved0.scratchpad0, scratchpad1 := r.saved0.scratchpad1)
    decreases body
  {
    if body != [] {
      assert Depth(body[0]) == 0;
      QuietBody(Perform(th, h, body[0]), h, body[1..]);
    }
  }

  /** A trap whose handler is not trapped resumes exactly, and gives back the outer saved state. */
  lemma DepthOneResumes(th: Thread, h: Handlers, t: Trap, body: seq<Action>)
    requires th.pc < TWO32 && DepthAll(body) == 0 && Restoring(th, h, Nested(t, body))
    ensures var r := Perform(th, h, Nested(t, body));
            SamePlace(r, th) && r.scalar == th.scalar && r.vector == th.vector
            && r.saved0 == th.saved0 && r.saved1 == th.saved0
  {
    TakeSaves(th, h, t);
    QuietBody(Take(th, h, t), h, body);
  }

  /** pc values stay within 32 bits. */
  ghost predicate Narrow(a: Action)
    decreases a, 1
  {
    match a
    case Compute(pc, _, _, _, _, _, _) => pc < TWO32
    case Nested(_, body) => NarrowAll(body)
  }

  ghost predicate NarrowAll(body: seq<Action>)
    decreases body, 0
  {
    body == [] || (Narrow(body[0]) && NarrowAll(body[1..]))
  }

  /** A body whose traps are not trapped again keeps the first level of saved state. */
  lemma {:induction false} OneLevelBody(th: Thread, h: Handlers, body: seq<Action>)
    requires th.pc < TWO32 && DepthAll(body) <= 1 && RestoringAll(th, h, body) && NarrowAll(body)
    ensures var r := PerformAll(th, h, body);
            r.crashed == th.crashed
            && r.saved0 == th.saved0.(scratchpad0 := r.saved0.scratchpad0, scratchpad1 := r.saved0.scratchpad1)
    decreases body
  {
    if body != [] {
      if body[0].Nested? {
        DepthOneResumes(th, h, body[0].trap, body[0].body);
      }
      OneLevelBody(Perform(th, h, body[0]), h, body[1..]);
    }
  }

  /** Any trap, trapped at most once more inside its handler, resumes at the exact pc, flags,
      subcycle and registers. */
  lemma DepthTwoResumes(th: Thread, h: Handlers, t: Trap, body: seq<Action>)
    requires th.pc < TWO32 && h.trapHandler < TWO32 && h.tlbMissHandler < TWO32
    requires Depth(Nested(t, body)) <= 2 && Restoring(th, h, Nested(t, body)) && NarrowAll(body)
    ensures var r := Perform(th, h, Nested(t, body));
            SamePlace(r, th) && r.scalar == th.scalar && r.vector == th.vector
  {
    TakeSaves(th, h, t);
    OneLevelBody(Take(th, h, t), h, body);
  }

  // ---------------------------------------------------- deeper than two levels

  datatype Place = Place(pc: nat, flags: Flags, subcycle: nat)

  function PlaceOf(th: Thread): Place {
    Place(th.pc, th.flags, th.subcycle)
  }

  function SavedPlace(s: Saved): Place {
    Place(s.pc, s.flags, s.subcycle)
  }

  /** Where the return from a handler leads, if it led to `saved` when the body began. A trap that
      is not trapped itself leaves this alone. Any other leaves the place to which it returns. */
  function Landing(saved: Place, th: Thread, h: Handlers, body: seq<Action>): Place
    decreases body
  {
    if body == [] then saved
    else
      var a := body[0];
      Landing(if Depth(a) < 2 then saved else Landing(PlaceOf(th), Take(th, h, a.trap), h, a.body),
              Perform(th, h, a), h, body[1..])
  }

  lemma {:induction false} ShallowLanding(saved: Place, th: Thread, h: Handlers, body: seq<Action>)
    requires DepthAll(body) <= 1
    ensures Landing(saved, th, h, body) == saved
    decreases body
  {
    if body != [] {
      ShallowLanding(saved, Perform(th, h, body[0]), h, body[1..]);
    }
  }

  /** What a body leaves saved, however deep its traps are nested. */
  lemma {:induction false} BodyLands(th: Thread, h: Handlers, body: seq<Action>)
    requires th.pc < TWO32 && th.saved0.pc < TWO32 && h.trapHandler < TWO32 && h.tlbMissHandler < TWO32
    requires RestoringAll(th, h, body) && NarrowAll(body)
    ensures var r := PerformAll(th, h, body);
            && r.pc < TWO32 && r.saved0.pc < TWO32 && r.crashed == th.crashed
            && SavedPlace(r.saved0) == Landing(SavedPlace(th.saved0), th, h, body)
            && SavedPlace(r.saved1) == if DepthAll(body) == 0 then SavedPlace(th.saved1) else SavedPlace(r.saved0)
    decreases body
  {
    if body != [] {
      var a := body[0];
      if a.Nested? {
        TakeSaves(th, h, a.trap);
        BodyLands(Take(th, h, a.trap), h, a.body);
      }
      var next := Perform(th, h, a);
      BodyLands(next, h, body[1..]);
      if DepthAll(body[1..]) == 0 {
        ShallowLanding(SavedPlace(next.saved0), next, h, body[1..]);
      }
    }
  }

  /** Where a trap resumes, for handlers and nests of any kind; and so it resumes where it was
      taken exactly if that place is where it lands. */
  lemma TrapLands(th: Thread, h: Handlers, t: Trap, body: seq<Action>)
    requires th.pc < TWO32 && h.trapHandler < TWO32 && h.tlbMissHandler < TWO32
    requires Restoring(th, h, Nested(t, body)) && NarrowAll(body)
    ensures var r := Perform(th, h, Nested(t, body));
            && PlaceOf(r) == Landing(PlaceOf(th), Take(th, h, t), h, body)
            && (SamePlace(r, th) <==> Landing(PlaceOf(th), Take(th, h, t), h, body) == PlaceOf(th))
            && r.scalar == th.scalar && r.vector == th.vector
  {
    TakeSaves(th, h, t);
    BodyLands(Take(th, h, t), h, body);
  }

  lemma {:induction false} LastNestDecides(saved: Place, th: Thread, h: Handlers, body: seq<Action>, k: nat)
    requires k < |body| && Depth(body[k]) == 2 && DepthAll(body[k + 1..]) <= 1
    ensures Landing(saved, th, h, body) == PlaceOf(PerformAll(th, h, body[..k]))
    decreases k
  {
    var next := Perform(th, h, body[0]);
    if k == 0 {
      ShallowLanding(PlaceOf(th), Take(th, h, body[0].trap), h, body[0].body);
      ShallowLanding(PlaceOf(th), next, h, body[1..]);
    } else {
      var saved' := if Depth(body[0]) < 2 then saved else Landing(PlaceOf(th), Take(th, h, body[0].trap), h, body[0].body);
      assert body[k + 1..] == body[1..][k..];
      LastNestDecides(saved', next, h, body[1..], k - 1);
      assert body[..k][1..] == body[1..][..k - 1];
    }
  }

  /** A third level is one too many. If a trap inside the first handler is itself trapped, the
      thread comes back to where that handler was when it took the last such trap, and so to
      its own place exactly if the handler was at the same one. */
  lemma DepthThreeLosesPlace(th: Thread, h: Handlers, t: Trap, body: seq<Action>, k: nat)
    requires th.pc < TWO32 && h.trapHandler < TWO32 && h.tlbMissHandler < TWO32
    requires Restoring(th, h, Nested(t, body)) && NarrowAll(body)
    requires k < |body| && Depth(body[k]) == 2 && DepthAll(body[k + 1..]) <= 1
    ensures var r, at := Perform(th, h, Nested(t, body)), PerformAll(Take(th, h, t), h, body[..k]);
            PlaceOf(r) == PlaceOf(at) && (SamePlace(r, th) <==> PlaceOf(at) == PlaceOf(th))
  {
    TrapLands(th, h, t, body);
    LastNestDecides(PlaceOf(th), Take(th, h, t), h, body, k);
  }

  lemma EmptyNest(th: Thread, h: Handlers, t: Trap)
    requires th.pc < TWO32 && !StopsOn(h, t)
    ensures var r := Perform(th, h, Nested(t, []));
            SamePlace(r, th) && r.saved0 == th.saved0 && r.saved1 == th.saved0
  {
    var a := Take(th, h, t);
    assert PerformAll(a, h, []) == a && RestoringAll(a, h, []);
    assert a.flags.supervisor && a.scalar == th.scalar && a.vector == th.vector;
    assert Restoring(th, h, Nested(t, []));
    DepthOneResumes(th, h, t, []);
  }

  lemma SingleBody(th: Thread, h: Handlers, a: Action)
    ensures PerformAll(th, h, [a]) == Perform(th, h, a)
  {
    assert PerformAll(th, h, [a]) == PerformAll(Perform(th, h, a), h, []);
  }

  /** Handlers that do nothing lose the place: a user thread never sees its own code again. */
  lemma EmptyHandlersLosePlace(th: Thread, h: Handlers, t: Trap, u: Trap, v: Trap)
    requires th.pc < TWO32 && h.trapHandler < TWO32 && h.tlbMissHandler < TWO32
    requires !StopsOn(h, t) && !StopsOn(h, u) && !StopsOn(h, v)
    ensures var r := Perform(th, h, Nested(t, [Nested(u, [Nested(v, [])])]));
            SamePlace(r, Take(th, h, t)) && (!th.flags.supervisor ==> !SamePlace(r, th))
  {
    var a := Take(th, h, t);
    var b := Take(a, h, u);
    TakeSaves(th, h, t);
    TakeSaves(a, h, u);
    EmptyNest(b, h, v);
    SingleBody(b, h, Nested(v, []));
    var b' := Perform(b, h, Nested(v, []));
    var a' := Perform(a, h, Nested(u, [Nested(v, [])]));
    assert a' == Eret(b', h);
    SingleBody(a, h, Nested(u, [Nested(v, [])]));
    assert Perform(th, h, Nested(t, [Nested(u, [Nested(v, [])])])) == Eret(a', h);
  }
}

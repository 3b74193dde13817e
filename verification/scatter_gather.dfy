/** Scatter and gather, which run one lane per step and can be trapped between lanes. */
module ScatterGather {
  import opened Traps
  import Tlb

  const NUM_LANES := 16

  /** `maskReg` is absent when all lanes take part. */
  datatype Inst = Inst(isLoad: bool, ptrReg: nat, hasMask: bool, maskReg: nat, destReg: nat, offset: int)

  /** Memory by word address, where virtual addresses really are, and the lanes that accessed it. */
  datatype Machine = Machine(thread: Thread, memory: map<nat, nat>, acts: seq<nat>)

  function Bit(w: nat, k: nat): bool {
    if k == 0 then w % 2 == 1 else Bit(w / 2, k - 1)
  }

  function Masked(i: Inst, scalar: seq<nat>, lane: nat): bool
    requires i.hasMask ==> i.maskReg < |scalar|
  {
    !i.hasMask || Bit(scalar[i.maskReg], lane)
  }

  function Address(i: Inst, vector: seq<Lanes>, lane: nat): nat
    requires i.ptrReg < |vector| && lane < NUM_LANES
  {
    U32(vector[i.ptrReg][lane] + i.offset)
  }

  predicate RegistersExist(i: Inst, th: Thread) {
    (i.hasMask ==> i.maskReg < |th.scalar|) && i.ptrReg < |th.vector| && i.destReg < |th.vector|
  }

  datatype Outcome = Done(m: Machine) | Trapped(t: Trap) | Crashed

  /** The trap of an access that has no physical address. */
  function FaultOf(t: Tlb.Translation): (kind: TrapType)
    requires !t.Physical? && !t.OutOfRange?
  {
    match t
    case Miss => TlbMiss
    case PageFault => PageFault
    case SupervisorAccess => SupervisorAccess
    case NotExecutable => NotExecutable
    case IllegalStore => IllegalStore
  }

  /** One step of the instruction at the thread's pc. Even a lane that is masked off is
      translated. */
  function LaneStep(m: Machine, i: Inst, translate: nat -> Tlb.Translation): Outcome
    requires RegistersExist(i, m.thread) && m.thread.subcycle < NUM_LANES
  {
    var th := m.thread;
    var lane := th.subcycle;
    var va := Address(i, th.vector, lane);
    var masked := Masked(i, th.scalar, lane);
    if masked && va % 4 != 0 then Trapped(Trap(UnalignedAccess, va, !i.isLoad, true, 0))
    else if translate(va).OutOfRange? then Crashed
    else if !translate(va).Physical? then Trapped(Trap(FaultOf(translate(va)), va, !i.isLoad, true, 0))
    else LaneAt(m, i, translate(va).address)
  }

  /** The lane at its physical address. */
  function LaneAt(m: Machine, i: Inst, pa: nat): Outcome
    requires RegistersExist(i, m.thread) && m.thread.subcycle < NUM_LANES
  {
    var th := m.thread;
    var lane := th.subcycle;
    var masked := Masked(i, th.scalar, lane);
    if pa >= Tlb.DEVICE_BASE || (masked && pa !in m.memory) then Crashed
    else
      var next := th.(subcycle := (lane + 1) % NUM_LANES,
                      pc := if lane + 1 == NUM_LANES then U32(th.pc + 4) else th.pc);
      Done(if !masked then m.(thread := next)
           else if i.isLoad then
             Machine(next.(vector := PutLane(th.vector, i.destReg, lane, m.memory[pa])), m.memory, m.acts + [lane])
           else
             Machine(next, m.memory[pa := th.vector[i.destReg][lane]], m.acts + [lane]))
  }

  function PutLane(vector: seq<Lanes>, reg: nat, lane: nat, value: nat): seq<Lanes>
    requires reg < |vector| && lane < NUM_LANES
  {
    vector[reg := vector[reg][lane := value]]
  }

  // ------------------------------------------------------ the whole at once

  /** The masked lanes below `k`, in order. */
  function LanesBelow(i: Inst, scalar: seq<nat>, k: nat): seq<nat>
    requires i.hasMask ==> i.maskReg < |scalar|
  {
    if k == 0 then [] else LanesBelow(i, scalar, k - 1) + if Masked(i, scalar, k - 1) then [k - 1] else []
  }

  /** A gather of the lanes below `k`, with the addresses in the pointer register as given. */
  function Gathered(i: Inst, scalar: seq<nat>, vector: seq<Lanes>, memory: map<nat, nat>, place: nat -> nat, k: nat): Lanes
    requires (i.hasMask ==> i.maskReg < |scalar|) && i.ptrReg < |vector| && i.destReg < |vector| && k <= NUM_LANES
  {
    seq(NUM_LANES, lane requires 0 <= lane < NUM_LANES =>
      if lane < k && Masked(i, scalar, lane) && place(Address(i, vector, lane)) in memory
      then memory[place(Address(i, vector, lane))] else vector[i.destReg][lane])
  }

  /** A scatter of the lanes below `k`, lower lanes first. */
  function Scattered(i: Inst, scalar: seq<nat>, vector: seq<Lanes>, memory: map<nat, nat>, place: nat -> nat, k: nat): map<nat, nat>
    requires (i.hasMask ==> i.maskReg < |scalar|) && i.ptrReg < |vector| && i.destReg < |vector| && k <= NUM_LANES
  {
    if k == 0 then memory
    else
      var before := Scattered(i, scalar, vector, memory, place, k - 1);
      if Masked(i, scalar, k - 1) then before[place(Address(i, vector, k - 1)) := vector[i.destReg][k - 1]] else before
  }

  /** The machine after the lanes below `k` of an instruction that was begun in `m`. */
  function Partial(m: Machine, i: Inst, place: nat -> nat, k: nat): Machine
    requires RegistersExist(i, m.thread) && k <= NUM_LANES
  {
    var th := m.thread;
    var moved := th.(subcycle := k % NUM_LANES, pc := if k == NUM_LANES then U32(th.pc + 4) else th.pc);
    Machine(
      if i.isLoad then
        moved.(vector := th.vector[i.destReg := Gathered(i, th.scalar, th.vector, m.memory, place, k)])
      else moved,
      if i.isLoad then m.memory else Scattered(i, th.scalar, th.vector, m.memory, place, k),
      m.acts + LanesBelow(i, th.scalar, k))
  }

  // ------------------------------------------------------------------- runs

  /** A run of the instruction: its lanes, and traps that come between or on them, with what
      their handlers write to memory. */
  datatype Item = Lane | Trapping(trap: Trap, body: seq<Action>, writes: map<nat, nat>)

  function WritesAfter(w: map<nat, nat>, item: Item): map<nat, nat> {
    if item.Trapping? then w + item.writes else w
  }

  /** The memory that handlers write in a run, where they wrote `w` before it. */
  function WritesOf(w: map<nat, nat>, run: seq<Item>): map<nat, nat>
    decreases |run|
  {
    if run == [] then w else WritesOf(WritesAfter(w, run[0]), run[1..])
  }

  /** The words that the instruction loads or stores. */
  function Touched(i: Inst, scalar: seq<nat>, vector: seq<Lanes>, place: nat -> nat): set<nat>
    requires (i.hasMask ==> i.maskReg < |scalar|) && i.ptrReg < |vector|
  {
    set lane | 0 <= lane < NUM_LANES && Masked(i, scalar, lane) :: place(Address(i, vector, lane))
  }

  predicate AvoidsTouched(item: Item, touched: set<nat>) {
    item.Trapping? ==> item.writes.Keys !! touched
  }

  function CountLanes(run: seq<Item>): nat {
    if run == [] then 0 else (if run[0].Lane? then 1 else 0) + CountLanes(run[1..])
  }

  /** Where pages are, once they are in the translation buffer. */
  function Present(place: nat -> nat): nat -> Tlb.Translation {
    (va: nat) => Tlb.Physical(place(va))
  }

  function Exec(m: Machine, i: Inst, place: nat -> nat, h: Handlers, item: Item): Outcome
    requires RegistersExist(i, m.thread) && m.thread.subcycle < NUM_LANES
  {
    match item
    case Lane => LaneStep(m, i, Present(place))
    case Trapping(t, body, writes) =>
      Done(m.(thread := Perform(m.thread, h, Nested(t, body)), memory := m.memory + writes))
  }

  /** The item completes: a lane finds its memory; a trap is handled, nested at most two deep,
      by handlers that restore the registers and write to memory that is there. */
  ghost predicate ItemOk(m: Machine, i: Inst, place: nat -> nat, h: Handlers, item: Item) {
    && RegistersExist(i, m.thread) && m.thread.subcycle < NUM_LANES
    && (item.Trapping? ==>
          && Depth(Nested(item.trap, item.body)) <= 2 && NarrowAll(item.body)
          && Restoring(m.thread, h, Nested(item.trap, item.body)) && item.writes.Keys <= m.memory.Keys)
    && Exec(m, i, place, h, item).Done?
  }

  ghost predicate Completes(m: Machine, i: Inst, place: nat -> nat, h: Handlers, run: seq<Item>)
    decreases |run|
  {
    run == [] || (ItemOk(m, i, place, h, run[0]) && Completes(Next(m, i, place, h, run[0]), i, place, h, run[1..]))
  }

  ghost function Next(m: Machine, i: Inst, place: nat -> nat, h: Handlers, item: Item): Machine
    requires ItemOk(m, i, place, h, item)
  {
    Exec(m, i, place, h, item).m
  }

  ghost function ExecAll(m: Machine, i: Inst, place: nat -> nat, h: Handlers, run: seq<Item>): Machine
    requires Completes(m, i, place, h, run)
    decreases |run|
  {
    if run == [] then m else ExecAll(Next(m, i, place, h, run[0]), i, place, h, run[1..])
  }

  /** The machine shows the same registers, place, memory and accesses; only what is saved for
      returning from traps may differ. */
  ghost predicate Shows(m: Machine, n: Machine) {
    && SamePlace(m.thread, n.thread) && m.thread.scalar == n.thread.scalar && m.thread.vector == n.thread.vector
    && m.memory == n.memory && m.acts == n.acts
  }

  lemma GatherLane(m: Machine, i: Inst, place: nat -> nat, k: nat)
    requires RegistersExist(i, m.thread) && k < NUM_LANES && i.isLoad
    requires var va := place(Address(i, m.thread.vector, k)); Masked(i, m.thread.scalar, k) ==> va in m.memory
    ensures var before, after := Partial(m, i, place, k).thread.vector, Partial(m, i, place, k + 1).thread.vector;
            && Address(i, before, k) == Address(i, m.thread.vector, k)
            && after == if Masked(i, m.thread.scalar, k) then
                 PutLane(before, i.destReg, k, m.memory[place(Address(i, m.thread.vector, k))]) else before
  {
    var v := m.thread.vector;
    var g, g' := Gathered(i, m.thread.scalar, v, m.memory, place, k), Gathered(i, m.thread.scalar, v, m.memory, place, k + 1);
    if Masked(i, m.thread.scalar, k) {
      assert g' == g[k := m.memory[place(Address(i, v, k))]];
    } else {
      assert g' == g;
    }
  }

  /** One more lane takes the machine from `k` lanes done to `k + 1`, even when the gather
      overwrites its own pointers. */
  lemma LaneAdvances(m: Machine, n: Machine, i: Inst, place: nat -> nat, k: nat)
    requires RegistersExist(i, m.thread) && k < NUM_LANES && Shows(n, Partial(m, i, place, k))
    requires LaneStep(n, i, Present(place)).Done?
    requires i.isLoad || forall w :: w in m.memory <==> w in n.memory
    ensures Shows(LaneStep(n, i, Present(place)).m, Partial(m, i, place, k + 1))
  {
    if i.isLoad {
      assert Address(i, n.thread.vector, k) == Address(i, m.thread.vector, k);
      GatherLane(m, i, place, k);
    }
    assert m.acts + LanesBelow(i, m.thread.scalar, k) + [k] == m.acts + (LanesBelow(i, m.thread.scalar, k) + [k]);
    assert LanesBelow(i, m.thread.scalar, k) + [] == LanesBelow(i, m.thread.scalar, k);
  }

  lemma TrapReturns(n: Machine, p: Machine, i: Inst, place: nat -> nat, h: Handlers, item: Item)
    requires n.thread.pc < TWO32 && h.trapHandler < TWO32 && h.tlbMissHandler < TWO32 && item.Trapping?
    requires Depth(Nested(item.trap, item.body)) <= 2 && NarrowAll(item.body)
    requires Restoring(n.thread, h, Nested(item.trap, item.body))
    requires RegistersExist(i, n.thread) && n.thread.subcycle < NUM_LANES && Shows(n, p)
    ensures var r := Exec(n, i, place, h, item);
            r.Done? && Shows(r.m, p.(memory := p.memory + item.writes)) && r.m.memory == n.memory + item.writes
  {
    DepthTwoResumes(n.thread, h, item.trap, item.body);
  }

  lemma LaneKeepsMemoryMap(n: Machine, i: Inst, place: nat -> nat)
    requires RegistersExist(i, n.thread) && n.thread.subcycle < NUM_LANES && LaneStep(n, i, Present(place)).Done?
    ensures LaneStep(n, i, Present(place)).m.memory.Keys == n.memory.Keys
  {
  }

  /** `n` has done the lanes below `k` of the instruction that was begun in `m`. */
  ghost predicate Underway(m: Machine, n: Machine, i: Inst, place: nat -> nat, k: nat) {
    && RegistersExist(i, m.thread) && k <= NUM_LANES && m.thread.pc < TWO32
    && Shows(n, Partial(m, i, place, k)) && n.memory.Keys == m.memory.Keys
  }

  /** The words of the masked lanes below `k` are there. */
  ghost predicate FoundBelow(m: Machine, i: Inst, place: nat -> nat, k: nat)
    requires RegistersExist(i, m.thread) && k <= NUM_LANES
  {
    forall lane :: 0 <= lane < k && Masked(i, m.thread.scalar, lane) ==> place(Address(i, m.thread.vector, lane)) in m.memory
  }

  lemma {:induction false} ScatteredBeside(i: Inst, scalar: seq<nat>, vector: seq<Lanes>, memory: map<nat, nat>, w: map<nat, nat>,
                                           place: nat -> nat, k: nat)
    requires (i.hasMask ==> i.maskReg < |scalar|) && i.ptrReg < |vector| && i.destReg < |vector| && k <= NUM_LANES
    requires w.Keys !! Touched(i, scalar, vector, place)
    ensures Scattered(i, scalar, vector, memory + w, place, k) == Scattered(i, scalar, vector, memory, place, k) + w
    decreases k
  {
    if k > 0 {
      ScatteredBeside(i, scalar, vector, memory, w, place, k - 1);
      if Masked(i, scalar, k - 1) {
        assert place(Address(i, vector, k - 1)) in Touched(i, scalar, vector, place);
      }
    }
  }

  /** What handlers write beside the instruction's words does not change what it does. */
  lemma PartialBeside(m: Machine, i: Inst, place: nat -> nat, k: nat, w: map<nat, nat>)
    requires RegistersExist(i, m.thread) && k <= NUM_LANES && w.Keys <= m.memory.Keys
    requires w.Keys !! Touched(i, m.thread.scalar, m.thread.vector, place)
    ensures var p := Partial(m, i, place, k);
            Partial(m.(memory := m.memory + w), i, place, k) == p.(memory := p.memory + w)
  {
    var scalar, vector := m.thread.scalar, m.thread.vector;
    if i.isLoad {
      var g, g' := Gathered(i, scalar, vector, m.memory, place, k), Gathered(i, scalar, vector, m.memory + w, place, k);
      forall lane | 0 <= lane < NUM_LANES ensures g[lane] == g'[lane] {
        if Masked(i, scalar, lane) {
          assert place(Address(i, vector, lane)) in Touched(i, scalar, vector, place);
        }
      }
      assert g == g';
    } else {
      ScatteredBeside(i, scalar, vector, m.memory, w, place, k);
    }
  }

  /** `n` has done the lanes below `k` of the instruction that was begun in `m`, and handlers
      have written `w`. */
  ghost predicate Begun(m: Machine, n: Machine, i: Inst, place: nat -> nat, w: map<nat, nat>, k: nat) {
    w.Keys <= m.memory.Keys && Underway(m.(memory := m.memory + w), n, i, place, k)
  }

  lemma ItemAdvances(m: Machine, n: Machine, i: Inst, place: nat -> nat, h: Handlers, item: Item, w: map<nat, nat>, k: nat)
    requires Begun(m, n, i, place, w, k) && h.trapHandler < TWO32 && h.tlbMissHandler < TWO32
    requires ItemOk(n, i, place, h, item) && (item.Lane? ==> k < NUM_LANES)
    requires AvoidsTouched(item, Touched(i, m.thread.scalar, m.thread.vector, place))
    ensures Begun(m, Next(n, i, place, h, item), i, place, WritesAfter(w, item), if item.Lane? then k + 1 else k)
  {
    var base := m.(memory := m.memory + w);
    if item.Lane? {
      LaneAdvances(base, n, i, place, k);
      LaneKeepsMemoryMap(n, i, place);
    } else {
      TrapReturns(n, Partial(base, i, place, k), i, place, h, item);
      PartialBeside(base, i, place, k, item.writes);
      assert base.memory + item.writes == m.memory + (w + item.writes);
    }
  }

  lemma LaneIsFound(m: Machine, n: Machine, i: Inst, place: nat -> nat, w: map<nat, nat>, k: nat)
    requires Begun(m, n, i, place, w, k) && k < NUM_LANES && LaneStep(n, i, Present(place)).Done?
    requires FoundBelow(m, i, place, k)
    ensures FoundBelow(m, i, place, k + 1)
  {
    assert Address(i, n.thread.vector, k) == Address(i, m.thread.vector, k);
    assert Masked(i, m.thread.scalar, k) ==> place(Address(i, m.thread.vector, k)) in m.memory;
  }

  ghost predicate AllAvoid(run: seq<Item>, touched: set<nat>) {
    forall j :: 0 <= j < |run| ==> AvoidsTouched(run[j], touched)
  }

  /** What every item keeps, counting lanes and collecting writes, every run keeps. */
  lemma {:induction false} RunInduction(n: Machine, i: Inst, place: nat -> nat, h: Handlers, run: seq<Item>, touched: set<nat>,
                                        w: map<nat, nat>, k: nat, holds: (Machine, map<nat, nat>, nat) -> bool)
    requires forall a: Machine, v: map<nat, nat>, j: nat, item: Item
               | holds(a, v, j) && ItemOk(a, i, place, h, item) && (item.Lane? ==> j < NUM_LANES) && AvoidsTouched(item, touched) ::
               holds(Next(a, i, place, h, item), WritesAfter(v, item), if item.Lane? then j + 1 else j)
    requires holds(n, w, k) && k + CountLanes(run) <= NUM_LANES && Completes(n, i, place, h, run) && AllAvoid(run, touched)
    ensures holds(ExecAll(n, i, place, h, run), WritesOf(w, run), k + CountLanes(run))
    decreases |run|
  {
    if run != [] {
      RunInduction(Next(n, i, place, h, run[0]), i, place, h, run[1..], touched,
                   WritesAfter(w, run[0]), if run[0].Lane? then k + 1 else k, holds);
    }
  }

  /** Underway, with the words of the masked lanes found so far. */
  ghost predicate Reached(m: Machine, n: Machine, i: Inst, place: nat -> nat, w: map<nat, nat>, k: nat) {
    Begun(m, n, i, place, w, k) && FoundBelow(m, i, place, k)
  }

  lemma ItemReaches(m: Machine, n: Machine, i: Inst, place: nat -> nat, h: Handlers, item: Item, w: map<nat, nat>, k: nat)
    requires Reached(m, n, i, place, w, k) && h.trapHandler < TWO32 && h.tlbMissHandler < TWO32
    requires ItemOk(n, i, place, h, item) && (item.Lane? ==> k < NUM_LANES)
    requires AvoidsTouched(item, Touched(i, m.thread.scalar, m.thread.vector, place))
    ensures Reached(m, Next(n, i, place, h, item), i, place, WritesAfter(w, item), if item.Lane? then k + 1 else k)
  {
    assert FoundBelow(m, i, place, if item.Lane? then k + 1 else k) by {
      if item.Lane? {
        LaneIsFound(m, n, i, place, w, k);
      }
    }
    ItemAdvances(m, n, i, place, h, item, w, k);
  }

  lemma RunAdvances(m: Machine, i: Inst, place: nat -> nat, h: Handlers, run: seq<Item>)
    requires Begun(m, m, i, place, map[], 0) && h.trapHandler < TWO32 && h.tlbMissHandler < TWO32
    requires CountLanes(run) <= NUM_LANES && Completes(m, i, place, h, run)
    requires AllAvoid(run, Touched(i, m.thread.scalar, m.thread.vector, place))
    ensures Reached(m, ExecAll(m, i, place, h, run), i, place, WritesOf(map[], run), CountLanes(run))
  {
    var touched := Touched(i, m.thread.scalar, m.thread.vector, place);
    var holds := (n: Machine, w: map<nat, nat>, k: nat) => Reached(m, n, i, place, w, k);
    forall a: Machine, v: map<nat, nat>, j: nat, item: Item
      | holds(a, v, j) && ItemOk(a, i, place, h, item) && (item.Lane? ==> j < NUM_LANES) && AvoidsTouched(item, touched)
      ensures holds(Next(a, i, place, h, item), WritesAfter(v, item), if item.Lane? then j + 1 else j)
    {
      ItemReaches(m, a, i, place, h, item, v, j);
    }
    RunInduction(m, i, place, h, run, touched, map[], 0, holds);
    assert holds(ExecAll(m, i, place, h, run), WritesOf(map[], run), CountLanes(run));
  }

  /** Sixteen lane steps, with any traps between or on them, are the whole instruction: every
      masked lane acts exactly once, in order, and nothing else changes but what the handlers
      write to other words. */
  lemma SixteenLanesAreAtomic(m: Machine, i: Inst, place: nat -> nat, h: Handlers, run: seq<Item>)
    requires RegistersExist(i, m.thread) && m.thread.subcycle == 0 && CountLanes(run) == NUM_LANES
    requires m.thread.pc < TWO32 && h.trapHandler < TWO32 && h.tlbMissHandler < TWO32
    requires Completes(m, i, place, h, run)
    requires AllAvoid(run, Touched(i, m.thread.scalar, m.thread.vector, place))
    ensures Shows(ExecAll(m, i, place, h, run), Partial(m.(memory := m.memory + WritesOf(map[], run)), i, place, NUM_LANES))
    ensures FoundBelow(m, i, place, NUM_LANES)
    ensures WritesOf(map[], run).Keys <= m.memory.Keys
  {
    if i.isLoad {
      assert Gathered(i, m.thread.scalar, m.thread.vector, m.memory, place, 0) == m.thread.vector[i.destReg];
    }
    assert m.acts + [] == m.acts && m.memory + map[] == m.memory;
    assert Begun(m, m, i, place, map[], 0);
    RunAdvances(m, i, place, h, run);
  }
}

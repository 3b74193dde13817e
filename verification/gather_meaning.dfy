/** What a whole scatter or gather means, by the digits of its mask and its pointers. */
module GatherMeaning {
  import opened Traps
  import opened ScatterGather
  import Tlb

  function Pow2(k: nat): (r: nat)
    ensures r >= 1
  {
    if k == 0 then 1 else 2 * Pow2(k - 1)
  }

  /** The sum of the powers of two of the lanes in the set that are below `k`. */
  function MaskOf(lanes: set<nat>, k: nat): nat {
    if k == 0 then 0 else MaskOf(lanes, k - 1) + if k - 1 in lanes then Pow2(k - 1) else 0
  }

  /** The lanes that the instruction names: the binary digits of its mask, or all of them. */
  ghost predicate Names(i: Inst, scalar: seq<nat>, lanes: set<nat>)
    requires i.hasMask ==> i.maskReg < |scalar|
  {
    && (forall lane :: lane in lanes ==> lane < 16)
    && if i.hasMask then scalar[i.maskReg] % 0x10000 == MaskOf(lanes, 16) else forall lane: nat :: lane < 16 ==> lane in lanes
  }

  /** The lanes from `j` on and below `n`, as binary digits. */
  function DigitsFrom(lanes: set<nat>, j: nat, n: nat): nat
    requires j <= n
    decreases n - j
  {
    if j == n then 0 else (if j in lanes then 1 else 0) + 2 * DigitsFrom(lanes, j + 1, n)
  }

  function Shifted(n: nat, k: nat): nat {
    if k == 0 then n else 2 * Shifted(n, k - 1)
  }

  lemma {:induction false} ShiftedSum(a: nat, b: nat, k: nat)
    ensures Shifted(a + b, k) == Shifted(a, k) + Shifted(b, k) && Shifted(1, k) == Pow2(k) && Shifted(0, k) == 0
  {
    if k > 0 {
      ShiftedSum(a, b, k - 1);
    }
  }

  lemma {:induction false} MaskIsDigits(lanes: set<nat>, j: nat, k: nat, n: nat)
    requires j == 0 && k <= n
    ensures MaskOf(lanes, k) + Shifted(DigitsFrom(lanes, k, n), k) == DigitsFrom(lanes, j, n)
    decreases k
  {
    if k > 0 {
      MaskIsDigits(lanes, j, k - 1, n);
      var rest := DigitsFrom(lanes, k, n);
      ShiftedSum(rest, rest, k - 1);
      ShiftedSum(if k - 1 in lanes then 1 else 0, rest + rest, k - 1);
    }
  }

  lemma {:induction false} DigitIsLane(lanes: set<nat>, j: nat, n: nat, k: nat)
    requires j + k < n
    ensures Bit(DigitsFrom(lanes, j, n), k) <==> j + k in lanes
    decreases k
  {
    var d := DigitsFrom(lanes, j, n);
    assert d / 2 == DigitsFrom(lanes, j + 1, n) && (d % 2 == 1 <==> j in lanes);
    if k > 0 {
      DigitIsLane(lanes, j + 1, n, k - 1);
    }
  }

  lemma {:induction false} LowBits(w: nat, high: nat, n: nat, k: nat)
    requires k < n
    ensures Bit(w + Shifted(high, n), k) == Bit(w, k)
    decreases k
  {
    if k > 0 {
      LowBits(w / 2, high, n - 1, k - 1);
      assert (w + 2 * Shifted(high, n - 1)) / 2 == w / 2 + Shifted(high, n - 1);
    }
  }

  lemma FourShifts(n: nat, k: nat)
    ensures Shifted(n, k + 4) == 16 * Shifted(n, k)
  {
    assert Shifted(n, k + 3) == 2 * Shifted(n, k + 2);
    assert Shifted(n, k + 2) == 2 * Shifted(n, k + 1);
  }

  lemma SixteenShifts(n: nat, k: nat)
    requires k == 16
    ensures Shifted(n, k) == 0x10000 * n
  {
    FourShifts(n, 0);
    FourShifts(n, 4);
    FourShifts(n, 8);
    FourShifts(n, 12);
  }

  lemma MaskDigit(lanes: set<nat>, j: nat, n: nat, lane: nat)
    requires j == 0 && lane < n
    ensures Bit(MaskOf(lanes, n), lane) <==> lane in lanes
  {
    MaskIsDigits(lanes, j, n, n);
    ShiftedSum(j, j, n);
    DigitIsLane(lanes, j, n, lane);
  }

  lemma MaskBits(w: nat, lanes: set<nat>, n: nat, lane: nat)
    requires n == 16 && w % 0x10000 == MaskOf(lanes, n) && lane < n
    ensures Bit(w, lane) <==> lane in lanes
  {
    MaskDigit(lanes, 0, n, lane);
    var high := w / 0x10000;
    SixteenShifts(high, n);
    LowBits(MaskOf(lanes, n), high, n, lane);
  }

  lemma NamedAreMasked(i: Inst, scalar: seq<nat>, lanes: set<nat>, lane: nat)
    requires (i.hasMask ==> i.maskReg < |scalar|) && Names(i, scalar, lanes) && lane < 16
    ensures Masked(i, scalar, lane) <==> lane in lanes
  {
    if i.hasMask {
      MaskBits(scalar[i.maskReg], lanes, 16, lane);
    }
  }

  function Halved(w: nat, k: nat): nat {
    if k == 0 then w else Halved(w / 2, k - 1)
  }

  lemma {:induction false} HalvedBit(w: nat, k: nat)
    ensures Halved(w, k) == 2 * Halved(w, k + 1) + if Bit(w, k) then 1 else 0
  {
    if k > 0 {
      HalvedBit(w / 2, k - 1);
    }
  }

  /** A word is the powers of two of its digits below `k`, and the rest of it. */
  lemma {:induction false} WordIsDigits(w: nat, lanes: set<nat>, k: nat)
    requires forall lane: nat :: lane < k ==> (lane in lanes <==> Bit(w, lane))
    ensures w == MaskOf(lanes, k) + Shifted(Halved(w, k), k) && MaskOf(lanes, k) < Pow2(k)
  {
    if k > 0 {
      WordIsDigits(w, lanes, k - 1);
      HalvedBit(w, k - 1);
      var rest := Halved(w, k);
      ShiftedSum(rest, rest, k - 1);
      ShiftedSum(if k - 1 in lanes then 1 else 0, rest + rest, k - 1);
    }
  }

  lemma LowSixteen(w: nat, lanes: set<nat>, n: nat)
    requires n == 16 && forall lane: nat :: lane < n ==> (lane in lanes <==> Bit(w, lane))
    ensures w % 0x10000 == MaskOf(lanes, n)
  {
    WordIsDigits(w, lanes, n);
    ShiftedSum(0, 0, n);
    SixteenShifts(Halved(w, n), n);
    SixteenShifts(1, n);
  }

  /** Every instruction names a set of lanes, and only one. */
  lemma OneSetNamed(i: Inst, scalar: seq<nat>, lanes: set<nat>)
    requires i.hasMask ==> i.maskReg < |scalar|
    ensures Names(i, scalar, lanes) <==> lanes == set lane: nat | lane < 16 && Masked(i, scalar, lane)
  {
    if Names(i, scalar, lanes) {
      forall lane: nat | lane < 16 ensures Masked(i, scalar, lane) <==> lane in lanes {
        NamedAreMasked(i, scalar, lanes, lane);
      }
    }
    if i.hasMask && lanes == set lane: nat | lane < 16 && Masked(i, scalar, lane) {
      LowSixteen(scalar[i.maskReg], lanes, 16);
    }
  }

  /** What one lane does: an address that does not suit it is reported with the fault, and
      even a lane that is not named needs its page. */
  lemma LaneMeans(m: Machine, i: Inst, translate: nat -> Tlb.Translation, lanes: set<nat>)
    requires RegistersExist(i, m.thread) && m.thread.subcycle < NUM_LANES && Names(i, m.thread.scalar, lanes)
    ensures var lane := m.thread.subcycle;
            var va := (m.thread.vector[i.ptrReg][lane] + i.offset) % TWO32;
            var o, page := LaneStep(m, i, translate), translate(va);
            var odd := lane in lanes && va % 4 != 0;
            && (o.Trapped? ==> o.t.address == va && o.t.isData && (o.t.isStore <==> !i.isLoad))
            && (o.Trapped? && o.t.kind == UnalignedAccess <==> odd)
            && (o.Trapped? && o.t.kind == TlbMiss <==> !odd && page.Miss?)
            && (o.Trapped? && o.t.kind == PageFault <==> !odd && page.PageFault?)
            && (o.Trapped? && o.t.kind == SupervisorAccess <==> !odd && page.SupervisorAccess?)
            && (o.Trapped? && o.t.kind == NotExecutable <==> !odd && page.NotExecutable?)
            && (o.Trapped? && o.t.kind == IllegalStore <==> !odd && page.IllegalStore?)
            && (o.Done? <==> !odd && page.Physical? && page.address < Tlb.DEVICE_BASE && (lane in lanes ==> page.address in m.memory))
  {
    NamedAreMasked(i, m.thread.scalar, lanes, m.thread.subcycle);
  }

  /** Exactly the lanes of the set, each once, in ascending order. */
  ghost predicate InOrder(acts: seq<nat>, lanes: set<nat>) {
    && (forall lane: nat :: lane in lanes <==> lane in acts)
    && forall j, k :: 0 <= j < k < |acts| ==> acts[j] < acts[k]
  }

  lemma {:induction false} LanesInOrder(i: Inst, scalar: seq<nat>, k: nat)
    requires i.hasMask ==> i.maskReg < |scalar|
    ensures forall lane: nat :: lane in LanesBelow(i, scalar, k) <==> lane < k && Masked(i, scalar, lane)
    ensures forall a, b :: 0 <= a < b < |LanesBelow(i, scalar, k)| ==> LanesBelow(i, scalar, k)[a] < LanesBelow(i, scalar, k)[b]
  {
    if k > 0 {
      LanesInOrder(i, scalar, k - 1);
      var before, acts := LanesBelow(i, scalar, k - 1), LanesBelow(i, scalar, k);
      forall a, b | 0 <= a < b < |acts| ensures acts[a] < acts[b] {
        assert before[a] in before;
        assert b < |before| ==> acts[b] == before[b];
      }
    }
  }

  /** No handler writes a word of the instruction. */
  ghost predicate Undisturbed(m: Machine, i: Inst, place: nat -> nat, run: seq<Item>, lanes: set<nat>)
    requires i.ptrReg < |m.thread.vector|
  {
    forall j, lane: nat :: 0 <= j < |run| && run[j].Trapping? && lane in lanes && lane < 16 ==>
      place((m.thread.vector[i.ptrReg][lane] + i.offset) % TWO32) !in run[j].writes
  }

  /** The instruction ran to its end, with traps between and on its lanes. */
  ghost predicate Whole(m: Machine, i: Inst, place: nat -> nat, h: Handlers, run: seq<Item>, lanes: set<nat>) {
    && RegistersExist(i, m.thread) && m.thread.subcycle == 0 && CountLanes(run) == NUM_LANES
    && m.thread.pc < TWO32 && h.trapHandler < TWO32 && h.tlbMissHandler < TWO32
    && Completes(m, i, place, h, run) && Names(i, m.thread.scalar, lanes) && Undisturbed(m, i, place, run, lanes)
  }

  lemma WholeIsAtomic(m: Machine, i: Inst, place: nat -> nat, h: Handlers, run: seq<Item>, lanes: set<nat>)
    requires Whole(m, i, place, h, run, lanes)
    ensures AllAvoid(run, Touched(i, m.thread.scalar, m.thread.vector, place))
    ensures Shows(ExecAll(m, i, place, h, run), Partial(m.(memory := m.memory + WritesOf(map[], run)), i, place, NUM_LANES))
    ensures FoundBelow(m, i, place, NUM_LANES)
    ensures WritesOf(map[], run).Keys <= m.memory.Keys
  {
    forall lane: nat | lane < 16 ensures Masked(i, m.thread.scalar, lane) <==> lane in lanes {
      NamedAreMasked(i, m.thread.scalar, lanes, lane);
    }
    forall j | 0 <= j < |run| ensures AvoidsTouched(run[j], Touched(i, m.thread.scalar, m.thread.vector, place)) {
    }
    SixteenLanesAreAtomic(m, i, place, h, run);
  }

  lemma LanesOf(m: Machine, w: map<nat, nat>, r: Machine, i: Inst, place: nat -> nat, lanes: set<nat>)
    requires RegistersExist(i, m.thread) && Names(i, m.thread.scalar, lanes)
    requires Shows(r, Partial(m.(memory := m.memory + w), i, place, NUM_LANES))
    ensures r.thread.pc == (m.thread.pc + 4) % TWO32 && r.thread.subcycle == 0 && r.thread.scalar == m.thread.scalar
    ensures m.acts <= r.acts && InOrder(r.acts[|m.acts|..], lanes)
  {
    var acts := LanesBelow(i, m.thread.scalar, NUM_LANES);
    assert (m.acts + acts)[|m.acts|..] == acts;
    LanesInOrder(i, m.thread.scalar, NUM_LANES);
    forall lane: nat ensures lane in lanes <==> lane in acts {
      if lane < 16 {
        NamedAreMasked(i, m.thread.scalar, lanes, lane);
      }
    }
  }

  /** When the instruction is done, it stands after itself, the lanes that its mask names have
      acted once each in ascending order, and the scalar registers are as before. */
  lemma NamedLanesAct(m: Machine, i: Inst, place: nat -> nat, h: Handlers, run: seq<Item>, lanes: set<nat>)
    requires Whole(m, i, place, h, run, lanes)
    ensures var r := ExecAll(m, i, place, h, run);
            && r.thread.pc == (m.thread.pc + 4) % TWO32 && r.thread.subcycle == 0 && r.thread.scalar == m.thread.scalar
            && m.acts <= r.acts && InOrder(r.acts[|m.acts|..], lanes)
  {
    WholeIsAtomic(m, i, place, h, run, lanes);
    LanesOf(m, WritesOf(map[], run), ExecAll(m, i, place, h, run), i, place, lanes);
  }

  lemma {:induction false} WrittenByHandlers(run: seq<Item>, w: map<nat, nat>, a: nat)
    requires a !in w && forall j :: 0 <= j < |run| && run[j].Trapping? ==> a !in run[j].writes
    ensures a !in WritesOf(w, run)
    decreases |run|
  {
    if run != [] {
      WrittenByHandlers(run[1..], WritesAfter(w, run[0]), a);
    }
  }

  lemma LoadedLane(m: Machine, r: Machine, i: Inst, place: nat -> nat, lanes: set<nat>, k: nat)
    requires RegistersExist(i, m.thread) && i.isLoad && k < 16 && FoundBelow(m, i, place, NUM_LANES)
    requires Names(i, m.thread.scalar, lanes) && Shows(r, Partial(m, i, place, NUM_LANES))
    ensures var v, v' := m.thread.vector, r.thread.vector;
            var word := place((v[i.ptrReg][k] + i.offset) % TWO32);
            && |v'| == |v| && (forall reg :: 0 <= reg < |v| && reg != i.destReg ==> v'[reg] == v[reg])
            && (k in lanes ==> word in m.memory && v'[i.destReg][k] == m.memory[word])
            && (k !in lanes ==> v'[i.destReg][k] == v[i.destReg][k])
            && r.memory == m.memory
  {
    NamedAreMasked(i, m.thread.scalar, lanes, k);
  }

  lemma HandlersSpare(m: Machine, i: Inst, place: nat -> nat, run: seq<Item>, lanes: set<nat>, k: nat)
    requires i.ptrReg < |m.thread.vector| && Undisturbed(m, i, place, run, lanes) && k in lanes && k < 16
    ensures place((m.thread.vector[i.ptrReg][k] + i.offset) % TWO32) !in WritesOf(map[], run)
  {
    WrittenByHandlers(run, map[], place((m.thread.vector[i.ptrReg][k] + i.offset) % TWO32));
  }

  lemma LoadedBeside(m: Machine, w: map<nat, nat>, r: Machine, i: Inst, place: nat -> nat, lanes: set<nat>, k: nat)
    requires RegistersExist(i, m.thread) && i.isLoad && k < 16 && FoundBelow(m, i, place, NUM_LANES)
    requires Names(i, m.thread.scalar, lanes) && Shows(r, Partial(m.(memory := m.memory + w), i, place, NUM_LANES))
    requires k in lanes ==> place((m.thread.vector[i.ptrReg][k] + i.offset) % TWO32) !in w
    ensures var v, v' := m.thread.vector, r.thread.vector;
            var word := place((v[i.ptrReg][k] + i.offset) % TWO32);
            && |v'| == |v| && (forall reg :: 0 <= reg < |v| && reg != i.destReg ==> v'[reg] == v[reg])
            && (k in lanes ==> word in m.memory && v'[i.destReg][k] == m.memory[word])
            && (k !in lanes ==> v'[i.destReg][k] == v[i.destReg][k])
            && r.memory == m.memory + w
  {
    LoadedLane(m.(memory := m.memory + w), r, i, place, lanes, k);
  }

  /** A gather that is done has loaded each lane that its mask names from the place of its own
      pointer and the offset, and left every other lane and register alone. */
  lemma GatherLoads(m: Machine, i: Inst, place: nat -> nat, h: Handlers, run: seq<Item>, lanes: set<nat>, k: nat)
    requires Whole(m, i, place, h, run, lanes) && i.isLoad && k < 16
    ensures var r := ExecAll(m, i, place, h, run);
            var v, v' := m.thread.vector, r.thread.vector;
            var word := place((v[i.ptrReg][k] + i.offset) % TWO32);
            && |v'| == |v| && (forall reg :: 0 <= reg < |v| && reg != i.destReg ==> v'[reg] == v[reg])
            && (k in lanes ==> word in m.memory && v'[i.destReg][k] == m.memory[word])
            && (k !in lanes ==> v'[i.destReg][k] == v[i.destReg][k])
            && r.memory == m.memory + WritesOf(map[], run)
  {
    if k in lanes {
      HandlersSpare(m, i, place, run, lanes, k);
    }
    WholeIsAtomic(m, i, place, h, run, lanes);
    LoadedBeside(m, WritesOf(map[], run), ExecAll(m, i, place, h, run), i, place, lanes, k);
  }

  // ------------------------------------------------------------------ scatter

  /** `l` is the last of the lanes below `k` that stores to the word `a`. */
  ghost predicate LastTo(i: Inst, v: seq<Lanes>, place: nat -> nat, lanes: set<nat>, k: nat, l: nat, a: nat)
    requires i.ptrReg < |v| && k <= 16
  {
    && l < k && l in lanes && place((v[i.ptrReg][l] + i.offset) % TWO32) == a
    && forall other: nat :: l < other < k && other in lanes ==> place((v[i.ptrReg][other] + i.offset) % TWO32) != a
  }

  /** No lane below `k` stores to the word `a`. */
  ghost predicate NoneTo(i: Inst, v: seq<Lanes>, place: nat -> nat, lanes: set<nat>, k: nat, a: nat)
    requires i.ptrReg < |v| && k <= 16
  {
    forall l: nat :: l < k && l in lanes ==> place((v[i.ptrReg][l] + i.offset) % TWO32) != a
  }

  lemma {:induction false} ScatteredWord(i: Inst, scalar: seq<nat>, v: seq<Lanes>, memory: map<nat, nat>, place: nat -> nat,
                                         lanes: set<nat>, k: nat, a: nat)
    requires (i.hasMask ==> i.maskReg < |scalar|) && i.ptrReg < |v| && i.destReg < |v| && k <= NUM_LANES
    requires Names(i, scalar, lanes)
    ensures var r := Scattered(i, scalar, v, memory, place, k);
            && (NoneTo(i, v, place, lanes, k, a) ==> (a in r <==> a in memory) && (a in r ==> r[a] == memory[a]))
            && (forall l: nat :: LastTo(i, v, place, lanes, k, l, a) ==> a in r && r[a] == v[i.destReg][l])
    decreases k
  {
    if k > 0 {
      ScatteredWord(i, scalar, v, memory, place, lanes, k - 1, a);
      NamedAreMasked(i, scalar, lanes, k - 1);
      var before, r := Scattered(i, scalar, v, memory, place, k - 1), Scattered(i, scalar, v, memory, place, k);
      if NoneTo(i, v, place, lanes, k, a) {
        assert NoneTo(i, v, place, lanes, k - 1, a);
      }
      forall l: nat | LastTo(i, v, place, lanes, k, l, a) ensures a in r && r[a] == v[i.destReg][l] {
        if l < k - 1 {
          assert LastTo(i, v, place, lanes, k - 1, l, a);
        }
      }
    }
  }

  /** A scatter that is done has stored each lane that its mask names to the place of its own
      pointer and the offset, the highest lane where several meet, and left every other word and
      every register alone. */
  lemma ScatterStores(m: Machine, i: Inst, place: nat -> nat, h: Handlers, run: seq<Item>, lanes: set<nat>, a: nat)
    requires Whole(m, i, place, h, run, lanes) && !i.isLoad
    ensures var v, r := m.thread.vector, ExecAll(m, i, place, h, run);
            && r.thread.vector == v
            && (forall l: nat :: LastTo(i, v, place, lanes, 16, l, a) ==> a in r.memory && r.memory[a] == v[i.destReg][l])
            && (NoneTo(i, v, place, lanes, 16, a) && a in m.memory ==>
                  a in r.memory && r.memory[a] == (m.memory + WritesOf(map[], run))[a])
  {
    WholeIsAtomic(m, i, place, h, run, lanes);
    ScatteredWord(i, m.thread.scalar, m.thread.vector, m.memory + WritesOf(map[], run), place, lanes, NUM_LANES, a);
  }
}

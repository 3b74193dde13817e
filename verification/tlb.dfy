/** The translation buffer: sixteen sets of four ways in front of the page tables. */
module Tlb {
  import opened Wrappers

  const TLB_SETS := 16
  const TLB_WAYS := 4
  const PAGE_SIZE := 0x1000
  const INVALID_ADDR := 0xffffffff

  const TLB_PRESENT := 1
  const TLB_WRITE_ENABLE := 2
  const TLB_EXECUTABLE := 4
  const TLB_SUPERVISOR := 8
  const TLB_GLOBAL := 16

  datatype Entry = Entry(asid: nat, va: nat, pa: nat)

  function RoundToPage(a: nat): nat {
    a - a % PAGE_SIZE
  }

  predicate Has(pa: nat, flag: nat)
    requires flag > 0
  {
    pa / flag % 2 == 1
  }

  function SetOf(page: nat): nat {
    page / PAGE_SIZE % TLB_SETS
  }

  function Slot(page: nat, way: nat): nat {
    SetOf(page) * TLB_WAYS + way
  }

  type Buffer = s: seq<Entry> | |s| == TLB_SETS * TLB_WAYS
    witness seq(TLB_SETS * TLB_WAYS, _ => Entry(0, INVALID_ADDR, 0))

  predicate Matches(e: Entry, page: nat, asid: nat) {
    e.va == page && (Has(e.pa, TLB_GLOBAL) || e.asid == asid)
  }

  /** The first way at or after `way` that matches, or the number of ways. */
  function FindWay(b: Buffer, page: nat, asid: nat, way: nat): (r: nat)
    requires way <= TLB_WAYS
    ensures way <= r <= TLB_WAYS
    ensures r < TLB_WAYS ==> Matches(b[Slot(page, r)], page, asid)
    ensures forall w :: way <= w < r ==> !Matches(b[Slot(page, w)], page, asid)
    decreases TLB_WAYS - way
  {
    if way == TLB_WAYS || Matches(b[Slot(page, way)], page, asid) then way else FindWay(b, page, asid, way + 1)
  }

  function Lookup(b: Buffer, page: nat, asid: nat): Option<nat> {
    var w := FindWay(b, page, asid, 0);
    if w < TLB_WAYS then Some(b[Slot(page, w)].pa) else None
  }

  function Insert(b: Buffer, nextWay: nat, page: nat, asid: nat, pa: nat): Buffer
    requires nextWay < TLB_WAYS
  {
    var w := FindWay(b, page, asid, 0);
    if w < TLB_WAYS then b[Slot(page, w) := b[Slot(page, w)].(pa := pa)]
    else b[Slot(page, nextWay) := Entry(asid, page, pa)]
  }

  function InvalidateFrom(b: Buffer, page: nat, way: nat): Buffer
    requires way <= TLB_WAYS
    decreases TLB_WAYS - way
  {
    if way == TLB_WAYS then b
    else
      var e := b[Slot(page, way)];
      InvalidateFrom(if e.va == page then b[Slot(page, way) := e.(va := INVALID_ADDR)] else b, page, way + 1)
  }

  // ---------------------------------------------- the history behind the buffer

  datatype Op =
    | InsertOp(page: nat, asid: nat, pa: nat)
    | InvalidateOp(page: nat)
    | InvalidateAllOp

  datatype State = State(buffer: Buffer, nextWay: nat, history: seq<Op>)

  /** Pages are aligned. */
  predicate OpOk(op: Op) {
    !op.InvalidateAllOp? ==> op.page % PAGE_SIZE == 0
  }

  function EmptyBuffer(): Buffer {
    seq(TLB_SETS * TLB_WAYS, _ => Entry(0, INVALID_ADDR, 0))
  }

  function Boot(): State {
    State(EmptyBuffer(), 0, [])
  }

  function Apply(s: State, op: Op): State
    requires s.nextWay < TLB_WAYS
  {
    match op
    case InsertOp(page, asid, pa) =>
      State(Insert(s.buffer, s.nextWay, page, asid, pa), (s.nextWay + 1) % TLB_WAYS, s.history + [op])
    case InvalidateOp(page) => State(InvalidateFrom(s.buffer, page, 0), s.nextWay, s.history + [op])
    case InvalidateAllOp => State(seq(TLB_SETS * TLB_WAYS, i requires 0 <= i < TLB_SETS * TLB_WAYS =>
                                    s.buffer[i].(va := INVALID_ADDR)), s.nextWay, s.history + [op])
  }

  /** The translation a page has for an address space: the one inserted last for it, or for
      everybody, and not invalidated since. */
  function Latest(history: seq<Op>, page: nat, asid: nat): Option<nat>
    decreases |history|
  {
    if history == [] then None
    else
      var before := history[..|history| - 1];
      match history[|history| - 1]
      case InsertOp(q, x, pa) =>
        if q == page && (Has(pa, TLB_GLOBAL) || x == asid) then Some(pa) else Latest(before, page, asid)
      case InvalidateOp(q) => if q == page then None else Latest(before, page, asid)
      case InvalidateAllOp => None
  }

  lemma LatestStep(history: seq<Op>, op: Op, page: nat, asid: nat)
    ensures Latest(history + [op], page, asid) ==
            match op
            case InsertOp(q, x, pa) =>
              if q == page && (Has(pa, TLB_GLOBAL) || x == asid) then Some(pa) else Latest(history, page, asid)
            case InvalidateOp(q) => if q == page then None else Latest(history, page, asid)
            case InvalidateAllOp => None
  {
    assert (history + [op])[..|history|] == history;
  }

  // ------------------------------------------------------------- the promise

  /** At most one way matches. */
  ghost predicate OneWay(b: Buffer, page: nat, asid: nat) {
    forall v, w | 0 <= v < TLB_WAYS && 0 <= w < TLB_WAYS ::
      Matches(b[Slot(page, v)], page, asid) && Matches(b[Slot(page, w)], page, asid) ==> v == w
  }

  /** A hit gives the latest translation. */
  ghost predicate HitIsLatest(s: State, page: nat, asid: nat) {
    match Lookup(s.buffer, page, asid)
    case Some(pa) => Latest(s.history, page, asid) == Some(pa)
    case None => true
  }

  ghost predicate Right(s: State) {
    && s.nextWay < TLB_WAYS
    && forall page: nat, asid: nat :: page % PAGE_SIZE == 0 ==> OneWay(s.buffer, page, asid) && HitIsLatest(s, page, asid)
  }

  lemma OnlyMatch(b: Buffer, page: nat, asid: nat, w: nat)
    requires OneWay(b, page, asid) && w < TLB_WAYS && Matches(b[Slot(page, w)], page, asid)
    ensures FindWay(b, page, asid, 0) == w && Lookup(b, page, asid) == Some(b[Slot(page, w)].pa)
  {
  }

  /** The way an insert writes, and what it writes there. */
  function WrittenWay(b: Buffer, nextWay: nat, page: nat, asid: nat): nat {
    var w := FindWay(b, page, asid, 0);
    if w < TLB_WAYS then w else nextWay
  }

  function Written(b: Buffer, page: nat, asid: nat, pa: nat): Entry {
    var w := FindWay(b, page, asid, 0);
    if w < TLB_WAYS then b[Slot(page, w)].(pa := pa) else Entry(asid, page, pa)
  }

  lemma InsertedEntries(b: Buffer, nextWay: nat, page: nat, asid: nat, pa: nat, q: nat, v: nat)
    requires nextWay < TLB_WAYS && v < TLB_WAYS
    ensures Insert(b, nextWay, page, asid, pa)[Slot(q, v)] ==
            if SetOf(q) == SetOf(page) && v == WrittenWay(b, nextWay, page, asid) then Written(b, page, asid, pa)
            else b[Slot(q, v)]
  {
  }

  /** A global insert leaves no other entry of its page; one that is not global does not
      change a global entry of another address space. */
  predicate FlagOk(b: Buffer, nextWay: nat, page: nat, asid: nat, pa: nat) {
    if Has(pa, TLB_GLOBAL) then
      forall v :: 0 <= v < TLB_WAYS && v != WrittenWay(b, nextWay, page, asid) ==> b[Slot(page, v)].va != page
    else
      !ChangesForeignGlobal(b, page, asid)
  }

  predicate ChangesForeignGlobal(b: Buffer, page: nat, asid: nat) {
    var w := FindWay(b, page, asid, 0);
    w < TLB_WAYS && Has(b[Slot(page, w)].pa, TLB_GLOBAL) && b[Slot(page, w)].asid != asid
  }

  lemma OtherPageStaysRight(s: State, page: nat, asid: nat, pa: nat, q: nat, x: nat)
    requires Right(s) && q != page && q % PAGE_SIZE == 0
    ensures var s' := Apply(s, InsertOp(page, asid, pa)); OneWay(s'.buffer, q, x) && HitIsLatest(s', q, x)
  {
    var s' := Apply(s, InsertOp(page, asid, pa));
    assert OneWay(s.buffer, q, x) && HitIsLatest(s, q, x);
    forall v | 0 <= v < TLB_WAYS && Matches(s'.buffer[Slot(q, v)], q, x)
      ensures s'.buffer[Slot(q, v)] == s.buffer[Slot(q, v)]
    {
      InsertedEntries(s.buffer, s.nextWay, page, asid, pa, q, v);
    }
    LatestStep(s.history, InsertOp(page, asid, pa), q, x);
    var w := FindWay(s'.buffer, q, x, 0);
    if w < TLB_WAYS {
      OnlyMatch(s.buffer, q, x, w);
    }
  }

  lemma PageStaysRight(s: State, page: nat, asid: nat, pa: nat, x: nat)
    requires Right(s) && page % PAGE_SIZE == 0 && FlagOk(s.buffer, s.nextWay, page, asid, pa)
    ensures var s' := Apply(s, InsertOp(page, asid, pa)); OneWay(s'.buffer, page, x) && HitIsLatest(s', page, x)
  {
    var s' := Apply(s, InsertOp(page, asid, pa));
    var way := WrittenWay(s.buffer, s.nextWay, page, asid);
    assert OneWay(s.buffer, page, x) && OneWay(s.buffer, page, asid) && HitIsLatest(s, page, x);
    LatestStep(s.history, InsertOp(page, asid, pa), page, x);
    forall v | 0 <= v < TLB_WAYS
      ensures s'.buffer[Slot(page, v)] == if v == way then Written(s.buffer, page, asid, pa) else s.buffer[Slot(page, v)]
    {
      InsertedEntries(s.buffer, s.nextWay, page, asid, pa, page, v);
    }
    if Has(pa, TLB_GLOBAL) || x == asid {
      forall v | 0 <= v < TLB_WAYS && v != way ensures !Matches(s'.buffer[Slot(page, v)], page, x) {
        assert Has(pa, TLB_GLOBAL) ==> s.buffer[Slot(page, v)].va != page;
      }
      assert Matches(s'.buffer[Slot(page, way)], page, x);
      OnlyMatch(s'.buffer, page, x, way);
    } else {
      assert !Matches(s'.buffer[Slot(page, way)], page, x);
      var w := FindWay(s'.buffer, page, x, 0);
      if w < TLB_WAYS {
        OnlyMatch(s.buffer, page, x, w);
      }
    }
  }

  lemma BadFlagBreaks(s: State, page: nat, asid: nat, pa: nat)
    requires Right(s) && page % PAGE_SIZE == 0 && !FlagOk(s.buffer, s.nextWay, page, asid, pa)
    ensures !Right(Apply(s, InsertOp(page, asid, pa)))
  {
    var s' := Apply(s, InsertOp(page, asid, pa));
    var way := WrittenWay(s.buffer, s.nextWay, page, asid);
    InsertedEntries(s.buffer, s.nextWay, page, asid, pa, page, way);
    if Has(pa, TLB_GLOBAL) {
      var v :| 0 <= v < TLB_WAYS && v != way && s.buffer[Slot(page, v)].va == page;
      InsertedEntries(s.buffer, s.nextWay, page, asid, pa, page, v);
      var x := s.buffer[Slot(page, v)].asid;
      assert Matches(s'.buffer[Slot(page, v)], page, x) && Matches(s'.buffer[Slot(page, way)], page, x);
      assert !OneWay(s'.buffer, page, x);
    } else {
      var e := s.buffer[Slot(page, way)];
      assert OneWay(s.buffer, page, e.asid) && HitIsLatest(s, page, e.asid);
      OnlyMatch(s.buffer, page, e.asid, way);
      LatestStep(s.history, InsertOp(page, asid, pa), page, e.asid);
      if OneWay(s'.buffer, page, e.asid) {
        OnlyMatch(s'.buffer, page, e.asid, way);
        assert !HitIsLatest(s', page, e.asid);
      }
    }
  }

  /** One-way matching and fresh hits survive an insert exactly if its global flag passes
      the test. */
  lemma InsertRightExactly(s: State, page: nat, asid: nat, pa: nat)
    requires Right(s) && page % PAGE_SIZE == 0
    ensures Right(Apply(s, InsertOp(page, asid, pa))) <==> FlagOk(s.buffer, s.nextWay, page, asid, pa)
  {
    if FlagOk(s.buffer, s.nextWay, page, asid, pa) {
      forall q: nat, x: nat | q % PAGE_SIZE == 0
        ensures var s' := Apply(s, InsertOp(page, asid, pa)); OneWay(s'.buffer, q, x) && HitIsLatest(s', q, x)
      {
        if q == page {
          PageStaysRight(s, page, asid, pa, x);
        } else {
          OtherPageStaysRight(s, page, asid, pa, q, x);
        }
      }
    } else {
      BadFlagBreaks(s, page, asid, pa);
    }
  }

  /** The inserter hits with what it inserted, unless it took the flag from a global entry of
      another address space: then it misses. */
  lemma InsertThenHit(s: State, page: nat, asid: nat, pa: nat)
    requires Right(s) && page % PAGE_SIZE == 0
    ensures Lookup(Apply(s, InsertOp(page, asid, pa)).buffer, page, asid) ==
            if !Has(pa, TLB_GLOBAL) && ChangesForeignGlobal(s.buffer, page, asid) then None else Some(pa)
  {
    var b := Apply(s, InsertOp(page, asid, pa)).buffer;
    var way := WrittenWay(s.buffer, s.nextWay, page, asid);
    assert OneWay(s.buffer, page, asid);
    forall v | 0 <= v < TLB_WAYS
      ensures b[Slot(page, v)] == if v == way then Written(s.buffer, page, asid, pa) else s.buffer[Slot(page, v)]
      ensures v != way ==> !Matches(b[Slot(page, v)], page, asid)
    {
      InsertedEntries(s.buffer, s.nextWay, page, asid, pa, page, v);
    }
    if Matches(b[Slot(page, way)], page, asid) {
      OnlyMatch(b, page, asid, way);
    }
  }

  lemma {:induction false} InvalidatedEntries(b: Buffer, page: nat, way: nat, i: nat)
    requires way <= TLB_WAYS && i < TLB_SETS * TLB_WAYS
    ensures InvalidateFrom(b, page, way)[i] ==
            if Slot(page, way) <= i < Slot(page, TLB_WAYS) && b[i].va == page then b[i].(va := INVALID_ADDR) else b[i]
    decreases TLB_WAYS - way
  {
    if way < TLB_WAYS {
      var e := b[Slot(page, way)];
      var b' := if e.va == page then b[Slot(page, way) := e.(va := INVALID_ADDR)] else b;
      InvalidatedEntries(b', page, way + 1, i);
    }
  }

  lemma InvalidatedWay(b: Buffer, page: nat, q: nat, v: nat)
    requires v < TLB_WAYS
    ensures InvalidateFrom(b, page, 0)[Slot(q, v)] ==
            if SetOf(q) == SetOf(page) && b[Slot(q, v)].va == page then b[Slot(q, v)].(va := INVALID_ADDR)
            else b[Slot(q, v)]
  {
    InvalidatedEntries(b, page, 0, Slot(q, v));
  }

  lemma StaysRightInvalidating(s: State, page: nat, q: nat, x: nat)
    requires Right(s) && page % PAGE_SIZE == 0 && q % PAGE_SIZE == 0
    ensures var s' := Apply(s, InvalidateOp(page)); OneWay(s'.buffer, q, x) && HitIsLatest(s', q, x)
    ensures Lookup(Apply(s, InvalidateOp(page)).buffer, page, x) == None
  {
    var s' := Apply(s, InvalidateOp(page));
    assert OneWay(s.buffer, q, x) && HitIsLatest(s, q, x);
    forall v: nat | v < TLB_WAYS
      ensures Matches(s'.buffer[Slot(q, v)], q, x) ==> q != page && s'.buffer[Slot(q, v)] == s.buffer[Slot(q, v)]
      ensures !Matches(s'.buffer[Slot(page, v)], page, x)
    {
      InvalidatedWay(s.buffer, page, q, v);
      InvalidatedWay(s.buffer, page, page, v);
    }
    LatestStep(s.history, InvalidateOp(page), q, x);
    var w := FindWay(s'.buffer, q, x, 0);
    if w < TLB_WAYS {
      OnlyMatch(s.buffer, q, x, w);
    }
  }

  lemma InvalidateKeepsRight(s: State, page: nat)
    requires Right(s) && page % PAGE_SIZE == 0
    ensures Right(Apply(s, InvalidateOp(page)))
    ensures forall asid :: Lookup(Apply(s, InvalidateOp(page)).buffer, page, asid) == None
  {
    forall q: nat, x: nat | q % PAGE_SIZE == 0
      ensures var s' := Apply(s, InvalidateOp(page)); OneWay(s'.buffer, q, x) && HitIsLatest(s', q, x)
      ensures Lookup(Apply(s, InvalidateOp(page)).buffer, page, x) == None
    {
      StaysRightInvalidating(s, page, q, x);
    }
  }

  lemma ClearedIsRight(s: State)
    requires s.nextWay < TLB_WAYS && forall i :: 0 <= i < TLB_SETS * TLB_WAYS ==> s.buffer[i].va == INVALID_ADDR
    ensures Right(s)
  {
  }

  // ------------------------------------------------------------------- runs

  function After(s: State, ops: seq<Op>): (r: State)
    requires s.nextWay < TLB_WAYS
    ensures r.nextWay < TLB_WAYS
    decreases |ops|
  {
    if ops == [] then s else After(Apply(s, ops[0]), ops[1..])
  }

  predicate StepFlagOk(s: State, op: Op) {
    op.InsertOp? ==> FlagOk(s.buffer, s.nextWay, op.page, op.asid, op.pa)
  }

  /** Every insert of the run passes the test when it is made. */
  predicate FlagsOk(s: State, ops: seq<Op>)
    requires s.nextWay < TLB_WAYS
    decreases |ops|
  {
    ops == [] || (StepFlagOk(s, ops[0]) && FlagsOk(Apply(s, ops[0]), ops[1..]))
  }

  ghost predicate AlwaysRight(s: State, ops: seq<Op>)
    requires s.nextWay < TLB_WAYS
    decreases |ops|
  {
    Right(s) && (ops == [] || AlwaysRight(Apply(s, ops[0]), ops[1..]))
  }

  lemma StepRightExactly(s: State, op: Op)
    requires Right(s) && OpOk(op)
    ensures Right(Apply(s, op)) <==> StepFlagOk(s, op)
  {
    match op
    case InsertOp(page, asid, pa) => InsertRightExactly(s, page, asid, pa);
    case InvalidateOp(page) => InvalidateKeepsRight(s, page);
    case InvalidateAllOp => ClearedIsRight(Apply(s, op));
  }

  /** A run keeps the promise throughout exactly if every insert passes the test. */
  lemma {:induction false} RunRightExactly(s: State, ops: seq<Op>)
    requires Right(s) && forall k :: 0 <= k < |ops| ==> OpOk(ops[k])
    ensures AlwaysRight(s, ops) <==> FlagsOk(s, ops)
    ensures FlagsOk(s, ops) ==> Right(After(s, ops))
    decreases |ops|
  {
    if ops != [] {
      StepRightExactly(s, ops[0]);
      if StepFlagOk(s, ops[0]) {
        RunRightExactly(Apply(s, ops[0]), ops[1..]);
      }
    }
  }

  // ---------------------------------------------------- a test without the buffer

  /** Every insert of the page since it was invalidated last has this flag. */
  predicate Steady(history: seq<Op>, page: nat, global: bool)
    decreases |history|
  {
    history == [] ||
    var before := history[..|history| - 1];
    match history[|history| - 1]
    case InsertOp(q, _, pa) => (q == page ==> Has(pa, TLB_GLOBAL) == global) && Steady(before, page, global)
    case InvalidateOp(q) => q == page || Steady(before, page, global)
    case InvalidateAllOp => true
  }

  lemma {:induction false} SteadyLatest(history: seq<Op>, page: nat, asid: nat, global: bool)
    requires Steady(history, page, global) && Latest(history, page, asid).Some?
    ensures Has(Latest(history, page, asid).value, TLB_GLOBAL) == global
    decreases |history|
  {
    match history[|history| - 1]
    case InsertOp(q, x, pa) =>
      if !(q == page && (Has(pa, TLB_GLOBAL) || x == asid)) {
        SteadyLatest(history[..|history| - 1], page, asid, global);
      }
    case InvalidateOp(q) => SteadyLatest(history[..|history| - 1], page, asid, global);
    case InvalidateAllOp =>
  }

  lemma EntryIsSteady(s: State, page: nat, global: bool, v: nat)
    requires Right(s) && page % PAGE_SIZE == 0 && Steady(s.history, page, global) && v < TLB_WAYS
    requires s.buffer[Slot(page, v)].va == page
    ensures Has(s.buffer[Slot(page, v)].pa, TLB_GLOBAL) == global
  {
    var e := s.buffer[Slot(page, v)];
    assert OneWay(s.buffer, page, e.asid) && HitIsLatest(s, page, e.asid);
    OnlyMatch(s.buffer, page, e.asid, v);
    SteadyLatest(s.history, page, e.asid, global);
  }

  /** Invalidating a page before its flag changes is enough. */
  lemma SteadyFlagOk(s: State, page: nat, asid: nat, pa: nat)
    requires Right(s) && page % PAGE_SIZE == 0 && Steady(s.history, page, Has(pa, TLB_GLOBAL))
    ensures FlagOk(s.buffer, s.nextWay, page, asid, pa)
  {
    assert OneWay(s.buffer, page, asid);
    forall v | 0 <= v < TLB_WAYS && s.buffer[Slot(page, v)].va == page
      ensures Has(s.buffer[Slot(page, v)].pa, TLB_GLOBAL) == Has(pa, TLB_GLOBAL)
      ensures Has(pa, TLB_GLOBAL) ==> v == WrittenWay(s.buffer, s.nextWay, page, asid)
    {
      EntryIsSteady(s, page, Has(pa, TLB_GLOBAL), v);
      if Has(pa, TLB_GLOBAL) {
        OnlyMatch(s.buffer, page, asid, v);
      }
    }
  }

  predicate SteadyRun(history: seq<Op>, ops: seq<Op>)
    decreases |ops|
  {
    ops == [] ||
    (&& (ops[0].InsertOp? ==> Steady(history, ops[0].page, Has(ops[0].pa, TLB_GLOBAL)))
     && SteadyRun(history + [ops[0]], ops[1..]))
  }

  lemma {:induction false} SteadyRunFlagsOk(s: State, ops: seq<Op>)
    requires Right(s) && (forall k :: 0 <= k < |ops| ==> OpOk(ops[k])) && SteadyRun(s.history, ops)
    ensures FlagsOk(s, ops)
    decreases |ops|
  {
    if ops != [] {
      if ops[0].InsertOp? {
        SteadyFlagOk(s, ops[0].page, ops[0].asid, ops[0].pa);
      }
      StepRightExactly(s, ops[0]);
      SteadyRunFlagsOk(Apply(s, ops[0]), ops[1..]);
    }
  }

  // ------------------------------------------------------------ translating

  const DEVICE_BASE := 0xffff0000

  /** `mmu` is false while addresses are physical. */
  datatype Access = Access(va: nat, isStore: bool, isData: bool, supervisor: bool, asid: nat, mmu: bool)
  datatype Translation =
    | Physical(address: nat) | OutOfRange
    | Miss | PageFault | SupervisorAccess | NotExecutable | IllegalStore

  /** Addresses between the end of memory and the devices stop the emulator. */
  function InRange(address: nat, memorySize: nat): Translation {
    if memorySize <= address < DEVICE_BASE then OutOfRange else Physical(address)
  }

  /** What a page table entry means for an access. */
  function Check(pa: nat, a: Access, memorySize: nat): Translation {
    if !Has(pa, TLB_PRESENT) then PageFault
    else if Has(pa, TLB_SUPERVISOR) && !a.supervisor then SupervisorAccess
    else if !Has(pa, TLB_EXECUTABLE) && !a.isData then NotExecutable
    else if a.isStore && !Has(pa, TLB_WRITE_ENABLE) then IllegalStore
    else InRange(RoundToPage(pa) + a.va % PAGE_SIZE, memorySize)
  }

  function Translate(b: Buffer, a: Access, memorySize: nat): Translation {
    if !a.mmu then InRange(a.va, memorySize)
    else
      match Lookup(b, RoundToPage(a.va), a.asid)
      case None => Miss
      case Some(pa) => Check(pa, a, memorySize)
  }

  /** The translation the processor would make if it had room for every entry. */
  function TranslateByHistory(history: seq<Op>, a: Access, memorySize: nat): Translation {
    if !a.mmu then InRange(a.va, memorySize)
    else
      match Latest(history, RoundToPage(a.va), a.asid)
      case None => Miss
      case Some(pa) => Check(pa, a, memorySize)
  }

  /** The buffer treats an access as the history does, or it misses. */
  ghost predicate Agrees(s: State, a: Access, memorySize: nat) {
    || Translate(s.buffer, a, memorySize) == TranslateByHistory(s.history, a, memorySize)
    || (a.mmu && Translate(s.buffer, a, memorySize) == Miss)
  }

  lemma RightTranslates(s: State, a: Access, memorySize: nat)
    requires Right(s)
    ensures Agrees(s, a, memorySize)
    ensures OneWay(s.buffer, RoundToPage(a.va), a.asid)
  {
    assert RoundToPage(a.va) % PAGE_SIZE == 0;
    assert HitIsLatest(s, RoundToPage(a.va), a.asid);
  }

  /** Under any mix of inserts, evictions and invalidations whose flags pass the test, an
      access is treated by the small buffer as with room for every entry, or it misses; and
      at most one way of a set matches it. */
  lemma BufferAgreesWithHistory(ops: seq<Op>, a: Access, memorySize: nat)
    requires (forall k :: 0 <= k < |ops| ==> OpOk(ops[k])) && FlagsOk(Boot(), ops)
    ensures var s := After(Boot(), ops);
            Agrees(s, a, memorySize) && OneWay(s.buffer, RoundToPage(a.va), a.asid)
  {
    ClearedIsRight(Boot());
    RunRightExactly(Boot(), ops);
    RightTranslates(After(Boot(), ops), a, memorySize);
  }

  /** So it is in every run that invalidates a page before it changes the page's flag. */
  lemma SteadyRunsAgree(ops: seq<Op>, a: Access, memorySize: nat)
    requires (forall k :: 0 <= k < |ops| ==> OpOk(ops[k])) && SteadyRun([], ops)
    ensures Agrees(After(Boot(), ops), a, memorySize)
  {
    ClearedIsRight(Boot());
    SteadyRunFlagsOk(Boot(), ops);
    BufferAgreesWithHistory(ops, a, memorySize);
  }

  // --------------------------------------------- what the flags mean, bit by bit

  /** The entry is for the page of the access, and for its address space or for everybody. */
  ghost predicate Covers(e: Entry, a: Access) {
    e.va % PAGE_SIZE == 0 && e.va <= a.va < e.va + PAGE_SIZE && (e.pa / 16 % 2 == 1 || e.asid == a.asid)
  }

  ghost predicate IsPresent(pa: nat) {
    pa % 2 == 1
  }

  ghost predicate UserBarred(pa: nat, a: Access) {
    pa / 8 % 2 == 1 && !a.supervisor
  }

  ghost predicate FetchBarred(pa: nat, a: Access) {
    pa / 4 % 2 == 0 && !a.isData
  }

  ghost predicate StoreBarred(pa: nat, a: Access) {
    pa / 2 % 2 == 0 && a.isStore
  }

  /** The answer for an access that an entry covers. It goes through if and only if nothing
      bars it, and then keeps the frame of the entry and the offset in the page; of several
      faults the first in the order of their definitions is raised. */
  ghost predicate Answers(pa: nat, a: Access, memorySize: nat, r: Translation) {
    && !r.Miss?
    && (r.Physical? || r.OutOfRange? <==>
         IsPresent(pa) && !UserBarred(pa, a) && !FetchBarred(pa, a) && !StoreBarred(pa, a))
    && (r.Physical? ==> r.address / PAGE_SIZE == pa / PAGE_SIZE && r.address % PAGE_SIZE == a.va % PAGE_SIZE
                        && (r.address < memorySize || r.address >= DEVICE_BASE))
    && (r.OutOfRange? ==> memorySize <= pa / PAGE_SIZE * PAGE_SIZE + a.va % PAGE_SIZE < DEVICE_BASE)
    && (r.PageFault? <==> !IsPresent(pa))
    && (r.SupervisorAccess? <==> IsPresent(pa) && UserBarred(pa, a))
    && (r.NotExecutable? ==> FetchBarred(pa, a))
    && (r.IllegalStore? ==> StoreBarred(pa, a) && !FetchBarred(pa, a))
  }

  /** The set of the buffer in which an access looks. */
  function Candidates(b: Buffer, va: nat): (r: seq<Entry>)
    ensures |r| == 4
  {
    var first := va / PAGE_SIZE % 16 * 4;
    b[first..first + 4]
  }

  /** What a translation says, by the entries of the buffer. */
  ghost predicate TranslatesTo(b: Buffer, a: Access, memorySize: nat, r: Translation) {
    if !a.mmu then
      (r.OutOfRange? <==> memorySize <= a.va < DEVICE_BASE) && (!r.OutOfRange? ==> r == Physical(a.va))
    else if r.Miss? then forall w :: 0 <= w < 4 ==> !Covers(Candidates(b, a.va)[w], a)
    else exists w :: 0 <= w < 4 && Covers(Candidates(b, a.va)[w], a) && Answers(Candidates(b, a.va)[w].pa, a, memorySize, r)
  }

  lemma CheckAnswers(pa: nat, a: Access, memorySize: nat)
    ensures Answers(pa, a, memorySize, Check(pa, a, memorySize))
  {
    var address := RoundToPage(pa) + a.va % PAGE_SIZE;
    assert address / PAGE_SIZE == pa / PAGE_SIZE && address % PAGE_SIZE == a.va % PAGE_SIZE;
  }

  lemma OnThePage(e: nat, va: nat)
    ensures e == RoundToPage(va) <==> e % PAGE_SIZE == 0 && e <= va < e + PAGE_SIZE
  {
  }

  lemma SetOfAccess(b: Buffer, va: nat, w: nat)
    requires w < TLB_WAYS
    ensures Candidates(b, va)[w] == b[Slot(RoundToPage(va), w)]
  {
    assert RoundToPage(va) / PAGE_SIZE == va / PAGE_SIZE;
  }

  lemma MatchingCovers(b: Buffer, a: Access, w: nat)
    requires w < TLB_WAYS
    ensures Candidates(b, a.va)[w] == b[Slot(RoundToPage(a.va), w)]
    ensures Matches(b[Slot(RoundToPage(a.va), w)], RoundToPage(a.va), a.asid) <==> Covers(Candidates(b, a.va)[w], a)
  {
    SetOfAccess(b, a.va, w);
    OnThePage(Candidates(b, a.va)[w].va, a.va);
  }

  /** The entries of its set that cover an access decide what becomes of it. */
  lemma TranslateMeans(b: Buffer, a: Access, memorySize: nat)
    ensures TranslatesTo(b, a, memorySize, Translate(b, a, memorySize))
  {
    var page := RoundToPage(a.va);
    var way := FindWay(b, page, a.asid, 0);
    forall w | 0 <= w < TLB_WAYS
      ensures Candidates(b, a.va)[w] == b[Slot(page, w)]
      ensures Matches(b[Slot(page, w)], page, a.asid) <==> Covers(Candidates(b, a.va)[w], a)
    {
      MatchingCovers(b, a, w);
    }
    if way < TLB_WAYS {
      CheckAnswers(b[Slot(page, way)].pa, a, memorySize);
    }
  }

  /** After any run whose flags pass the test, what a translation says is what the latest
      insert for its page says, down to the bit. */
  lemma LatestInsertDecides(ops: seq<Op>, a: Access, memorySize: nat, r: Translation)
    requires (forall k :: 0 <= k < |ops| ==> OpOk(ops[k])) && FlagsOk(Boot(), ops) && a.mmu
    requires TranslatesTo(After(Boot(), ops).buffer, a, memorySize, r) && !r.Miss?
    ensures var latest := Latest(After(Boot(), ops).history, RoundToPage(a.va), a.asid);
            latest.Some? && Answers(latest.value, a, memorySize, r)
  {
    ClearedIsRight(Boot());
    RunRightExactly(Boot(), ops);
    var s := After(Boot(), ops);
    RightTranslates(s, a, memorySize);
    var w :| 0 <= w < 4 && Covers(Candidates(s.buffer, a.va)[w], a)
             && Answers(Candidates(s.buffer, a.va)[w].pa, a, memorySize, r);
    MatchingCovers(s.buffer, a, w);
    OnlyMatch(s.buffer, RoundToPage(a.va), a.asid, w);
    assert HitIsLatest(s, RoundToPage(a.va), a.asid);
  }

  // ------------------------------------------------------------- replacement

  /** Inserts and invalidations of pages other than `page`. */
  predicate Beside(ops: seq<Op>, page: nat) {
    forall k :: 0 <= k < |ops| ==> !ops[k].InvalidateAllOp? && ops[k].page != page
  }

  function CountInserts(ops: seq<Op>): nat {
    if ops == [] then 0 else (if ops[0].InsertOp? then 1 else 0) + CountInserts(ops[1..])
  }

  lemma StepStays(s: State, op: Op, page: nat, way: nat)
    requires s.nextWay < TLB_WAYS && way < TLB_WAYS && s.buffer[Slot(page, way)].va == page && Beside([op], page)
    requires op.InsertOp? ==> way != s.nextWay
    ensures Apply(s, op).buffer[Slot(page, way)] == s.buffer[Slot(page, way)]
    ensures Apply(s, op).nextWay == if op.InsertOp? then (s.nextWay + 1) % TLB_WAYS else s.nextWay
  {
    assert [op][0] == op;
    if op.InsertOp? {
      InsertedEntries(s.buffer, s.nextWay, op.page, op.asid, op.pa, page, way);
    } else {
      InvalidatedWay(s.buffer, op.page, page, way);
    }
  }

  lemma {:induction false} EntryStays(s: State, ops: seq<Op>, page: nat, way: nat)
    requires s.nextWay < TLB_WAYS && way < TLB_WAYS && s.buffer[Slot(page, way)].va == page && Beside(ops, page)
    requires CountInserts(ops) <= (way + TLB_WAYS - s.nextWay) % TLB_WAYS
    ensures After(s, ops).buffer[Slot(page, way)] == s.buffer[Slot(page, way)]
    decreases |ops|
  {
    if ops != [] {
      assert Beside([ops[0]], page) && Beside(ops[1..], page);
      StepStays(s, ops[0], page, way);
      EntryStays(Apply(s, ops[0]), ops[1..], page, way);
    }
  }

  /** The ways are replaced in turn: a page that is newly entered stays through the next three
      inserts of other pages, and any invalidations of other pages, whichever they are. */
  lemma EntryLasts(s: State, page: nat, asid: nat, pa: nat, ops: seq<Op>)
    requires s.nextWay < TLB_WAYS && Lookup(s.buffer, page, asid) == None && Beside(ops, page) && CountInserts(ops) < TLB_WAYS
    ensures After(s, [InsertOp(page, asid, pa)] + ops).buffer[Slot(page, s.nextWay)] == Entry(asid, page, pa)
  {
    var op := InsertOp(page, asid, pa);
    assert ([op] + ops)[0] == op && ([op] + ops)[1..] == ops;
    InsertedEntries(s.buffer, s.nextWay, page, asid, pa, page, s.nextWay);
    EntryStays(Apply(s, op), ops, page, s.nextWay);
  }

  lemma FirstInsert(page: nat, asid: nat, pa: nat, v: nat)
    requires page % PAGE_SIZE == 0 && v < TLB_WAYS
    ensures Insert(EmptyBuffer(), 0, page, asid, pa)[Slot(page, v)] ==
            if v == 0 then Entry(asid, page, pa) else Entry(0, INVALID_ADDR, 0)
  {
    assert forall w :: 0 <= w < TLB_WAYS ==> !Matches(EmptyBuffer()[Slot(page, w)], page, asid);
    InsertedEntries(EmptyBuffer(), 0, page, asid, pa, page, v);
  }

  /** A page entered for one address space and then made global by another matches twice, and
      the old translation is the one that is used. */
  lemma MadeGlobalMatchesTwice(page: nat, asid: nat, other: nat, pa: nat, pb: nat)
    requires page % PAGE_SIZE == 0 && asid != other && !Has(pa, TLB_GLOBAL) && Has(pb, TLB_GLOBAL)
    ensures var b := Insert(Insert(EmptyBuffer(), 0, page, asid, pa), 1, page, other, pb);
            && Matches(b[Slot(page, 0)], page, asid) && Matches(b[Slot(page, 1)], page, asid)
            && Lookup(b, page, asid) == Some(pa)
  {
    var b := Insert(EmptyBuffer(), 0, page, asid, pa);
    forall w | 0 <= w < TLB_WAYS ensures !Matches(b[Slot(page, w)], page, other) {
      FirstInsert(page, asid, pa, w);
    }
    FirstInsert(page, asid, pa, 0);
    InsertedEntries(b, 1, page, other, pb, page, 0);
    InsertedEntries(b, 1, page, other, pb, page, 1);
  }

  /** A global page entered again by another address space, now for itself, is lost to that
      space and changed for the first one. */
  lemma MadePrivateGoesToOther(page: nat, asid: nat, other: nat, pa: nat, pb: nat)
    requires page % PAGE_SIZE == 0 && asid != other && Has(pa, TLB_GLOBAL) && !Has(pb, TLB_GLOBAL)
    ensures var b := Insert(Insert(EmptyBuffer(), 0, page, asid, pa), 1, page, other, pb);
            Lookup(b, page, other) == None && Lookup(b, page, asid) == Some(pb)
  {
    var b := Insert(EmptyBuffer(), 0, page, asid, pa);
    FirstInsert(page, asid, pa, 0);
    var b' := Insert(b, 1, page, other, pb);
    forall w | 0 <= w < TLB_WAYS ensures b'[Slot(page, w)] == if w == 0 then Entry(asid, page, pb) else b[Slot(page, w)] {
      InsertedEntries(b, 1, page, other, pb, page, w);
    }
    forall w | 0 < w < TLB_WAYS ensures !Matches(b'[Slot(page, w)], page, other) {
      FirstInsert(page, asid, pa, w);
    }
  }
}

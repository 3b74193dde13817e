/** The kernel heap: an address-ordered list of free ranges from which blocks are cut first fit,
    and which merges what is given back. */
module Heap {

  const MIN_GROW := 0x10000

  datatype Range = Range(addr: nat, size: nat)

  /** `blocks` are the blocks handed out; `free` is the free list, and everything from `wilderness`
      on has never been used. */
  datatype State = State(base: nat, wilderness: nat, free: seq<Range>, blocks: set<Range>)

  function End(r: Range): nat {
    r.addr + r.size
  }

  predicate In(r: Range, x: nat) {
    r.addr <= x < End(r)
  }

  ghost predicate InFree(free: seq<Range>, x: nat) {
    exists i :: 0 <= i < |free| && In(free[i], x)
  }

  ghost predicate InBlocks(blocks: set<Range>, x: nat) {
    exists b :: b in blocks && In(b, x)
  }

  predicate Apart(a: Range, b: Range) {
    End(a) <= b.addr || End(b) <= a.addr
  }

  /** Sorted by address, and neither overlapping nor touching. */
  ghost predicate Canonical(free: seq<Range>) {
    && (forall i :: 0 <= i < |free| ==> free[i].size > 0)
    && (forall i, j :: 0 <= i < j < |free| ==> End(free[i]) < free[j].addr)
  }

  /** Every byte of the heap is free or in one block, and not both. */
  ghost predicate Tiled(s: State) {
    && (forall x: nat :: s.base <= x < s.wilderness <==> InFree(s.free, x) || InBlocks(s.blocks, x))
    && (forall x: nat :: !(InFree(s.free, x) && InBlocks(s.blocks, x)))
    && (forall a, b :: a in s.blocks && b in s.blocks && a != b ==> Apart(a, b))
  }

  ghost predicate Inv(s: State) {
    Canonical(s.free) && Tiled(s) && s.base <= s.wilderness && forall b :: b in s.blocks ==> b.size > 0
  }

  // -------------------------------------------------------------- operations

  /** A range before a list, merged with its first range if they touch. */
  function Front(r: Range, rest: seq<Range>): seq<Range> {
    if rest != [] && End(r) == rest[0].addr then [Range(r.addr, r.size + rest[0].size)] + rest[1..] else [r] + rest
  }

  /** Puts a range in its place and merges it with its neighbours. */
  function Insert(free: seq<Range>, r: Range): seq<Range> {
    if free == [] || r.addr < free[0].addr then Front(r, free) else Front(free[0], Insert(free[1..], r))
  }

  /** The first range that is large enough. */
  function FirstFit(free: seq<Range>, size: nat): (n: nat)
    ensures n <= |free|
    ensures n < |free| ==> free[n].size >= size
    ensures forall j :: 0 <= j < n ==> free[j].size < size
  {
    if free == [] || free[0].size >= size then 0 else 1 + FirstFit(free[1..], size)
  }

  /** Takes the front of range `i`; `rest` is what gets stored as the size of the remainder. */
  function Cut(free: seq<Range>, i: nat, size: nat, rest: nat): seq<Range>
    requires i < |free|
  {
    if free[i].size == size then free[..i] + free[i + 1..]
    else free[i := Range(free[i].addr + size, rest)]
  }

  function Grow(size: nat): nat {
    if size * 2 < MIN_GROW then MIN_GROW else size * 2
  }

  function Malloc(s: State, size: nat): (State, nat) {
    var i := FirstFit(s.free, size);
    if i < |s.free| then
      var r := s.free[i].addr;
      (s.(free := Cut(s.free, i, size, s.free[i].size - size), blocks := s.blocks + {Range(r, size)}), r)
    else
      var r, grow := s.wilderness, Grow(size);
      (s.(free := Insert(s.free, Range(r + size, grow - size)), wilderness := r + grow, blocks := s.blocks + {Range(r, size)}), r)
  }

  function Free(s: State, r: Range): State {
    s.(free := Insert(s.free, r), blocks := s.blocks - {r})
  }

  // --------------------------------------------------------------- insertion

  /** The free list lies wholly apart from the range. */
  ghost predicate Clear(free: seq<Range>, r: Range) {
    forall j :: 0 <= j < |free| ==> Apart(free[j], r)
  }

  lemma FrontAdds(r: Range, rest: seq<Range>)
    requires Canonical(rest) && r.size > 0 && (rest != [] ==> End(r) <= rest[0].addr)
    ensures Canonical(Front(r, rest)) && Front(r, rest)[0].addr == r.addr
    ensures forall x: nat :: InFree(Front(r, rest), x) <==> InFree(rest, x) || In(r, x)
  {
    var f := Front(r, rest);
    forall x: nat ensures InFree(f, x) <==> InFree(rest, x) || In(r, x) {
      assert In(f[0], x) ==> InFree(f, x);
      if InFree(rest, x) {
        var j :| 0 <= j < |rest| && In(rest[j], x);
        assert if |f| == |rest| then In(f[j], x) else In(f[j + 1], x);
      }
      if InFree(f, x) {
        var j :| 0 <= j < |f| && In(f[j], x);
        assert j > 0 ==> if |f| == |rest| then In(rest[j], x) else In(rest[j - 1], x);
        assert |f| == |rest| && In(f[0], x) && !In(r, x) ==> In(rest[0], x);
      }
    }
  }

  /** The list stays sorted and merged, and gains exactly the bytes of the range. */
  lemma {:induction false} InsertAdds(free: seq<Range>, r: Range)
    requires Canonical(free) && r.size > 0 && Clear(free, r)
    ensures Canonical(Insert(free, r)) && Insert(free, r) != []
    ensures Insert(free, r)[0].addr == if free == [] || r.addr < free[0].addr then r.addr else free[0].addr
    ensures forall x: nat :: InFree(Insert(free, r), x) <==> InFree(free, x) || In(r, x)
  {
    if free == [] || r.addr < free[0].addr {
      assert free != [] ==> Apart(free[0], r);
      FrontAdds(r, free);
    } else {
      var rest := free[1..];
      assert Apart(free[0], r);
      InsertAdds(rest, r);
      FrontAdds(free[0], Insert(rest, r));
      forall x: nat ensures InFree(free, x) <==> InFree(rest, x) || In(free[0], x) {
        RestFree(free, x);
      }
    }
  }

  // --------------------------------------------------------------- uniqueness

  ghost predicate SameCover(f: seq<Range>, g: seq<Range>) {
    forall x: nat :: InFree(f, x) <==> InFree(g, x)
  }

  lemma HeadFree(f: seq<Range>)
    requires Canonical(f)
    ensures f != [] ==> InFree(f, f[0].addr)
  {
    assert f != [] ==> In(f[0], f[0].addr);
  }

  lemma LowestFree(f: seq<Range>, x: nat)
    requires Canonical(f) && f != [] && InFree(f, x)
    ensures f[0].addr <= x && InFree(f, f[0].addr) && !InFree(f, End(f[0]))
  {
    assert In(f[0], f[0].addr);
  }

  lemma RestFree(f: seq<Range>, x: nat)
    requires Canonical(f) && f != []
    ensures InFree(f[1..], x) <==> InFree(f, x) && !In(f[0], x)
  {
    if InFree(f[1..], x) {
      var i :| 0 <= i < |f[1..]| && In(f[1..][i], x);
      assert In(f[i + 1], x);
    }
    if InFree(f, x) && !In(f[0], x) {
      var i :| 0 <= i < |f| && In(f[i], x);
      assert In(f[1..][i - 1], x);
    }
  }

  /** The free bytes determine the list. */
  lemma {:induction false} FreeListUnique(f: seq<Range>, g: seq<Range>)
    requires Canonical(f) && Canonical(g) && SameCover(f, g)
    ensures f == g
  {
    HeadFree(f);
    HeadFree(g);
    if f != [] && g != [] {
      LowestFree(f, g[0].addr);
      LowestFree(g, f[0].addr);
      SameHead(f, g);
      forall x: nat ensures InFree(f[1..], x) <==> InFree(g[1..], x) {
        RestFree(f, x);
        RestFree(g, x);
      }
      FreeListUnique(f[1..], g[1..]);
      assert f == [f[0]] + f[1..] && g == [g[0]] + g[1..];
    }
  }

  lemma SameHead(f: seq<Range>, g: seq<Range>)
    requires Canonical(f) && Canonical(g) && SameCover(f, g) && f != [] && g != [] && f[0].addr == g[0].addr
    ensures f[0] == g[0]
  {
    assert !InFree(f, End(f[0])) by {
      assert In(f[0], f[0].addr);
      LowestFree(f, f[0].addr);
    }
    assert !InFree(g, End(g[0])) by {
      assert In(g[0], g[0].addr);
      LowestFree(g, g[0].addr);
    }
    if End(f[0]) < End(g[0]) {
      assert In(g[0], End(f[0]));
    }
    if End(g[0]) < End(f[0]) {
      assert In(f[0], End(g[0]));
    }
  }

  // -------------------------------------------------------- taking from a range

  lemma CutAt(free: seq<Range>, i: nat, size: nat, j: nat)
    requires i < |free| && 0 < size <= free[i].size && j < |Cut(free, i, size, free[i].size - size)|
    ensures var f := Cut(free, i, size, free[i].size - size);
            && |f| == (if free[i].size == size then |free| - 1 else |free|)
            && f[j] == if free[i].size == size then (if j < i then free[j] else free[j + 1])
                       else if j == i then Range(free[i].addr + size, free[i].size - size) else free[j]
  {
  }

  lemma CutCanonical(free: seq<Range>, i: nat, size: nat)
    requires Canonical(free) && i < |free| && 0 < size <= free[i].size
    ensures Canonical(Cut(free, i, size, free[i].size - size))
  {
    var f := Cut(free, i, size, free[i].size - size);
    forall j | 0 <= j < |f| ensures f[j].size > 0 {
      CutAt(free, i, size, j);
    }
    forall j, k | 0 <= j < k < |f| ensures End(f[j]) < f[k].addr {
      CutAt(free, i, size, j);
      CutAt(free, i, size, k);
    }
  }

  lemma CutTakes(free: seq<Range>, i: nat, size: nat)
    requires Canonical(free) && i < |free| && 0 < size <= free[i].size
    ensures Canonical(Cut(free, i, size, free[i].size - size))
    ensures forall x: nat ::
              InFree(Cut(free, i, size, free[i].size - size), x) <==> InFree(free, x) && !In(Range(free[i].addr, size), x)
  {
    CutCanonical(free, i, size);
    forall x: nat
      ensures InFree(Cut(free, i, size, free[i].size - size), x) <==> InFree(free, x) && !In(Range(free[i].addr, size), x)
    {
      CutLoses(free, i, size, x);
      CutKeeps(free, i, size, x);
    }
  }

  lemma CutLoses(free: seq<Range>, i: nat, size: nat, x: nat)
    requires Canonical(free) && i < |free| && 0 < size <= free[i].size
    ensures InFree(Cut(free, i, size, free[i].size - size), x) ==> InFree(free, x) && !In(Range(free[i].addr, size), x)
  {
    var f := Cut(free, i, size, free[i].size - size);
    if InFree(f, x) {
      var j :| 0 <= j < |f| && In(f[j], x);
      CutAt(free, i, size, j);
      assert In(free[if free[i].size == size && j >= i then j + 1 else j], x);
    }
  }

  lemma CutKeeps(free: seq<Range>, i: nat, size: nat, x: nat)
    requires Canonical(free) && i < |free| && 0 < size <= free[i].size
    ensures InFree(free, x) && !In(Range(free[i].addr, size), x) ==> InFree(Cut(free, i, size, free[i].size - size), x)
  {
    var f := Cut(free, i, size, free[i].size - size);
    if InFree(free, x) && !In(Range(free[i].addr, size), x) {
      var j :| 0 <= j < |free| && In(free[j], x);
      var k := if free[i].size == size && j > i then j - 1 else j;
      assert In(f[k], x);
    }
  }

  /** With any other size stored for the remainder the free bytes are wrong, so the list that the
      split leaves is right exactly when the remainder's size is stored. */
  lemma SplitNeedsSize(free: seq<Range>, i: nat, size: nat, rest: nat)
    requires Canonical(free) && i < |free| && 0 < size < free[i].size
    ensures (forall x: nat :: InFree(Cut(free, i, size, rest), x) <==> InFree(free, x) && !In(Range(free[i].addr, size), x))
            <==> rest == free[i].size - size
  {
    CutTakes(free, i, size);
    var f, r := Cut(free, i, size, rest), free[i];
    assert f[i] == Range(r.addr + size, rest);
    if rest < r.size - size {
      var x := r.addr + size + rest;
      assert In(free[i], x) && InFree(free, x);
      assert !InFree(f, x);
    } else if rest > r.size - size {
      assert In(f[i], End(r)) && InFree(f, End(r));
      assert !InFree(free, End(r));
    }
  }

  // ------------------------------------------------------------- what is kept

  lemma FreeClear(s: State, b: Range)
    requires Inv(s) && b in s.blocks
    ensures Clear(s.free, b) && s.base <= b.addr && End(b) <= s.wilderness
  {
    forall j | 0 <= j < |s.free| ensures Apart(s.free[j], b) {
      if !Apart(s.free[j], b) {
        var x := if s.free[j].addr < b.addr then b.addr else s.free[j].addr;
        assert In(s.free[j], x) && In(b, x);
        assert InFree(s.free, x) && InBlocks(s.blocks, x);
      }
    }
    assert In(b, b.addr) && In(b, End(b) - 1);
    assert InBlocks(s.blocks, b.addr) && InBlocks(s.blocks, End(b) - 1);
  }

  /** A block whose bytes were in no block is apart from all of them. */
  lemma NewBlockApart(blocks: set<Range>, r: Range, b: Range)
    requires r.size > 0 && b in blocks && b.size > 0 && forall x: nat :: In(r, x) ==> !InBlocks(blocks, x)
    ensures Apart(r, b)
  {
    var x := if r.addr < b.addr then b.addr else r.addr;
    assert In(b, x) ==> InBlocks(blocks, x);
  }

  lemma InBlocksAdded(blocks: set<Range>, r: Range, x: nat)
    ensures InBlocks(blocks + {r}, x) <==> InBlocks(blocks, x) || In(r, x)
  {
    assert r in blocks + {r};
    if InBlocks(blocks, x) {
      var b :| b in blocks && In(b, x);
      assert b in blocks + {r};
    }
  }

  /** Handing out bytes that were free, or new, keeps the heap tiled. */
  lemma TakenKeepsInv(s: State, t: State, r: Range)
    requires Inv(s) && r.size > 0 && t.base == s.base && t.wilderness >= s.wilderness && t.blocks == s.blocks + {r}
    requires Canonical(t.free)
    requires forall x: nat :: InFree(t.free, x) || In(r, x) <==> InFree(s.free, x) || s.wilderness <= x < t.wilderness
    requires forall x: nat :: !(InFree(t.free, x) && In(r, x))
    ensures Inv(t)
  {
    forall x: nat ensures InBlocks(t.blocks, x) <==> InBlocks(s.blocks, x) || In(r, x) {
      InBlocksAdded(s.blocks, r, x);
    }
    forall b | b in s.blocks ensures Apart(r, b) {
      NewBlockApart(s.blocks, r, b);
    }
  }

  lemma MallocKeepsInv(s: State, size: nat)
    requires Inv(s) && size > 0
    ensures Inv(Malloc(s, size).0) && Range(Malloc(s, size).1, size) !in s.blocks
  {
    if FirstFit(s.free, size) < |s.free| {
      FittedKeepsInv(s, size);
    } else {
      GrownKeepsInv(s, size);
    }
    var r := Malloc(s, size).1;
    assert In(Range(r, size), r);
  }

  lemma FittedKeepsInv(s: State, size: nat)
    requires Inv(s) && size > 0 && FirstFit(s.free, size) < |s.free|
    ensures Inv(Malloc(s, size).0) && !InBlocks(s.blocks, Malloc(s, size).1)
  {
    var i := FirstFit(s.free, size);
    var (t, r) := Malloc(s, size);
    CutTakes(s.free, i, size);
    forall x: nat | In(Range(r, size), x) ensures InFree(s.free, x) {
      assert In(s.free[i], x);
    }
    assert In(Range(r, size), r);
    TakenKeepsInv(s, t, Range(r, size));
  }

  lemma GrownKeepsInv(s: State, size: nat)
    requires Inv(s) && size > 0 && FirstFit(s.free, size) == |s.free|
    ensures Inv(Malloc(s, size).0) && !InBlocks(s.blocks, Malloc(s, size).1)
  {
    var (t, r) := Malloc(s, size);
    GrowClear(s, size);
    InsertAdds(s.free, Range(r + size, Grow(size) - size));
    NewMemory(s, t, size, Grow(size));
  }

  lemma NewMemory(s: State, t: State, size: nat, grow: nat)
    requires Inv(s) && 0 < size < grow && Canonical(t.free)
    requires t == State(s.base, s.wilderness + grow, t.free, s.blocks + {Range(s.wilderness, size)})
    requires forall x: nat :: InFree(t.free, x) <==> InFree(s.free, x) || In(Range(s.wilderness + size, grow - size), x)
    ensures Inv(t) && !InBlocks(s.blocks, s.wilderness)
  {
    TakenKeepsInv(s, t, Range(s.wilderness, size));
  }

  lemma GrowClear(s: State, size: nat)
    requires Inv(s)
    ensures Clear(s.free, Range(s.wilderness + size, Grow(size) - size))
  {
    forall j | 0 <= j < |s.free| ensures End(s.free[j]) <= s.wilderness {
      assert In(s.free[j], End(s.free[j]) - 1) && InFree(s.free, End(s.free[j]) - 1);
    }
  }

  lemma FreeKeepsInv(s: State, b: Range)
    requires Inv(s) && b in s.blocks
    ensures Inv(Free(s, b))
    ensures forall x: nat :: InFree(Free(s, b).free, x) <==> InFree(s.free, x) || In(b, x)
  {
    var t := Free(s, b);
    FreeClear(s, b);
    InsertAdds(s.free, b);
    forall x: nat ensures InBlocks(t.blocks, x) <==> InBlocks(s.blocks, x) && !In(b, x) {
      if InBlocks(s.blocks, x) && !In(b, x) {
        var c :| c in s.blocks && In(c, x);
        assert c in t.blocks;
      }
    }
  }

  // -------------------------------------------------------------- first fit

  ghost predicate AllFree(free: seq<Range>, a: nat, n: nat) {
    forall x: nat :: a <= x < a + n ==> InFree(free, x)
  }

  lemma EndNotFree(free: seq<Range>, i: nat)
    requires Canonical(free) && i < |free|
    ensures !InFree(free, End(free[i]))
  {
    forall j | 0 <= j < |free| ensures !In(free[j], End(free[i])) {
    }
  }

  /** Free bytes in a row lie in one range, since free ranges never touch. */
  lemma RunInRange(free: seq<Range>, a: nat, n: nat) returns (i: nat)
    requires Canonical(free) && n > 0 && AllFree(free, a, n)
    ensures i < |free| && free[i].addr <= a && a + n <= End(free[i])
  {
    assert InFree(free, a);
    i :| 0 <= i < |free| && In(free[i], a);
    EndNotFree(free, i);
  }

  /** A block comes from the lowest address at which it fits; the heap grows only if there is no
      such address at all. */
  lemma MallocLowest(s: State, size: nat)
    requires Inv(s) && size > 0
    ensures var (t, r) := Malloc(s, size);
            && (t.wilderness == s.wilderness <==> exists a :: AllFree(s.free, a, size))
            && (t.wilderness == s.wilderness ==> AllFree(s.free, r, size))
            && (forall a :: AllFree(s.free, a, size) ==> r <= a)
            && (t.wilderness != s.wilderness ==> r == s.wilderness && t.wilderness == r + Grow(size))
  {
    var i := FirstFit(s.free, size);
    var r := Malloc(s, size).1;
    if i < |s.free| {
      forall x: nat | r <= x < r + size ensures InFree(s.free, x) {
        assert In(s.free[i], x);
      }
      assert AllFree(s.free, r, size);
    }
    forall a: nat | AllFree(s.free, a, size) ensures i < |s.free| && r <= a {
      var k := RunInRange(s.free, a, size);
    }
  }

  // ------------------------------------------------------- giving back undoes

  /** Giving a block back restores the list that it was cut from. If the heap had to grow, the new
      memory is left free. */
  lemma FreeUndoesMalloc(s: State, size: nat)
    requires Inv(s) && size > 0
    ensures var (t, r) := Malloc(s, size);
            Free(t, Range(r, size)) ==
            if t.wilderness == s.wilderness then s
            else s.(free := Insert(s.free, Range(s.wilderness, Grow(size))), wilderness := t.wilderness)
  {
    var (t, r) := Malloc(s, size);
    var b := Range(r, size);
    MallocKeepsInv(s, size);
    FreeKeepsInv(t, b);
    assert Free(t, b).blocks == s.blocks;
    var i := FirstFit(s.free, size);
    if i < |s.free| {
      CutTakes(s.free, i, size);
      forall x: nat ensures InFree(Free(t, b).free, x) <==> InFree(s.free, x) {
        assert In(b, x) ==> In(s.free[i], x);
      }
      FreeListUnique(Free(t, b).free, s.free);
    } else {
      GrowClear(s, size);
      GrowClear(s, 0);
      InsertAdds(s.free, Range(r + size, Grow(size) - size));
      WholeGrowth(s, Grow(size));
      FreeListUnique(Free(t, b).free, Insert(s.free, Range(r, Grow(size))));
    }
  }

  lemma WholeGrowth(s: State, grow: nat)
    requires Inv(s) && grow > 0
    ensures Canonical(Insert(s.free, Range(s.wilderness, grow)))
    ensures forall x: nat ::
              InFree(Insert(s.free, Range(s.wilderness, grow)), x) <==> InFree(s.free, x) || s.wilderness <= x < s.wilderness + grow
  {
    forall j | 0 <= j < |s.free| ensures End(s.free[j]) <= s.wilderness {
      assert In(s.free[j], End(s.free[j]) - 1) && InFree(s.free, End(s.free[j]) - 1);
    }
    InsertAdds(s.free, Range(s.wilderness, grow));
  }

  /** The order in which blocks are given back does not matter. */
  lemma FreesCommute(s: State, a: Range, b: Range)
    requires Inv(s) && a in s.blocks && b in s.blocks && a != b
    ensures Free(Free(s, a), b) == Free(Free(s, b), a)
  {
    FreeKeepsInv(s, a);
    FreeKeepsInv(s, b);
    FreeKeepsInv(Free(s, a), b);
    FreeKeepsInv(Free(s, b), a);
    FreeListUnique(Free(Free(s, a), b).free, Free(Free(s, b), a).free);
    assert s.blocks - {a} - {b} == s.blocks - {b} - {a};
  }

  // ------------------------------------------------------------------- runs

  datatype Op = Allocate(size: nat) | Release(block: Range)

  /** Callers ask for at least one byte, and give back only what they were given. */
  ghost predicate Does(s: State, op: Op, t: State) {
    match op
    case Allocate(size) => size > 0 && t == Malloc(s, size).0
    case Release(b) => b in s.blocks && t == Free(s, b)
  }

  ghost predicate Runs(states: seq<State>, ops: seq<Op>) {
    |states| == |ops| + 1 && forall i :: 0 <= i < |ops| ==> Does(states[i], ops[i], states[i + 1])
  }

  /** After any calls, free ranges and blocks tile the heap; and when every block has been given
      back, all of it is one range again. */
  lemma {:induction false} AlwaysTiled(states: seq<State>, ops: seq<Op>, base: nat)
    requires Runs(states, ops) && states[0] == State(base, base, [], {})
    ensures Inv(states[|ops|]) && states[|ops|].base == base
    ensures states[|ops|].blocks == {} && states[|ops|].wilderness > base ==>
              states[|ops|].free == [Range(base, states[|ops|].wilderness - base)]
    decreases |ops|
  {
    if ops != [] {
      var n := |ops| - 1;
      AlwaysTiled(states[..n + 1], ops[..n], base);
      match ops[n] {
        case Allocate(size) => MallocKeepsInv(states[n], size);
        case Release(b) => FreeKeepsInv(states[n], b);
      }
    }
    var s := states[|ops|];
    if s.blocks == {} && s.wilderness > base {
      var whole := [Range(base, s.wilderness - base)];
      forall x: nat ensures InFree(s.free, x) <==> InFree(whole, x) {
        assert In(whole[0], x) <==> base <= x < s.wilderness;
      }
      FreeListUnique(s.free, whole);
    }
  }

  // ------------------------------------------------------- wiring new memory

  const PAGE_SIZE := 0x1000

  /** The pages that growth maps: one for every page-sized step from the old wilderness on. */
  ghost predicate Wires(from: nat, grow: nat, page: nat) {
    exists k :: 0 <= k < Steps(grow) && page == (from + k * PAGE_SIZE) / PAGE_SIZE
  }

  function Steps(grow: nat): nat {
    (grow + PAGE_SIZE - 1) / PAGE_SIZE
  }

  lemma WiredPages(from: nat, grow: nat, page: nat)
    ensures Wires(from, grow, page) <==> from / PAGE_SIZE <= page < from / PAGE_SIZE + Steps(grow)
  {
    forall k: nat ensures (from + k * PAGE_SIZE) / PAGE_SIZE == from / PAGE_SIZE + k {
    }
    if from / PAGE_SIZE <= page < from / PAGE_SIZE + Steps(grow) {
      var k := page - from / PAGE_SIZE;
      assert page == (from + k * PAGE_SIZE) / PAGE_SIZE;
    }
  }

  /** Growth maps a page over one that is in use already exactly when the heap does not end at a
      page boundary. */
  lemma GrowthMapsFreshPages(s: State, size: nat)
    requires s.base % PAGE_SIZE == 0 && s.base < s.wilderness && size > 0
    ensures (exists x: nat :: s.base <= x < s.wilderness && Wires(s.wilderness, Grow(size), x / PAGE_SIZE)) <==> s.wilderness % PAGE_SIZE != 0
  {
    var w, grow := s.wilderness, Grow(size);
    forall x: nat | s.base <= x < w && Wires(w, grow, x / PAGE_SIZE) ensures w % PAGE_SIZE != 0 {
      WiredPages(w, grow, x / PAGE_SIZE);
    }
    if w % PAGE_SIZE != 0 {
      WiredPages(w, grow, (w - 1) / PAGE_SIZE);
      assert Wires(w, grow, (w - 1) / PAGE_SIZE);
    }
  }

  lemma DoubleAligned(w: nat, size: nat)
    requires w % PAGE_SIZE == 0
    ensures (w + size * 2) % PAGE_SIZE == 0 <==> size % (PAGE_SIZE / 2) == 0
  {
    var q, r := size / 2048, size % 2048;
    assert w + size * 2 == (w / PAGE_SIZE + q) * PAGE_SIZE + r * 2;
  }

  /** The heap keeps ending at page boundaries if every block that makes it grow is small or has a
      size that is a multiple of half a page. */
  lemma GrowthStaysAligned(s: State, size: nat)
    requires s.wilderness % PAGE_SIZE == 0
    ensures (s.wilderness + Grow(size)) % PAGE_SIZE == 0 <==> size * 2 < MIN_GROW || size % (PAGE_SIZE / 2) == 0
  {
    DoubleAligned(s.wilderness, size);
  }
}

/** The object allocator above the heap: objects of one size cut from slabs, which are heap blocks
    that are never given back. */
module Slab {
  import opened Arithmetic
  import opened Wrappers
  import opened Heap

  /** `slabs` and `live` record what the allocator has taken and handed out. */
  datatype Allocator = Allocator(objectSize: nat, slabSize: nat, freeList: seq<nat>, wilderness: Option<nat>, offset: nat,
                                 slabs: set<Range>, live: set<nat>)

  datatype World = World(heap: State, allocators: seq<Allocator>)

  function Empty(objectSize: nat, slabSize: nat): Allocator {
    Allocator(objectSize, slabSize, [], None, 0, {}, {})
  }

  predicate NeedsSlab(sa: Allocator) {
    sa.wilderness.None? || sa.offset + sa.objectSize > sa.slabSize
  }

  /** A new slab, of which nothing is used. */
  function NewSlab(s: State, sa: Allocator): (State, Allocator) {
    var (t, r) := Malloc(s, sa.slabSize);
    (t, sa.(wilderness := Some(r), offset := 0, slabs := sa.slabs + {Range(r, sa.slabSize)}))
  }

  /** The next unused object of the current slab. */
  function Carve(sa: Allocator): (Allocator, nat)
    requires sa.wilderness.Some?
  {
    var o := sa.wilderness.value + sa.offset;
    (sa.(offset := sa.offset + sa.objectSize, live := sa.live + {o}), o)
  }

  function Alloc(s: State, sa: Allocator): (State, Allocator, nat) {
    if sa.freeList != [] then
      (s, sa.(freeList := sa.freeList[1..], live := sa.live + {sa.freeList[0]}), sa.freeList[0])
    else
      var (t, ready) := if NeedsSlab(sa) then NewSlab(s, sa) else (s, sa);
      var (after, o) := Carve(ready);
      (t, after, o)
  }

  function Release(sa: Allocator, o: nat): Allocator {
    sa.(freeList := [o] + sa.freeList, live := sa.live - {o})
  }

  /** The object that was given back last is handed out first, and all is as it was. */
  lemma LastBackFirstOut(s: State, sa: Allocator, o: nat)
    requires o in sa.live
    ensures Alloc(s, Release(sa, o)) == (s, sa, o)
  {
    assert ([o] + sa.freeList)[1..] == sa.freeList;
    assert sa.live - {o} + {o} == sa.live;
  }

  // -------------------------------------------------------------- invariant

  /** Object `o` is place number `n` of slab `b`, and has been used. */
  predicate At(sa: Allocator, o: nat, b: Range, n: nat) {
    && b in sa.slabs && o == b.addr + n * sa.objectSize && (n + 1) * sa.objectSize <= sa.slabSize
    && (sa.wilderness == Some(b.addr) ==> n * sa.objectSize < sa.offset)
  }

  ghost predicate Placed(sa: Allocator, o: nat) {
    exists b, n :: At(sa, o, b, n)
  }

  predicate Known(sa: Allocator, o: nat) {
    o in sa.live || o in sa.freeList
  }

  ghost predicate AllocatorOk(sa: Allocator) {
    && 0 < sa.objectSize <= sa.slabSize
    && (forall b :: b in sa.slabs ==> b.size == sa.slabSize)
    && (forall o :: Known(sa, o) ==> Placed(sa, o))
    && (forall i, j :: 0 <= i < j < |sa.freeList| ==> sa.freeList[i] != sa.freeList[j])
    && (forall o :: o in sa.live ==> o !in sa.freeList)
    && (sa.wilderness.Some? ==> Range(sa.wilderness.value, sa.slabSize) in sa.slabs)
    && (exists n: nat :: sa.offset == n * sa.objectSize)
  }

  ghost predicate Disjoint(allocators: seq<Allocator>) {
    forall i, j :: 0 <= i < j < |allocators| ==> allocators[i].slabs !! allocators[j].slabs
  }

  ghost predicate WorldOk(w: World) {
    && Inv(w.heap) && Disjoint(w.allocators)
    && (forall i :: 0 <= i < |w.allocators| ==> AllocatorOk(w.allocators[i]) && w.allocators[i].slabs <= w.heap.blocks)
  }

  // ---------------------------------------------------- objects do not overlap

  /** Two used objects of one allocator share no byte. */
  lemma ObjectsApart(s: State, sa: Allocator, o: nat, p: nat)
    requires Inv(s) && AllocatorOk(sa) && sa.slabs <= s.blocks && Known(sa, o) && Known(sa, p) && o != p
    ensures Apart(Range(o, sa.objectSize), Range(p, sa.objectSize))
  {
    var b, n :| At(sa, o, b, n);
    var c, m :| At(sa, p, c, m);
    InSlab(sa, o, b, n);
    InSlab(sa, p, c, m);
    if b == c {
      if n < m {
        StepsApart(sa.objectSize, n, m);
      } else {
        StepsApart(sa.objectSize, m, n);
      }
    } else {
      assert Apart(b, c);
    }
  }

  lemma InSlab(sa: Allocator, o: nat, b: Range, n: nat)
    requires AllocatorOk(sa) && At(sa, o, b, n)
    ensures b.addr <= o && o + sa.objectSize <= End(b)
  {
    assert (n + 1) * sa.objectSize == n * sa.objectSize + sa.objectSize;
  }

  /** A live thing of the heap: a block that a caller holds, or an object of an allocator. */
  datatype Thing = Block(r: Range) | Object(allocator: nat, o: nat)

  ghost predicate Live(w: World, t: Thing) {
    match t
    case Block(r) => r in w.heap.blocks && forall i :: 0 <= i < |w.allocators| ==> r !in w.allocators[i].slabs
    case Object(i, o) => i < |w.allocators| && o in w.allocators[i].live
  }

  function Extent(w: World, t: Thing): Range {
    match t
    case Block(r) => r
    case Object(i, o) => Range(o, if i < |w.allocators| then w.allocators[i].objectSize else 0)
  }

  /** The heap block that a live thing lies in. */
  lemma Home(w: World, t: Thing) returns (b: Range)
    requires WorldOk(w) && Live(w, t)
    ensures b in w.heap.blocks && b.addr <= Extent(w, t).addr && End(Extent(w, t)) <= End(b)
    ensures t.Block? ==> b == t.r
    ensures t.Object? ==> b in w.allocators[t.allocator].slabs
  {
    match t {
      case Block(r) =>
        b := r;
      case Object(i, o) =>
        assert Known(w.allocators[i], o);
        var n: nat;
        b, n :| At(w.allocators[i], o, b, n);
        InSlab(w.allocators[i], o, b, n);
    }
  }

  lemma LiveApart(w: World, t: Thing, u: Thing)
    requires WorldOk(w) && Live(w, t) && Live(w, u) && t != u
    ensures Apart(Extent(w, t), Extent(w, u))
  {
    var b := Home(w, t);
    var c := Home(w, u);
    if b == c {
      assert t.Object? && u.Object? && t.allocator == u.allocator;
      assert Known(w.allocators[t.allocator], t.o) && Known(w.allocators[u.allocator], u.o);
      ObjectsApart(w.heap, w.allocators[t.allocator], t.o, u.o);
    } else {
      assert Apart(b, c);
    }
  }

  // ------------------------------------------------------------- what is kept

  lemma AllocReuses(sa: Allocator)
    requires AllocatorOk(sa) && sa.freeList != []
    ensures AllocatorOk(sa.(freeList := sa.freeList[1..], live := sa.live + {sa.freeList[0]})) && sa.freeList[0] !in sa.live
  {
    var after := sa.(freeList := sa.freeList[1..], live := sa.live + {sa.freeList[0]});
    forall o | Known(after, o) ensures Placed(after, o) {
      assert Known(sa, o);
      var b, n :| At(sa, o, b, n);
      assert At(after, o, b, n);
    }
  }

  lemma ReleaseKeeps(sa: Allocator, o: nat)
    requires AllocatorOk(sa) && o in sa.live
    ensures AllocatorOk(Release(sa, o))
  {
    var after := Release(sa, o);
    forall p | Known(after, p) ensures Placed(after, p) {
      assert Known(sa, p);
      var b, n :| At(sa, p, b, n);
      assert At(after, p, b, n);
    }
  }

  /** The next place of the slab lies in no object that is in use. */
  lemma CarveKeeps(sa: Allocator)
    requires AllocatorOk(sa) && !NeedsSlab(sa)
    requires forall b, c :: b in sa.slabs && c in sa.slabs && b != c ==> Apart(b, c)
    ensures AllocatorOk(Carve(sa).0) && !Known(sa, Carve(sa).1)
  {
    var (after, o) := Carve(sa);
    var k: nat :| sa.offset == k * sa.objectSize;
    var b := Range(sa.wilderness.value, sa.slabSize);
    assert (k + 1) * sa.objectSize == sa.offset + sa.objectSize;
    assert At(after, o, b, k);
    forall c, n | At(sa, o, c, n) ensures c == b {
      InSlab(sa, o, c, n);
    }
    assert forall c, n :: !At(sa, o, c, n);
    assert !Placed(sa, o) && !Known(sa, o);
    forall p | Known(after, p) ensures Placed(after, p) {
      if p != o {
        assert Known(sa, p);
        var c, n :| At(sa, p, c, n);
        assert At(after, p, c, n);
      }
    }
  }

  lemma NewSlabKeeps(s: State, sa: Allocator)
    requires Inv(s) && AllocatorOk(sa) && sa.slabs <= s.blocks
    ensures var (t, ready) := NewSlab(s, sa);
            && Inv(t) && AllocatorOk(ready) && ready.slabs <= t.blocks && !NeedsSlab(ready)
            && ready.slabs == sa.slabs + {Range(ready.wilderness.value, sa.slabSize)}
            && Range(ready.wilderness.value, sa.slabSize) !in s.blocks
            && t.blocks == s.blocks + {Range(ready.wilderness.value, sa.slabSize)}
  {
    MallocKeepsInv(s, sa.slabSize);
    var ready := NewSlab(s, sa).1;
    assert ready.offset == 0 * ready.objectSize;
    forall o | Known(ready, o) ensures Placed(ready, o) {
      assert Known(sa, o);
      var b, n :| At(sa, o, b, n);
      assert b != Range(ready.wilderness.value, sa.slabSize);
      assert b.addr != ready.wilderness.value;
      assert At(ready, o, b, n);
    }
  }

  /** An object that is handed out was not in use. */
  lemma AllocKeeps(s: State, sa: Allocator)
    requires Inv(s) && AllocatorOk(sa) && sa.slabs <= s.blocks
    ensures var (t, after, o) := Alloc(s, sa);
            && Inv(t) && AllocatorOk(after) && after.slabs <= t.blocks && o !in sa.live && after.live == sa.live + {o}
            && s.blocks <= t.blocks && t.blocks - s.blocks == after.slabs - sa.slabs && sa.slabs <= after.slabs
  {
    if sa.freeList != [] {
      AllocReuses(sa);
    } else if NeedsSlab(sa) {
      NewSlabKeeps(s, sa);
      CarveKeeps(NewSlab(s, sa).1);
      assert !Known(NewSlab(s, sa).1, Alloc(s, sa).2);
    } else {
      CarveKeeps(sa);
      assert !Known(sa, Alloc(s, sa).2);
    }
  }

  // ------------------------------------------------------------------- runs

  datatype Op = Get(size: nat) | Give(block: Range) | GetObject(allocator: nat) | GiveObject(allocator: nat, o: nat)

  ghost predicate Does(w: World, op: Op, x: World) {
    match op
    case Get(size) => size > 0 && x == w.(heap := Malloc(w.heap, size).0)
    case Give(b) => Live(w, Block(b)) && x == w.(heap := Free(w.heap, b))
    case GetObject(i) =>
      && i < |w.allocators|
      && x == World(Alloc(w.heap, w.allocators[i]).0, w.allocators[i := Alloc(w.heap, w.allocators[i]).1])
    case GiveObject(i, o) =>
      && Live(w, Object(i, o)) && x == w.(allocators := w.allocators[i := Release(w.allocators[i], o)])
  }

  lemma GetObjectKeeps(w: World, i: nat, x: World)
    requires WorldOk(w) && Does(w, GetObject(i), x)
    ensures WorldOk(x)
  {
    AllocKeeps(w.heap, w.allocators[i]);
  }

  lemma StepKeepsOk(w: World, op: Op, x: World)
    requires WorldOk(w) && Does(w, op, x)
    ensures WorldOk(x)
  {
    match op {
      case Get(size) => MallocKeepsInv(w.heap, size);
      case Give(b) => FreeKeepsInv(w.heap, b);
      case GetObject(i) => GetObjectKeeps(w, i, x);
      case GiveObject(i, o) => ReleaseKeeps(w.allocators[i], o);
    }
  }

  ghost predicate Runs(worlds: seq<World>, ops: seq<Op>) {
    |worlds| == |ops| + 1 && forall i :: 0 <= i < |ops| ==> Does(worlds[i], ops[i], worlds[i + 1])
  }

  /** An empty heap and allocators whose objects fit into their slabs. */
  ghost predicate Starts(w: World) {
    && w.heap == State(w.heap.base, w.heap.base, [], {})
    && forall i :: 0 <= i < |w.allocators| ==>
         && 0 < w.allocators[i].objectSize <= w.allocators[i].slabSize
         && w.allocators[i] == Empty(w.allocators[i].objectSize, w.allocators[i].slabSize)
  }

  /** However blocks and objects are taken and given back, no two that are live share a byte. */
  lemma {:induction false} AlwaysApart(worlds: seq<World>, ops: seq<Op>, t: Thing, u: Thing)
    requires Runs(worlds, ops) && Starts(worlds[0])
    requires Live(worlds[|ops|], t) && Live(worlds[|ops|], u) && t != u
    ensures Apart(Extent(worlds[|ops|], t), Extent(worlds[|ops|], u))
  {
    AlwaysOk(worlds, ops);
    LiveApart(worlds[|ops|], t, u);
  }

  lemma {:induction false} AlwaysOk(worlds: seq<World>, ops: seq<Op>)
    requires Runs(worlds, ops) && Starts(worlds[0])
    ensures WorldOk(worlds[|ops|])
    decreases |ops|
  {
    if ops == [] {
      forall i | 0 <= i < |worlds[0].allocators| ensures AllocatorOk(worlds[0].allocators[i]) {
        assert worlds[0].allocators[i].offset == 0 * worlds[0].allocators[i].objectSize;
      }
    } else {
      var n := |ops| - 1;
      AlwaysOk(worlds[..n + 1], ops[..n]);
      StepKeepsOk(worlds[n], ops[n], worlds[n + 1]);
    }
  }
}

/** The heap and the object allocator as they change their state. */
module HeapProgram {
  import opened Wrappers
  import opened Heap
  import Slab

  /** The first range that is large enough is where the walk stops. */
  lemma {:induction false} FirstFitAt(free: seq<Range>, size: nat, i: nat)
    requires i <= |free| && (i < |free| ==> free[i].size >= size)
    requires forall j :: 0 <= j < i ==> free[j].size < size
    ensures FirstFit(free, size) == i
  {
    if i > 0 {
      FirstFitAt(free[1..], size, i - 1);
    }
  }

  function Placed(free: seq<Range>, i: nat, r: Range): seq<Range>
    requires i <= |free|
  {
    free[..i] + [r] + free[i..]
  }

  /** Merges range `i` with the next one if they touch. */
  function Joined(f: seq<Range>, i: nat): seq<Range> {
    if f == [] then f
    else if i == 0 then Front(f[0], f[1..])
    else [f[0]] + Joined(f[1..], i - 1)
  }

  lemma {:induction false} JoinedSlices(f: seq<Range>, i: nat)
    ensures Joined(f, i) ==
            if i + 1 < |f| && End(f[i]) == f[i + 1].addr
            then f[..i] + [Range(f[i].addr, f[i].size + f[i + 1].size)] + f[i + 2..]
            else f
  {
    if f != [] {
      var rest := f[1..];
      assert f == [f[0]] + rest;
      if i == 0 {
        assert |f| > 1 ==> rest[1..] == f[2..];
      } else {
        JoinedSlices(rest, i - 1);
        if i + 1 < |f| {
          assert f[..i] == [f[0]] + rest[..i - 1] && f[i + 2..] == rest[i + 1..];
        }
      }
    }
  }

  predicate PlaceFor(free: seq<Range>, r: Range, i: nat) {
    && i <= |free| && (forall j :: 0 <= j < i ==> free[j].addr < r.addr)
    && (forall j :: i <= j < |free| ==> r.addr < free[j].addr)
  }

  function JoinedBoth(f: seq<Range>, i: nat): seq<Range> {
    if i > 0 then Joined(Joined(f, i), i - 1) else Joined(f, 0)
  }

  lemma JoinedUnder(a: Range, f: seq<Range>, i: nat)
    ensures Joined([a] + f, i) == if i == 0 then Front(a, f) else [a] + Joined(f, i - 1)
  {
    assert ([a] + f)[1..] == f;
  }

  /** A range that goes further down the list does not come to touch the first one. */
  lemma InsertedBeyond(a: Range, rest: seq<Range>, r: Range)
    requires rest != [] && End(a) < rest[0].addr <= r.addr
    ensures Front(a, Insert(rest, r)) == [a] + Insert(rest, r)
  {
  }

  lemma PlacedUnder(free: seq<Range>, i: nat, r: Range)
    requires 0 < i <= |free|
    ensures Placed(free, i, r) == [free[0]] + Placed(free[1..], i - 1, r)
  {
  }

  lemma JoinedBothUnder(a: Range, f: seq<Range>, i: nat)
    requires i > 0
    ensures JoinedBoth([a] + f, i) == if i == 1 then Front(a, JoinedBoth(f, 0)) else [a] + JoinedBoth(f, i - 1)
  {
    JoinedUnder(a, f, i);
    JoinedUnder(a, Joined(f, i - 1), i - 1);
  }

  /** Placing a range and merging it with the next and then with the previous one is inserting it. */
  lemma {:induction false} InsertInPlace(free: seq<Range>, r: Range, i: nat)
    requires Canonical(free) && PlaceFor(free, r, i)
    ensures Insert(free, r) == JoinedBoth(Placed(free, i, r), i)
  {
    if i == 0 {
      JoinedUnder(r, free, 0);
      assert Placed(free, 0, r) == [r] + free;
    } else {
      var a, rest := free[0], free[1..];
      var inner := Placed(rest, i - 1, r);
      PlacedUnder(free, i, r);
      JoinedBothUnder(a, inner, i);
      InsertInPlace(rest, r, i - 1);
      if i > 1 {
        InsertedBeyond(a, rest, r);
      }
    }
  }

  class KernelHeap {
    const base: nat
    var wilderness: nat
    var free: seq<Range>
    ghost var blocks: set<Range>

    ghost function View(): State
      reads this
    {
      State(base, wilderness, free, blocks)
    }

    constructor (start: nat)
      ensures View() == State(start, start, [], {}) && Inv(View())
    {
      base, wilderness, free, blocks := start, start, [], {};
    }

    /** Walks the ranges in order to one that is large enough. */
    method FindFit(size: nat) returns (i: nat)
      ensures i == FirstFit(free, size)
    {
      i := 0;
      while i < |free| && free[i].size < size
        invariant i <= |free|
        invariant forall j :: 0 <= j < i ==> free[j].size < size
      {
        i := i + 1;
      }
      FirstFitAt(free, size, i);
    }

    /** Removes the range, or lops a slice off its front. */
    method TakeFrom(i: nat, size: nat) returns (result: nat)
      requires i < |free| && free[i].size >= size
      modifies this`free
      ensures result == old(free)[i].addr && free == Cut(old(free), i, size, old(free)[i].size - size)
    {
      result := free[i].addr;
      if free[i].size == size {
        free := free[..i] + free[i + 1..];
      } else {
        free := free[i := Range(free[i].addr + size, free[i].size - size)];
      }
    }

    /** Moves the end of the heap up and leaves what is not needed free. */
    method GrowFor(size: nat) returns (result: nat)
      requires Canonical(free) && Clear(free, Range(wilderness + size, Grow(size) - size)) && size > 0
      modifies this`free, this`wilderness
      ensures result == old(wilderness) && wilderness == result + Grow(size)
      ensures free == Insert(old(free), Range(result + size, Grow(size) - size))
    {
      var growSize := size * 2;
      if growSize < MIN_GROW {
        growSize := MIN_GROW;
      }
      result := wilderness;
      wilderness := wilderness + growSize;
      InsertFreeRange(Range(result + size, growSize - size));
    }

    method Kmalloc(size: nat) returns (result: nat)
      requires Inv(View()) && size > 0
      modifies this
      ensures Inv(View()) && (View(), result) == Malloc(old(View()), size)
    {
      ghost var start, after, r := View(), Malloc(View(), size).0, Malloc(View(), size).1;
      MallocKeepsInv(start, size);
      var i := FindFit(size);
      if i < |free| {
        result := TakeFrom(i, size);
        assert after == State(base, wilderness, free, start.blocks + {Range(r, size)}) && result == r;
      } else {
        GrowClear(start, size);
        result := GrowFor(size);
        assert after == State(base, wilderness, free, start.blocks + {Range(r, size)}) && result == r;
      }
      blocks := blocks + {Range(result, size)};
      assert View() == after;
    }

    method Kfree(addr: nat, size: nat)
      requires Inv(View()) && Range(addr, size) in blocks
      modifies this
      ensures Inv(View()) && View() == Free(old(View()), Range(addr, size))
    {
      FreeClear(View(), Range(addr, size));
      FreeKeepsInv(View(), Range(addr, size));
      InsertFreeRange(Range(addr, size));
      blocks := blocks - {Range(addr, size)};
    }

    method FindPlace(r: Range) returns (i: nat)
      requires Canonical(free) && r.size > 0 && Clear(free, r)
      ensures PlaceFor(free, r, i)
    {
      assert forall j :: 0 <= j < |free| ==> Apart(free[j], r) && free[j].addr != r.addr;
      if free == [] || r.addr < free[0].addr {
        return 0;
      }
      var prev := 0;
      while !(prev + 1 == |free| || (r.addr > free[prev].addr && r.addr < free[prev + 1].addr))
        invariant prev < |free| && free[prev].addr < r.addr
        decreases |free| - prev
      {
        prev := prev + 1;
      }
      i := prev + 1;
    }

    method JoinNext(i: nat)
      modifies this`free
      ensures free == Joined(old(free), i)
    {
      JoinedSlices(free, i);
      if i + 1 < |free| && End(free[i]) == free[i + 1].addr {
        free := free[..i] + [Range(free[i].addr, free[i].size + free[i + 1].size)] + free[i + 2..];
      }
    }

    /** Walks to the place of the range, puts it there, and merges it with its neighbours. */
    method InsertFreeRange(r: Range)
      requires Canonical(free) && r.size > 0 && Clear(free, r)
      modifies this`free
      ensures free == Insert(old(free), r)
    {
      var i := FindPlace(r);
      InsertInPlace(free, r, i);
      free := free[..i] + [r] + free[i..];
      JoinNext(i);
      if i > 0 {
        JoinNext(i - 1);
      }
    }
  }

  class SlabAllocator {
    const objectSize: nat
    const slabSize: nat
    var freeList: seq<nat>
    var wildernessSlab: Option<nat>
    var wildernessOffset: nat
    ghost var slabs: set<Range>
    ghost var live: set<nat>

    ghost function View(): Slab.Allocator
      reads this
    {
      Slab.Allocator(objectSize, slabSize, freeList, wildernessSlab, wildernessOffset, slabs, live)
    }

    constructor (size: nat, slab: nat)
      ensures View() == Slab.Empty(size, slab)
    {
      objectSize, slabSize := size, slab;
      freeList, wildernessSlab, wildernessOffset, slabs, live := [], None, 0, {}, {};
    }

    method SlabAlloc(heap: KernelHeap) returns (o: nat)
      requires Inv(heap.View()) && Slab.AllocatorOk(View()) && slabs <= heap.blocks
      modifies this, heap
      ensures (heap.View(), View(), o) == Slab.Alloc(old(heap.View()), old(View()))
      ensures Inv(heap.View()) && Slab.AllocatorOk(View()) && slabs <= heap.blocks && o !in old(live)
    {
      Slab.AllocKeeps(heap.View(), View());
      if freeList != [] {
        o := freeList[0];
        freeList := freeList[1..];
      } else {
        if wildernessSlab.None? || wildernessOffset + objectSize > slabSize {
          var slab := heap.Kmalloc(slabSize);
          wildernessSlab := Some(slab);
          wildernessOffset := 0;
          slabs := slabs + {Range(slab, slabSize)};
        }
        o := wildernessSlab.value + wildernessOffset;
        wildernessOffset := wildernessOffset + objectSize;
      }
      live := live + {o};
    }

    method SlabFree(o: nat)
      requires Slab.AllocatorOk(View()) && o in live
      modifies this
      ensures Slab.AllocatorOk(View()) && View() == Slab.Release(old(View()), o)
    {
      Slab.ReleaseKeeps(View(), o);
      freeList := [o] + freeList;
      live := live - {o};
    }
  }
}

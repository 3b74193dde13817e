/** Runs of a machine whose programs fault, store, and create caches and areas: every area is a
    private memory. */
module VmRun {
  import opened Words
  import opened Wrappers
  import opened VmState
  import opened VmFault
  import opened VmMapping

  datatype Op =
    | Fault(area: nat, v: nat, isStore: bool)
    | Store(area: nat, v: nat, i: nat, x: Byte)
    | NewCache(file: Option<seq<Byte>>, source: Option<nat>)
    | NewArea(added: Area)

  ghost predicate InArea(vm: Vm, a: nat, v: nat) {
    a < |vm.areas| && Shows(vm.areas[a], vm.areas[a].space, v)
  }

  ghost predicate OwnedBy(areas: seq<Area>, k: Key) {
    exists a :: 0 <= a < |areas| && Shows(areas[a], k.whose, k.page)
  }

  ghost predicate Good(vm: Vm) {
    Inv(vm) && forall k :: k in vm.ptes ==> OwnedBy(vm.areas, k)
  }

  /** The hardware lets a store through to the page when the mapping is writable. */
  ghost predicate Stores(vm: Vm, a: nat, v: nat, i: nat, x: Byte, f: Vm) {
    && InArea(vm, a, v) && i < PAGE_SIZE
    && var k := Key(vm.areas[a].space, v);
       && k in vm.ptes && vm.ptes[k].writable && vm.ptes[k].page < |vm.pages|
       && f == SetData(vm, vm.ptes[k].page, vm.pages[vm.ptes[k].page].data[i := x])
  }

  ghost predicate Faults(vm: Vm, a: nat, v: nat, isStore: bool, f: Vm)
    requires Inv(vm)
  {
    && InArea(vm, a, v)
    && match SoftFault(vm, vm.areas[a], v, isStore)
       case Refused => f == vm
       case OutOfMemory => false
       case Handled(g) => f == g
  }

  /** A cache that an area writes directly does not become a source. */
  ghost predicate CreatesCache(vm: Vm, file: Option<seq<Byte>>, source: Option<nat>, f: Vm) {
    && f == vm.(caches := vm.caches + [Cache(file, source)])
    && (source.Some? ==> source.value < |vm.caches|)
    && forall a :: 0 <= a < |vm.areas| && vm.areas[a].writable ==> source != Some(vm.areas[a].cache)
  }

  /** Areas keep to the rules for sharing caches. */
  ghost predicate CreatesArea(vm: Vm, area: Area, f: Vm) {
    f == vm.(areas := vm.areas + [area]) && AreasOk(f)
  }

  ghost predicate Does(vm: Vm, op: Op, f: Vm)
    requires Inv(vm)
  {
    match op
    case Fault(a, v, isStore) => Faults(vm, a, v, isStore, f)
    case Store(a, v, i, x) => Stores(vm, a, v, i, x, f)
    case NewCache(file, source) => CreatesCache(vm, file, source, f)
    case NewArea(area) => CreatesArea(vm, area, f)
  }

  // ------------------------------------------------------------------ stores

  /** The page that a store goes to is seen by the storing area alone, and there only once. */
  lemma OnlyViewer(vm: Vm, a: nat, v: nat, b: nat, o: nat, p: nat)
    requires Inv(vm) && InArea(vm, a, v) && Key(vm.areas[a].space, v) in vm.ptes
    requires vm.ptes[Key(vm.areas[a].space, v)].writable && p == vm.ptes[Key(vm.areas[a].space, v)].page
    requires b < |vm.areas| && Covers(vm.areas[b], o)
    ensures Resolve(vm.caches, vm.index, vm.areas[b].cache, o) == InPage(p) <==> b == a && o == OffsetOf(vm.areas[a], v)
  {
    assert PteOk(vm, a, v);
    assert Covers(vm.areas[a], OffsetOf(vm.areas[a], v));
    if Resolve(vm.caches, vm.index, vm.areas[b].cache, o) == InPage(p) {
      var k := ResolvedCache(vm.caches, vm.index, vm.areas[b].cache, o);
      assert Key(k, o) == Key(vm.areas[a].cache, OffsetOf(vm.areas[a], v));
      WritableHead(vm, a, vm.areas[b].cache);
      assert BothCover(vm.areas[a], vm.areas[b], o);
    }
  }

  lemma StoreWritesOne(vm: Vm, a: nat, v: nat, i: nat, x: Byte, f: Vm, b: nat, o: nat)
    requires Inv(vm) && Stores(vm, a, v, i, x, f) && b < |vm.areas| && Covers(vm.areas[b], o)
    ensures Bytes(f, vm.areas[b], o) ==
            if b == a && o == OffsetOf(vm.areas[a], v) then Bytes(vm, vm.areas[b], o)[i := x] else Bytes(vm, vm.areas[b], o)
  {
    OnlyViewer(vm, a, v, b, o, vm.ptes[Key(vm.areas[a].space, v)].page);
  }

  lemma StoreKeepsInv(vm: Vm, a: nat, v: nat, i: nat, x: Byte, f: Vm)
    requires Inv(vm) && Stores(vm, a, v, i, x, f)
    ensures Inv(f)
  {
    assert AreasOk(f);
    forall q | 0 <= q < |f.pages| ensures Use(f, q) <= f.pages[q].refCount {
      assert Use(vm, q) <= vm.pages[q].refCount;
    }
    forall b, w | 0 <= b < |f.areas| && Shows(f.areas[b], f.areas[b].space, w) ensures PteOk(f, b, w) {
      assert PteOk(vm, b, w);
    }
    forall k | k in f.index && f.index[k] < |f.pages| && f.pages[f.index[k]].dirty
      ensures exists e :: 0 <= e < |f.areas| && f.areas[e].writable && f.areas[e].cache == k.whose
    {
      assert vm.pages[vm.index[k]].dirty;
    }
  }

  // ------------------------------------------------------- caches and areas

  lemma {:induction false} LongerChains(caches: seq<Cache>, x: Cache, index: map<Key, nat>, c: nat, o: nat, k: nat)
    requires SourcesOlder(caches) && SourcesOlder(caches + [x]) && c < |caches|
    ensures Resolve(caches + [x], index, c, o) == Resolve(caches, index, c, o)
    ensures InChain(caches + [x], c, k) <==> InChain(caches, c, k)
    decreases c
  {
    if caches[c].source.Some? {
      LongerChains(caches, x, index, caches[c].source.value, o, k);
    }
  }

  lemma {:induction false} ResolvedOlder(caches: seq<Cache>, index: map<Key, nat>, c: nat, o: nat)
    requires SourcesOlder(caches) && c < |caches|
    ensures Resolve(caches, index, c, o).InFile? ==> Resolve(caches, index, c, o).cache < |caches|
    decreases c
  {
    if caches[c].source.Some? {
      ResolvedOlder(caches, index, caches[c].source.value, o);
    }
  }

  lemma LongerMeet(caches: seq<Cache>, x: Cache, c: nat, d: nat)
    requires SourcesOlder(caches) && SourcesOlder(caches + [x]) && c < |caches| && d < |caches|
    requires Meet(caches + [x], c, d)
    ensures Meet(caches, c, d)
  {
    var k :| 0 <= k < |caches + [x]| && InChain(caches + [x], c, k) && InChain(caches + [x], d, k);
    LongerChains(caches, x, map[], c, 0, k);
    LongerChains(caches, x, map[], d, 0, k);
    ChainOlder(caches, c, k);
  }

  lemma NewCacheAreas(vm: Vm, file: Option<seq<Byte>>, source: Option<nat>, f: Vm)
    requires Inv(vm) && CreatesCache(vm, file, source, f)
    ensures AreasOk(f)
  {
    assert SourcesOlder(f.caches);
    forall a, b, o | 0 <= a < |f.areas| && 0 <= b < |f.areas| && BothCover(f.areas[a], f.areas[b], o)
                     && Meet(f.caches, f.areas[a].cache, f.areas[b].cache)
      ensures f.areas[a].fileEnd == f.areas[b].fileEnd
    {
      LongerMeet(vm.caches, Cache(file, source), f.areas[a].cache, f.areas[b].cache);
    }
  }

  lemma NewCacheKeeps(vm: Vm, file: Option<seq<Byte>>, source: Option<nat>, f: Vm)
    requires Inv(vm) && CreatesCache(vm, file, source, f)
    ensures Inv(f) && forall b, o :: 0 <= b < |vm.areas| ==> Bytes(f, vm.areas[b], o) == Bytes(vm, vm.areas[b], o)
  {
    NewCacheAreas(vm, file, source, f);
    forall q | 0 <= q < |f.pages| ensures Use(f, q) <= f.pages[q].refCount {
      assert Use(vm, q) <= vm.pages[q].refCount;
    }
    forall b, w | 0 <= b < |f.areas| && Shows(f.areas[b], f.areas[b].space, w) ensures PteOk(f, b, w) {
      assert PteOk(vm, b, w);
      LongerChains(vm.caches, Cache(file, source), vm.index, vm.areas[b].cache, OffsetOf(vm.areas[b], w), 0);
    }
    forall b, o: nat | 0 <= b < |vm.areas| ensures Bytes(f, vm.areas[b], o) == Bytes(vm, vm.areas[b], o) {
      LongerChains(vm.caches, Cache(file, source), vm.index, vm.areas[b].cache, o, 0);
      ResolvedOlder(vm.caches, vm.index, vm.areas[b].cache, o);
    }
  }

  lemma NewAreaPte(vm: Vm, area: Area, f: Vm, b: nat, w: nat)
    requires Good(vm) && CreatesArea(vm, area, f) && InArea(f, b, w)
    ensures PteOk(f, b, w)
  {
    if b < |vm.areas| {
      assert PteOk(vm, b, w);
    } else if Key(area.space, w) in vm.ptes {
      var a :| 0 <= a < |vm.areas| && Shows(vm.areas[a], area.space, w);
      assert BothShow(f.areas[a], f.areas[b], w);
    }
  }

  lemma NewAreaDirty(vm: Vm, area: Area, f: Vm)
    requires DirtyOk(vm) && f == vm.(areas := vm.areas + [area])
    ensures DirtyOk(f)
  {
    forall k | k in f.index && f.index[k] < |f.pages| && f.pages[f.index[k]].dirty
      ensures exists e :: 0 <= e < |f.areas| && f.areas[e].writable && f.areas[e].cache == k.whose
    {
      var e :| 0 <= e < |vm.areas| && vm.areas[e].writable && vm.areas[e].cache == k.whose;
      assert f.areas[e] == vm.areas[e];
    }
  }

  lemma NewAreaKeeps(vm: Vm, area: Area, f: Vm)
    requires Good(vm) && CreatesArea(vm, area, f)
    ensures Good(f)
  {
    assert CountsOk(f) by {
      assert forall q :: 0 <= q < |f.pages| ==> Use(f, q) == Use(vm, q);
    }
    NewAreaDirty(vm, area, f);
    forall k | k in f.ptes ensures OwnedBy(f.areas, k) {
      var a :| 0 <= a < |vm.areas| && Shows(vm.areas[a], k.whose, k.page);
      assert Shows(f.areas[a], k.whose, k.page);
    }
    forall b, w | 0 <= b < |f.areas| && Shows(f.areas[b], f.areas[b].space, w) ensures PteOk(f, b, w) {
      NewAreaPte(vm, area, f, b, w);
    }
  }

  // -------------------------------------------------------------------- runs

  /** What the stores of a run make of page `o` of area `a`. */
  ghost function Written(area: Area, a: nat, o: nat, ops: seq<Op>, data: PageData): PageData
    decreases |ops|
  {
    if ops == [] then data else Wrote(area, a, o, ops[|ops| - 1], Written(area, a, o, ops[..|ops| - 1], data))
  }

  ghost function Wrote(area: Area, a: nat, o: nat, op: Op, data: PageData): PageData {
    if op.Store? && op.area == a && area.low <= op.v && op.i < PAGE_SIZE && o == OffsetOf(area, op.v) then data[op.i := op.x]
    else data
  }

  /** The areas of before are there, and each saw its own stores and no others. */
  ghost predicate Private(vm: Vm, op: Op, f: Vm)
    requires AreasOk(vm) && AreasOk(f)
  {
    && |vm.areas| <= |f.areas| && f.areas[..|vm.areas|] == vm.areas
    && forall b, o :: 0 <= b < |vm.areas| && Covers(vm.areas[b], o) ==>
         Bytes(f, vm.areas[b], o) == Wrote(vm.areas[b], b, o, op, Bytes(vm, vm.areas[b], o))
  }

  lemma FaultKeepsOwners(vm: Vm, a: nat, v: nat, isStore: bool, f: Vm)
    requires Good(vm) && InArea(vm, a, v) && FaultDone(vm, f, a, v, isStore)
    ensures Good(f)
  {
    forall k | k in f.ptes ensures OwnedBy(f.areas, k) {
      if k == Key(vm.areas[a].space, v) {
        assert Shows(f.areas[a], k.whose, k.page);
      }
    }
  }

  lemma FaultIsPrivate(vm: Vm, a: nat, v: nat, isStore: bool, f: Vm)
    requires Good(vm) && Faults(vm, a, v, isStore, f)
    ensures Good(f) && Private(vm, Fault(a, v, isStore), f)
  {
    FaultMeaning(vm, a, v, isStore);
    if SoftFault(vm, vm.areas[a], v, isStore).Handled? {
      FaultKeepsOwners(vm, a, v, isStore, f);
    }
  }

  lemma StoreSeen(vm: Vm, a: nat, v: nat, i: nat, x: Byte, f: Vm)
    requires Inv(vm) && AreasOk(f) && Stores(vm, a, v, i, x, f)
    ensures Private(vm, Store(a, v, i, x), f)
  {
    forall b, o | 0 <= b < |vm.areas| && Covers(vm.areas[b], o)
      ensures Bytes(f, vm.areas[b], o) == Wrote(vm.areas[b], b, o, Store(a, v, i, x), Bytes(vm, vm.areas[b], o))
    {
      StoreWritesOne(vm, a, v, i, x, f, b, o);
    }
  }

  lemma StoreIsPrivate(vm: Vm, a: nat, v: nat, i: nat, x: Byte, f: Vm)
    requires Good(vm) && Stores(vm, a, v, i, x, f)
    ensures Good(f) && Private(vm, Store(a, v, i, x), f)
  {
    StoreKeepsInv(vm, a, v, i, x, f);
    StoreSeen(vm, a, v, i, x, f);
  }

  lemma StepKeepsGood(vm: Vm, op: Op, f: Vm)
    requires Good(vm) && Does(vm, op, f)
    ensures Good(f) && Private(vm, op, f)
  {
    match op {
      case Fault(a, v, isStore) => FaultIsPrivate(vm, a, v, isStore, f);
      case Store(a, v, i, x) => StoreIsPrivate(vm, a, v, i, x, f);
      case NewCache(file, source) => NewCacheKeeps(vm, file, source, f);
      case NewArea(area) => NewAreaKeeps(vm, area, f);
    }
  }

  ghost predicate Runs(vms: seq<Vm>, ops: seq<Op>) {
    && |vms| == |ops| + 1
    && forall i :: 0 <= i < |ops| ==> Inv(vms[i]) ==> Does(vms[i], ops[i], vms[i + 1])
  }

  /** In every run, what an area shows is what it showed at the start with its own stores applied in
      order: nothing that other areas, faults, or new caches and areas do can be seen in it. */
  lemma {:induction false} PrivateMemory(vms: seq<Vm>, ops: seq<Op>, a: nat, o: nat)
    requires Runs(vms, ops) && Good(vms[0]) && a < |vms[0].areas| && Covers(vms[0].areas[a], o)
    ensures var last := vms[|ops|];
            && Good(last) && a < |last.areas| && last.areas[a] == vms[0].areas[a]
            && Bytes(last, last.areas[a], o) == Written(vms[0].areas[a], a, o, ops, Bytes(vms[0], vms[0].areas[a], o))
    decreases |ops|
  {
    if ops != [] {
      var n := |ops| - 1;
      PrivateMemory(vms[..n + 1], ops[..n], a, o);
      StepKeepsGood(vms[n], ops[n], vms[n + 1]);
      assert vms[n + 1].areas[..|vms[n].areas|][a] == vms[n].areas[a];
    }
  }

  /** So a load through any mapping reads the area's own last store, or what was there at first. */
  lemma LoadsSeeOwnStores(vms: seq<Vm>, ops: seq<Op>, a: nat, v: nat)
    requires Runs(vms, ops) && Good(vms[0]) && InArea(vms[0], a, v)
    requires Key(vms[0].areas[a].space, v) in vms[|ops|].ptes
    ensures var o := OffsetOf(vms[0].areas[a], v);
            PageBytes(vms[|ops|].pages, vms[|ops|].ptes[Key(vms[0].areas[a].space, v)].page) ==
            Written(vms[0].areas[a], a, o, ops, Bytes(vms[0], vms[0].areas[a], o))
  {
    PrivateMemory(vms, ops, a, OffsetOf(vms[0].areas[a], v));
    assert PteOk(vms[|ops|], a, v);
  }

  /** A cache that other caches copy from is never changed: its pages are neither dirty nor mapped
      writable. */
  lemma SourcesNeverWritten(vm: Vm, k: Key, d: nat)
    requires Good(vm) && k in vm.index && d < |vm.caches| && vm.caches[d].source == Some(k.whose)
    ensures !vm.pages[vm.index[k]].dirty
    ensures forall m :: m in vm.ptes && vm.ptes[m].page == vm.index[k] ==> !vm.ptes[m].writable
  {
    forall m | m in vm.ptes && vm.ptes[m].page == vm.index[k] ensures !vm.ptes[m].writable {
      var a :| 0 <= a < |vm.areas| && Shows(vm.areas[a], m.whose, m.page);
      assert PteOk(vm, a, m.page);
    }
  }

  /** In every run, a page on the free list is in no cache and in no page table. */
  lemma FreePagesUnused(vms: seq<Vm>, ops: seq<Op>, p: nat)
    requires Runs(vms, ops) && Good(vms[0]) && p in vms[|ops|].free
    ensures p !in vms[|ops|].index.Values
    ensures forall k :: k in vms[|ops|].ptes ==> vms[|ops|].ptes[k].page != p
  {
    AlwaysGood(vms, ops);
    FreeUnused(vms[|ops|], p);
  }

  /** In every run, a page's count of references is at least its uses: one if it is in a cache, and
      one for every page table entry that maps it. */
  lemma CountsCoverUses(vms: seq<Vm>, ops: seq<Op>, p: nat)
    requires Runs(vms, ops) && Good(vms[0]) && p < |vms[|ops|].pages|
    ensures (if p in vms[|ops|].index.Values then 1 else 0) + |Mappers(vms[|ops|].ptes, p)| <= vms[|ops|].pages[p].refCount
  {
    AlwaysGood(vms, ops);
    assert Use(vms[|ops|], p) <= vms[|ops|].pages[p].refCount;
  }

  lemma {:induction false} AlwaysGood(vms: seq<Vm>, ops: seq<Op>)
    requires Runs(vms, ops) && Good(vms[0])
    ensures Good(vms[|ops|])
    decreases |ops|
  {
    if ops != [] {
      var n := |ops| - 1;
      AlwaysGood(vms[..n + 1], ops[..n]);
      StepKeepsGood(vms[n], ops[n], vms[n + 1]);
    }
  }

  /** The machine starts with every page free. */
  function Fresh(n: nat): Vm {
    Vm(seq(n, _ => Page(0, false, Zeros())), seq(n, i => i), map[], [], [], map[], map[])
  }

  lemma FreshIsGood(n: nat)
    ensures Good(Fresh(n))
  {
    var vm := Fresh(n);
    forall p | 0 <= p < |vm.pages| ensures p in vm.free {
      assert vm.free[p] == p;
    }
    forall p | 0 <= p < |vm.pages| ensures Use(vm, p) <= vm.pages[p].refCount {
      assert Mappers(vm.ptes, p) == {};
    }
  }
}

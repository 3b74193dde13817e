/** What a program finds at an address of an area: its own last store there or, before any, the
    byte of the file that the area lays out from its first address on. */
module VmAddresses {
  import opened Words
  import opened Wrappers
  import opened VmState
  import opened VmFault
  import opened VmMapping
  import opened VmRun

  /** The file that a cache is read from, by itself or through its sources. */
  ghost function FileBehind(caches: seq<Cache>, c: nat): Option<seq<Byte>>
    requires SourcesOlder(caches) && c < |caches|
    decreases c
  {
    if caches[c].file.Some? then caches[c].file
    else if caches[c].source.Some? then FileBehind(caches, caches[c].source.value)
    else None
  }

  /** No page is in the caches that the cache is made of yet. */
  ghost predicate NothingCached(vm: Vm, c: nat)
    requires SourcesOlder(vm.caches) && c < |vm.caches|
  {
    forall k :: k in vm.index ==> !InChain(vm.caches, c, k.whose)
  }

  /** The byte at `at` of the file if there is one before `end`, and else zero. */
  function ByteOf(file: Option<seq<Byte>>, at: nat, end: int): Byte {
    if file.Some? && at < |file.value| && at < end then file.value[at] else 0
  }

  /** Page `v` of the area is mapped, and byte `i` of it is byte `x` of the area. */
  ghost predicate MapsByte(vm: Vm, space: nat, v: nat, i: nat, b: Byte) {
    Key(space, v) in vm.ptes && i < PAGE_SIZE && PageBytes(vm.pages, vm.ptes[Key(space, v)].page)[i] == b
  }

  lemma {:induction false} ResolvesToFile(vm: Vm, c: nat, o: nat, end: int)
    requires SourcesOlder(vm.caches) && c < |vm.caches| && NothingCached(vm, c)
    ensures forall i :: 0 <= i < PAGE_SIZE ==>
              FoundBytes(vm, Resolve(vm.caches, vm.index, c, o), o, end)[i] == ByteOf(FileBehind(vm.caches, c), o * PAGE_SIZE + i, end)
    decreases c
  {
    assert InChain(vm.caches, c, c);
    if vm.caches[c].file.None? && vm.caches[c].source.Some? {
      ResolvesToFile(vm, vm.caches[c].source.value, o, end);
    }
  }

  /** Byte `i` of page `v` is byte `x` of the area. */
  ghost predicate IsByte(area: Area, v: nat, i: nat, x: nat) {
    area.low <= v < area.low + area.count && i < PAGE_SIZE && x == (v - area.low) * PAGE_SIZE + i
  }

  /** Every byte of an area lies on one of its pages. */
  lemma EveryByte(area: Area, x: nat)
    requires x < area.count * PAGE_SIZE
    ensures IsByte(area, area.low + x / PAGE_SIZE, x % PAGE_SIZE, x)
  {
  }

  /** Before anything is cached, byte `x` of an area is that far from its offset in the file. */
  lemma AreaShowsFile(vm: Vm, a: nat, v: nat, i: nat, x: nat)
    requires Inv(vm) && a < |vm.areas| && IsByte(vm.areas[a], v, i, x) && NothingCached(vm, vm.areas[a].cache)
    ensures var area := vm.areas[a];
            Bytes(vm, area, OffsetOf(area, v))[i] ==
            ByteOf(FileBehind(vm.caches, area.cache), area.offset * PAGE_SIZE + x, area.fileEnd)
  {
    ResolvesToFile(vm, vm.areas[a].cache, OffsetOf(vm.areas[a], v), vm.areas[a].fileEnd);
  }

  /** A first fault maps at byte `x` of the area the byte `x` of the file, counted from the area's
      offset, and zero past the end of either. */
  lemma FirstFaultMapsFile(vm: Vm, a: nat, v: nat, isStore: bool, i: nat, x: nat)
    requires Inv(vm) && InArea(vm, a, v) && IsByte(vm.areas[a], v, i, x) && NothingCached(vm, vm.areas[a].cache)
    requires SoftFault(vm, vm.areas[a], v, isStore).Handled?
    ensures var area, f := vm.areas[a], SoftFault(vm, vm.areas[a], v, isStore).vm;
            MapsByte(f, area.space, v, i,
                     ByteOf(FileBehind(vm.caches, area.cache), area.offset * PAGE_SIZE + x, area.fileEnd))
  {
    FaultMeaning(vm, a, v, isStore);
    AreaShowsFile(vm, a, v, i, x);
  }

  /** Byte `i` of page `v` of the area shows in `f` the byte of the file that lies there in `vm`. */
  ghost predicate ShowsByte(vm: Vm, f: Vm, a: Area, v: nat, i: nat)
    requires SourcesOlder(vm.caches) && a.cache < |vm.caches| && a.low <= v
  {
    i < PAGE_SIZE ==>
      MapsByte(f, a.space, v, i, ByteOf(FileBehind(vm.caches, a.cache), (a.offset + (v - a.low)) * PAGE_SIZE + i, a.fileEnd))
  }

  /** If nothing is cached for the area in `vm`, page `v` shows in `f` its part of the file. */
  ghost predicate ShowsFile(vm: Vm, f: Vm, a: Area, v: nat) {
    Inv(vm) && a in vm.areas && Shows(a, a.space, v) && NothingCached(vm, a.cache) ==> forall i: nat :: ShowsByte(vm, f, a, v, i)
  }

  lemma FaultShowsFile(vm: Vm, a: Area, v: nat, isStore: bool)
    requires SourcesOlder(vm.caches) && a.cache < |vm.caches| && a.low <= v && SoftFault(vm, a, v, isStore).Handled?
    ensures ShowsFile(vm, SoftFault(vm, a, v, isStore).vm, a, v)
  {
    if Inv(vm) && a in vm.areas && Shows(a, a.space, v) && NothingCached(vm, a.cache) {
      var b :| 0 <= b < |vm.areas| && vm.areas[b] == a;
      forall i: nat ensures ShowsByte(vm, SoftFault(vm, a, v, isStore).vm, a, v, i) {
        if i < PAGE_SIZE {
          FirstFaultMapsFile(vm, b, v, isStore, i, (v - a.low) * PAGE_SIZE + i);
        }
      }
    }
  }

  /** A page is mapped for stores exactly if the area is writable and the page is known to be
      dirty, so that the first store to a clean page faults and is noted. */
  lemma WritableIsNoted(vm: Vm, a: nat, v: nat, isStore: bool)
    requires Inv(vm) && InArea(vm, a, v) && SoftFault(vm, vm.areas[a], v, isStore).Handled?
    ensures var area, f := vm.areas[a], SoftFault(vm, vm.areas[a], v, isStore).vm;
            && Key(area.space, v) in f.ptes
            && var pte := f.ptes[Key(area.space, v)];
               && pte.page < |f.pages| && pte.executable == area.executable
               && (pte.writable <==> area.writable && f.pages[pte.page].dirty)
               && (isStore ==> f.pages[pte.page].dirty)
  {
    FindPageFinds(vm, a, v, isStore);
    var (r, p) := FindPage(vm, vm.areas[a], OffsetOf(vm.areas[a], v), isStore).value;
    MapFoundMaps(r, vm.areas[a], v, p, isStore);
  }

  // ------------------------------------------------------------------- runs

  /** The last store of the run by area `a` to byte `i` of page `v`. */
  function LastStore(ops: seq<Op>, a: nat, v: nat, i: nat): Option<Byte>
    decreases |ops|
  {
    if ops == [] then None
    else
      var last := ops[|ops| - 1];
      if last.Store? && last.area == a && last.v == v && last.i == i then Some(last.x)
      else LastStore(ops[..|ops| - 1], a, v, i)
  }

  lemma {:induction false} WrittenByte(area: Area, a: nat, v: nat, i: nat, ops: seq<Op>, data: PageData)
    requires area.low <= v && i < PAGE_SIZE
    ensures Written(area, a, OffsetOf(area, v), ops, data)[i] ==
            match LastStore(ops, a, v, i)
            case Some(x) => x
            case None => data[i]
    decreases |ops|
  {
    if ops != [] {
      WrittenByte(area, a, v, i, ops[..|ops| - 1], data);
    }
  }

  /** Whatever the programs of the machine do, a load at byte `x` of an area that was nowhere
      cached at the start gives the area's own last store to `x` or, if there was none, byte `x`
      of its file, counted from the area's offset, and zero past the end. */
  lemma LoadsByAddress(vms: seq<Vm>, ops: seq<Op>, a: nat, v: nat, i: nat, x: nat)
    requires |vms| > 0 && Runs(vms, ops) && Good(vms[0]) && InArea(vms[0], a, v) && IsByte(vms[0].areas[a], v, i, x)
    requires NothingCached(vms[0], vms[0].areas[a].cache) && Key(vms[0].areas[a].space, v) in vms[|ops|].ptes
    ensures var area := vms[0].areas[a];
            MapsByte(vms[|ops|], area.space, v, i,
                     match LastStore(ops, a, v, i)
                     case Some(b) => b
                     case None => ByteOf(FileBehind(vms[0].caches, area.cache), area.offset * PAGE_SIZE + x, area.fileEnd))
  {
    var area := vms[0].areas[a];
    LoadsSeeOwnStores(vms, ops, a, v);
    WrittenByte(area, a, v, i, ops, Bytes(vms[0], area, OffsetOf(area, v)));
    AreaShowsFile(vms[0], a, v, i, x);
  }
}

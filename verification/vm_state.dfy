/** Virtual memory: page frames, caches of pages with their sources, areas that show a part of
    a cache, and the page tables. Addresses and offsets count pages. */
module VmState {
  import opened Words
  import opened Wrappers

  const PAGE_SIZE := 0x1000

  type PageData = s: seq<Byte> | |s| == PAGE_SIZE witness seq(PAGE_SIZE, _ => 0)

  function Zeros(): PageData {
    seq(PAGE_SIZE, _ => 0)
  }

  datatype Page = Page(refCount: nat, dirty: bool, data: PageData)
  datatype Cache = Cache(file: Option<seq<Byte>>, source: Option<nat>)

  /** Page `low + k` of the space shows page `offset + k` of the cache; file bytes at or past
      `fileEnd` are not shown. */
  datatype Area = Area(space: nat, low: nat, count: nat, cache: nat, offset: nat, fileEnd: int,
                       writable: bool, executable: bool)

  datatype Pte = Pte(page: nat, writable: bool, executable: bool)

  /** A cache and a page offset in it, or an address space and a page of it. */
  datatype Key = Key(whose: nat, page: nat)

  datatype Vm = Vm(pages: seq<Page>, free: seq<nat>, index: map<Key, nat>, caches: seq<Cache>, areas: seq<Area>,
                   ptes: map<Key, Pte>, tables: map<Key, nat>)

  predicate Shows(a: Area, space: nat, v: nat) {
    a.space == space && a.low <= v < a.low + a.count
  }

  function OffsetOf(a: Area, v: nat): nat
    requires a.low <= v
  {
    a.offset + (v - a.low)
  }

  predicate Covers(a: Area, o: nat) {
    a.offset <= o < a.offset + a.count
  }

  // ------------------------------------------------------------ the meaning

  datatype Found = InPage(page: nat) | InFile(cache: nat) | Nowhere

  ghost predicate SourcesOlder(caches: seq<Cache>) {
    forall c :: 0 <= c < |caches| && caches[c].source.Some? ==> caches[c].source.value < c
  }

  /** The first cache of the chain that holds the page, or has a file to read it from. */
  ghost function Resolve(caches: seq<Cache>, index: map<Key, nat>, c: nat, o: nat): Found
    requires SourcesOlder(caches) && c < |caches|
    decreases c
  {
    if Key(c, o) in index then InPage(index[Key(c, o)])
    else if caches[c].file.Some? then InFile(c)
    else if caches[c].source.Some? then Resolve(caches, index, caches[c].source.value, o)
    else Nowhere
  }

  function FileFill(file: seq<Byte>, o: nat, fileEnd: int): PageData {
    seq(PAGE_SIZE, i requires 0 <= i < PAGE_SIZE =>
      if o * PAGE_SIZE + i < fileEnd && o * PAGE_SIZE + i < |file| then file[o * PAGE_SIZE + i] else 0)
  }

  function FileBytes(caches: seq<Cache>, c: nat, o: nat, fileEnd: int): PageData {
    if c < |caches| && caches[c].file.Some? then FileFill(caches[c].file.value, o, fileEnd) else Zeros()
  }

  function PageBytes(pages: seq<Page>, p: nat): PageData {
    if p < |pages| then pages[p].data else Zeros()
  }

  function FoundBytes(vm: Vm, f: Found, o: nat, fileEnd: int): PageData {
    if f.InPage? then PageBytes(vm.pages, f.page)
    else if f.InFile? then FileBytes(vm.caches, f.cache, o, fileEnd)
    else Zeros()
  }

  /** The bytes an area shows at page `o` of its cache. */
  ghost function Bytes(vm: Vm, a: Area, o: nat): PageData
    requires SourcesOlder(vm.caches) && a.cache < |vm.caches|
  {
    FoundBytes(vm, Resolve(vm.caches, vm.index, a.cache, o), o, a.fileEnd)
  }

  // -------------------------------------------------------------- invariant

  ghost predicate Distinct(s: seq<nat>) {
    forall i, j :: 0 <= i < j < |s| ==> s[i] != s[j]
  }

  function Mappers(ptes: map<Key, Pte>, p: nat): set<Key> {
    set k | k in ptes && ptes[k].page == p
  }

  ghost predicate FreeOk(vm: Vm) {
    && Distinct(vm.free)
    && (forall p :: p in vm.free ==> p < |vm.pages| && vm.pages[p].refCount == 0)
    && (forall p :: 0 <= p < |vm.pages| && vm.pages[p].refCount == 0 ==> p in vm.free)
  }

  ghost predicate IndexOk(vm: Vm) {
    && (forall k :: k in vm.index ==> vm.index[k] < |vm.pages| && k.whose < |vm.caches|)
    && (forall k, l :: k in vm.index && l in vm.index && vm.index[k] == vm.index[l] ==> k == l)
    && (forall k :: k in vm.ptes ==> vm.ptes[k].page < |vm.pages|)
  }

  function Use(vm: Vm, p: nat): nat {
    (if p in vm.index.Values then 1 else 0) + |Mappers(vm.ptes, p)|
  }

  /** Refaults count a mapping twice, so the count may be too high but is never too low. */
  ghost predicate CountsOk(vm: Vm) {
    forall p :: 0 <= p < |vm.pages| ==> Use(vm, p) <= vm.pages[p].refCount
  }

  /** How caches may be shared: a cache that is a source is not written directly; an area that is
      written shares no page of its cache with another; and areas that reach the same file agree
      on where it ends. */
  ghost predicate AreasOk(vm: Vm) {
    && SourcesOlder(vm.caches)
    && (forall a :: 0 <= a < |vm.areas| ==> vm.areas[a].cache < |vm.caches|)
    && (forall a, b, v :: 0 <= a < |vm.areas| && 0 <= b < |vm.areas| && BothShow(vm.areas[a], vm.areas[b], v) ==> a == b)
    && (forall a, c :: 0 <= a < |vm.areas| && vm.areas[a].writable && 0 <= c < |vm.caches| ==>
          vm.caches[c].source != Some(vm.areas[a].cache))
    && (forall a, b, o :: 0 <= a < |vm.areas| && 0 <= b < |vm.areas| && vm.areas[a].writable && BothCover(vm.areas[a], vm.areas[b], o) ==>
          vm.areas[a].cache == vm.areas[b].cache ==> a == b)
    && (forall a, b, o :: 0 <= a < |vm.areas| && 0 <= b < |vm.areas| && BothCover(vm.areas[a], vm.areas[b], o) ==>
          Meet(vm.caches, vm.areas[a].cache, vm.areas[b].cache) ==> vm.areas[a].fileEnd == vm.areas[b].fileEnd)
  }

  predicate BothShow(a: Area, b: Area, v: nat) {
    Shows(a, a.space, v) && Shows(b, a.space, v)
  }

  predicate BothCover(a: Area, b: Area, o: nat) {
    Covers(a, o) && Covers(b, o)
  }

  /** The chain that starts at `c` contains `k`. */
  ghost predicate InChain(caches: seq<Cache>, c: nat, k: nat)
    requires SourcesOlder(caches) && c < |caches|
    decreases c
  {
    c == k || (caches[c].source.Some? && InChain(caches, caches[c].source.value, k))
  }

  ghost predicate Meet(caches: seq<Cache>, c: nat, d: nat)
    requires SourcesOlder(caches) && c < |caches| && d < |caches|
  {
    exists k :: 0 <= k < |caches| && InChain(caches, c, k) && InChain(caches, d, k)
  }

  /** A mapped page is the one the area's chain of caches gives, and is writable only when it is
      a dirty page of the area's own cache. */
  ghost predicate PteOk(vm: Vm, a: nat, v: nat)
    requires AreasOk(vm) && a < |vm.areas| && Shows(vm.areas[a], vm.areas[a].space, v)
  {
    PteShows(vm, vm.areas[a], v)
  }

  ghost predicate PteShows(vm: Vm, a: Area, v: nat)
    requires SourcesOlder(vm.caches) && a.cache < |vm.caches| && a.low <= v
  {
    Key(a.space, v) in vm.ptes ==>
      && Resolve(vm.caches, vm.index, a.cache, OffsetOf(a, v)) == InPage(vm.ptes[Key(a.space, v)].page)
      && (vm.ptes[Key(a.space, v)].writable ==>
            && a.writable && Key(a.cache, OffsetOf(a, v)) in vm.index
            && vm.ptes[Key(a.space, v)].page < |vm.pages| && vm.pages[vm.ptes[Key(a.space, v)].page].dirty)
  }

  ghost predicate PtesOk(vm: Vm)
    requires AreasOk(vm)
  {
    forall a, v :: 0 <= a < |vm.areas| && Shows(vm.areas[a], vm.areas[a].space, v) ==> PteOk(vm, a, v)
  }

  /** Only caches that a writable area uses directly have dirty pages. */
  ghost predicate DirtyOk(vm: Vm) {
    forall k :: k in vm.index && vm.index[k] < |vm.pages| && vm.pages[vm.index[k]].dirty ==>
      exists a :: 0 <= a < |vm.areas| && vm.areas[a].writable && vm.areas[a].cache == k.whose
  }

  ghost predicate Inv(vm: Vm) {
    FreeOk(vm) && IndexOk(vm) && CountsOk(vm) && AreasOk(vm) && PtesOk(vm) && DirtyOk(vm)
  }

  // -------------------------------------------------------- page primitives

  /** A fresh page: the first of the free list, cleared. */
  function Allocate(vm: Vm): Option<(Vm, nat)> {
    if vm.free == [] || vm.free[0] >= |vm.pages| then None
    else Some((vm.(free := vm.free[1..], pages := vm.pages[vm.free[0] := Page(1, false, Zeros())]), vm.free[0]))
  }

  function SetData(vm: Vm, p: nat, data: PageData): Vm
    requires p < |vm.pages|
  {
    vm.(pages := vm.pages[p := Page(vm.pages[p].refCount, vm.pages[p].dirty, data)])
  }

  function InsertPage(vm: Vm, c: nat, o: nat, p: nat): Vm {
    vm.(index := vm.index[Key(c, o) := p])
  }

  function RemovePage(vm: Vm, c: nat, o: nat): Vm {
    vm.(index := vm.index - {Key(c, o)})
  }

  function AddRef(vm: Vm, p: nat): Vm
    requires p < |vm.pages|
  {
    vm.(pages := vm.pages[p := Page(vm.pages[p].refCount + 1, vm.pages[p].dirty, vm.pages[p].data)])
  }

  function DropRef(vm: Vm, p: nat): Vm
    requires p < |vm.pages| && vm.pages[p].refCount > 0
  {
    vm.(pages := vm.pages[p := Page(vm.pages[p].refCount - 1, vm.pages[p].dirty, vm.pages[p].data)],
        free := if vm.pages[p].refCount == 1 then [p] + vm.free else vm.free)
  }
}

/** Page faults: finding or making the page, copying it on the first store, and mapping it. */
module VmFault {
  import opened Wrappers
  import opened VmState

  /** A new page of cache `c`, read from its file. */
  function ReadPage(vm: Vm, c: nat, o: nat, fileEnd: int): Option<(Vm, nat)> {
    match Allocate(vm)
    case None => None
    case Some((vm1, p)) =>
      if p < |vm1.pages| then Some((InsertPage(SetData(vm1, p, FileBytes(vm.caches, c, o, fileEnd)), c, o, p), p)) else None
  }

  /** Looks for the page in the caches from `c` on; `None` means that memory ran out. */
  ghost function SearchSources(vm: Vm, c: Option<nat>, o: nat, fileEnd: int): Option<(Vm, Option<nat>)>
    requires SourcesOlder(vm.caches) && (c.Some? ==> c.value < |vm.caches|)
    decreases if c.Some? then c.value + 1 else 0
  {
    if c.None? then Some((vm, None))
    else if Key(c.value, o) in vm.index then Some((vm, Some(vm.index[Key(c.value, o)])))
    else if vm.caches[c.value].file.Some? then
      (match ReadPage(vm, c.value, o, fileEnd)
       case None => None
       case Some((vm1, p)) => Some((vm1, Some(p))))
    else SearchSources(vm, vm.caches[c.value].source, o, fileEnd)
  }

  ghost function FindPage(vm: Vm, a: Area, o: nat, isStore: bool): Option<(Vm, nat)>
    requires SourcesOlder(vm.caches) && a.cache < |vm.caches|
  {
    if Key(a.cache, o) in vm.index then Some((vm, vm.index[Key(a.cache, o)]))
    else if vm.caches[a.cache].file.Some? then ReadPage(vm, a.cache, o, a.fileEnd)
    else
      match Allocate(vm)
      case None => None
      case Some((vm1, d)) =>
        match SearchSources(InsertPage(vm1, a.cache, o, d), vm.caches[a.cache].source, o, a.fileEnd)
        case None => None
        case Some((vm2, None)) => Some((vm2, d))
        case Some((vm2, Some(s))) =>
          if s >= |vm2.pages| || d >= |vm2.pages| || vm2.pages[d].refCount == 0 then None
          else if isStore then Some((SetData(vm2, d, vm2.pages[s].data), d))
          else Some((DropRef(RemovePage(vm2, a.cache, o), d), s))
  }

  function MarkDirty(vm: Vm, p: nat): Vm
    requires p < |vm.pages|
  {
    vm.(pages := vm.pages[p := Page(vm.pages[p].refCount, true, vm.pages[p].data)])
  }

  /** Enters a page in the two-level table, making the second level if it is missing. */
  function MapPage(vm: Vm, space: nat, v: nat, pte: Pte): Option<Vm> {
    if Key(space, v / 1024) in vm.tables then Some(vm.(ptes := vm.ptes[Key(space, v) := pte]))
    else
      match Allocate(vm)
      case None => None
      case Some((vm1, t)) =>
        Some(vm1.(tables := vm1.tables[Key(space, v / 1024) := t], ptes := vm1.ptes[Key(space, v) := pte]))
  }

  datatype FaultResult = Refused | OutOfMemory | Handled(vm: Vm)

  /** Counts the mapping, notes a store, and maps the page. */
  function MapFound(vm: Vm, a: Area, v: nat, p: nat, isStore: bool): FaultResult {
    if p >= |vm.pages| then OutOfMemory
    else
      var counted := AddRef(vm, p);
      var noted := if isStore then MarkDirty(counted, p) else counted;
      match MapPage(noted, a.space, v, Pte(p, a.writable && (vm.pages[p].dirty || isStore), a.executable))
      case None => OutOfMemory
      case Some(vm1) => Handled(vm1)
  }

  ghost function SoftFault(vm: Vm, a: Area, v: nat, isStore: bool): FaultResult
    requires SourcesOlder(vm.caches) && a.cache < |vm.caches| && a.low <= v
  {
    if isStore && !a.writable then Refused
    else
      match FindPage(vm, a, OffsetOf(a, v), isStore)
      case None => OutOfMemory
      case Some((vm1, p)) => MapFound(vm1, a, v, p, isStore)
  }

  // ----------------------------------------------------------- adding a page

  /** `r` is `vm` with the free page `p` put into cache `c` at `o`; free pages may have been
      used and given back on the way. */
  ghost predicate Added(vm: Vm, r: Vm, c: nat, o: nat, p: nat, data: PageData) {
    && r.caches == vm.caches && r.areas == vm.areas && r.ptes == vm.ptes && r.tables == vm.tables
    && |r.pages| == |vm.pages| && FreeOk(r) && c < |vm.caches|
    && p in vm.free && p < |vm.pages| && Key(c, o) !in vm.index && r.index == vm.index[Key(c, o) := p]
    && r.pages[p] == Page(1, false, data)
    && SameUsed(vm, r)
    && (forall q :: q in r.free <==> q in vm.free && q != p)
  }

  ghost predicate SameUsed(vm: Vm, r: Vm)
    requires |r.pages| == |vm.pages|
  {
    forall q :: 0 <= q < |vm.pages| && q !in vm.free ==> r.pages[q] == vm.pages[q]
  }

  /** `r` is `vm` but for the contents of free pages. */
  ghost predicate Recycled(vm: Vm, r: Vm) {
    && r == vm.(pages := r.pages) && |r.pages| == |vm.pages| && FreeOk(r) && SameUsed(vm, r)
  }

  ghost predicate Basic(vm: Vm) {
    FreeOk(vm) && IndexOk(vm) && CountsOk(vm) && DirtyOk(vm)
  }

  /** Free pages are neither cached nor mapped. */
  lemma FreeUnused(vm: Vm, p: nat)
    requires FreeOk(vm) && CountsOk(vm) && p in vm.free
    ensures Use(vm, p) == 0 && p !in vm.index.Values
    ensures forall k :: k in vm.ptes ==> vm.ptes[k].page != p
  {
    assert p < |vm.pages| && Use(vm, p) <= 0;
    assert Mappers(vm.ptes, p) == {};
    assert forall k :: k in vm.ptes && vm.ptes[k].page == p ==> k in Mappers(vm.ptes, p);
  }

  lemma CachedNotFree(vm: Vm, k: Key)
    requires Basic(vm) && k in vm.index
    ensures vm.index[k] < |vm.pages| && vm.index[k] !in vm.free
  {
    assert vm.index[k] in vm.index.Values;
    if vm.index[k] in vm.free {
      FreeUnused(vm, vm.index[k]);
    }
  }

  lemma AddedBasic(vm: Vm, r: Vm, c: nat, o: nat, p: nat, data: PageData)
    requires Basic(vm) && Added(vm, r, c, o, p, data)
    ensures Basic(r)
  {
    FreeUnused(vm, p);
    forall k, l | k in r.index && l in r.index && r.index[k] == r.index[l] ensures k == l {
      assert k != Key(c, o) ==> r.index[k] in vm.index.Values;
      assert l != Key(c, o) ==> r.index[l] in vm.index.Values;
    }
    forall q | 0 <= q < |r.pages| ensures Use(r, q) <= r.pages[q].refCount {
      assert Use(vm, q) <= vm.pages[q].refCount;
      assert r.index.Values == vm.index.Values + {p} by { IndexValues(vm.index, Key(c, o), p); }
      if q in vm.free {
        FreeUnused(vm, q);
      }
    }
    forall k | k in r.index && r.pages[r.index[k]].dirty
      ensures exists a :: 0 <= a < |r.areas| && r.areas[a].writable && r.areas[a].cache == k.whose
    {
      assert k != Key(c, o);
      CachedNotFree(vm, k);
      assert vm.pages[vm.index[k]].dirty;
    }
  }

  lemma IndexValues(index: map<Key, nat>, k: Key, p: nat)
    requires k !in index
    ensures index[k := p].Values == index.Values + {p}
  {
    var m := index[k := p];
    forall q | q in index.Values + {p} ensures q in m.Values {
      if q in index.Values {
        var l :| l in index && index[l] == q;
        assert m[l] == q;
      } else {
        assert m[k] == q;
      }
    }
  }

  // ---------------------------------------------------- how chains see a page

  /** The search from `c` gets to `k` without meeting a page or a file before it. */
  ghost predicate Reaches(caches: seq<Cache>, index: map<Key, nat>, c: nat, o: nat, k: nat)
    requires SourcesOlder(caches) && c < |caches|
    decreases c
  {
    c == k ||
    (Key(c, o) !in index && caches[c].file.None? && caches[c].source.Some?
     && Reaches(caches, index, caches[c].source.value, o, k))
  }

  lemma {:induction false} ResolveAdded(caches: seq<Cache>, index: map<Key, nat>, c: nat, o: nat, k: nat, l: nat, p: nat)
    requires SourcesOlder(caches) && c < |caches| && Key(k, l) !in index
    ensures Resolve(caches, index[Key(k, l) := p], c, o) ==
            if o == l && Reaches(caches, index, c, o, k) then InPage(p) else Resolve(caches, index, c, o)
    decreases c
  {
    if caches[c].source.Some? {
      ResolveAdded(caches, index, caches[c].source.value, o, k, l, p);
    }
  }

  lemma {:induction false} ReachesResolve(caches: seq<Cache>, index: map<Key, nat>, c: nat, o: nat, k: nat)
    requires SourcesOlder(caches) && c < |caches| && k < |caches| && Reaches(caches, index, c, o, k)
    ensures Resolve(caches, index, c, o) == Resolve(caches, index, k, o)
    ensures InChain(caches, c, k)
    decreases c
  {
    if c != k {
      ReachesResolve(caches, index, caches[c].source.value, o, k);
    }
  }

  /** A page that a search ends in is in a cache of the chain. */
  lemma {:induction false} ResolvedCache(caches: seq<Cache>, index: map<Key, nat>, c: nat, o: nat) returns (k: nat)
    requires SourcesOlder(caches) && c < |caches| && Resolve(caches, index, c, o).InPage?
    ensures k < |caches| && InChain(caches, c, k) && Key(k, o) in index && Resolve(caches, index, c, o) == InPage(index[Key(k, o)])
    decreases c
  {
    if Key(c, o) in index {
      k := c;
    } else {
      k := ResolvedCache(caches, index, caches[c].source.value, o);
    }
  }

  /** A cache further down a chain is the source of another. */
  lemma {:induction false} ChainSource(caches: seq<Cache>, c: nat, k: nat)
    requires SourcesOlder(caches) && c < |caches| && InChain(caches, c, k)
    ensures c == k || exists d :: 0 <= d < |caches| && caches[d].source == Some(k)
    decreases c
  {
    if c != k && caches[c].source != Some(k) {
      ChainSource(caches, caches[c].source.value, k);
    }
  }

  /** A cache that a writable area uses is at the head of every chain it is in. */
  lemma WritableHead(vm: Vm, a: nat, c: nat)
    requires AreasOk(vm) && a < |vm.areas| && vm.areas[a].writable && c < |vm.caches|
    requires InChain(vm.caches, c, vm.areas[a].cache)
    ensures c == vm.areas[a].cache
  {
    ChainSource(vm.caches, c, vm.areas[a].cache);
  }

  /** What the new page has to hold for nobody to notice it. */
  ghost predicate Unnoticed(vm: Vm, c: nat, o: nat, data: PageData)
    requires AreasOk(vm) && c < |vm.caches|
  {
    forall b :: 0 <= b < |vm.areas| && Covers(vm.areas[b], o) && Reaches(vm.caches, vm.index, vm.areas[b].cache, o, c) ==>
      data == FoundBytes(vm, Resolve(vm.caches, vm.index, c, o), o, vm.areas[b].fileEnd)
  }

  lemma AddedBytes(vm: Vm, r: Vm, c: nat, o: nat, p: nat, data: PageData, b: nat, o': nat)
    requires Inv(vm) && Added(vm, r, c, o, p, data) && Unnoticed(vm, c, o, data)
    requires b < |vm.areas| && Covers(vm.areas[b], o')
    ensures Bytes(r, vm.areas[b], o') == Bytes(vm, vm.areas[b], o')
  {
    var d := vm.areas[b].cache;
    ResolveAdded(vm.caches, vm.index, d, o', c, o, p);
    if o' == o && Reaches(vm.caches, vm.index, d, o, c) {
      ReachesResolve(vm.caches, vm.index, d, o, c);
    } else if Resolve(vm.caches, vm.index, d, o').InPage? {
      var k := ResolvedCache(vm.caches, vm.index, d, o');
      CachedNotFree(vm, Key(k, o'));
    }
  }

  /** All mappings stay right, but perhaps that of page `v` of area `x`. */
  ghost predicate PtesOkBut(vm: Vm, x: nat, v: nat)
    requires AreasOk(vm)
  {
    forall a, w :: 0 <= a < |vm.areas| && Shows(vm.areas[a], vm.areas[a].space, w) && !(a == x && w == v) ==> PteOk(vm, a, w)
  }

  lemma AddedPte(vm: Vm, r: Vm, c: nat, o: nat, p: nat, data: PageData, b: nat, w: nat)
    requires Inv(vm) && Added(vm, r, c, o, p, data) && AreasOk(r)
    requires b < |vm.areas| && Shows(vm.areas[b], vm.areas[b].space, w)
    requires OffsetOf(vm.areas[b], w) == o && Reaches(vm.caches, vm.index, vm.areas[b].cache, o, c) ==>
               !Resolve(vm.caches, vm.index, c, o).InPage?
    ensures PteOk(r, b, w)
  {
    var d, o' := vm.areas[b].cache, OffsetOf(vm.areas[b], w);
    assert PteOk(vm, b, w);
    ResolveAdded(vm.caches, vm.index, d, o', c, o, p);
    if Key(vm.areas[b].space, w) in vm.ptes {
      if o' == o && Reaches(vm.caches, vm.index, d, o, c) {
        ReachesResolve(vm.caches, vm.index, d, o, c);
      }
      var k := ResolvedCache(vm.caches, vm.index, d, o');
      CachedNotFree(vm, Key(k, o'));
    }
  }

  // ------------------------------------------------------ what a search adds

  lemma FirstTaken(free: seq<nat>)
    requires Distinct(free) && free != []
    ensures free == [free[0]] + free[1..] && Distinct(free[1..])
    ensures forall q :: q in free[1..] <==> q in free && q != free[0]
  {
    var rest := free[1..];
    assert free == [free[0]] + rest;
    assert forall i :: 0 <= i < |rest| ==> rest[i] == free[i + 1];
  }

  lemma AllocateOk(vm: Vm)
    requires FreeOk(vm) && Allocate(vm).Some?
    ensures var (r, p) := Allocate(vm).value;
            && r == vm.(free := r.free, pages := r.pages) && FreeOk(r) && |r.pages| == |vm.pages|
            && p in vm.free && p < |vm.pages| && r.pages[p] == Page(1, false, Zeros())
            && SameUsed(vm, r) && (forall q :: q in r.free <==> q in vm.free && q != p)
            && vm.free == [p] + r.free
            && (forall q :: 0 <= q < |vm.pages| && q != p ==> r.pages[q] == vm.pages[q])
  {
    assert vm.free[0] in vm.free;
    FirstTaken(vm.free);
  }

  lemma ReadPageAdds(vm: Vm, c: nat, o: nat, fileEnd: int)
    requires Basic(vm) && c < |vm.caches| && Key(c, o) !in vm.index && ReadPage(vm, c, o, fileEnd).Some?
    ensures var (r, p) := ReadPage(vm, c, o, fileEnd).value;
            Added(vm, r, c, o, p, FileBytes(vm.caches, c, o, fileEnd))
  {
    AllocateOk(vm);
  }

  /** Reading a file page is noticed by nobody. */
  lemma FileUnnoticed(vm: Vm, a: nat, c: nat, o: nat)
    requires Inv(vm) && a < |vm.areas| && Covers(vm.areas[a], o)
    requires c < |vm.caches| && InChain(vm.caches, vm.areas[a].cache, c)
    requires Resolve(vm.caches, vm.index, c, o) == InFile(c)
    ensures Unnoticed(vm, c, o, FileBytes(vm.caches, c, o, vm.areas[a].fileEnd))
  {
    forall b | 0 <= b < |vm.areas| && Covers(vm.areas[b], o) && Reaches(vm.caches, vm.index, vm.areas[b].cache, o, c)
      ensures vm.areas[b].fileEnd == vm.areas[a].fileEnd
    {
      ReachesResolve(vm.caches, vm.index, vm.areas[b].cache, o, c);
      assert BothCover(vm.areas[a], vm.areas[b], o);
      assert Meet(vm.caches, vm.areas[a].cache, vm.areas[b].cache);
    }
  }

  /** A page was added that nobody notices, and all mappings but one stay right. */
  ghost predicate Step(vm: Vm, r: Vm, x: nat, v: nat)
    requires AreasOk(vm)
  {
    && Basic(r) && AreasOk(r) && r.areas == vm.areas && r.caches == vm.caches && r.ptes == vm.ptes && |r.pages| == |vm.pages|
    && PtesOkBut(r, x, v)
    && forall b, o :: 0 <= b < |vm.areas| && Covers(vm.areas[b], o) ==> Bytes(r, vm.areas[b], o) == Bytes(vm, vm.areas[b], o)
  }

  /** The search result: where the area finds its page afterwards. */
  ghost predicate FoundFor(vm: Vm, r: Vm, a: nat, v: nat, p: nat, isStore: bool)
    requires AreasOk(vm) && a < |vm.areas| && vm.areas[a].low <= v
  {
    && Step(vm, r, a, v) && p < |r.pages| && p !in r.free
    && Resolve(r.caches, r.index, vm.areas[a].cache, OffsetOf(vm.areas[a], v)) == InPage(p)
    && (isStore ==> Key(vm.areas[a].cache, OffsetOf(vm.areas[a], v)) in r.index)
  }

  lemma AddedFileStep(vm: Vm, r: Vm, a: nat, v: nat, c: nat, p: nat)
    requires Inv(vm) && a < |vm.areas| && Shows(vm.areas[a], vm.areas[a].space, v)
    requires var o := OffsetOf(vm.areas[a], v);
             && c < |vm.caches| && Reaches(vm.caches, vm.index, vm.areas[a].cache, o, c)
             && Resolve(vm.caches, vm.index, c, o) == InFile(c)
             && Added(vm, r, c, o, p, FileBytes(vm.caches, c, o, vm.areas[a].fileEnd))
    ensures Inv(r) && FoundFor(vm, r, a, v, p, false)
  {
    var o := OffsetOf(vm.areas[a], v);
    var data := FileBytes(vm.caches, c, o, vm.areas[a].fileEnd);
    ReachesResolve(vm.caches, vm.index, vm.areas[a].cache, o, c);
    FileUnnoticed(vm, a, c, o);
    AddedBasic(vm, r, c, o, p, data);
    assert AreasOk(r);
    forall b, w | 0 <= b < |vm.areas| && Shows(vm.areas[b], vm.areas[b].space, w) ensures PteOk(r, b, w) {
      AddedPte(vm, r, c, o, p, data, b, w);
    }
    forall b, o' | 0 <= b < |vm.areas| && Covers(vm.areas[b], o') ensures Bytes(r, vm.areas[b], o') == Bytes(vm, vm.areas[b], o') {
      AddedBytes(vm, r, c, o, p, data, b, o');
    }
    ResolveAdded(vm.caches, vm.index, vm.areas[a].cache, o, c, o, p);
  }

  /** The area's own page appears in its own cache: empty, or a copy of the page further down. */
  lemma AddedOwnStep(vm: Vm, r: Vm, a: nat, v: nat, p: nat, data: PageData, isStore: bool)
    requires Inv(vm) && a < |vm.areas| && Shows(vm.areas[a], vm.areas[a].space, v)
    requires var o, c := OffsetOf(vm.areas[a], v), vm.areas[a].cache;
             && Added(vm, r, c, o, p, data)
             && !Resolve(vm.caches, vm.index, c, o).InFile?
             && (Resolve(vm.caches, vm.index, c, o).InPage? ==> vm.areas[a].writable)
             && data == FoundBytes(vm, Resolve(vm.caches, vm.index, c, o), o, vm.areas[a].fileEnd)
    ensures FoundFor(vm, r, a, v, p, isStore)
  {
    var o, c := OffsetOf(vm.areas[a], v), vm.areas[a].cache;
    AddedBasic(vm, r, c, o, p, data);
    assert AreasOk(r);
    forall b, w | 0 <= b < |vm.areas| && Shows(vm.areas[b], vm.areas[b].space, w) && !(b == a && w == v)
      ensures PteOk(r, b, w)
    {
      if OffsetOf(vm.areas[b], w) == o && Reaches(vm.caches, vm.index, vm.areas[b].cache, o, c)
         && Resolve(vm.caches, vm.index, c, o).InPage? {
        ReachesResolve(vm.caches, vm.index, vm.areas[b].cache, o, c);
        WritableHead(vm, a, vm.areas[b].cache);
        assert BothCover(vm.areas[a], vm.areas[b], o);
      }
      AddedPte(vm, r, c, o, p, data, b, w);
    }
    forall b, o' | 0 <= b < |vm.areas| && Covers(vm.areas[b], o') ensures Bytes(r, vm.areas[b], o') == Bytes(vm, vm.areas[b], o') {
      AddedBytes(vm, r, c, o, p, data, b, o');
    }
  }

  // ------------------------------------------------------- the whole search

  lemma {:induction false} ChainOlder(caches: seq<Cache>, c: nat, k: nat)
    requires SourcesOlder(caches) && c < |caches| && InChain(caches, c, k)
    ensures k <= c
    decreases c
  {
    if c != k {
      ChainOlder(caches, caches[c].source.value, k);
    }
  }

  /** The search stops where the chain says. */
  lemma {:induction false} SearchResult(w: Vm, s: nat, o: nat, fileEnd: int)
    requires SourcesOlder(w.caches) && s < |w.caches| && SearchSources(w, Some(s), o, fileEnd).Some?
    ensures var (r, found) := SearchSources(w, Some(s), o, fileEnd).value;
            match Resolve(w.caches, w.index, s, o)
            case Nowhere => r == w && found == None
            case InPage(q) => r == w && found == Some(q)
            case InFile(k) =>
              && k < |w.caches| && Reaches(w.caches, w.index, s, o, k) && Key(k, o) !in w.index
              && Resolve(w.caches, w.index, k, o) == InFile(k)
              && ReadPage(w, k, o, fileEnd).Some?
              && r == ReadPage(w, k, o, fileEnd).value.0 && found == Some(ReadPage(w, k, o, fileEnd).value.1)
    decreases s
  {
    if Key(s, o) !in w.index && w.caches[s].file.None? && w.caches[s].source.Some? {
      SearchResult(w, w.caches[s].source.value, o, fileEnd);
    }
  }

  /** A page put into a cache is not seen from the caches below it. */
  lemma BelowUnchanged(caches: seq<Cache>, index: map<Key, nat>, c: nat, s: nat, o: nat, d: nat)
    requires SourcesOlder(caches) && c < |caches| && s < c && Key(c, o) !in index
    ensures Resolve(caches, index[Key(c, o) := d], s, o) == Resolve(caches, index, s, o)
    ensures forall k :: 0 <= k < |caches| && Reaches(caches, index[Key(c, o) := d], s, o, k) ==> Reaches(caches, index, s, o, k)
  {
    ResolveAdded(caches, index, s, o, c, o, d);
    if Reaches(caches, index, s, o, c) {
      ReachesResolve(caches, index, s, o, c);
      ChainOlder(caches, s, c);
    }
    forall k | 0 <= k < |caches| && Reaches(caches, index[Key(c, o) := d], s, o, k) ensures Reaches(caches, index, s, o, k) {
      BelowReaches(caches, index, c, s, o, d, k);
    }
  }

  lemma {:induction false} BelowReaches(caches: seq<Cache>, index: map<Key, nat>, c: nat, s: nat, o: nat, d: nat, k: nat)
    requires SourcesOlder(caches) && c < |caches| && s < c && Reaches(caches, index[Key(c, o) := d], s, o, k)
    ensures Reaches(caches, index, s, o, k)
    decreases s
  {
    if s != k {
      BelowReaches(caches, index, c, caches[s].source.value, o, d, k);
    }
  }

  lemma RecycledStep(vm: Vm, r: Vm, a: nat, v: nat, p: nat)
    requires Inv(vm) && Recycled(vm, r) && a < |vm.areas| && Shows(vm.areas[a], vm.areas[a].space, v)
    requires Resolve(vm.caches, vm.index, vm.areas[a].cache, OffsetOf(vm.areas[a], v)) == InPage(p)
    ensures FoundFor(vm, r, a, v, p, false)
  {
    RecycledBasic(vm, r);
    assert AreasOk(r);
    forall b, w | 0 <= b < |vm.areas| && Shows(vm.areas[b], vm.areas[b].space, w) ensures PteOk(r, b, w) {
      assert PteOk(vm, b, w);
      if Key(vm.areas[b].space, w) in vm.ptes {
        var k := ResolvedCache(vm.caches, vm.index, vm.areas[b].cache, OffsetOf(vm.areas[b], w));
        CachedNotFree(vm, Key(k, OffsetOf(vm.areas[b], w)));
      }
    }
    forall b, o | 0 <= b < |vm.areas| && Covers(vm.areas[b], o) ensures Bytes(r, vm.areas[b], o) == Bytes(vm, vm.areas[b], o) {
      if Resolve(vm.caches, vm.index, vm.areas[b].cache, o).InPage? {
        var k := ResolvedCache(vm.caches, vm.index, vm.areas[b].cache, o);
        CachedNotFree(vm, Key(k, o));
      }
    }
    var k := ResolvedCache(vm.caches, vm.index, vm.areas[a].cache, OffsetOf(vm.areas[a], v));
    CachedNotFree(vm, Key(k, OffsetOf(vm.areas[a], v)));
  }

  lemma RecycledBasic(vm: Vm, r: Vm)
    requires Basic(vm) && Recycled(vm, r)
    ensures Basic(r)
  {
    forall q | 0 <= q < |r.pages| ensures Use(r, q) <= r.pages[q].refCount {
      assert Use(vm, q) <= vm.pages[q].refCount;
      if q in vm.free {
        FreeUnused(vm, q);
      }
    }
    forall k | k in r.index && r.pages[r.index[k]].dirty
      ensures exists a :: 0 <= a < |r.areas| && r.areas[a].writable && r.areas[a].cache == k.whose
    {
      CachedNotFree(vm, k);
      assert vm.pages[vm.index[k]].dirty;
    }
  }

  /** The placeholder of a load that found its page further down is given back. */
  lemma GivenBack(vm: Vm, c: nat, o: nat)
    requires Basic(vm) && Allocate(vm).Some? && Key(c, o) !in vm.index
    ensures var (vm1, d) := Allocate(vm).value;
            var w := InsertPage(vm1, c, o, d);
            d < |w.pages| && w.pages[d].refCount == 1 && Recycled(vm, DropRef(RemovePage(w, c, o), d))
  {
    AllocateOk(vm);
    var (vm1, d) := Allocate(vm).value;
    var r := DropRef(RemovePage(InsertPage(vm1, c, o, d), c, o), d);
    assert r.index == vm.index;
    assert r.free == vm.free;
  }

  /** What two allocations and the read in between leave. */
  function TwoTaken(vm: Vm, c: nat, k: nat, o: nat, data: PageData): Vm
    requires |vm.free| >= 2 && vm.free[0] < |vm.pages| && vm.free[1] < |vm.pages|
  {
    vm.(free := vm.free[2..], pages := vm.pages[vm.free[0] := Page(1, false, Zeros())][vm.free[1] := Page(1, false, data)],
        index := vm.index[Key(c, o) := vm.free[0]][Key(k, o) := vm.free[1]])
  }

  lemma ReadBelow(vm: Vm, c: nat, k: nat, o: nat, fileEnd: int)
    requires FreeOk(vm) && Allocate(vm).Some?
    requires ReadPage(InsertPage(Allocate(vm).value.0, c, o, Allocate(vm).value.1), k, o, fileEnd).Some?
    ensures |vm.free| >= 2 && vm.free[0] < |vm.pages| && vm.free[1] < |vm.pages| && vm.free[0] != vm.free[1]
    ensures vm.free[0] in vm.free && vm.free[1] in vm.free && Allocate(vm).value.1 == vm.free[0]
    ensures ReadPage(InsertPage(Allocate(vm).value.0, c, o, Allocate(vm).value.1), k, o, fileEnd) ==
            Some((TwoTaken(vm, c, k, o, FileBytes(vm.caches, k, o, fileEnd)), vm.free[1]))
  {
    var data := FileBytes(vm.caches, k, o, fileEnd);
    var w0 := InsertPage(Allocate(vm).value.0, c, o, vm.free[0]);
    assert w0.free[0] == vm.free[1] && w0.free[1..] == vm.free[2..];
    assert w0.pages[vm.free[1] := Page(1, false, Zeros())][vm.free[1] := Page(1, false, data)] ==
           w0.pages[vm.free[1] := Page(1, false, data)];
  }

  /** Taking the second free page and leaving the first. */
  lemma SecondTaken(free: seq<nat>)
    requires Distinct(free) && |free| >= 2
    ensures Distinct([free[0]] + free[2..])
    ensures forall q :: q in [free[0]] + free[2..] <==> q in free && q != free[1]
  {
    var kept := [free[0]] + free[2..];
    assert free == [free[0], free[1]] + free[2..];
    forall i | 1 <= i < |kept| ensures kept[i] == free[i + 1] {
    }
  }

  /** A vm in which only the second free page was put to use. */
  lemma SecondAdded(vm: Vm, r: Vm, k: nat, o: nat, data: PageData)
    requires FreeOk(vm) && |vm.free| >= 2 && vm.free[0] < |vm.pages| && vm.free[1] < |vm.pages|
    requires k < |vm.caches| && Key(k, o) !in vm.index
    requires r == vm.(free := [vm.free[0]] + vm.free[2..], pages := r.pages, index := vm.index[Key(k, o) := vm.free[1]])
    requires |r.pages| == |vm.pages| && r.pages[vm.free[1]] == Page(1, false, data) && r.pages[vm.free[0]].refCount == 0
    requires forall q :: 0 <= q < |vm.pages| && q != vm.free[0] && q != vm.free[1] ==> r.pages[q] == vm.pages[q]
    ensures Added(vm, r, k, o, vm.free[1], data)
  {
    SecondTaken(vm.free);
    assert vm.free[0] in vm.free && vm.free[1] in vm.free;
    assert vm.free[0] in r.free;
    assert FreeOk(r) by {
      forall p | 0 <= p < |r.pages| && r.pages[p].refCount == 0 ensures p in r.free {
        if p != vm.free[0] && p != vm.free[1] {
          assert vm.pages[p].refCount == 0;
        }
      }
    }
  }

  /** The same when the page had to be read: only the page that was read stays. */
  lemma FileBelowKept(vm: Vm, c: nat, k: nat, o: nat, fileEnd: int)
    requires Basic(vm) && Allocate(vm).Some? && c != k && k < |vm.caches|
    requires Key(c, o) !in vm.index && Key(k, o) !in vm.index
    requires ReadPage(InsertPage(Allocate(vm).value.0, c, o, Allocate(vm).value.1), k, o, fileEnd).Some?
    ensures var (vm1, d) := Allocate(vm).value;
            var (w, s) := ReadPage(InsertPage(vm1, c, o, d), k, o, fileEnd).value;
            && d < |w.pages| && s < |w.pages| && w.pages[d].refCount == 1
            && Added(vm, DropRef(RemovePage(w, c, o), d), k, o, s, FileBytes(vm.caches, k, o, fileEnd))
  {
    ReadBelow(vm, c, k, o, fileEnd);
    var data, d := FileBytes(vm.caches, k, o, fileEnd), vm.free[0];
    var w := TwoTaken(vm, c, k, o, data);
    var r := DropRef(RemovePage(w, c, o), d);
    assert r.index == vm.index[Key(k, o) := vm.free[1]];
    SecondAdded(vm, r, k, o, data);
  }

  /** Reading the page and copying it is adding the one and then the other. */
  lemma FileBelowCopied(vm: Vm, c: nat, k: nat, o: nat, fileEnd: int) returns (mid: Vm)
    requires Basic(vm) && Allocate(vm).Some? && c != k && k < |vm.caches| && c < |vm.caches|
    requires Key(c, o) !in vm.index && Key(k, o) !in vm.index
    requires ReadPage(InsertPage(Allocate(vm).value.0, c, o, Allocate(vm).value.1), k, o, fileEnd).Some?
    ensures var (vm1, d) := Allocate(vm).value;
            var (w, s) := ReadPage(InsertPage(vm1, c, o, d), k, o, fileEnd).value;
            && d < |w.pages| && s < |w.pages| && w.pages[s].data == FileBytes(vm.caches, k, o, fileEnd) && w.pages[d].refCount == 1
            && Added(vm, mid, k, o, s, FileBytes(vm.caches, k, o, fileEnd))
            && Added(mid, SetData(w, d, w.pages[s].data), c, o, d, w.pages[s].data)
  {
    ReadBelow(vm, c, k, o, fileEnd);
    var data, d, s := FileBytes(vm.caches, k, o, fileEnd), vm.free[0], vm.free[1];
    mid := vm.(free := [d] + vm.free[2..], pages := vm.pages[s := Page(1, false, data)], index := vm.index[Key(k, o) := s]);
    assert vm.pages[d].refCount == 0;
    SecondAdded(vm, mid, k, o, data);
    FirstAdded(vm, mid, c, k, o, data);
  }

  lemma FirstAdded(vm: Vm, mid: Vm, c: nat, k: nat, o: nat, data: PageData)
    requires |vm.free| >= 2 && vm.free[0] < |vm.pages| && vm.free[1] < |vm.pages| && vm.free[0] != vm.free[1]
    requires FreeOk(mid) && c != k && Key(c, o) !in vm.index && c < |vm.caches|
    requires mid == vm.(free := [vm.free[0]] + vm.free[2..], pages := vm.pages[vm.free[1] := Page(1, false, data)],
                        index := vm.index[Key(k, o) := vm.free[1]])
    ensures Added(mid, SetData(TwoTaken(vm, c, k, o, data), vm.free[0], data), c, o, vm.free[0], data)
  {
    var d := vm.free[0];
    var r := SetData(TwoTaken(vm, c, k, o, data), d, data);
    assert mid.free[0] == d && mid.free[1..] == r.free;
    assert r.index == mid.index[Key(c, o) := d];
    assert mid.free == [d] + r.free;
    FirstTaken(mid.free);
    assert FreeOk(r) by {
      forall p | 0 <= p < |r.pages| && r.pages[p].refCount == 0 ensures p in r.free {
        assert mid.pages[p].refCount == 0;
      }
    }
  }

  /** Whatever the search does, it ends with the page the area is to see, nobody notices a
      change, and a store gets a page of the area's own cache. */
  lemma FindPageFinds(vm: Vm, a: nat, v: nat, isStore: bool)
    requires Inv(vm) && a < |vm.areas| && Shows(vm.areas[a], vm.areas[a].space, v)
    requires isStore ==> vm.areas[a].writable
    requires FindPage(vm, vm.areas[a], OffsetOf(vm.areas[a], v), isStore).Some?
    ensures var (r, p) := FindPage(vm, vm.areas[a], OffsetOf(vm.areas[a], v), isStore).value;
            FoundFor(vm, r, a, v, p, isStore)
  {
    var o, c := OffsetOf(vm.areas[a], v), vm.areas[a].cache;
    if Key(c, o) in vm.index {
      CachedNotFree(vm, Key(c, o));
    } else if vm.caches[c].file.Some? {
      ReadPageAdds(vm, c, o, vm.areas[a].fileEnd);
      var (r, p) := ReadPage(vm, c, o, vm.areas[a].fileEnd).value;
      AddedFileStep(vm, r, a, v, c, p);
    } else {
      FindBelow(vm, a, v, isStore);
    }
  }

  /** The part of the search that starts below the area's own cache. */
  lemma FindBelow(vm: Vm, a: nat, v: nat, isStore: bool)
    requires Inv(vm) && a < |vm.areas| && Shows(vm.areas[a], vm.areas[a].space, v)
    requires isStore ==> vm.areas[a].writable
    requires Key(vm.areas[a].cache, OffsetOf(vm.areas[a], v)) !in vm.index && vm.caches[vm.areas[a].cache].file.None?
    requires FindPage(vm, vm.areas[a], OffsetOf(vm.areas[a], v), isStore).Some?
    ensures var (r, p) := FindPage(vm, vm.areas[a], OffsetOf(vm.areas[a], v), isStore).value;
            FoundFor(vm, r, a, v, p, isStore)
  {
    var o, c := OffsetOf(vm.areas[a], v), vm.areas[a].cache;
    AllocateOk(vm);
    var (vm1, d) := Allocate(vm).value;
    var w := InsertPage(vm1, c, o, d);
    var (r, p) := FindPage(vm, vm.areas[a], o, isStore).value;
    match vm.caches[c].source {
      case None =>
        AddedOwnStep(vm, r, a, v, p, Zeros(), isStore);
      case Some(s) =>
        SearchResult(w, s, o, vm.areas[a].fileEnd);
        BelowUnchanged(vm.caches, vm.index, c, s, o, d);
        match Resolve(vm.caches, vm.index, s, o) {
          case Nowhere =>
            AddedOwnStep(vm, r, a, v, p, Zeros(), isStore);
          case InPage(q) =>
            FoundPageBelow(vm, a, v, isStore, s, q);
          case InFile(k) =>
            FoundFileBelow(vm, a, v, isStore, s, k);
        }
    }
  }

  lemma FoundPageBelow(vm: Vm, a: nat, v: nat, isStore: bool, s: nat, q: nat)
    requires Inv(vm) && a < |vm.areas| && Shows(vm.areas[a], vm.areas[a].space, v)
    requires isStore ==> vm.areas[a].writable
    requires var o, c := OffsetOf(vm.areas[a], v), vm.areas[a].cache;
             && Key(c, o) !in vm.index && vm.caches[c].file.None? && vm.caches[c].source == Some(s)
             && Allocate(vm).Some? && FindPage(vm, vm.areas[a], o, isStore).Some?
             && Resolve(vm.caches, vm.index, s, o) == InPage(q)
    ensures var (r, p) := FindPage(vm, vm.areas[a], OffsetOf(vm.areas[a], v), isStore).value;
            FoundFor(vm, r, a, v, p, isStore)
  {
    var o, c := OffsetOf(vm.areas[a], v), vm.areas[a].cache;
    AllocateOk(vm);
    var (vm1, d) := Allocate(vm).value;
    var w := InsertPage(vm1, c, o, d);
    SearchResult(w, s, o, vm.areas[a].fileEnd);
    BelowUnchanged(vm.caches, vm.index, c, s, o, d);
    var (r, p) := FindPage(vm, vm.areas[a], o, isStore).value;
    var k := ResolvedCache(vm.caches, vm.index, s, o);
    CachedNotFree(vm, Key(k, o));
    if isStore {
      AddedOwnStep(vm, r, a, v, p, vm.pages[q].data, true);
    } else {
      GivenBack(vm, c, o);
      RecycledStep(vm, r, a, v, q);
    }
  }

  lemma FoundFileBelow(vm: Vm, a: nat, v: nat, isStore: bool, s: nat, k: nat)
    requires Inv(vm) && a < |vm.areas| && Shows(vm.areas[a], vm.areas[a].space, v)
    requires isStore ==> vm.areas[a].writable
    requires var o, c := OffsetOf(vm.areas[a], v), vm.areas[a].cache;
             && Key(c, o) !in vm.index && vm.caches[c].file.None? && vm.caches[c].source == Some(s)
             && Allocate(vm).Some? && FindPage(vm, vm.areas[a], o, isStore).Some?
             && Resolve(vm.caches, vm.index, s, o) == InFile(k)
    ensures var (r, p) := FindPage(vm, vm.areas[a], OffsetOf(vm.areas[a], v), isStore).value;
            FoundFor(vm, r, a, v, p, isStore)
  {
    var o, c, fileEnd := OffsetOf(vm.areas[a], v), vm.areas[a].cache, vm.areas[a].fileEnd;
    var (vm1, d) := Allocate(vm).value;
    var w := InsertPage(vm1, c, o, d);
    AllocateOk(vm);
    SearchResult(w, s, o, fileEnd);
    BelowUnchanged(vm.caches, vm.index, c, s, o, d);
    ReachesResolve(vm.caches, vm.index, s, o, k);
    ChainOlder(vm.caches, s, k);
    var (r, p) := FindPage(vm, vm.areas[a], o, isStore).value;
    if isStore {
      var mid := FileBelowCopied(vm, c, k, o, fileEnd);
      AddedFileStep(vm, mid, a, v, k, ReadPage(w, k, o, fileEnd).value.1);
      AddedOwnStep(mid, r, a, v, p, r.pages[p].data, true);
    } else {
      FileBelowKept(vm, c, k, o, fileEnd);
      AddedFileStep(vm, r, a, v, k, p);
    }
  }
}

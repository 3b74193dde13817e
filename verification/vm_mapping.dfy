/** The second half of a page fault: counting the mapping, noting a store and entering the page in
    the table; and with it what a whole fault means. */
module VmMapping {
  import opened Wrappers
  import opened VmState
  import opened VmFault

  /** `f` is `r` with page `p` mapped at `v` in the space of area `a`; one free page may have
      become a page table. */
  ghost predicate Mapped(r: Vm, f: Vm, a: Area, v: nat, p: nat, isStore: bool) {
    && f.index == r.index && f.caches == r.caches && f.areas == r.areas && |f.pages| == |r.pages| && FreeOk(f)
    && p < |r.pages| && f.pages[p] == Page(r.pages[p].refCount + 1, r.pages[p].dirty || isStore, r.pages[p].data)
    && (forall q :: 0 <= q < |r.pages| && q !in r.free && q != p ==> f.pages[q] == r.pages[q])
    && (forall q :: q in f.free ==> q in r.free)
    && f.ptes == r.ptes[Key(a.space, v) := Pte(p, a.writable && (r.pages[p].dirty || isStore), a.executable)]
  }

  lemma MapFoundMaps(r: Vm, a: Area, v: nat, p: nat, isStore: bool)
    requires FreeOk(r) && p < |r.pages| && p !in r.free && MapFound(r, a, v, p, isStore).Handled?
    ensures Mapped(r, MapFound(r, a, v, p, isStore).vm, a, v, p, isStore)
  {
    var counted := AddRef(r, p);
    var noted := if isStore then MarkDirty(counted, p) else counted;
    assert noted.pages[p] == Page(r.pages[p].refCount + 1, r.pages[p].dirty || isStore, r.pages[p].data);
    assert FreeOk(noted) by {
      assert forall q :: 0 <= q < |r.pages| && q != p ==> noted.pages[q] == r.pages[q];
    }
    if Key(a.space, v / 1024) !in r.tables {
      AllocateOk(noted);
    }
  }

  // ------------------------------------------------------ the counts stay right

  lemma MoreMappers(ptes: map<Key, Pte>, k: Key, e: Pte, q: nat)
    ensures |Mappers(ptes[k := e], q)| <= |Mappers(ptes, q)| + (if e.page == q then 1 else 0)
  {
    var after := Mappers(ptes[k := e], q);
    if e.page == q {
      assert after <= Mappers(ptes, q) + {k};
      Smaller(after, Mappers(ptes, q) + {k});
    } else {
      assert after <= Mappers(ptes, q);
      Smaller(after, Mappers(ptes, q));
    }
  }

  lemma {:induction false} Smaller<T>(s: set<T>, t: set<T>)
    requires s <= t
    ensures |s| <= |t|
  {
    if s != {} {
      var x :| x in s;
      Smaller(s - {x}, t - {x});
    }
  }

  lemma MappedCounts(r: Vm, f: Vm, a: Area, v: nat, p: nat, isStore: bool)
    requires Basic(r) && Mapped(r, f, a, v, p, isStore)
    ensures CountsOk(f)
  {
    forall q | 0 <= q < |f.pages| ensures Use(f, q) <= f.pages[q].refCount {
      assert Use(r, q) <= r.pages[q].refCount;
      MoreMappers(r.ptes, Key(a.space, v), f.ptes[Key(a.space, v)], q);
      if q in r.free {
        FreeUnused(r, q);
        assert Mappers(r.ptes, q) == {};
      }
    }
  }

  /** Only an area that is written has dirty pages in its chain, and then in its own cache. */
  lemma DirtyIsOwn(r: Vm, a: nat, o: nat, p: nat)
    requires Basic(r) && AreasOk(r) && a < |r.areas| && p < |r.pages| && r.pages[p].dirty
    requires Resolve(r.caches, r.index, r.areas[a].cache, o) == InPage(p)
    ensures Key(r.areas[a].cache, o) in r.index
  {
    var k := ResolvedCache(r.caches, r.index, r.areas[a].cache, o);
    var e :| 0 <= e < |r.areas| && r.areas[e].writable && r.areas[e].cache == k;
    WritableHead(r, e, r.areas[a].cache);
  }

  lemma MappedDirty(vm: Vm, r: Vm, f: Vm, a: nat, v: nat, p: nat, isStore: bool)
    requires AreasOk(vm) && a < |vm.areas| && vm.areas[a].low <= v && FoundFor(vm, r, a, v, p, isStore)
    requires (isStore ==> vm.areas[a].writable) && Mapped(r, f, vm.areas[a], v, p, isStore)
    ensures DirtyOk(f)
  {
    forall k | k in f.index && f.index[k] < |f.pages| && f.pages[f.index[k]].dirty
      ensures exists e :: 0 <= e < |f.areas| && f.areas[e].writable && f.areas[e].cache == k.whose
    {
      CachedNotFree(r, k);
      if isStore && f.index[k] == p {
        assert k == Key(vm.areas[a].cache, OffsetOf(vm.areas[a], v));
      } else {
        assert r.pages[r.index[k]].dirty;
      }
    }
  }

  lemma MappedPte(vm: Vm, r: Vm, f: Vm, a: nat, v: nat, p: nat, isStore: bool, b: nat, w: nat)
    requires AreasOk(vm) && a < |vm.areas| && Shows(vm.areas[a], vm.areas[a].space, v) && FoundFor(vm, r, a, v, p, isStore)
    requires Mapped(r, f, vm.areas[a], v, p, isStore) && AreasOk(f)
    requires b < |f.areas| && Shows(f.areas[b], f.areas[b].space, w)
    ensures PteOk(f, b, w)
  {
    if Key(f.areas[b].space, w) == Key(vm.areas[a].space, v) {
      assert BothShow(vm.areas[a], vm.areas[b], v);
      if r.pages[p].dirty {
        DirtyIsOwn(r, a, OffsetOf(vm.areas[a], v), p);
      }
    } else if Key(f.areas[b].space, w) in f.ptes {
      assert PteOk(r, b, w);
      var o := OffsetOf(f.areas[b], w);
      var k := ResolvedCache(r.caches, r.index, f.areas[b].cache, o);
      CachedNotFree(r, Key(k, o));
    }
  }

  lemma MappedBytes(r: Vm, f: Vm, a: Area, v: nat, p: nat, isStore: bool, b: Area, o: nat)
    requires Basic(r) && SourcesOlder(r.caches) && b.cache < |r.caches| && Mapped(r, f, a, v, p, isStore)
    ensures Bytes(f, b, o) == Bytes(r, b, o)
  {
    if Resolve(r.caches, r.index, b.cache, o).InPage? {
      var k := ResolvedCache(r.caches, r.index, b.cache, o);
      CachedNotFree(r, Key(k, o));
    }
  }

  // ------------------------------------------------------------ a whole fault

  /** What a handled fault leaves: no area sees a change, and the page that is mapped shows what
      the area's chain of caches holds. */
  ghost predicate FaultDone(vm: Vm, f: Vm, a: nat, v: nat, isStore: bool)
    requires AreasOk(vm) && a < |vm.areas| && Shows(vm.areas[a], vm.areas[a].space, v)
  {
    var area, k := vm.areas[a], Key(vm.areas[a].space, v);
    && Inv(f) && f.areas == vm.areas && f.caches == vm.caches && |f.pages| == |vm.pages|
    && (forall b, o :: 0 <= b < |vm.areas| && Covers(vm.areas[b], o) ==> Bytes(f, vm.areas[b], o) == Bytes(vm, vm.areas[b], o))
    && k in f.ptes && f.ptes == vm.ptes[k := f.ptes[k]] && f.ptes[k].executable == area.executable
    && PageBytes(f.pages, f.ptes[k].page) == Bytes(vm, area, OffsetOf(area, v))
    && (isStore ==> f.ptes[k].writable)
  }

  /** A fault is refused only for a store to an area that is not writable; otherwise it maps
      exactly what the area is to see, unless memory runs out. */
  lemma FaultMeaning(vm: Vm, a: nat, v: nat, isStore: bool)
    requires Inv(vm) && a < |vm.areas| && Shows(vm.areas[a], vm.areas[a].space, v)
    ensures SoftFault(vm, vm.areas[a], v, isStore) == Refused <==> isStore && !vm.areas[a].writable
    ensures SoftFault(vm, vm.areas[a], v, isStore).Handled? ==>
              FaultDone(vm, SoftFault(vm, vm.areas[a], v, isStore).vm, a, v, isStore)
  {
    if SoftFault(vm, vm.areas[a], v, isStore).Handled? {
      var area, o := vm.areas[a], OffsetOf(vm.areas[a], v);
      FindPageFinds(vm, a, v, isStore);
      var (r, p) := FindPage(vm, area, o, isStore).value;
      MapFoundMaps(r, area, v, p, isStore);
      FaultIsDone(vm, r, MapFound(r, area, v, p, isStore).vm, a, v, p, isStore);
    }
  }

  lemma FaultIsDone(vm: Vm, r: Vm, f: Vm, a: nat, v: nat, p: nat, isStore: bool)
    requires AreasOk(vm) && a < |vm.areas| && Shows(vm.areas[a], vm.areas[a].space, v) && FoundFor(vm, r, a, v, p, isStore)
    requires (isStore ==> vm.areas[a].writable) && Mapped(r, f, vm.areas[a], v, p, isStore)
    ensures FaultDone(vm, f, a, v, isStore)
  {
    MappedCounts(r, f, vm.areas[a], v, p, isStore);
    MappedDirty(vm, r, f, a, v, p, isStore);
    assert AreasOk(f);
    forall b, w | 0 <= b < |f.areas| && Shows(f.areas[b], f.areas[b].space, w) ensures PteOk(f, b, w) {
      MappedPte(vm, r, f, a, v, p, isStore, b, w);
    }
    forall b, o | 0 <= b < |vm.areas| && Covers(vm.areas[b], o) ensures Bytes(f, vm.areas[b], o) == Bytes(vm, vm.areas[b], o) {
      MappedBytes(r, f, vm.areas[a], v, p, isStore, vm.areas[b], o);
      assert Bytes(r, vm.areas[b], o) == Bytes(vm, vm.areas[b], o);
    }
    assert Covers(vm.areas[a], OffsetOf(vm.areas[a], v));
  }

  // ---------------------------------------------------------- memory suffices

  /** Three free pages are enough for any fault: one for the area's cache, one to read the file
      into, and one for the page table. */
  lemma ThreePagesSuffice(vm: Vm, a: nat, v: nat, isStore: bool)
    requires Inv(vm) && a < |vm.areas| && Shows(vm.areas[a], vm.areas[a].space, v) && |vm.free| >= 3
    ensures SoftFault(vm, vm.areas[a], v, isStore) != OutOfMemory
  {
    if isStore ==> vm.areas[a].writable {
      SearchSpends(vm, a, v, isStore);
      FindPageFinds(vm, a, v, isStore);
      var (r, p) := FindPage(vm, vm.areas[a], OffsetOf(vm.areas[a], v), isStore).value;
      assert r.free[0] in r.free;
    }
  }

  lemma SearchSpends(vm: Vm, a: nat, v: nat, isStore: bool)
    requires Inv(vm) && a < |vm.areas| && Shows(vm.areas[a], vm.areas[a].space, v) && |vm.free| >= 2
    ensures FindPage(vm, vm.areas[a], OffsetOf(vm.areas[a], v), isStore).Some?
    ensures |FindPage(vm, vm.areas[a], OffsetOf(vm.areas[a], v), isStore).value.0.free| >= |vm.free| - 2
  {
    var area, o, c := vm.areas[a], OffsetOf(vm.areas[a], v), vm.areas[a].cache;
    assert vm.free[0] in vm.free && vm.free[1] in vm.free && vm.free[0] != vm.free[1];
    if Key(c, o) !in vm.index && vm.caches[c].file.None? && vm.caches[c].source.Some? {
      var s := vm.caches[c].source.value;
      var w := InsertPage(Allocate(vm).value.0, c, o, vm.free[0]);
      SearchGoesOn(w, s, o, area.fileEnd);
      SearchResult(w, s, o, area.fileEnd);
      BelowUnchanged(vm.caches, vm.index, c, s, o, vm.free[0]);
      match Resolve(vm.caches, vm.index, s, o) {
        case Nowhere =>
        case InPage(q) =>
          var k := ResolvedCache(vm.caches, vm.index, s, o);
          CachedNotFree(vm, Key(k, o));
        case InFile(k) =>
          ReadBelow(vm, c, k, o, area.fileEnd);
      }
    }
  }

  lemma {:induction false} SearchGoesOn(w: Vm, s: nat, o: nat, fileEnd: int)
    requires SourcesOlder(w.caches) && s < |w.caches| && Allocate(w).Some?
    ensures SearchSources(w, Some(s), o, fileEnd).Some?
    decreases s
  {
    if Key(s, o) !in w.index && w.caches[s].file.None? && w.caches[s].source.Some? {
      SearchGoesOn(w, w.caches[s].source.value, o, fileEnd);
    }
  }
}

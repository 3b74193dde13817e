/** The kernel's page allocator, page index, translation maps and fault handler as they change
    their state, against the fault model. */
module VmProgram {
  import opened Words
  import opened Wrappers
  import opened VmState
  import opened VmIndex
  import AtAddress = VmAddresses
  import Fault = VmFault

  class Kernel {
    const addressOf: Addresses
    var pages: seq<Page>
    var free: seq<nat>
    var owner: seq<Option<Key>>
    var buckets: seq<seq<nat>>
    var caches: seq<Cache>
    var areas: seq<Area>
    var tables: map<Key, nat>
    var slots: map<nat, Table>
    ghost var index: map<Key, nat>
    ghost var ptes: map<Key, Pte>

    ghost function View(): Vm
      reads this
    {
      Vm(pages, free, index, caches, areas, ptes, tables)
    }

    ghost predicate Valid()
      reads this
    {
      && |owner| == |pages| && Indexes(buckets, owner, index, addressOf) && Maps(tables, slots, ptes)
      && Distinct(free) && (forall p :: p in free ==> p < |pages|)
      && (forall p :: p in free ==> p !in index.Values && p !in tables.Values)
      && (forall p :: p in index.Values ==> p !in tables.Values)
    }

    constructor (n: nat, at: Addresses)
      ensures Valid() && View() == Vm(pages, seq(n, i => i), map[], [], [], map[], map[])
      ensures pages == seq(n, _ => Page(0, false, Zeros()))
    {
      addressOf := at;
      pages, free, owner := seq(n, _ => Page(0, false, Zeros())), seq(n, i => i), seq(n, _ => None);
      buckets := seq(NUM_HASH_BUCKETS, _ => []);
      caches, areas, tables, slots := [], [], map[], map[];
      index, ptes := map[], map[];
    }

    // ---------------------------------------------------------------- pages

    method AllocatePage() returns (p: Option<nat>)
      requires Valid()
      modifies this`free, this`pages, this`owner
      ensures Valid()
      ensures match Allocate(old(View()))
              case None => p == None && View() == old(View())
              case Some((vm, q)) =>
                && View() == vm && p == Some(q) && q in old(free) && q !in free && owner == old(owner)[q := None]
                && old(free) == [q] + free && pages[q] == Page(1, false, Zeros())
    {
      if free == [] {
        return None;
      }
      var q := free[0];
      assert q in free;
      Fault.FirstTaken(free);
      IndexForgets(buckets, owner, index, addressOf, q);
      free := free[1..];
      pages := pages[q := Page(1, false, Zeros())];
      owner := owner[q := None];
      p := Some(q);
    }

    method IncPageRef(p: nat)
      requires Valid() && p < |pages|
      modifies this`pages
      ensures Valid() && View() == AddRef(old(View()), p)
    {
      pages := pages[p := Page(pages[p].refCount + 1, pages[p].dirty, pages[p].data)];
    }

    /** The last reference puts the page at the front of the free list. */
    method DecPageRef(p: nat)
      requires Valid() && p < |pages| && pages[p].refCount > 0
      requires pages[p].refCount == 1 ==> p !in free && p !in index.Values && p !in tables.Values
      modifies this`pages, this`free
      ensures Valid() && View() == DropRef(old(View()), p)
    {
      var count := pages[p].refCount;
      pages := pages[p := Page(count - 1, pages[p].dirty, pages[p].data)];
      if count == 1 {
        free := [p] + free;
      }
    }

    // ---------------------------------------------------------------- index

    method InsertCachePage(c: nat, o: nat, p: nat)
      requires Valid() && p < |pages| && owner[p].None? && p !in free && p !in tables.Values && Key(c, o) !in index
      modifies this`owner, this`buckets, this`index
      ensures Valid() && View() == InsertPage(old(View()), c, o, p)
      ensures owner == old(owner)[p := Some(Key(c, o))]
    {
      var bucket := Bucket(addressOf, Key(c, o));
      forall k | k in index ensures index[k] != p {
        assert Entered(buckets, owner, k, index[k], addressOf);
      }
      IndexInserts(buckets, owner, index, addressOf, Key(c, o), p);
      Fault.IndexValues(index, Key(c, o), p);
      owner := owner[p := Some(Key(c, o))];
      buckets := buckets[bucket := buckets[bucket] + [p]];
      index := index[Key(c, o) := p];
    }

    method LookupCachePage(c: nat, o: nat) returns (found: Option<nat>)
      requires Valid()
      ensures found == if Key(c, o) in index then Some(index[Key(c, o)]) else None
    {
      var bucket := Bucket(addressOf, Key(c, o));
      assert BucketOk(buckets[bucket], bucket, owner, index, addressOf);
      for i := 0 to |buckets[bucket]|
        invariant forall j :: 0 <= j < i ==> owner[buckets[bucket][j]] != Some(Key(c, o))
      {
        assert InBucket(buckets[bucket][i], bucket, owner, index, addressOf);
        var p := buckets[bucket][i];
        if owner[p] == Some(Key(c, o)) {
          return Some(p);
        }
      }
      assert Key(c, o) in index ==> Entered(buckets, owner, Key(c, o), index[Key(c, o)], addressOf);
      return None;
    }

    /** Takes the page out of its bucket; it still remembers its cache. */
    method RemoveCachePage(p: nat)
      requires Valid() && p < |pages| && p in index.Values
      modifies this`buckets, this`index
      ensures Valid() && p !in index.Values && owner[p].Some?
      ensures old(View()).index[owner[p].value := p] == old(View()).index
      ensures View() == RemovePage(old(View()), owner[p].value.whose, owner[p].value.page)
    {
      ghost var k :| k in index && index[k] == p;
      assert Entered(buckets, owner, k, p, addressOf);
      var bucket := Bucket(addressOf, owner[p].value);
      IndexRemoves(buckets, owner, index, addressOf, k);
      assert forall q :: q in (index - {k}).Values ==> q in index.Values;
      buckets := buckets[bucket := Without(buckets[bucket], p)];
      forall l | l in index && index[l] == p ensures l == k {
        assert Entered(old(buckets), owner, l, p, addressOf);
      }
      index := index - {k};
    }

    // ----------------------------------------------------- translation maps

    /** Writes the entry of a page, making the second level of the table if it is missing. */
    method MapPage(space: nat, v: nat, pte: Pte) returns (ok: bool)
      requires Valid()
      modifies this`free, this`pages, this`owner, this`tables, this`slots, this`ptes
      ensures Valid() && ok == Fault.MapPage(old(View()), space, v, pte).Some?
      ensures ok ==> View() == Fault.MapPage(old(View()), space, v, pte).value
      ensures !ok ==> View() == old(View())
    {
      var directory := Key(space, v / TABLE_ENTRIES);
      if directory !in tables {
        var t := AllocatePage();
        if t == None {
          return false;
        }
        TableAdded(tables, slots, ptes, directory, t.value);
        Fault.IndexValues(tables, directory, t.value);
        tables := tables[directory := t.value];
        slots := slots[t.value := EmptyTable()];
      }
      var table := tables[directory];
      EntryWritten(tables, slots, ptes, Key(space, v), pte);
      slots := slots[table := slots[table][v % TABLE_ENTRIES := Some(pte)]];
      ptes := ptes[Key(space, v) := pte];
      ok := true;
    }

    method QueryTranslationMap(space: nat, v: nat) returns (entry: Option<Pte>)
      requires Valid()
      ensures entry == if Key(space, v) in ptes then Some(ptes[Key(space, v)]) else None
    {
      assert Walk(tables, slots, Key(space, v)) == if Key(space, v) in ptes then Some(ptes[Key(space, v)]) else None;
      var directory := Key(space, v / TABLE_ENTRIES);
      if directory !in tables {
        return None;
      }
      return slots[tables[directory]][v % TABLE_ENTRIES];
    }

    // ---------------------------------------------------------------- faults

    /** Fills a cleared page from the file, and clears what lies past the area's part of it. */
    method ReadFilePage(file: seq<Byte>, o: nat, fileEnd: int) returns (data: PageData)
      ensures data == FileFill(file, o, fileEnd)
    {
      var start := o * PAGE_SIZE;
      var size := if fileEnd - start < 0 then 0 else if fileEnd - start < PAGE_SIZE then fileEnd - start else PAGE_SIZE;
      var got := if start > |file| then 0 else if |file| - start < size then |file| - start else size;
      var bytes := new Byte[PAGE_SIZE](_ => 0);
      for i := 0 to got
        invariant forall j :: 0 <= j < i ==> bytes[j] == file[start + j]
        invariant forall j :: i <= j < PAGE_SIZE ==> bytes[j] == 0
      {
        bytes[i] := file[start + i];
      }
      for i := size to PAGE_SIZE
        invariant forall j :: 0 <= j < got ==> bytes[j] == file[start + j]
        invariant forall j :: got <= j < PAGE_SIZE ==> bytes[j] == 0
      {
        bytes[i] := 0;
      }
      data := bytes[..];
    }

    /** A new page of a cache, read from the cache's file. */
    method ReadPage(c: nat, o: nat, fileEnd: int) returns (p: Option<nat>)
      requires Valid() && c < |caches| && caches[c].file.Some? && Key(c, o) !in index
      modifies this`free, this`pages, this`owner, this`buckets, this`index
      ensures Valid()
      ensures match Fault.ReadPage(old(View()), c, o, fileEnd)
              case None => p == None
              case Some((vm, q)) => View() == vm && p == Some(q) && q in old(free)
      ensures p.Some? ==> p.value < |pages| && forall d, k :: old(Waits(d, k)) ==> Waits(d, k)
    {
      p := AllocatePage();
      if p.Some? {
        InsertCachePage(c, o, p.value);
        var data := ReadFilePage(caches[c].file.value, o, fileEnd);
        pages := pages[p.value := Page(pages[p.value].refCount, pages[p.value].dirty, data)];
      }
    }

    /** On a store the placeholder becomes a copy of the page that was found; on a load it is given
        back. */
    method UsePlaceholder(dummy: nat, source: nat, isStore: bool) returns (found: Option<nat>)
      requires Valid() && dummy < |pages| && source < |pages| && owner[dummy].Some? && pages[dummy].refCount > 0
      requires owner[dummy].value in index && index[owner[dummy].value] == dummy
      modifies this`free, this`pages, this`buckets, this`index
      ensures Valid() && |pages| == |old(pages)|
      ensures isStore ==> found == Some(dummy) && View() == SetData(old(View()), dummy, old(pages[source].data))
      ensures !isStore ==>
                && found == Some(source)
                && View() == DropRef(RemovePage(old(View()), old(owner[dummy]).value.whose, old(owner[dummy]).value.page), dummy)
    {
      if isStore {
        pages := pages[dummy := Page(pages[dummy].refCount, pages[dummy].dirty, pages[source].data)];
        return Some(dummy);
      }
      RemoveCachePage(dummy);
      DecPageRef(dummy);
      return Some(source);
    }

    /** What the search starts from below the area's own cache: the placeholder is in. */
    ghost static predicate Placeholder(start: Vm, w: Vm, c: nat, o: nat, d: nat) {
      && Key(c, o) !in start.index && c < |start.caches| && start.caches[c].file.None?
      && Allocate(start).Some? && d == Allocate(start).value.1 && w == InsertPage(Allocate(start).value.0, c, o, d)
    }

    ghost predicate Waits(d: nat, k: Key)
      reads this
    {
      && d < |pages| && |owner| == |pages| && pages[d] == Page(1, false, Zeros()) && owner[d] == Some(k)
      && k in index && index[k] == d && d !in free
    }

    method InsertPlaceholder(c: nat, o: nat) returns (d: Option<nat>)
      requires Valid() && c < |caches| && caches[c].file.None? && Key(c, o) !in index
      modifies this`free, this`pages, this`owner, this`buckets, this`index
      ensures d == None <==> Allocate(old(View())) == None
      ensures d.Some? ==> Valid() && Placeholder(old(View()), View(), c, o, d.value) && Waits(d.value, Key(c, o))
    {
      d := AllocatePage();
      if d.Some? {
        InsertCachePage(c, o, d.value);
      }
    }

    /** Goes down the chain of caches until one holds the page or has a file to read it from; a
        placeholder marks the page in the area's own cache. */
    method SearchCaches(a: Area, o: nat) returns (ok: bool, source: Option<nat>, dummy: Option<nat>, ghost w: Vm)
      requires Valid() && SourcesOlder(caches) && a.cache < |caches|
      modifies this`free, this`pages, this`owner, this`buckets, this`index
      ensures ok ==> Valid() && (source.Some? ==> source.value < |pages|)
      ensures ok && dummy.None? ==>
                && source.Some?
                && Some((View(), source.value)) == if Key(a.cache, o) in old(index) then Some((old(View()), old(index[Key(a.cache, o)])))
                                                else Fault.ReadPage(old(View()), a.cache, o, a.fileEnd)
      ensures ok && dummy.None? && Key(a.cache, o) !in old(index) ==> caches[a.cache].file.Some?
      ensures dummy.Some? ==> Placeholder(old(View()), w, a.cache, o, dummy.value)
      ensures dummy.Some? ==> Fault.SearchSources(w, w.caches[a.cache].source, o, a.fileEnd) == if ok then Some((View(), source)) else None
      ensures ok && dummy.Some? ==> Waits(dummy.value, Key(a.cache, o))
      ensures !ok ==> Fault.FindPage(old(View()), a, o, false) == None && Fault.FindPage(old(View()), a, o, true) == None
    {
      w := View();
      var cache: Option<nat> := Some(a.cache);
      source, dummy := None, None;
      while cache.Some?
        invariant Valid() && View() == w && source == None && w.caches == old(View()).caches
        invariant cache.Some? ==> cache.value < |caches|
        invariant dummy == None ==> w == old(View()) && cache == Some(a.cache)
        invariant dummy.Some? ==> Placeholder(old(View()), w, a.cache, o, dummy.value) && Waits(dummy.value, Key(a.cache, o))
        invariant dummy.Some? && cache.Some? ==> cache.value < a.cache
        invariant dummy.Some? ==>
          Fault.SearchSources(w, w.caches[a.cache].source, o, a.fileEnd) == Fault.SearchSources(w, cache, o, a.fileEnd)
        decreases if cache.Some? then cache.value + 1 else 0
      {
        source := LookupCachePage(cache.value, o);
        if source.Some? {
          break;
        }
        if caches[cache.value].file.Some? {
          source := ReadPage(cache.value, o, a.fileEnd);
          if source.None? {
            return false, None, dummy, w;
          }
          break;
        }
        if cache.value == a.cache {
          dummy := InsertPlaceholder(a.cache, o);
          if dummy.None? {
            return false, None, None, w;
          }
          w := View();
        }
        cache := caches[cache.value].source;
      }
      ok := true;
    }

    /** Finds the page that an area is to see, or makes it. */
    method FindPage(a: Area, o: nat, isStore: bool) returns (found: Option<nat>)
      requires Valid() && SourcesOlder(caches) && a.cache < |caches|
      modifies this`free, this`pages, this`owner, this`buckets, this`index
      ensures match Fault.FindPage(old(View()), a, o, isStore)
              case None => found == None
              case Some((vm, p)) => Valid() && View() == vm && found == Some(p) && p < |pages|
    {
      var ok, source, dummy, w := SearchCaches(a, o);
      if !ok {
        return None;
      }
      if dummy.None? {
        return source;
      }
      if source.None? {
        return dummy;
      }
      found := UsePlaceholder(dummy.value, source.value, isStore);
    }

    method SoftFault(a: Area, v: nat, isStore: bool) returns (r: FaultOutcome)
      requires Valid() && SourcesOlder(caches) && a.cache < |caches| && a.low <= v
      modifies this
      ensures match Fault.SoftFault(old(View()), a, v, isStore)
              case Refused => r == Failed && Valid() && View() == old(View())
              case OutOfMemory => r == Panicked
              case Handled(vm) => r == Succeeded && Valid() && View() == vm
      ensures r == Succeeded ==> AtAddress.ShowsFile(old(View()), View(), a, v)
    {
      if Fault.SoftFault(View(), a, v, isStore).Handled? {
        AtAddress.FaultShowsFile(View(), a, v, isStore);
      }
      if isStore && !a.writable {
        return Failed;
      }
      var found := FindPage(a, OffsetOf(a, v), isStore);
      if found.None? {
        return Panicked;
      }
      r := MapFound(a, v, found.value, isStore);
    }

    /** Counts the mapping, notes a store, and maps the page. */
    method MapFound(a: Area, v: nat, p: nat, isStore: bool) returns (r: FaultOutcome)
      requires Valid() && p < |pages|
      modifies this
      ensures match Fault.MapFound(old(View()), a, v, p, isStore)
              case Refused => false
              case OutOfMemory => r == Panicked
              case Handled(vm) => r == Succeeded && Valid() && View() == vm
    {
      var dirty := pages[p].dirty;
      IncPageRef(p);
      if isStore {
        pages := pages[p := Page(pages[p].refCount, true, pages[p].data)];
      }
      var mapped := MapPage(a.space, v, Pte(p, a.writable && (dirty || isStore), a.executable));
      return if mapped then Succeeded else Panicked;
    }
  }

  datatype FaultOutcome = Failed | Succeeded | Panicked
}

/** The translation buffer as an array, and the routines that search and change it. */
module TlbProgram {
  import opened Tlb

  class TlbArray {
    const entries: array<Entry>
    var nextWay: nat

    ghost predicate Valid()
      reads this
    {
      entries.Length == TLB_SETS * TLB_WAYS && nextWay < TLB_WAYS
    }

    ghost function Contents(): Buffer
      requires Valid()
      reads this, entries
    {
      entries[..]
    }

    constructor ()
      ensures Valid() && Contents() == EmptyBuffer() && nextWay == 0 && fresh(entries)
    {
      entries := new Entry[TLB_SETS * TLB_WAYS](_ => Entry(0, INVALID_ADDR, 0));
      nextWay := 0;
      new;
      assert entries[..] == EmptyBuffer();
    }

    method FindMatch(page: nat, asid: nat) returns (way: nat)
      requires Valid()
      ensures way == FindWay(Contents(), page, asid, 0)
    {
      way := 0;
      while way < TLB_WAYS && !Matches(entries[Slot(page, way)], page, asid)
        invariant way <= TLB_WAYS && FindWay(Contents(), page, asid, 0) == FindWay(Contents(), page, asid, way)
      {
        way := way + 1;
      }
    }

    method TranslateAddress(a: Access, memorySize: nat) returns (r: Translation)
      requires Valid()
      ensures r == Translate(Contents(), a, memorySize)
      ensures TranslatesTo(Contents(), a, memorySize, r)
    {
      TranslateMeans(Contents(), a, memorySize);
      if !a.mmu {
        if a.va >= memorySize && a.va < DEVICE_BASE {
          return OutOfRange;
        }
        return Physical(a.va);
      }
      var page := a.va - a.va % PAGE_SIZE;
      var way := FindMatch(page, a.asid);
      if way == TLB_WAYS {
        return Miss;
      }
      var pa := entries[Slot(page, way)].pa;
      if !Has(pa, TLB_PRESENT) {
        return PageFault;
      }
      if Has(pa, TLB_SUPERVISOR) && !a.supervisor {
        return SupervisorAccess;
      }
      if !Has(pa, TLB_EXECUTABLE) && !a.isData {
        return NotExecutable;
      }
      if a.isStore && !Has(pa, TLB_WRITE_ENABLE) {
        return IllegalStore;
      }
      var address := RoundToPage(pa) + a.va % PAGE_SIZE;
      if address >= memorySize && address < DEVICE_BASE {
        return OutOfRange;
      }
      return Physical(address);
    }

    method InsertEntry(page: nat, asid: nat, pa: nat)
      requires Valid()
      modifies this, entries
      ensures Valid() && nextWay == (old(nextWay) + 1) % TLB_WAYS
      ensures Contents() == Insert(old(Contents()), old(nextWay), page, asid, pa)
    {
      var way := FindMatch(page, asid);
      if way < TLB_WAYS {
        entries[Slot(page, way)] := entries[Slot(page, way)].(pa := pa);
      } else {
        entries[Slot(page, nextWay)] := Entry(asid, page, pa);
      }
      nextWay := (nextWay + 1) % TLB_WAYS;
    }

    method InvalidatePage(page: nat)
      requires Valid()
      modifies entries
      ensures Contents() == InvalidateFrom(old(Contents()), page, 0)
    {
      var way := 0;
      while way < TLB_WAYS
        invariant 0 <= way <= TLB_WAYS && Valid()
        invariant InvalidateFrom(old(Contents()), page, 0) == InvalidateFrom(Contents(), page, way)
      {
        ghost var before := Contents();
        if entries[Slot(page, way)].va == page {
          entries[Slot(page, way)] := entries[Slot(page, way)].(va := INVALID_ADDR);
        }
        assert Contents() == if before[Slot(page, way)].va == page
                             then before[Slot(page, way) := before[Slot(page, way)].(va := INVALID_ADDR)] else before;
        way := way + 1;
      }
    }
  }
}

/** The map of virtual memory areas: a sorted list of disjoint, page-aligned ranges in which
    new areas are placed upwards, downwards or at a fixed address. Addresses are 32 bits wide. */
module AreaMaps {
  import opened Wrappers

  const PAGE_SIZE := 0x1000
  const TWO32 := 0x1_0000_0000

  function U32(x: int): nat {
    x % TWO32
  }

  function PageAlign(x: nat): nat {
    x - x % PAGE_SIZE
  }

  datatype Area = Area(low: nat, high: nat, name: string, flags: nat)
  datatype Placement = PlaceExact | PlaceSearchDown | PlaceSearchUp

  function MakeArea(low: nat, size: nat, name: string, flags: nat): Area {
    Area(low, U32(low + size - 1), name, flags)
  }

  // ------------------------------------------------------------- invariants

  ghost predicate Aligned(a: Area) {
    a.low <= a.high && a.low % PAGE_SIZE == 0 && (a.high + 1) % PAGE_SIZE == 0
  }

  ghost predicate Sorted(s: seq<Area>) {
    forall i, j :: 0 <= i < j < |s| ==> s[i].high < s[j].low
  }

  ghost predicate InBounds(s: seq<Area>, low: nat, high: nat) {
    forall i :: 0 <= i < |s| ==> Aligned(s[i]) && low <= s[i].low && s[i].high <= high
  }

  ghost predicate Bounds(low: nat, high: nat) {
    low <= high < TWO32 && low % PAGE_SIZE == 0 && (high + 1) % PAGE_SIZE == 0
  }

  /** The range of `size` bytes at `x` lies in the map and meets no area. */
  ghost predicate Fits(s: seq<Area>, low: nat, high: nat, x: int, size: nat) {
    && low <= x && x + size - 1 <= high
    && forall i :: 0 <= i < |s| ==> x + size - 1 < s[i].low || s[i].high < x
  }

  ghost predicate Inserted(before: seq<Area>, after: seq<Area>, a: Area) {
    exists k :: 0 <= k <= |before| && after == before[..k] + [a] + before[k..]
  }

  /** An area put where it fits, between its neighbours, leaves a well-formed map. */
  lemma InsertKeeps(s: seq<Area>, k: nat, a: Area, low: nat, high: nat)
    requires Sorted(s) && InBounds(s, low, high) && k <= |s|
    requires Aligned(a) && Fits(s, low, high, a.low, a.high - a.low + 1)
    requires forall i :: 0 <= i < k ==> s[i].high < a.low
    requires forall i :: k <= i < |s| ==> a.high < s[i].low
    ensures Sorted(s[..k] + [a] + s[k..]) && InBounds(s[..k] + [a] + s[k..], low, high)
    ensures Inserted(s, s[..k] + [a] + s[k..], a)
  {
    var t := s[..k] + [a] + s[k..];
    forall i | 0 <= i < |t|
      ensures t[i] == if i < k then s[i] else if i == k then a else s[i - 1]
    {
    }
  }

  function Position(s: seq<Area>, a: Area): (k: nat)
    requires a in s
    ensures k < |s| && s[k] == a
  {
    if s[0] == a then 0 else 1 + Position(s[1..], a)
  }

  function Without(s: seq<Area>, a: Area): seq<Area>
    requires a in s
  {
    var k := Position(s, a);
    s[..k] + s[k + 1..]
  }

  lemma {:induction false} OnlyPosition(s: seq<Area>, a: Area, k: nat)
    requires Sorted(s) && k < |s| && s[k] == a && a.low <= a.high
    ensures Position(s, a) == k
  {
    if k > 0 {
      assert s[0].high < s[k].low;
      OnlyPosition(s[1..], a, k - 1);
    }
  }

  lemma CutAgain(before: seq<Area>, k: nat, a: Area)
    requires k <= |before|
    ensures var after := before[..k] + [a] + before[k..];
            k < |after| && after[k] == a && after[..k] + after[k + 1..] == before
  {
  }

  /** Destroying the area that was just created restores the map. */
  lemma DestroyUndoesCreate(before: seq<Area>, after: seq<Area>, a: Area)
    requires Inserted(before, after, a) && Sorted(after) && a.low <= a.high
    ensures a in after && Without(after, a) == before
  {
    var k :| 0 <= k <= |before| && after == before[..k] + [a] + before[k..];
    CutAgain(before, k, a);
    OnlyPosition(after, a, k);
  }

  lemma OneHolds(s: seq<Area>, i: nat, k: nat, address: nat)
    requires Sorted(s) && i < |s| && k < |s|
    requires s[i].low <= address <= s[i].high && s[k].low <= address <= s[k].high
    ensures i == k
  {
  }

  /** The top of a downward search: the last byte of the last whole page at or below the request. */
  lemma TopOfSearch(request: nat, size: nat, low: nat, high: nat)
    requires Bounds(low, high) && size > 0 && size % PAGE_SIZE == 0 && size <= high - low + 1
    requires low <= request - size && request < TWO32
    ensures var address := if request > high then high else request;
            var top := PageAlign(address + 1) - 1;
            && U32(PageAlign(U32(address + 1)) - 1) == top
            && low <= top - size + 1 && top <= high && (top + 1) % PAGE_SIZE == 0
  {
  }

  /** No range of `size` bytes ends in the hole below `end` and above the `k`th area, or in
      that area. */
  lemma HoleTooSmall(s: seq<Area>, low: nat, high: nat, k: nat, end: int, size: nat)
    requires Sorted(s) && InBounds(s, low, high) && k < |s| && s[k].high <= end && end - s[k].high < size
    ensures NoFitBetween(s, low, high, s[k].low - size + 1, end - size + 2, size)
  {
    forall x | s[k].low - 1 < x + size - 1 <= end ensures !Fits(s, low, high, x, size) {
      assert x + size - 1 >= s[k].low && s[k].high >= x;
    }
  }

  /** What the downward search may rely on when it starts to look at the holes. */
  lemma DownStart(s: seq<Area>, low: nat, high: nat, n: nat, holeEnd: int, address: nat, size: nat)
    requires Bounds(low, high) && Sorted(s) && InBounds(s, low, high) && low > 0 && n <= |s| && size > 0
    requires low <= address <= high && (address + 1) % PAGE_SIZE == 0
    requires holeEnd == if n == |s| then high else s[n].low - 1
    requires forall k :: n <= k < |s| ==> s[k].high > address
    requires n > 0 ==> s[n - 1].high <= address
    ensures var end := if holeEnd > address then address else holeEnd;
            && low - 1 <= end <= address && (end + 1) % PAGE_SIZE == 0
            && (forall k :: 0 <= k < n ==> s[k].high <= end)
            && (forall k :: n <= k < |s| ==> end < s[k].low)
            && NoFitBetween(s, low, high, end - size + 2, address - size + 2, size)
  {
    var end := if holeEnd > address then address else holeEnd;
    forall x | end < x + size - 1 <= address ensures !Fits(s, low, high, x, size) {
      assert x + size - 1 >= s[n].low && s[n].high >= x;
    }
  }

  /** `x` is the lowest free place at or above `base`, or the highest that ends at or below `top`. */
  ghost predicate LowestFit(s: seq<Area>, low: nat, high: nat, base: nat, size: nat, x: nat) {
    base <= x && Fits(s, low, high, x, size) && NoFitBetween(s, low, high, base, x, size)
  }

  ghost predicate HighestFit(s: seq<Area>, low: nat, high: nat, top: nat, size: nat, x: nat) {
    x + size - 1 <= top && Fits(s, low, high, x, size) && NoFitBetween(s, low, high, x + 1, top - size + 2, size)
  }

  /** No free place starts at or above `from` and below `to`. */
  ghost predicate NoFitBetween(s: seq<Area>, low: nat, high: nat, from: int, to: int, size: nat) {
    forall x :: from <= x < to ==> !Fits(s, low, high, x, size)
  }

  ghost predicate Created(before: seq<Area>, after: seq<Area>, a: Area, size: nat, name: string, flags: nat) {
    a == MakeArea(a.low, size, name, flags) && a.high == a.low + size - 1 && Inserted(before, after, a)
  }

  /** 32-bit addition and subtraction. */
  method Add32(a: int, b: int) returns (r: nat)
    requires 0 <= a < TWO32 && 0 <= b < TWO32
    ensures r == if a + b < TWO32 then a + b else a + b - TWO32
  {
    r := U32(a + b);
  }

  method Sub32(a: int, b: int) returns (r: nat)
    requires 0 <= a < TWO32 && 0 <= b < TWO32
    ensures r == if a >= b then a - b else a - b + TWO32
  {
    r := U32(a - b);
  }

  // ------------------------------------------------------------------ the map

  class AreaMap {
    const low: nat
    const high: nat
    var areas: seq<Area>

    ghost predicate Valid()
      reads this
    {
      Bounds(low, high) && Sorted(areas) && InBounds(areas, low, high)
    }

    constructor (lowAddress: nat, highAddress: nat)
      requires lowAddress < TWO32 && highAddress < TWO32
      requires PageAlign(lowAddress) <= U32(PageAlign(U32(highAddress + 1)) - 1)
      ensures Valid() && areas == []
      ensures low <= lowAddress < low + PAGE_SIZE
      ensures highAddress - PAGE_SIZE < high <= highAddress || highAddress < PAGE_SIZE - 1
    {
      low := PageAlign(lowAddress);
      high := U32(PageAlign(U32(highAddress + 1)) - 1);
      areas := [];
    }

    /** Adds an area in front of the `k`th. */
    method Place(k: nat, start: nat, size: nat, name: string, flags: nat) returns (r: Option<Area>)
      requires Valid() && k <= |areas| && size > 0 && size % PAGE_SIZE == 0 && start % PAGE_SIZE == 0
      requires Fits(areas, low, high, start, size)
      requires forall i :: 0 <= i < k ==> areas[i].high < start
      requires forall i :: k <= i < |areas| ==> start + size - 1 < areas[i].low
      modifies this
      ensures Valid() && r.Some? && r.value.low == start
      ensures Created(old(areas), areas, r.value, size, name, flags)
    {
      var a := MakeArea(start, size, name, flags);
      InsertKeeps(areas, k, a, low, high);
      areas := areas[..k] + [a] + areas[k..];
      return Some(a);
    }

    /** The first area at or above `address`, and where the area below it ends. */
    method SkipBelow(address: nat) returns (i: nat, holeStart: nat)
      requires Valid() && high < TWO32 - 1
      ensures i <= |areas|
      ensures holeStart == if i == 0 then low else areas[i - 1].high + 1
      ensures forall k :: 0 <= k < i ==> areas[k].low < address
      ensures i < |areas| ==> address <= areas[i].low
    {
      i, holeStart := 0, low;
      while i < |areas| && areas[i].low < address
        invariant i <= |areas|
        invariant holeStart == if i == 0 then low else areas[i - 1].high + 1
        invariant forall k :: 0 <= k < i ==> areas[k].low < address
      {
        holeStart := Add32(areas[i].high, 1);
        i := i + 1;
      }
    }

    /** The lowest free range at or above the (page-aligned) request. The request itself is
        refused when its last byte would be the last byte of the map, or lie beyond it. */
    method SearchUp(request: nat, size: nat, name: string, flags: nat) returns (r: Option<Area>)
      requires Valid() && size > 0 && size % PAGE_SIZE == 0
      requires request + size < TWO32 && high < TWO32 - 1 && size <= high - low + 1
      modifies this
      ensures Valid()
      ensures var base := PageAlign(if request < low then low else request);
              match r
              case None =>
                areas == old(areas)
                && (request + size <= high ==> NoFitBetween(areas, low, high, base, high + 1, size))
              case Some(a) =>
                request + size <= high && Created(old(areas), areas, a, size, name, flags)
                && LowestFit(old(areas), low, high, base, size, a.low)
    {
      var end := Add32(request, size);
      if end > high {
        return None;
      }
      var address := request;
      if address < low {
        address := low;
      }
      address := PageAlign(address);
      assert low <= address && address + size - 1 <= high by {
        assert PageAlign(low) == low;
      }
      if areas == [] {
        r := Place(0, address, size, name, flags);
        return;
      }
      var i, holeStart := SkipBelow(address);
      if holeStart < address {
        holeStart := address;
      }
      r := FillUp(address, i, holeStart, size, name, flags);
    }

    /** The search loop of the upward search, from area `first` on. */
    method FillUp(ghost address: nat, first: nat, start: nat, size: nat, name: string, flags: nat) returns (r: Option<Area>)
      requires Valid() && size > 0 && size % PAGE_SIZE == 0 && high < TWO32 - 1 && size <= high - low + 1
      requires first <= |areas| && low <= address <= start <= high + 1 && start % PAGE_SIZE == 0
      requires forall k :: 0 <= k < first ==> areas[k].high < start
      requires forall k :: first <= k < |areas| ==> start <= areas[k].low
      requires NoFitBetween(areas, low, high, address, start, size)
      modifies this
      ensures Valid()
      ensures match r
              case None => areas == old(areas) && NoFitBetween(areas, low, high, address, high + 1, size)
              case Some(a) =>
                Created(old(areas), areas, a, size, name, flags) && LowestFit(old(areas), low, high, address, size, a.low)
    {
      var i, holeStart := first, start;
      while i < |areas|
        invariant i <= |areas| && areas == old(areas)
        invariant address <= holeStart <= high + 1 && holeStart % PAGE_SIZE == 0
        invariant forall k :: 0 <= k < i ==> areas[k].high < holeStart
        invariant forall k :: i <= k < |areas| ==> holeStart <= areas[k].low
        invariant NoFitBetween(areas, low, high, address, holeStart, size)
      {
        var gap := Sub32(areas[i].low, holeStart);
        if gap >= size {
          r := Place(i, holeStart, size, name, flags);
          return;
        }
        forall x | holeStart <= x < areas[i].high + 1 ensures !Fits(areas, low, high, x, size) {
          assert x + size - 1 >= areas[i].low && areas[i].high >= x;
        }
        holeStart := Add32(areas[i].high, 1);
        i := i + 1;
      }
      var last := Sub32(high, holeStart);
      last := Add32(last, 1);
      if last >= size {
        r := Place(|areas|, holeStart, size, name, flags);
        return;
      }
      return None;
    }
  
    /** The last area that ends at or below `address`, and where the area above it starts. */
    method SkipAbove(address: nat) returns (n: nat, holeEnd: nat)
      requires Valid() && low > 0
      ensures n <= |areas|
      ensures holeEnd == if n == |areas| then high else areas[n].low - 1
      ensures forall k :: n <= k < |areas| ==> areas[k].high > address
      ensures n > 0 ==> areas[n - 1].high <= address
    {
      n, holeEnd := |areas|, high;
      while n > 0 && areas[n - 1].high > address
        invariant n <= |areas|
        invariant holeEnd == if n == |areas| then high else areas[n].low - 1
        invariant forall k :: n <= k < |areas| ==> areas[k].high > address
      {
        holeEnd := Sub32(areas[n - 1].low, 1);
        n := n - 1;
      }
    }

    /** The highest free range that ends at or below the (page-aligned) request. The request
        itself is refused when its first byte would be the first of the map, or below it. */
    method SearchDown(request: nat, size: nat, name: string, flags: nat) returns (r: Option<Area>)
      requires Valid() && size > 0 && size % PAGE_SIZE == 0
      requires size <= request < TWO32 && low > 0 && size <= high - low + 1
      modifies this
      ensures Valid()
      ensures var top := PageAlign((if request > high then high else request) + 1) - 1;
              match r
              case None =>
                areas == old(areas)
                && (request - size >= low ==> NoFitBetween(areas, low, high, low, top - size + 2, size))
              case Some(a) =>
                request - size >= low && Created(old(areas), areas, a, size, name, flags)
                && HighestFit(old(areas), low, high, top, size, a.low)
    {
      var inside, address := ClampDown(request, size);
      if !inside {
        return None;
      }
      if areas == [] {
        r := Place(0, address - size + 1, size, name, flags);
        return;
      }
      var n, holeEnd := SkipAbove(address);
      DownStart(areas, low, high, n, holeEnd, address, size);
      if holeEnd > address {
        holeEnd := address;
      }
      r := FillDown(address, n, holeEnd, size, name, flags);
    }

    method ClampDown(request: nat, size: nat) returns (inside: bool, address: nat)
      requires Bounds(low, high) && size > 0 && size % PAGE_SIZE == 0
      requires size <= request < TWO32 && low > 0 && size <= high - low + 1
      ensures inside == (request - size >= low)
      ensures inside ==> address == PageAlign((if request > high then high else request) + 1) - 1
                         && low <= address - size + 1 && address <= high && (address + 1) % PAGE_SIZE == 0
    {
      address := request;
      var start := Sub32(request, size);
      if start < low {
        return false, address;
      }
      TopOfSearch(request, size, low, high);
      if address > high {
        address := high;
      }
      address := U32(PageAlign(U32(address + 1)) - 1);
      return true, address;
    }

    /** The search loop of the downward search, from the area under the `below`th on. */
    method FillDown(ghost address: nat, below: nat, end: nat, size: nat, name: string, flags: nat) returns (r: Option<Area>)
      requires Valid() && size > 0 && size % PAGE_SIZE == 0 && low > 0 && size <= high - low + 1
      requires below <= |areas| && low - 1 <= end <= address <= high && (end + 1) % PAGE_SIZE == 0
      requires forall k :: 0 <= k < below ==> areas[k].high <= end
      requires forall k :: below <= k < |areas| ==> end < areas[k].low
      requires NoFitBetween(areas, low, high, end - size + 2, address - size + 2, size)
      modifies this
      ensures Valid()
      ensures match r
              case None => areas == old(areas) && NoFitBetween(areas, low, high, low, address - size + 2, size)
              case Some(a) =>
                Created(old(areas), areas, a, size, name, flags) && HighestFit(old(areas), low, high, address, size, a.low)
    {
      var n, holeEnd := below, end;
      while n > 0
        invariant 0 <= n <= |areas| && areas == old(areas)
        invariant low - 1 <= holeEnd <= address && (holeEnd + 1) % PAGE_SIZE == 0
        invariant forall k :: 0 <= k < n ==> areas[k].high <= holeEnd
        invariant forall k :: n <= k < |areas| ==> holeEnd < areas[k].low
        invariant NoFitBetween(areas, low, high, holeEnd - size + 2, address - size + 2, size)
      {
        var roomy := IsRoomy(holeEnd, areas[n - 1].high, size);
        if roomy {
          r := Place(n, holeEnd - size + 1, size, name, flags);
          return;
        }
        HoleTooSmall(areas, low, high, n - 1, holeEnd, size);
        holeEnd := Sub32(areas[n - 1].low, 1);
        n := n - 1;
      }
      r := FillBottom(address, holeEnd, size, name, flags);
    }

    /** Whether the hole above `below` can hold the range. The test is one too generous,
        which page alignment makes up for. */
    method IsRoomy(holeEnd: nat, below: nat, size: nat) returns (roomy: bool)
      requires below <= holeEnd < TWO32 && size > 0
      requires (holeEnd + 1) % PAGE_SIZE == 0 && (below + 1) % PAGE_SIZE == 0 && size % PAGE_SIZE == 0
      ensures roomy == (holeEnd - below >= size)
    {
      var gap := Sub32(holeEnd, below);
      if gap + 1 >= size {
        PageGap(gap, size);
      }
      return gap + 1 >= size;
    }

    method FillBottom(ghost address: nat, holeEnd: nat, size: nat, name: string, flags: nat) returns (r: Option<Area>)
      requires Valid() && size > 0 && size % PAGE_SIZE == 0 && low > 0
      requires low - 1 <= holeEnd <= address <= high && (holeEnd + 1) % PAGE_SIZE == 0
      requires forall k :: 0 <= k < |areas| ==> holeEnd < areas[k].low
      requires NoFitBetween(areas, low, high, holeEnd - size + 2, address - size + 2, size)
      modifies this
      ensures Valid()
      ensures match r
              case None => areas == old(areas) && NoFitBetween(areas, low, high, low, address - size + 2, size)
              case Some(a) =>
                Created(old(areas), areas, a, size, name, flags) && HighestFit(old(areas), low, high, address, size, a.low)
    {
      var first := Sub32(holeEnd, low);
      first := Add32(first, 1);
      if first >= size {
        r := Place(0, holeEnd - size + 1, size, name, flags);
        return;
      }
      return None;
    }

    /** An area at a fixed place: it is made exactly when the range is in the map and free. */
    method InsertFixed(address: nat, size: nat, name: string, flags: nat) returns (r: Option<Area>)
      requires Valid() && size < TWO32 && size % PAGE_SIZE == 0
      requires address < TWO32 && address % PAGE_SIZE == 0 && (size > 0 || address > 0)
      modifies this
      ensures Valid()
      ensures r.Some? <==> size > 0 && Fits(old(areas), low, high, address, size)
      ensures match r
              case None => areas == old(areas)
              case Some(a) => a.low == address && Created(old(areas), areas, a, size, name, flags)
    {
      var end := Add32(address, size);
      end := Sub32(end, 1);
      if address < low || end > high || end < address {
        return None;
      }
      assert size > 0 && end == address + size - 1;
      if areas == [] {
        r := Place(0, address, size, name, flags);
        return;
      }
      var holeStart, i := low, 0;
      while i < |areas|
        invariant i <= |areas| && areas == old(areas)
        invariant holeStart == if i == 0 then low else areas[i - 1].high
        invariant forall k :: 0 <= k < i ==> areas[k].low < address + size - 1
        invariant forall k :: 0 <= k < i - 1 ==> areas[k].high < address
      {
        if holeStart > address {
          assert i > 0 && !Fits(areas, low, high, address, size);
          return None;
        }
        // The bounds are off by one at both ends, which page alignment makes up for.
        if areas[i].low >= end {
          r := Place(i, address, size, name, flags);
          return;
        }
        holeStart := areas[i].high;
        i := i + 1;
      }
      if holeStart <= address {
        r := Place(|areas|, address, size, name, flags);
        return;
      }
      return None;
    }

    /** Rounds the size up to whole pages and places the area. */
    method CreateArea(address: nat, size: nat, place: Placement, name: string, flags: nat) returns (r: Option<Area>)
      requires Valid() && address < TWO32 && 0 < size && size + PAGE_SIZE - 1 < TWO32
      requires place == PlaceExact ==> address % PAGE_SIZE == 0
      requires place != PlaceExact ==> WholePages(size) <= high - low + 1
      requires place == PlaceSearchUp ==> address + WholePages(size) < TWO32 && high < TWO32 - 1
      requires place == PlaceSearchDown ==> WholePages(size) <= address && low > 0
      modifies this
      ensures Valid()
      ensures r.None? ==> areas == old(areas)
      ensures r.Some? ==> Created(old(areas), areas, r.value, WholePages(size), name, flags)
                          && Fits(old(areas), low, high, r.value.low, WholePages(size))
                          && r.value.name == name && r.value.flags == flags
      ensures place == PlaceExact ==>
                (r.Some? <==> Fits(old(areas), low, high, address, WholePages(size))) && (r.Some? ==> r.value.low == address)
      ensures place == PlaceSearchUp ==>
                var base := PageAlign(if address < low then low else address);
                match r
                case None => address + WholePages(size) <= high ==> NoFitBetween(old(areas), low, high, base, high + 1, WholePages(size))
                case Some(a) => address + WholePages(size) <= high && LowestFit(old(areas), low, high, base, WholePages(size), a.low)
      ensures place == PlaceSearchDown ==>
                var top := PageAlign((if address > high then high else address) + 1) - 1;
                match r
                case None =>
                  address - WholePages(size) >= low ==>
                    NoFitBetween(old(areas), low, high, low, top - WholePages(size) + 2, WholePages(size))
                case Some(a) => address - WholePages(size) >= low && HighestFit(old(areas), low, high, top, WholePages(size), a.low)
    {
      var pages := PageAlign(U32(size + PAGE_SIZE - 1));
      match place {
        case PlaceExact => r := InsertFixed(address, pages, name, flags);
        case PlaceSearchDown => r := SearchDown(address, pages, name, flags);
        case PlaceSearchUp => r := SearchUp(address, pages, name, flags);
      }
    }

    method DestroyArea(a: Area)
      requires Valid() && a in areas
      modifies this
      ensures Valid() && areas == Without(old(areas), a)
    {
      var k := Position(areas, a);
      areas := areas[..k] + areas[k + 1..];
    }

    /** The one area that holds the address, if there is one. */
    method LookupArea(address: nat) returns (r: Option<Area>)
      requires Valid()
      ensures match r
              case None => forall a :: a in areas ==> !(a.low <= address <= a.high)
              case Some(a) => forall b :: b in areas && b.low <= address <= b.high <==> b == a
    {
      var i := 0;
      while i < |areas|
        invariant i <= |areas|
        invariant forall k :: 0 <= k < i ==> !(areas[k].low <= address <= areas[k].high)
      {
        if address >= areas[i].low && address <= areas[i].high {
          forall b | b in areas && b.low <= address <= b.high ensures b == areas[i] {
            var k :| 0 <= k < |areas| && areas[k] == b;
            OneHolds(areas, i, k, address);
          }
          return Some(areas[i]);
        }
        i := i + 1;
      }
      return None;
    }
  }

  function WholePages(size: nat): nat {
    PageAlign(size + PAGE_SIZE - 1)
  }

  /** Addresses are rounded down to the last page boundary, and sizes up to the next. */
  lemma RoundedToPages(x: nat, r: nat)
    ensures r == PageAlign(x) <==> r % PAGE_SIZE == 0 && r <= x < r + PAGE_SIZE
    ensures r == WholePages(x) <==> r % PAGE_SIZE == 0 && x <= r < x + PAGE_SIZE
  {
  }

  lemma PageGap(gap: int, size: nat)
    requires gap % PAGE_SIZE == 0 && size % PAGE_SIZE == 0 && gap + 1 >= size
    ensures gap >= size
  {
  }
}

/** The physical page allocator (`kernel/mm/pmm.c`) and the boot sequence that
    fills it (`kernel/main.c`). */
module Pmm {
  import opened Machine
  import opened Bitmaps

  const MAX_PAGES: nat := 0x100_0000
  const BITMAP_SIZE: nat := 0x20_0000

  /** Pages below this index are the ones `pmm_alloc_page_low` may hand out. */
  const LOW_PAGES: nat := 2048

  // ----- regions -----

  /** First and one-past-last page `pmm_add_region` frees, in C's wrapping arithmetic. */
  function AddStart(base: u64): nat { PageDown(Add64(base, PAGE_SIZE - 1)) / PAGE_SIZE }
  function AddEnd(base: u64, length: u64): nat { PageDown(Add64(base, length)) / PAGE_SIZE }

  /** First and one-past-last page `pmm_reserve_region` takes. */
  function ReserveStart(base: u64): nat { PageDown(base) / PAGE_SIZE }
  function ReserveEnd(base: u64, length: u64): nat {
    PageDown(Add64(Add64(base, length), PAGE_SIZE - 1)) / PAGE_SIZE
  }

  /** The whole page lies inside the region. */
  ghost predicate InsideRegion(p: nat, base: nat, length: nat) {
    base <= p * PAGE_SIZE && (p + 1) * PAGE_SIZE <= base + length
  }

  /** The page has a byte between `base` and `base + length`. */
  ghost predicate TouchesRegion(p: nat, base: nat, length: nat) {
    p * PAGE_SIZE < base + length && base < (p + 1) * PAGE_SIZE
  }

  /** Rounding inwards and outwards: as long as `base + length + 4095` does not
      wrap, the page ranges are the whole pages inside, and the pages touched by,
      the region. */
  lemma RegionPages(base: u64, length: u64, p: nat)
    requires base + length + PAGE_SIZE - 1 < TWO_64
    ensures AddStart(base) <= p < AddEnd(base, length) <==> InsideRegion(p, base, length)
    ensures ReserveStart(base) <= p < ReserveEnd(base, length) <==> TouchesRegion(p, base, length)
  {
    hide Add64, PageDown;
    AddNoWrap(base, PAGE_SIZE - 1);
    AddNoWrap(base, length);
    AddNoWrap(base + length, PAGE_SIZE - 1);
    RoundUp(base, p);
    RoundDown(base + length, p);
    RoundDown(base, p);
    RoundUp(base + length, p);
  }

  lemma AddNoWrap(x: u64, y: u64)
    requires x + y < TWO_64
    ensures Add64(x, y) == x + y
  {}

  lemma RoundDown(x: u64, p: nat)
    ensures p < PageDown(x) / PAGE_SIZE <==> (p + 1) * PAGE_SIZE <= x
  {}

  lemma RoundUp(x: u64, p: nat)
    requires x + PAGE_SIZE - 1 < TWO_64
    ensures p < PageDown(x + PAGE_SIZE - 1) / PAGE_SIZE <==> p * PAGE_SIZE < x
  {}

  /** How many pages `pmm_alloc_page_low` has left to hand out. */
  function FreeLow(used: seq<bool>): nat
    requires |used| == MAX_PAGES
  {
    CountClear(used[1..LOW_PAGES])
  }

  lemma NoneLow(used: seq<bool>)
    requires |used| == MAX_PAGES
    ensures FreeLow(used) == 0 <==> forall p :: 1 <= p < LOW_PAGES ==> used[p]
  {
    var low := used[1..LOW_PAGES];
    if p :| 1 <= p < LOW_PAGES && !used[p] {
      assert !low[p - 1];
      CountPositive(low, p - 1);
    } else {
      CountOfAllSet(low);
    }
  }

  lemma OneLess(used: seq<bool>, p: nat)
    requires |used| == MAX_PAGES && 1 <= p < LOW_PAGES && !used[p]
    ensures FreeLow(used[p := true]) == FreeLow(used) - 1
  {
    CountAfterUpdate(used[1..LOW_PAGES], p - 1, true);
    assert used[p := true][1..LOW_PAGES] == used[1..LOW_PAGES][p - 1 := true];
  }

  lemma WholePages(address: nat)
    requires address % PAGE_SIZE == 0
    ensures address == address / PAGE_SIZE * PAGE_SIZE
  {}

  class Allocator {
    const bitmap: array<bv8>
    var totalPages: nat
    var freePages: nat

    ghost function View(): (v: seq<bool>)
      reads bitmap
      ensures |v| == 8 * bitmap.Length
    {
      Bits(bitmap[..])
    }

    /** `free_pages` is exactly the number of clear bits. */
    ghost predicate Valid()
      reads this, bitmap
    {
      && bitmap.Length == BITMAP_SIZE
      && totalPages == MAX_PAGES
      && freePages == CountClear(View())
    }

    /** `pmm_init`: everything starts as used. */
    constructor ()
      ensures Valid() && fresh(bitmap)
      ensures forall p :: 0 <= p < MAX_PAGES ==> View()[p]
      ensures freePages == 0
    {
      bitmap := new bv8[BITMAP_SIZE];
      totalPages := MAX_PAGES;
      freePages := 0;
      new;
      for i := 0 to BITMAP_SIZE
        invariant forall j :: 0 <= j < i ==> bitmap[j] == 0xFF
        invariant totalPages == MAX_PAGES && freePages == 0
      {
        bitmap[i] := 0xFF;
      }
      assert forall k :: 0 <= k < 8 ==> BitOf(0xFF, k);
      CountOfAllSet(View());
    }

    /** The body shared by the set/clear sites: `set_page` plus the counter. */
    method MarkUsed(p: nat)
      requires Valid() && p < MAX_PAGES && !View()[p]
      modifies this`freePages, bitmap
      ensures Valid() && View() == old(View())[p := true] && freePages == old(freePages) - 1
    {
      CountAfterUpdate(View(), p, true);
      CountPositive(View(), p);
      SetBit(bitmap, p);
      freePages := freePages - 1;
    }

    /** `clear_page` plus the counter. */
    method MarkFree(p: nat)
      requires Valid() && p < MAX_PAGES && View()[p]
      modifies this`freePages, bitmap
      ensures Valid() && View() == old(View())[p := false] && freePages == old(freePages) + 1
    {
      CountAfterUpdate(View(), p, false);
      ClearBit(bitmap, p);
      freePages := freePages + 1;
    }

    /** `pmm_add_region`. */
    method AddRegion(base: u64, length: u64)
      requires Valid()
      modifies this`freePages, bitmap
      ensures Valid()
      ensures View() == Filled(old(View()), AddStart(base), AddEnd(base, length), false)
    {
      ghost var was := View();
      var start := PageDown(Add64(base, PAGE_SIZE - 1));
      var end := PageDown(Add64(base, length));
      ghost var first, last := start / PAGE_SIZE, end / PAGE_SIZE;
      FilledNone(was, first, first, false);
      if end <= start {
        FilledNone(was, first, last, false);
        return;
      }
      WholePages(start);
      WholePages(end);
      var address := start;
      ghost var next := first;
      while address < end
        invariant address == next * PAGE_SIZE && first <= next <= last
        invariant Valid()
        invariant View() == Filled(was, first, next, false)
      {
        var page := address / PAGE_SIZE;
        WholePages(address);
        if page >= MAX_PAGES {
          break;
        }
        FilledStep(was, first, page, false);
        var used := TestBit(bitmap, page);
        if used {
          MarkFree(page);
        }
        address := address + PAGE_SIZE;
        next := next + 1;
      }
      FilledAll(was, first, next, last, false);
    }

    /** `pmm_reserve_region`. */
    method ReserveRegion(base: u64, length: u64)
      requires Valid()
      modifies this`freePages, bitmap
      ensures Valid()
      ensures View() == Filled(old(View()), ReserveStart(base), ReserveEnd(base, length), true)
    {
      ghost var was := View();
      var start := PageDown(base);
      var end := PageDown(Add64(Add64(base, length), PAGE_SIZE - 1));
      ghost var first, last := start / PAGE_SIZE, end / PAGE_SIZE;
      FilledNone(was, first, first, true);
      if end <= start {
        FilledNone(was, first, last, true);
        return;
      }
      WholePages(start);
      WholePages(end);
      var address := start;
      ghost var next := first;
      while address < end
        invariant address == next * PAGE_SIZE && first <= next <= last
        invariant Valid()
        invariant View() == Filled(was, first, next, true)
      {
        var page := address / PAGE_SIZE;
        WholePages(address);
        if page >= MAX_PAGES {
          break;
        }
        FilledStep(was, first, page, true);
        var used := TestBit(bitmap, page);
        if !used {
          MarkUsed(page);
        }
        address := address + PAGE_SIZE;
        next := next + 1;
      }
      FilledAll(was, first, next, last, true);
    }

    /** The scan shared by `pmm_alloc_page` and `pmm_alloc_page_low`: the first free
        page in [1, limit), or 0 exactly when that range has none.  Page 0 is never
        handed out, so 0 is unambiguous. */
    method AllocBelow(limit: nat) returns (address: u64)
      requires Valid() && 1 <= limit <= MAX_PAGES
      modifies this`freePages, bitmap
      ensures Valid()
      ensures address == 0 <==> forall p :: 1 <= p < limit ==> old(View())[p]
      ensures address == 0 ==> View() == old(View()) && freePages == old(freePages)
      ensures address != 0 ==>
        var page := address / PAGE_SIZE;
        && address % PAGE_SIZE == 0 && 1 <= page < limit
        && !old(View())[page] && (forall p :: 1 <= p < page ==> old(View())[p])
        && View() == old(View())[page := true]
        && freePages == old(freePages) - 1
    {
      var page := 1;
      while page < limit
        invariant 1 <= page <= limit
        invariant Valid() && View() == old(View()) && freePages == old(freePages)
        invariant forall p :: 1 <= p < page ==> View()[p]
      {
        var used := TestBit(bitmap, page);
        if !used {
          MarkUsed(page);
          return page * PAGE_SIZE;
        }
        page := page + 1;
      }
      return 0;
    }

    /** `pmm_alloc_page_low`: a page of the first 8 MiB. */
    method AllocPageLow() returns (address: u64)
      requires Valid()
      modifies this`freePages, bitmap
      ensures Valid()
      ensures address == 0 <==> forall p :: 1 <= p < 2048 ==> old(View())[p]
      ensures address == 0 ==> View() == old(View())
      ensures address != 0 ==>
        var page := address / PAGE_SIZE;
        && address % PAGE_SIZE == 0 && 1 <= page < 2048
        && !old(View())[page] && (forall p :: 1 <= p < page ==> old(View())[p])
        && View() == old(View())[page := true]
      ensures address == 0 <==> FreeLow(old(View())) == 0
      ensures address != 0 ==> FreeLow(View()) == FreeLow(old(View())) - 1
    {
      ghost var was := View();
      address := AllocBelow(LOW_PAGES);
      NoneLow(was);
      if address != 0 {
        OneLess(was, address / PAGE_SIZE);
      }
    }

    /** `pmm_alloc_page`: any page. */
    method AllocPage() returns (address: u64)
      requires Valid()
      modifies this`freePages, bitmap
      ensures Valid()
      ensures address == 0 <==> forall p :: 1 <= p < 0x100_0000 ==> old(View())[p]
      ensures address == 0 ==> View() == old(View())
      ensures address != 0 ==>
        var page := address / PAGE_SIZE;
        && address % PAGE_SIZE == 0 && 1 <= page < 0x100_0000
        && !old(View())[page] && (forall p :: 1 <= p < page ==> old(View())[p])
        && View() == old(View())[page := true]
    {
      address := AllocBelow(MAX_PAGES);
    }

    /** `pmm_free_page`: misaligned, out-of-range and already free pages are ignored. */
    method FreePage(address: u64)
      requires Valid()
      modifies this`freePages, bitmap
      ensures Valid()
      ensures
        var page := address / PAGE_SIZE;
        View() == (if address % PAGE_SIZE == 0 && page < MAX_PAGES then old(View())[page := false]
                   else old(View()))
    {
      if address % PAGE_SIZE != 0 {
        return;
      }
      var page := address / PAGE_SIZE;
      if page >= MAX_PAGES {
        return;
      }
      var used := TestBit(bitmap, page);
      if !used {
        return;
      }
      MarkFree(page);
    }
  }

  // ----- boot -----

  const MULTIBOOT_MEMORY_AVAILABLE: nat := 1

  datatype MmapEntry = MmapEntry(kind: nat, base: u64, length: u64)

  /** Whether some available map entry among the first `n` frees the page. */
  ghost predicate InAvailable(entries: seq<MmapEntry>, n: nat, p: nat)
    requires n <= |entries|
  {
    exists k :: 0 <= k < n && entries[k].kind == 1 && FreedBy(entries[k], p)
  }

  /** An entry frees the whole pages inside it; one that wraps past 2^64, the pages between
      its wrapped bounds. */
  ghost predicate FreedBy(e: MmapEntry, p: nat) {
    if NoWrap(e.base, e.length) then InsideRegion(p, e.base, e.length)
    else AddStart(e.base) <= p < AddEnd(e.base, e.length)
  }

  ghost predicate NoWrap(base: u64, length: u64) {
    base + length + PAGE_SIZE - 1 < TWO_64
  }

  /** The memory part of `_main`: after it, the free pages are exactly the whole
      pages of an available region that the kernel image does not touch. */
  method Boot(entries: seq<MmapEntry>, kernelStart: u64, kernelEnd: u64) returns (pmm: Allocator)
    requires kernelStart <= kernelEnd && NoWrap(kernelStart, kernelEnd - kernelStart)
    ensures fresh(pmm) && fresh(pmm.bitmap) && pmm.Valid()
    ensures forall p :: 0 <= p < 0x100_0000 ==>
      (!pmm.View()[p] <==>
        InAvailable(entries, |entries|, p)
        && !TouchesRegion(p, kernelStart, kernelEnd - kernelStart))
  {
    assert forall p :: !InAvailable(entries, 0, p);
    hide InAvailable, TouchesRegion, AddStart, AddEnd, ReserveStart, ReserveEnd;
    pmm := new Allocator();
    for i := 0 to |entries|
      invariant fresh(pmm) && fresh(pmm.bitmap) && pmm.Valid()
      invariant forall p :: 0 <= p < MAX_PAGES ==> (!pmm.View()[p] <==> InAvailable(entries, i, p))
    {
      var e := entries[i];
      ghost var was := pmm.View();
      if e.kind == MULTIBOOT_MEMORY_AVAILABLE {
        pmm.AddRegion(e.base, e.length);
      }
      Added(entries, i, was, pmm.View());
    }
    ghost var added := pmm.View();
    pmm.ReserveRegion(kernelStart, kernelEnd - kernelStart);
    Reserved(kernelStart, kernelEnd - kernelStart, added, pmm.View());
  }

  /** The pages used after a reservation. */
  lemma Reserved(base: u64, length: u64, was: seq<bool>, now: seq<bool>)
    requires NoWrap(base, length) && |was| == MAX_PAGES
    requires now == Filled(was, ReserveStart(base), ReserveEnd(base, length), true)
    ensures forall p :: 0 <= p < MAX_PAGES ==> (!now[p] <==> !was[p] && !TouchesRegion(p, base, length))
  {
    hide TouchesRegion, ReserveStart, ReserveEnd;
    forall p | 0 <= p < MAX_PAGES
      ensures !now[p] <==> !was[p] && !TouchesRegion(p, base, length)
    {
      RegionPages(base, length, p);
    }
  }

  /** The free pages after one more map entry. */
  lemma Added(entries: seq<MmapEntry>, i: nat, was: seq<bool>, now: seq<bool>)
    requires i < |entries| && |was| == MAX_PAGES
    requires forall p :: 0 <= p < MAX_PAGES ==> (!was[p] <==> InAvailable(entries, i, p))
    requires var e := entries[i];
      now == if e.kind == MULTIBOOT_MEMORY_AVAILABLE
             then Filled(was, AddStart(e.base), AddEnd(e.base, e.length), false) else was
    ensures forall p :: 0 <= p < MAX_PAGES ==> (!now[p] <==> InAvailable(entries, i + 1, p))
  {
    hide InsideRegion, AddStart, AddEnd;
    forall p | 0 <= p < MAX_PAGES
      ensures !now[p] <==> InAvailable(entries, i + 1, p)
    {
      if NoWrap(entries[i].base, entries[i].length) {
        RegionPages(entries[i].base, entries[i].length, p);
      }
    }
  }
}

/** The memory part of the boot sequence, from the loader's tables to a heap. */
module Boot {
  import opened Machine
  import opened DirectMap
  import opened E820
  import opened PageTables
  import opened KernelSpace
  import opened HeapBlocks
  import opened HeapWrites
  import Heap
  import LoaderTables
  import Paging
  import Pmm
  import Bootstrap

  /** Low memory, the kernel image and the bitmap, which is the first thing the
      bootstrap heap hands out. */
  function BootReserved(entries: seq<Entry>, kernelEnd: Word): (r: set<int>)
    requires kernelEnd <= Bootstrap.KERNEL_END_LIMIT
  {
    Pmm.Reserved(kernelEnd, VirtToPhys(AlignUp32(HeapStart(kernelEnd), PAGE_SIZE)), Pmm.BitmapBytes(TrackedPages(entries)))
  }

  /** Where the bootstrap heap starts. */
  function HeapStart(kernelEnd: Word): (v: Word)
    requires kernelEnd <= Bootstrap.KERNEL_END_LIMIT
  {
    KERNEL_VIRT_BASE + (kernelEnd + 15) / 16 * 16
  }

  /** The frames the allocator starts with. */
  function Offered(entries: seq<Entry>, kernelEnd: Word): (r: set<int>)
    requires kernelEnd <= Bootstrap.KERNEL_END_LIMIT
  {
    Pmm.BelowTotal(MapPages(entries), TrackedPages(entries)) - BootReserved(entries, kernelEnd)
  }

  /** Whether pmm_init gets as far as a bitmap: there is a map with a page to
      track, and the bootstrap heap has room for the bitmap. */
  predicate AllocatorStarts(entries: seq<Entry>, available: bool, kernelEnd: Word)
    requires kernelEnd <= Bootstrap.KERNEL_END_LIMIT
  {
    && available
    && TrackedPages(entries) != 0
    && !Bootstrap.NoRoom(HeapStart(kernelEnd),
                         KERNEL_VIRT_BASE + Bootstrap.HeapLimit(entries, available, kernelEnd),
                         Pmm.BitmapBytes(TrackedPages(entries)), PAGE_SIZE)
  }

  /** The frames on offer, told from the map and the kernel's end alone: pages of
      usable regions from 1 MiB and from the kernel's rounded end on, but for the
      bitmap, which lies at the first page boundary behind the kernel and takes a
      bit for every tracked page, in whole words. */
  lemma OfferedMeaning(entries: seq<Entry>, available: bool, kernelEnd: Word, p: int)
    requires kernelEnd <= 0x3FFF_FFF0 && AllocatorStarts(entries, available, kernelEnd)
    requires 0 <= p < TrackedPages(entries)
    ensures var bitmap := ((kernelEnd + 15) / 16 * 16 + 4095) / 4096 * 4096;
            p in Offered(entries, kernelEnd) <==>
            && (exists e :: e in entries && e.kind == 1 && Offers(e, p))
            && 0x10_0000 <= 4096 * p
            && (kernelEnd + 4095) / 4096 * 4096 <= 4096 * p
            && (4096 * (p + 1) <= bitmap || bitmap + (TrackedPages(entries) + 31) / 32 * 4 <= 4096 * p)
  {
    hide Offers;
    hide TrackedPages;
    hide MapPages;
    hide Bootstrap.HeapLimit;
    hide Pmm.Reserved;
    Bootstrap.NoRoomByPages(HeapStart(kernelEnd), KERNEL_VIRT_BASE + Bootstrap.HeapLimit(entries, available, kernelEnd),
                            Pmm.BitmapBytes(TrackedPages(entries)));
    hide Bootstrap.NoRoom;
    BitmapPlace(kernelEnd);
    hide AlignUp32;
    Pmm.FreeAfterInit(entries, kernelEnd, VirtToPhys(AlignUp32(HeapStart(kernelEnd), PAGE_SIZE)),
                      Pmm.BitmapBytes(TrackedPages(entries)), p);
  }

  lemma BitmapPlace(kernelEnd: Word)
    requires kernelEnd <= 0x3FFF_FFF0 && HeapStart(kernelEnd) <= 0xFFFF_F000
    ensures AlignUp32(HeapStart(kernelEnd), PAGE_SIZE) ==
            0xC000_0000 + ((kernelEnd + 15) / 16 * 16 + 4095) / 4096 * 4096
  {
    var x := (kernelEnd + 15) / 16 * 16;
    assert HeapStart(kernelEnd) == 0xC000_0000 + x;
    RoundUpPage(HeapStart(kernelEnd));
    hide HeapStart;
    hide AlignUp32;
    var r := AlignUp32(0xC000_0000 + x, 4096);
    assert r == 4096 * (r / 4096);
    assert (0xC000_0000 + x + 4095) / 4096 == 0xC_0000 + (x + 4095) / 4096;
  }

  /** memory_init and pmm_init. */
  method StartAllocator(entries: seq<Entry>, available: bool, kernelEnd: Word) returns (pmm: Pmm.Pmm)
    requires |entries| <= 32 && kernelEnd <= Bootstrap.KERNEL_END_LIMIT
    ensures fresh(pmm) && pmm.Valid() && (pmm.bitmap != null ==> fresh(pmm.bitmap))
    ensures pmm.bitmap != null <==> AllocatorStarts(entries, available, kernelEnd)
    ensures pmm.bitmap != null ==>
              && pmm.totalPages == TrackedPages(entries)
              && pmm.free == Offered(entries, kernelEnd) && pmm.free !! pmm.reserved
              && (forall f :: f in pmm.free ==> 0 <= f)
              && pmm.reserved == BootReserved(entries, kernelEnd)
  {
    hide MapPages;
    hide TrackedPages;
    hide Bootstrap.HeapLimit;
    hide Bootstrap.NoRoom;
    hide AlignUp32;
    hide VirtToPhys;
    hide Pmm.Reserved;
    hide Pmm.BitmapBytes;
    var boot := new Bootstrap.BootstrapHeap(entries, available, kernelEnd);
    pmm := new Pmm.Pmm();
    pmm.Init(entries, available, boot, kernelEnd);
  }

  /** kmain's memory steps in order, over the whole physical address space.
      `heap` is null when the allocator did not start or offers fewer than five
      frames (four pages and the page table for them), or when the second lowest
      frame it offers, which becomes that table, is out of the kernel's reach.
      Otherwise the heap is valid and in its early state, holds one free block of
      four pages, and low memory (where the loader's tables are), the kernel image
      and the bitmap's storage are reserved. */
  method Start(ram: array<Word>, entries: seq<Entry>, available: bool, kernelEnd: Word)
    returns (pmm: Pmm.Pmm, heap: Heap.Heap?, astray: bool)
    requires Frames(ram[..]) == TOTAL_FRAMES
    requires |entries| <= 32 && kernelEnd <= Bootstrap.KERNEL_END_LIMIT
    modifies ram
    ensures fresh(pmm) && (pmm.bitmap != null ==> fresh(pmm.bitmap))
    ensures astray <==> AllocatorStarts(entries, available, kernelEnd) && FirstTableAstray(Offered(entries, kernelEnd))
    ensures heap != null <==>
              && AllocatorStarts(entries, available, kernelEnd)
              && |Offered(entries, kernelEnd)| > Heap.GROW_PAGES
              && !FirstTableAstray(Offered(entries, kernelEnd))
    ensures heap != null ==>
              && fresh(heap) && heap.Valid() && Heap.Early(heap.Now())
              && heap.paging.ram == ram && heap.paging.pmm == pmm
              && heap.pages == Heap.GROW_PAGES && heap.committed == Heap.GROW_PAGES * PAGE_SIZE
              && heap.blocks == [Region(0, Heap.GROW_PAGES * PAGE_ENTRIES)]
              && |pmm.free| == |Offered(entries, kernelEnd)| - 5
              && pmm.free <= Offered(entries, kernelEnd)
    ensures AllocatorStarts(entries, available, kernelEnd) ==>
              pmm.reserved == BootReserved(entries, kernelEnd)
  {
    hide Owned;
    hide Exclusive;
    hide Offered;
    hide AllocatorStarts;
    hide MissingTables;
    hide TrackedPages;
    hide LoaderTables.WithoutIdentity;
    hide LoaderTables.LoaderMap;
    hide BootReserved;
    hide EarlyOwners;
    hide TakenBefore;
    hide RowReached;
    hide FirstTableAstray;
    hide Heap.Early;
    hide Heap.HeapInvariant;
    ghost var loaded := StartTables(ram);
    pmm := StartAllocator(entries, available, kernelEnd);
    if pmm.bitmap == null {
      // no frame will ever be free, so enabling the heap fails
      return pmm, null, false;
    }
    var paging := new Paging.Paging(ram, pmm);
    ReadyToGrow(loaded, pmm.free, pmm.reserved, entries, kernelEnd);
    heap, astray := EnableHeap(paging);
  }

  /** The frame that becomes the first heap table exists and lies at or above 4 MiB. */
  predicate FirstTableAstray(offered: set<int>) {
    |offered| > 1 && LowFree(offered) < 2
  }

  /** The loader's tables, and paging_remove_identity_map. */
  method StartTables(ram: array<Word>) returns (ghost loaded: Memory)
    requires WINDOW_TABLE < Frames(ram[..])
    modifies ram
    ensures LoaderTables.LoaderMap(loaded) && ram[..] == LoaderTables.WithoutIdentity(loaded)
  {
    LoaderTables.BuildTables(ram);
    loaded := ram[..];
    LoaderTables.LoaderReaches(loaded);
    LoaderTables.RemoveIdentityMap(ram);
  }

  /** Ownership holds before the first growth, which needs one table: the loader
      mapped none of its pages. */
  lemma ReadyToGrow(w: Memory, free: set<int>, reserved: set<int>, entries: seq<Entry>, kernelEnd: Word)
    requires LoaderTables.LoaderMap(w) && kernelEnd <= Bootstrap.KERNEL_END_LIMIT
    requires reserved == BootReserved(entries, kernelEnd) && free !! reserved
    requires forall f :: f in free ==> 0 <= f
    ensures var w' := LoaderTables.WithoutIdentity(w);
            && Owned(w', free, reserved) && Exclusive(w', free) && EarlyOwners(w', free, reserved, 0)
            && (RowReached(w', free, HEAP_FIRST_PAGE, Heap.GROW_PAGES) <==> !FirstTableAstray(free))
            && TakenBefore(w', HEAP_FIRST_PAGE, Heap.GROW_PAGES) == Heap.GROW_PAGES + 1
  {
    LoaderTables.RemovalEstablishesOwnership(w, free, reserved);
    LoaderTables.DirectoryWithoutIdentity(w);
    var w' := LoaderTables.WithoutIdentity(w);
    EarlyTaken(w', HEAP_FIRST_PAGE, Heap.GROW_PAGES);
    EarlyTaken(w', HEAP_FIRST_PAGE, 0);
    forall j | 0 < j < Heap.GROW_PAGES
      ensures Reached(w', free, HEAP_FIRST_PAGE, j)
    {
      assert UnderPages(HEAP_FIRST_PAGE, j, HEAP_DIRECTORY);
    }
    assert Reached(w', free, HEAP_FIRST_PAGE, 0) <==> !FirstTableAstray(free);
  }

  /** memory_enable_pmm_backend: the heap starts with one growth. */
  method EnableHeap(paging: Paging.Paging) returns (heap: Heap.Heap?, astray: bool)
    requires paging.Valid() && Owned(paging.ram[..], paging.pmm.free, paging.pmm.reserved)
    modifies paging.ram, paging.pmm`free, paging.pmm.bitmap
    ensures paging.pmm.free <= old(paging.pmm.free)
    ensures astray <==> !RowReached(old(paging.ram[..]), old(paging.pmm.free), HEAP_FIRST_PAGE, Heap.GROW_PAGES)
    ensures heap != null <==>
              && !astray
              && |old(paging.pmm.free)| >= TakenBefore(old(paging.ram[..]), HEAP_FIRST_PAGE, Heap.GROW_PAGES)
    ensures heap != null ==>
              && fresh(heap) && heap.Valid() && heap.paging == paging
              && heap.blocks == [Region(0, Heap.GROW_PAGES * PAGE_ENTRIES)]
              && heap.pages == Heap.GROW_PAGES && heap.committed == Heap.GROW_PAGES * PAGE_SIZE
              && |paging.pmm.free| == |old(paging.pmm.free)| -
                                      TakenBefore(old(paging.ram[..]), HEAP_FIRST_PAGE, Heap.GROW_PAGES)
              && (EarlyOwners(old(paging.ram[..]), old(paging.pmm.free), paging.pmm.reserved, 0) ==> Heap.Early(heap.Now()))
  {
    hide RowReached;
    hide TakenBefore;
    hide EarlyOwners;
    hide Owned;
    hide Heap.Advances;
    var started := new Heap.Heap(paging);
    var outcome;
    ghost var mapped;
    outcome, mapped := started.Grow(1);
    assert Heap.PagesNeeded(1) == Heap.GROW_PAGES;
    if !outcome.Done? {
      return null, outcome.Missed?;
    }
    return started, false;
  }
}

/** The physical page allocator: a bitmap in place, refining the set of free frames. */
module Pmm {
  import opened Machine
  import opened Bitmap
  import opened E820
  import opened FrameRuns
  import Bootstrap

  const LOW_MEMORY: int := 0x10_0000

  /** The pages of a byte range as the kernel rounds it. */
  function Touched(startAddress: Word, endAddress: Word): (r: set<int>) {
    Pages(startAddress / PAGE_SIZE, AlignUp32(endAddress, PAGE_SIZE) / PAGE_SIZE)
  }

  /** Those are the pages with a byte in the range, except that an end in the
      last page rounds to 0 and leaves none. */
  lemma TouchedMeaning(startAddress: Word, endAddress: Word, p: int)
    requires startAddress < endAddress && 0 <= p < TOTAL_FRAMES
    ensures p in Touched(startAddress, endAddress) <==>
            endAddress <= 0xFFFF_F000 && startAddress < (p + 1) * PAGE_SIZE && p * PAGE_SIZE < endAddress
  {
    RoundUpPage(endAddress);
  }

  /** Frames that are never handed out: low memory, the kernel image and the
      pages the bitmap itself occupies. */
  function Reserved(kernelEnd: Word, bitmapStart: Word, bitmapBytes: Word): (r: set<int>) {
    Touched(0, LOW_MEMORY) + Touched(0, kernelEnd) + Touched(bitmapStart, Add32(bitmapStart, bitmapBytes))
  }

  function BelowTotal(pages: set<int>, total: nat): (r: set<int>) {
    set p | p in pages && p < total
  }

  /** One bit for every tracked page, in whole words. */
  function BitmapBytes(total: nat): (n: nat)
    ensures total <= TOTAL_FRAMES ==> n <= 0x2_0000
  {
    (total + 31) / 32 * 4
  }

  /** A bit for every page, and fewer than 32 bits to spare. */
  lemma BitmapSize(total: nat)
    ensures total <= 8 * BitmapBytes(total) < total + 32 && BitmapBytes(total) % 4 == 0
  {
  }

  class Pmm {
    var bitmap: array?<bv32>
    var bitmapAddress: Word  // virtual address of the bitmap's storage
    var totalPages: nat
    var usablePages: nat
    ghost var free: set<int>
    ghost var reserved: set<int>

    /** The bitmap refines the free set. */
    ghost predicate Tracks()
      reads this, bitmap
    {
      && totalPages <= TOTAL_FRAMES
      && (bitmap == null ==> free == {})
      && (bitmap != null ==> Refines(bitmap[..], totalPages, free))
    }

    /** Page 0 is in use, so address 0 can stand for failure. */
    ghost predicate Valid()
      reads this, bitmap
    {
      Tracks() && 0 !in free
    }

    constructor ()
      ensures bitmap == null && free == {} && totalPages == 0 && usablePages == 0
    {
      bitmap := null;
      bitmapAddress := 0;
      totalPages := 0;
      usablePages := 0;
      free := {};
      reserved := {};
    }

    method SetPage(page: nat)
      requires Tracks() && bitmap != null && page < totalPages
      modifies `free, bitmap
      ensures Tracks() && free == old(free) - {page}
    {
      MarkRefines(bitmap[..], totalPages, free, page);
      ghost var words := Mark(bitmap[..], page);
      bitmap[page / 32] := bitmap[page / 32] | (1 << Index(page));
      free := free - {page};
      assert bitmap[..] == words;
    }

    method ClearPage(page: nat)
      requires Tracks() && bitmap != null && page < totalPages
      modifies `free, bitmap
      ensures Tracks() && free == old(free) + {page}
    {
      UnmarkRefines(bitmap[..], totalPages, free, page);
      ghost var words := Unmark(bitmap[..], page);
      bitmap[page / 32] := bitmap[page / 32] & !(1 << Index(page));
      free := free + {page};
      assert bitmap[..] == words;
    }

    method TestPage(page: nat) returns (used: bool)
      requires Tracks() && bitmap != null && page < totalPages
      ensures used <==> page !in free
    {
      used := (bitmap[page / 32] >> Index(page)) & 1 == 1;
      assert used == Used(bitmap[..], page);
    }

    method MarkRangeUsed(startAddress: Word, endAddress: Word)
      requires Tracks() && bitmap != null
      modifies `free, bitmap
      ensures Tracks()
      ensures free == old(free) - Touched(startAddress, endAddress)
    {
      RoundUpPage(endAddress);
      var address := AlignDown(startAddress, PAGE_SIZE);
      var end := AlignUp32(endAddress, PAGE_SIZE);
      ghost var low, high := startAddress / PAGE_SIZE, end / PAGE_SIZE;
      ghost var next := low;
      assert end == high * PAGE_SIZE;
      while address < end
        invariant address == next * PAGE_SIZE && low <= next <= Max(low, high)
        invariant Tracks() && bitmap != null
        invariant forall p :: p in free <==> p in old(free) && !(low <= p < next)
      {
        var page := address / PAGE_SIZE;
        if page < totalPages {
          var used := TestPage(page);
          if !used {
            SetPage(page);
          }
        }
        address, next := address + PAGE_SIZE, next + 1;
      }
      assert next == Max(low, high);
      forall p
        ensures p in free <==> p in old(free) && p !in Pages(low, high)
      {
        assert p in Pages(low, high) <==> low <= p < next;
      }
    }

    method MarkRangeFree(startAddress: Word, endAddress: Word)
      requires Tracks() && bitmap != null
      modifies `free, bitmap
      ensures Tracks()
      ensures free == old(free) +
                      BelowTotal(Pages(AlignUp32(startAddress, PAGE_SIZE) / PAGE_SIZE, endAddress / PAGE_SIZE), totalPages)
    {
      RoundUpPage(startAddress);
      var address := AlignUp32(startAddress, PAGE_SIZE);
      var end := AlignDown(endAddress, PAGE_SIZE);
      ghost var low, next := address / PAGE_SIZE, address / PAGE_SIZE;
      if end <= address {
        return;
      }
      while address < end
        invariant address == next * PAGE_SIZE && low <= next && address <= end
        invariant Tracks() && bitmap != null
        invariant forall p :: p in free <==> p in old(free) || (low <= p < next && p < totalPages)
      {
        var page := address / PAGE_SIZE;
        if page < totalPages {
          var used := TestPage(page);
          if used {
            ClearPage(page);
          }
        }
        address, next := address + PAGE_SIZE, next + 1;
      }
    }

    /** The first pass over the memory map. */
    method CountMap(entries: seq<Entry>) returns (highest: DoubleWord, usable: Word)
      requires |entries| <= 32
      ensures highest == HighestEnd(entries) && usable == MapPageCount(entries)
    {
      highest, usable := 0, 0;
      for i := 0 to |entries|
        invariant highest == HighestEnd(entries[..i]) && usable == MapPageCount(entries[..i])
      {
        var e := entries[i];
        MapPrefix(entries, i);
        if RegionEnd(e) > highest {
          highest := RegionEnd(e);
        }
        if Counts(e) {
          if HighPage(e) > LowPage(e) {
            usable := Add32(usable, HighPage(e) - LowPage(e));
          }
        }
      }
      assert entries[..|entries|] == entries;
    }

    /** Free the pages of every usable region, clipped to the tracked pages. */
    method FreeMap(entries: seq<Entry>)
      requires Tracks() && bitmap != null && free == {}
      modifies `free, bitmap
      ensures Tracks() && free == BelowTotal(MapPages(entries), totalPages)
    {
      for i := 0 to |entries|
        invariant Tracks() && bitmap != null && bitmap == old(bitmap) && totalPages == old(totalPages)
        invariant free == BelowTotal(MapPages(entries[..i]), totalPages)
      {
        var e := entries[i];
        MapPrefix(entries, i);
        if Counts(e) {
          MarkRangeFree(LowAddress(e), HighAddress(e));
        }
      }
      assert entries[..|entries|] == entries;
    }

    /** pmm_init. Afterwards either the allocator is off (no map, no tracked
        page or no room for the bitmap) or the free frames are exactly the
        map's pages outside the reserved ones. */
    method Init(entries: seq<Entry>, available: bool, boot: Bootstrap.BootstrapHeap, kernelEnd: Word)
      requires bitmap == null && free == {} && totalPages == 0
      requires |entries| <= 32
      requires boot.Valid()
      modifies this, boot
      ensures Valid() && boot.Valid()
      ensures bitmap == null <==>
                || !available
                || TrackedPages(entries) == 0
                || Bootstrap.NoRoom(old(boot.current), old(boot.limit), BitmapBytes(TrackedPages(entries)), PAGE_SIZE)
      ensures available ==> totalPages == TrackedPages(entries) && usablePages == MapPageCount(entries)
      ensures bitmap != null ==>
                && fresh(bitmap)
                && 4 * bitmap.Length == BitmapBytes(totalPages)
                && bitmapAddress == AlignUp32(old(boot.current), PAGE_SIZE)
                && bitmapAddress % PAGE_SIZE == 0
                && boot.grants == old(boot.grants) + [Bootstrap.Grant(bitmapAddress, 4 * bitmap.Length)]
                && reserved == Reserved(kernelEnd, VirtToPhys(bitmapAddress), BitmapBytes(totalPages))
                && free == BelowTotal(MapPages(entries), totalPages) - reserved
    {
      hide Bootstrap.NoRoom;
      if !available {
        return;
      }
      var highest, usable := CountMap(entries);
      usablePages := usable;
      totalPages := Min(highest, TWO_32) / PAGE_SIZE;
      if totalPages == 0 {
        return;
      }
      var started := AllocateBitmap(boot);
      if !started {
        return;
      }
      FreeMap(entries);
      Reserve(kernelEnd, VirtToPhys(bitmapAddress), BitmapBytes(totalPages));
    }

    /** Storage for the bitmap comes from the bootstrap heap, so it lies in the
        first 4 MiB. */
    method AllocateBitmap(boot: Bootstrap.BootstrapHeap) returns (started: bool)
      requires bitmap == null && free == {} && 0 < totalPages <= TOTAL_FRAMES
      requires boot.Valid()
      modifies `bitmap, `bitmapAddress, boot
      ensures Tracks() && boot.Valid() && started == (bitmap != null)
      ensures started == !Bootstrap.NoRoom(old(boot.current), old(boot.limit), BitmapBytes(totalPages), PAGE_SIZE)
      ensures started ==>
                && fresh(bitmap)
                && 4 * bitmap.Length == BitmapBytes(totalPages)
                && bitmapAddress == AlignUp32(old(boot.current), PAGE_SIZE)
                && bitmapAddress % PAGE_SIZE == 0
                && KERNEL_VIRT_BASE <= bitmapAddress
                && bitmapAddress + 4 * bitmap.Length <= KERNEL_VIRT_BASE + Bootstrap.EARLY_MAPPED_LIMIT
                && boot.grants == old(boot.grants) + [Bootstrap.Grant(bitmapAddress, 4 * bitmap.Length)]
    {
      var words := (totalPages + 31) / 32;
      PageSizePowerOfTwo();
      var address := boot.AllocAligned(words * 4, PAGE_SIZE);
      if address == 0 {
        return false;
      }
      assert Bootstrap.Grant(address, words * 4) in boot.grants;
      bitmapAddress := address;
      bitmap := new bv32[words];
      FillUsed();
      return true;
    }

    method FillUsed()
      requires bitmap != null && totalPages <= 32 * bitmap.Length && totalPages <= TOTAL_FRAMES && free == {}
      modifies bitmap
      ensures Tracks()
    {
      var i := 0;
      while i < bitmap.Length
        invariant 0 <= i <= bitmap.Length
        invariant forall k :: 0 <= k < i ==> bitmap[k] == 0xFFFF_FFFF
      {
        bitmap[i] := 0xFFFF_FFFF;
        i := i + 1;
      }
      AllUsedRefines(bitmap[..], totalPages);
    }

    /** The last three steps of pmm_init. */
    method Reserve(kernelEnd: Word, bitmapStart: Word, bitmapBytes: Word)
      requires Tracks() && bitmap != null
      modifies `free, `reserved, bitmap
      ensures Valid() && reserved == Reserved(kernelEnd, bitmapStart, bitmapBytes)
      ensures free == old(free) - reserved
    {
      MarkRangeUsed(0, LOW_MEMORY);
      MarkRangeUsed(0, kernelEnd);
      MarkRangeUsed(bitmapStart, Add32(bitmapStart, bitmapBytes));
      reserved := Reserved(kernelEnd, bitmapStart, bitmapBytes);
    }

    /** Address 0 is the failure result; otherwise the lowest free run. */
    method AllocContiguous(count: Word) returns (address: Word)
      requires Valid()
      modifies `free, bitmap
      ensures Valid()
      ensures address == PAGE_SIZE * FindRun(old(free), totalPages, count)
      ensures bitmap == null ==> address == 0
      ensures free == if address == 0 then old(free)
                      else old(free) - Pages(address / PAGE_SIZE, address / PAGE_SIZE + count)
    {
      if bitmap == null || count == 0 {
        if count > 0 {
          FindRunMeaning(free, totalPages, count);
          EmptyHasNoRun(free, totalPages, count);
        }
        return 0;
      }
      var runStart, runLength := 0, 0;
      var page := 0;
      while page < totalPages
        invariant 0 <= page <= totalPages && 0 <= runLength < count && runLength <= page
        invariant Valid() && bitmap != null && free == old(free)
        invariant runLength > 0 ==> runStart == page - runLength
        invariant AllFree(free, page - runLength, runLength)
        invariant forall s :: 0 <= s < page - runLength ==> !AllFree(free, s, count)
      {
        var used := TestPage(page);
        if !used {
          if runLength == 0 {
            runStart := page;
          }
          runLength := runLength + 1;
          if runLength == count {
            FindRunUnique(free, totalPages, count, runStart);
            TakeRun(runStart, count);
            return runStart * PAGE_SIZE;
          }
        } else {
          BlockedAt(free, count, page, page - runLength);
          runLength := 0;
        }
        page := page + 1;
      }
      FindRunMeaning(free, totalPages, count);
      return 0;
    }

    /** The inner loop of the allocation: mark the run used. */
    method TakeRun(runStart: nat, count: nat)
      requires Valid() && bitmap != null
      requires runStart + count <= totalPages
      modifies `free, bitmap
      ensures Valid() && free == old(free) - Pages(runStart, runStart + count)
    {
      for i := 0 to count
        invariant Valid() && bitmap != null
        invariant forall p :: p in free <==> p in old(free) && !(runStart <= p < runStart + i)
      {
        SetPage(runStart + i);
      }
      forall p
        ensures p in free <==> p in old(free) && p !in Pages(runStart, runStart + count)
      {
        assert p in Pages(runStart, runStart + count) <==> runStart <= p < runStart + count;
      }
    }

    method AllocPage() returns (address: Word)
      requires Valid()
      modifies `free, bitmap
      ensures Valid()
      ensures address == PAGE_SIZE * Lowest(old(free), totalPages)
      ensures address == 0 ==> free == old(free) == {}
      ensures address != 0 ==>
                && address % PAGE_SIZE == 0 && 0 < address / PAGE_SIZE < totalPages
                && address / PAGE_SIZE in old(free) && free == old(free) - {address / PAGE_SIZE}
                && forall p :: p in old(free) ==> address / PAGE_SIZE <= p
    {
      LowestMeaning(free, totalPages);
      address := AllocContiguous(1);
    }

    method AllocPageBelow(limit: Word) returns (address: Word)
      requires Valid()
      modifies `free, bitmap
      ensures Valid()
      ensures address == PAGE_SIZE * FindBelow(old(free), Min(limit / PAGE_SIZE, totalPages))
      ensures free == if address == 0 then old(free) else old(free) - {address / PAGE_SIZE}
    {
      if bitmap == null {
        return 0;
      }
      var maxPage := limit / PAGE_SIZE;
      if maxPage > totalPages {
        maxPage := totalPages;
      }
      for page := 0 to maxPage
        invariant Valid() && bitmap != null && free == old(free)
        invariant forall p :: 0 <= p < page ==> p !in free
      {
        var used := TestPage(page);
        if !used {
          FindBelowUnique(free, maxPage, page);
          SetPage(page);
          return page * PAGE_SIZE;
        }
      }
      return 0;
    }

    method FreeContiguous(address: Word, count: Word)
      requires Valid()
      modifies `free, bitmap
      ensures Valid()
      ensures free == if bitmap == null || address == 0 || address % PAGE_SIZE != 0 then old(free)
                      else FreeResult(old(free), totalPages, address / PAGE_SIZE, count)
    {
      if bitmap == null || address == 0 || count == 0 {
        return;
      }
      if address % PAGE_SIZE != 0 {
        return;
      }
      var start := address / PAGE_SIZE;
      if start >= totalPages {
        return;
      }
      var i := 0;
      while i < count
        invariant 0 <= i <= count && start + i <= totalPages
        invariant Valid() && bitmap != null
        invariant forall p :: p in free <==> p in old(free) || start <= p < start + i
      {
        var page := start + i;
        if page >= totalPages {
          break;
        }
        var used := TestPage(page);
        if used {
          ClearPage(page);
        }
        i := i + 1;
      }
    }

    method FreePage(address: Word)
      requires Valid()
      modifies `free, bitmap
      ensures Valid()
      ensures free == if bitmap == null || address == 0 || address % PAGE_SIZE != 0 then old(free)
                      else FreeResult(old(free), totalPages, address / PAGE_SIZE, 1)
    {
      FreeContiguous(address, 1);
    }

    method CountFree() returns (count: nat)
      requires Valid()
      ensures count == |free|
    {
      if bitmap == null {
        return 0;
      }
      count := 0;
      ghost var seen: set<int> := {};
      for page := 0 to totalPages
        invariant seen == set p | p in free && p < page
        invariant count == |seen|
      {
        var used := TestPage(page);
        if !used {
          seen := seen + {page};
          count := count + 1;
        }
      }
      assert seen == free;
    }

    method CountUsed() returns (count: nat)
      requires Valid()
      ensures count == UsedCount(usablePages, |free|)
      ensures count == if usablePages >= |free| then usablePages - |free| else 0
    {
      var free := CountFree();
      if usablePages >= free {
        return usablePages - free;
      }
      return 0;
    }

    /** Any sequence of calls in which callers free what they hold: the object
        goes through the states of the abstract run, so no frame is lost or
        handed out twice. */
    method Execute(calls: seq<Call>) returns (held: seq<Run>)
      requires Valid() && forall c :: c in calls && c.Alloc? ==> c.count < TWO_32
      modifies `free, bitmap
      ensures Valid() && bitmap == old(bitmap)
      ensures State(free, held) == Steps(State(old(free), []), totalPages, calls)
      ensures Conserved(State(free, held), totalPages, old(free))
      ensures |free| + HeldCount(held) == |old(free)|
    {
      hide Conserved;
      held := [];
      NothingHeld(free, totalPages);
      ghost var initial := free;
      for i := 0 to |calls|
        invariant Valid() && bitmap == old(bitmap) && (bitmap == null ==> held == [])
        invariant Steps(State(free, held), totalPages, calls[i..]) == Steps(State(initial, []), totalPages, calls)
        invariant Conserved(State(free, held), totalPages, initial)
      {
        assert calls[i..][0] == calls[i] && calls[i..][1..] == calls[i + 1..];
        StepConserves(State(free, held), totalPages, initial, calls[i]);
        held := Perform(calls[i], held, initial);
      }
      Accounted(State(free, held), totalPages, initial);
    }

    method Perform(call: Call, held: seq<Run>, ghost initial: set<int>) returns (held': seq<Run>)
      requires Valid() && (call.Alloc? ==> call.count < TWO_32)
      requires Conserved(State(free, held), totalPages, initial) && (bitmap == null ==> held == [])
      modifies `free, bitmap
      ensures Valid() && (bitmap == null ==> held' == [])
      ensures State(free, held') == Step(State(old(free), held), totalPages, call)
    {
      hide Conserved;
      match call {
        case Alloc(count) =>
          var address := AllocContiguous(count);
          held' := if address == 0 then held else [Run(address / PAGE_SIZE, count)] + held;
        case AllocBelow(limit) =>
          var address := AllocPageBelow(limit);
          OnePage(address / PAGE_SIZE);
          held' := if address == 0 then held else [Run(address / PAGE_SIZE, 1)] + held;
        case Free(k) =>
          held' := held;
          if k < |held| {
            held' := Release(held, k, initial);
          }
      }
    }

    /** Free the k-th run held. */
    method Release(held: seq<Run>, k: nat, ghost initial: set<int>) returns (held': seq<Run>)
      requires Valid() && bitmap != null && k < |held|
      requires Conserved(State(free, held), totalPages, initial)
      modifies `free, bitmap
      ensures Valid()
      ensures State(free, held') == Step(State(old(free), held), totalPages, Free(k))
    {
      var run := held[k];
      assert run in held;
      PageAddress(run.start);
      FreeContiguous(run.start * PAGE_SIZE, run.count);
      held' := held[..k] + held[k + 1..];
    }
  }

  lemma PageAddress(page: nat)
    ensures page * PAGE_SIZE / PAGE_SIZE == page && page * PAGE_SIZE % PAGE_SIZE == 0
  {
  }

  /** The allocator after pmm_init, told in terms of the firmware's map: a page
      offered by some usable region, which for a map of faithful entries means
      wholly inside one. */
  lemma FreeAfterInit(entries: seq<Entry>, kernelEnd: Word, bitmapStart: Word, bitmapBytes: Word, p: int)
    requires kernelEnd <= 0xFFFF_F000 && 0 < bitmapBytes && bitmapStart + bitmapBytes <= 0xFFFF_F000
    requires 0 <= p < TrackedPages(entries)
    ensures p in BelowTotal(MapPages(entries), TrackedPages(entries)) - Reserved(kernelEnd, bitmapStart, bitmapBytes) <==>
            && (exists e :: e in entries && e.kind == USABLE && Offers(e, p))
            && LOW_MEMORY <= p * PAGE_SIZE
            && (kernelEnd + 4095) / PAGE_SIZE * PAGE_SIZE <= p * PAGE_SIZE
            && ((p + 1) * PAGE_SIZE <= bitmapStart || bitmapStart + bitmapBytes <= p * PAGE_SIZE)
    ensures (forall e :: e in entries ==> Faithful(e)) ==>
              ((exists e :: e in entries && e.kind == USABLE && Offers(e, p)) <==>
               (exists e :: e in entries && e.kind == USABLE && WhollyInside(e, p)))
  {
    hide Offers;
    hide WhollyInside;
    hide Faithful;
    hide Touched;
    hide MapPages;
    hide TrackedPages;
    MapPagesExact(entries, p);
    TouchedMeaning(0, LOW_MEMORY, p);
    TouchedMeaning(bitmapStart, bitmapStart + bitmapBytes, p);
    if kernelEnd > 0 {
      TouchedMeaning(0, kernelEnd, p);
    } else {
      NothingTouched(p);
    }
  }

  lemma NothingTouched(p: int)
    ensures p !in Touched(0, 0)
  {
  }

  /** Free pages never exceed the reported usable pages, even when regions overlap. */
  lemma FreeAtMostUsable(entries: seq<Entry>, total: nat, reserved: set<int>)
    ensures |BelowTotal(MapPages(entries), total) - reserved| <= MapPageCount(entries)
  {
    PageCountBounds(entries);
    SubsetSize(BelowTotal(MapPages(entries), total) - reserved, MapPages(entries));
  }

  lemma OnePage(p: int)
    ensures Pages(p, p + 1) == {p}
  {
  }

  lemma MapPrefix(entries: seq<Entry>, i: nat)
    requires i < |entries|
    ensures HighestEnd(entries[..i + 1]) == Max(RegionEnd(entries[i]), HighestEnd(entries[..i]))
    ensures MapPageCount(entries[..i + 1]) == MapPageCount(entries[..i]) + EntryPageCount(entries[i])
    ensures |entries| <= 32 ==> MapPageCount(entries[..i + 1]) < TWO_32
    ensures MapPages(entries[..i + 1]) == MapPages(entries[..i]) + EntryPages(entries[i])
  {
    assert entries[..i + 1][..i] == entries[..i];
    PageCountBounds(entries[..i + 1]);
  }

  lemma PageSizePowerOfTwo()
    ensures PowerOfTwo(PAGE_SIZE)
  {
    assert Pow2(4) == 16;
    assert Pow2(8) == 256;
    assert Pow2(12) == PAGE_SIZE;
  }

  lemma EmptyHasNoRun(free: set<int>, total: nat, count: nat)
    requires count > 0 && free == {}
    ensures NoRun(free, total, count)
  {
    forall s | 0 <= s && s + count <= total
      ensures !AllFree(free, s, count)
    {
      assert s !in free;
    }
  }

  /** A used page blocks every run that covers it. */
  lemma BlockedAt(free: set<int>, count: int, page: int, from: int)
    requires page !in free && page - count < from
    ensures forall s :: from <= s <= page ==> !AllFree(free, s, count)
  {
    forall s | from <= s <= page
      ensures !AllFree(free, s, count)
    {
      assert s <= page < s + count;
    }
  }

  lemma {:induction false} FindBelowUnique(free: set<int>, bound: nat, page: nat)
    requires page < bound && page in free && forall p :: 0 <= p < page ==> p !in free
    requires page != 0
    ensures FindBelow(free, bound) == page
  {
    if bound - 1 > page {
      FindBelowUnique(free, bound - 1, page);
    } else {
      var r := FindBelow(free, bound - 1);
      assert r == 0;
    }
  }
}

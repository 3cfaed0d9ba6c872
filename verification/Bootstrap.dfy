/** The bump allocator that serves the kernel before the physical allocator runs. */
module Bootstrap {
  import opened BitForms
  import opened Machine
  import opened E820
  import WordBits

  const EARLY_MAPPED_LIMIT: int := 0x40_0000
  const KERNEL_END_LIMIT: int := 0x3FFF_FFF0  // the kernel is linked at 0xC0000000

  datatype Grant = Grant(address: int, size: int)

  /** Later grants start where earlier ones have ended. */
  predicate Stacked(grants: seq<Grant>) {
    forall i, j :: 0 <= i < j < |grants| ==> grants[i].address + grants[i].size <= grants[j].address
  }

  /** And all of them lie in a range. */
  predicate GrantsWithin(grants: seq<Grant>, low: int, high: int) {
    && Stacked(grants)
    && forall g :: g in grants ==> low <= g.address && 0 < g.size && g.address + g.size <= high
  }

  /** A usable region that holds the end of the kernel image and has room past it. */
  predicate HoldsKernelEnd(e: Entry, kernelEnd: Word) {
    Counts(e) && e.base <= kernelEnd < HighAddress(e) && AlignUp32(kernelEnd, DEFAULT_ALIGNMENT) < HighAddress(e)
  }

  /** The index of the first such region, or the number of entries. */
  function HomeRegion(entries: seq<Entry>, kernelEnd: Word): (i: nat)
    ensures i <= |entries|
    ensures i < |entries| ==> HoldsKernelEnd(entries[i], kernelEnd)
    ensures forall k :: 0 <= k < i ==> !HoldsKernelEnd(entries[k], kernelEnd)
  {
    if |entries| == 0 || HoldsKernelEnd(entries[0], kernelEnd) then 0
    else
      var i := HomeRegion(entries[1..], kernelEnd);
      assert forall k :: 1 <= k < i + 1 ==> entries[k] == entries[1..][k - 1];
      1 + i
  }

  /** Where the heap has to stop, as an offset into the kernel window. */
  function HeapLimit(entries: seq<Entry>, available: bool, kernelEnd: Word): (limit: int)
    ensures limit <= EARLY_MAPPED_LIMIT
  {
    var i := HomeRegion(entries, kernelEnd);
    if available && i < |entries| && AlignUp32(kernelEnd, DEFAULT_ALIGNMENT) < EARLY_MAPPED_LIMIT
    then Min(HighAddress(entries[i]), EARLY_MAPPED_LIMIT)
    else EARLY_MAPPED_LIMIT
  }

  /** What holding the kernel's end means for the firmware's entry: usable, the
      end inside it, and the end rounded to 16 still inside it; a region that
      reaches 4 GiB never does. */
  lemma HoldsMeaning(e: Entry, kernelEnd: Word)
    requires kernelEnd <= 0x3FFF_FFF0
    ensures HoldsKernelEnd(e, kernelEnd) <==>
            && e.kind == 1 && e.base <= kernelEnd
            && (kernelEnd + 15) / 16 * 16 < e.base + e.length < 0x1_0000_0000
    ensures HoldsKernelEnd(e, kernelEnd) ==> HighAddress(e) == e.base + e.length
    ensures AlignUp32(kernelEnd, DEFAULT_ALIGNMENT) == (kernelEnd + 15) / 16 * 16
  {
    assert AlignUp32(kernelEnd, DEFAULT_ALIGNMENT) == (kernelEnd + 15) / 16 * 16;
    hide AlignUp32;
    if e.base + e.length < TWO_64 {
      assert RegionEnd(e) == e.base + e.length;
    } else {
      assert RegionEnd(e) == e.base + e.length - TWO_64;
    }
  }

  /** Where the heap stops, told from the map. When entry i is the first usable
      one that holds the kernel's end with room behind it below 4 MiB, it stops
      with that entry or at 4 MiB, whichever comes first. */
  lemma HeapLimitInRegion(entries: seq<Entry>, kernelEnd: Word, i: nat)
    requires kernelEnd <= 0x3FFF_FFF0 && i < |entries| && (kernelEnd + 15) / 16 * 16 < 0x40_0000
    requires HoldsKernelEnd(entries[i], kernelEnd) && forall j :: 0 <= j < i ==> !HoldsKernelEnd(entries[j], kernelEnd)
    ensures var end := entries[i].base + entries[i].length;
            HeapLimit(entries, true, kernelEnd) == if end < 0x40_0000 then end else 0x40_0000
  {
    hide HoldsKernelEnd;
    hide HighAddress;
    hide AlignUp32;
    HoldsMeaning(entries[i], kernelEnd);
    assert HomeRegion(entries, kernelEnd) == i;
  }

  /** In every other case it stops at 4 MiB. */
  lemma HeapLimitElsewhere(entries: seq<Entry>, available: bool, kernelEnd: Word)
    requires kernelEnd <= 0x3FFF_FFF0
    requires || !available
             || (kernelEnd + 15) / 16 * 16 >= 0x40_0000
             || forall j :: 0 <= j < |entries| ==> !HoldsKernelEnd(entries[j], kernelEnd)
    ensures HeapLimit(entries, available, kernelEnd) == 0x40_0000
  {
    hide HoldsKernelEnd;
    hide HighAddress;
    hide AlignUp32;
    var i := HomeRegion(entries, kernelEnd);
    if i < |entries| {
      HoldsMeaning(entries[i], kernelEnd);
    }
  }

  /** So whatever the bootstrap heap hands out lies in that region's memory. */
  lemma GrantsInRegion(entries: seq<Entry>, kernelEnd: Word, i: nat, grants: seq<Grant>, limit: int, g: Grant)
    requires kernelEnd <= 0x3FFF_FFF0 && i < |entries| && (kernelEnd + 15) / 16 * 16 < 0x40_0000
    requires HoldsKernelEnd(entries[i], kernelEnd) && forall j :: 0 <= j < i ==> !HoldsKernelEnd(entries[j], kernelEnd)
    requires limit <= 0xC000_0000 + HeapLimit(entries, true, kernelEnd)
    requires GrantsWithin(grants, 0xC000_0000 + (kernelEnd + 15) / 16 * 16, limit) && g in grants
    ensures entries[i].base <= g.address - 0xC000_0000
    ensures g.address + g.size - 0xC000_0000 <= entries[i].base + entries[i].length
    ensures kernelEnd <= g.address - 0xC000_0000 && g.address + g.size - 0xC000_0000 <= 0x40_0000
  {
    HeapLimitInRegion(entries, kernelEnd, i);
    HoldsMeaning(entries[i], kernelEnd);
    hide HeapLimit;
    hide HoldsKernelEnd;
  }

  /** 0 stands for the default alignment. */
  function Alignment(alignment: Word): (a: Word)
    ensures a > 0
  {
    if alignment == 0 then DEFAULT_ALIGNMENT else alignment
  }

  predicate MultipleOf(x: int, a: int)
    requires a > 0
  {
    x % a == 0
  }

  /** The heap has no room for a request. */
  predicate NoRoom(current: Word, limit: Word, size: Word, alignment: Word) {
    var aligned := MaskUp(current, Alignment(alignment) - 1);
    size == 0 || aligned < current || aligned + size > limit
  }

  class BootstrapHeap {
    var start: Word
    var current: Word
    var limit: Word
    ghost var grants: seq<Grant>  // every block handed out so far

    ghost predicate Valid()
      reads this
    {
      && KERNEL_VIRT_BASE <= start <= current
      && limit <= KERNEL_VIRT_BASE + EARLY_MAPPED_LIMIT
      && GrantsWithin(grants, start, Min(current, limit))
    }

    static method FindRegion(entries: seq<Entry>, available: bool, kernelEnd: Word)
      returns (found: bool, low: Word, high: Word)
      ensures found == (available && HomeRegion(entries, kernelEnd) < |entries|)
      ensures found ==>
                && low == AlignUp32(kernelEnd, DEFAULT_ALIGNMENT) < high
                && high == HighAddress(entries[HomeRegion(entries, kernelEnd)])
    {
      hide HighAddress;
      found, low, high := false, 0, 0;
      if !available {
        return;
      }
      for i := 0 to |entries|
        invariant !found
        invariant forall k :: 0 <= k < i ==> !HoldsKernelEnd(entries[k], kernelEnd)
      {
        var e := entries[i];
        if Counts(e) && e.base <= kernelEnd && kernelEnd < HighAddress(e) {
          var aligned := AlignUp32(kernelEnd, DEFAULT_ALIGNMENT);
          if aligned < HighAddress(e) {
            return true, aligned, HighAddress(e);
          }
        }
      }
    }

    /** memory_init: whatever the map says, the heap starts at the kernel's end
        and stays inside the 4 MiB window the loader mapped. */
    constructor (entries: seq<Entry>, available: bool, kernelEnd: Word)
      requires kernelEnd <= KERNEL_END_LIMIT
      ensures Valid() && grants == []
      ensures start == current == KERNEL_VIRT_BASE + (kernelEnd + 15) / 16 * 16
      ensures limit == KERNEL_VIRT_BASE + HeapLimit(entries, available, kernelEnd)
      ensures forall i :: 0 <= i < |entries| && HoldsKernelEnd(entries[i], kernelEnd)
                          && (forall j :: 0 <= j < i ==> !HoldsKernelEnd(entries[j], kernelEnd))
                          && available && start < 0xC040_0000 ==>
                limit - 0xC000_0000 == Min(entries[i].base + entries[i].length, 0x40_0000)
    {
      hide HighAddress;
      forall i | 0 <= i < |entries| && HoldsKernelEnd(entries[i], kernelEnd)
                 && (forall j :: 0 <= j < i ==> !HoldsKernelEnd(entries[j], kernelEnd))
                 && (kernelEnd + 15) / 16 * 16 < 0x40_0000
        ensures HeapLimit(entries, true, kernelEnd) == Min(entries[i].base + entries[i].length, 0x40_0000)
      {
        HeapLimitInRegion(entries, kernelEnd, i);
      }
      hide HoldsKernelEnd;
      var found, low, high := FindRegion(entries, available, kernelEnd);
      var physStart, physLimit := AlignUp32(kernelEnd, DEFAULT_ALIGNMENT), EARLY_MAPPED_LIMIT;
      if found {
        physStart, physLimit := low, Min(high, EARLY_MAPPED_LIMIT);
        if physStart >= physLimit {
          physStart, physLimit := AlignUp32(kernelEnd, DEFAULT_ALIGNMENT), EARLY_MAPPED_LIMIT;
        }
      }
      start := Add32(physStart, KERNEL_VIRT_BASE);
      current := Add32(physStart, KERNEL_VIRT_BASE);
      limit := Add32(physLimit, KERNEL_VIRT_BASE);
      grants := [];
    }

    /** Address 0 is the failure result. An alignment that is no power of two
        leads to some address not far past the last grant. */
    method AllocAligned(size: Word, alignment: Word) returns (address: Word)
      requires Valid()
      modifies this
      ensures Valid() && start == old(start) && limit == old(limit)
      ensures address == 0 ==> current == old(current) && grants == old(grants)
      ensures address != 0 ==>
                && old(current) <= address < old(current) + Alignment(alignment)
                && (PowerOfTwo(Alignment(alignment)) ==>
                      && MultipleOf(address, Alignment(alignment))
                      && address == AlignUp32(old(current), Alignment(alignment)))
                && current == address + size <= limit
                && grants == old(grants) + [Grant(address, size)]
      ensures address == 0 <==> NoRoom(old(current), limit, size, alignment)
    {
      hide MaskUp;
      hide AlignUp32;
      hide GrantsWithin;
      hide Add32;
      hide PowerOfTwo;
      hide MultipleOf;
      hide NoRoom;
      AllocTests(current, limit, size, alignment);
      if size == 0 {
        return 0;
      }
      var a := if alignment == 0 then DEFAULT_ALIGNMENT else alignment;
      var aligned := MaskUp(current, a - 1);
      if aligned < current {
        return 0;
      }
      if Add32(aligned, size) < aligned {
        return 0;
      }
      if Add32(aligned, size) > limit {
        return 0;
      }
      OneMoreGrant(grants, start, Min(current, limit), Grant(aligned, size));
      grants := grants + [Grant(aligned, size)];
      current := Add32(aligned, size);
      return aligned;
    }
  }

  /** The four tests together are exact. */
  lemma AllocTests(current: Word, limit: Word, size: Word, alignment: Word)
    ensures var a := Alignment(alignment);
            var aligned := MaskUp(current, a - 1);
            && (NoRoom(current, limit, size, alignment) <==>
                  size == 0 || aligned < current || Add32(aligned, size) < aligned || Add32(aligned, size) > limit)
            && (!NoRoom(current, limit, size, alignment) ==>
                  && Add32(aligned, size) == aligned + size <= limit
                  && current <= aligned < current + a && 0 < size
                  && (PowerOfTwo(a) ==> MultipleOf(aligned, a) && aligned == AlignUp32(current, a)))
  {
    hide MaskUp;
    hide AlignUp32;
    hide PowerOfTwo;
    hide MultipleOf;
    AlignedPast(current, Alignment(alignment));
    EndWithin(MaskUp(current, Alignment(alignment) - 1), size, limit);
    hide Add32;
  }

  lemma EndWithin(address: Word, size: Word, limit: Word)
    ensures address + size <= limit <==> address <= Add32(address, size) <= limit
    ensures address + size <= limit ==> Add32(address, size) == address + size
  {
  }

  lemma OneMoreGrant(grants: seq<Grant>, low: int, high: int, g: Grant)
    requires GrantsWithin(grants, low, high) && low <= g.address && high <= g.address && 0 < g.size
    ensures GrantsWithin(grants + [g], low, g.address + g.size)
  {
  }

  lemma AlignedPast(x: Word, alignment: Word)
    requires alignment > 0
    ensures MaskUp(x, alignment - 1) >= x ==> MaskUp(x, alignment - 1) < x + alignment
    ensures PowerOfTwo(alignment) ==>
              && MaskUp(x, alignment - 1) == AlignUp32(x, alignment)
              && MultipleOf(MaskUp(x, alignment - 1), alignment)
  {
    hide MaskUp;
    MaskUpBounds(x, alignment - 1);
    AlignUpBounds(x, alignment);
    if PowerOfTwo(alignment) {
      var k: nat :| k < 32 && alignment == Pow2(k);
      MaskUpIsAlignUp(x, k);
    }
  }

  /** Room for a request aligned to pages. */
  lemma NoRoomByPages(current: Word, limit: Word, size: Word)
    ensures NoRoom(current, limit, size, PAGE_SIZE) <==>
            size == 0 || AlignUp32(current, PAGE_SIZE) < current || AlignUp32(current, PAGE_SIZE) + size > limit
  {
    hide MaskUp;
    hide AlignUp32;
    PageRounding(current);
  }

  /** A request for a power of two is refused only when it must be: there is no
      room exactly when it does not fit behind any aligned address. */
  lemma NoRoomMeaning(current: Word, limit: Word, size: Word, alignment: Word)
    requires PowerOfTwo(alignment)
    ensures NoRoom(current, limit, size, alignment) <==>
            size == 0 || forall q :: current <= q && MultipleOf(q, alignment) ==> q + size > limit
  {
    hide MaskUp;
    AlignedPast(current, alignment);
    AlignUpBounds(current, alignment);
    var aligned := AlignUp32(current, alignment);
    hide AlignUp32;
    forall q | current <= q && MultipleOf(q, alignment)
      ensures if aligned < current then q >= TWO_32 else aligned <= q
    {
      var k: nat :| k < 32 && alignment == Pow2(k);
      if aligned < current {
        TopMultiple(k);
        NextMultiple(alignment, TWO_32, q);
      } else {
        NextMultiple(alignment, aligned, q);
      }
    }
    if aligned >= current && aligned + size <= limit {
      assert MultipleOf(aligned, alignment);
    }
  }

  /** Multiples of a lie a apart. */
  lemma NextMultiple(a: int, m: int, q: int)
    requires a > 0 && m % a == 0 && q % a == 0 && m - a < q
    ensures m <= q
  {
    var j, k := m / a, q / a;
    assert m == a * j + m % a && q == a * k + q % a;
    assert a * (j - 1) == m - a;
    if k < j {
      MulMonotone(a, k, j - 1);
    } else {
      MulMonotone(a, j, k);
    }
  }

  /** 4 GiB is a multiple of every power of two below it. */
  lemma TopMultiple(k: nat)
    requires k < 32
    ensures TWO_32 % Pow2(k) == 0
  {
    PowersMultiply(k, 32 - k);
    WordBits.WordRange();
    MultipleMod(Pow2(32 - k), Pow2(k));
  }

  lemma {:induction false} PowersMultiply(j: nat, k: nat)
    ensures Pow2(j) * Pow2(k) == Pow2(j + k)
  {
    if j > 0 {
      PowersMultiply(j - 1, k);
      assert Pow2(j) * Pow2(k) == 2 * (Pow2(j - 1) * Pow2(k));
    }
  }
}

/** The kernel heap: block headers linked through paged memory. */
module Heap {
  import opened BitForms
  import opened DirectMap
  import opened Machine
  import opened PageTables
  import opened KernelSpace
  import opened HeapBlocks
  import opened HeapWrites
  import opened WordBytes
  import Paging

  const GROW_PAGES: int := 4

  /** The state of memory and of the heap at one moment. */
  datatype Snapshot = Snapshot(w: Memory, free: set<int>, reserved: set<int>, pages: nat,
                               regions: set<nat>, blocks: seq<Block>, head: int)

  /** Ownership of frames, and a block list in memory that tiles the committed
      range. This also holds in the middle of an allocation. */
  ghost predicate ListInvariant(s: Snapshot) {
    && Viewable(s.w, s.free, s.reserved, s.pages)
    && Tiled(s.blocks, 0, s.pages * PAGE_ENTRIES)
    && Linked(Flat(s.w, s.free, s.reserved, s.pages), s.blocks, s.head)
    && forall r :: r in s.regions ==> r <= s.pages * PAGE_ENTRIES
  }

  /** The heap invariant: in addition, blocks lie in regions of which only the
      last block can be free. */
  ghost predicate HeapInvariant(s: Snapshot) {
    ListInvariant(s) && Regioned(s.blocks, s.regions)
  }

  /** Used blocks stay, and so do the frames behind every committed page. */
  ghost predicate Keeps(s: Snapshot, t: Snapshot)
    requires ListInvariant(s) && ListInvariant(t)
  {
    && s.pages <= t.pages
    && s.regions <= t.regions
    && s.reserved == t.reserved
    && |s.w| == |t.w|
    && (forall b :: b in s.blocks && !b.free ==> b in t.blocks)
    && (forall page :: HEAP_FIRST_PAGE <= page < HEAP_FIRST_PAGE + s.pages ==> PageFrame(t.w, page) == PageFrame(s.w, page))
  }

  /** What every call of the heap keeps: all this, and the words in used blocks. */
  ghost predicate Advances(s: Snapshot, t: Snapshot)
    requires ListInvariant(s) && ListInvariant(t)
  {
    Keeps(s, t) && PayloadsKept(Flat(s.w, s.free, s.reserved, s.pages), Flat(t.w, t.free, t.reserved, t.pages), s.blocks)
  }

  /** No page moved. */
  ghost predicate SameMap(w: Memory, w': Memory) {
    && |w| == |w'|
    && Reachable(w) && Reachable(w')
    && (forall d :: 0 <= d < PAGE_ENTRIES ==> DirEntry(w', d) == DirEntry(w, d))
    && (forall page :: 0 <= page < TOTAL_FRAMES ==> PageFrame(w', page) == PageFrame(w, page))
  }

  /** Pages asked for: header plus payload, at least four, in wrapping arithmetic. */
  function PagesNeeded(payload: Word): (n: int)
    ensures GROW_PAGES <= n <= 0xF_FFFF
  {
    Max(Add32(Add32(payload, HEADER_BYTES), 4095) / PAGE_SIZE, GROW_PAGES)
  }

  /** The size arithmetic of a growth does not wrap. */
  predicate GrowthExact(payload: int) {
    payload + HEADER_BYTES + 4095 < TWO_32
  }

  lemma GrowthFits(payload: Word)
    ensures GrowthExact(payload) ==> payload + HEADER_BYTES <= PagesNeeded(payload) * PAGE_SIZE
    ensures !GrowthExact(payload) ==> PagesNeeded(payload) == GROW_PAGES
  {
    var a := Add32(payload, HEADER_BYTES);
    assert !GrowthExact(payload) ==> Add32(a, 4095) < 4095 + 12 || a < 12;
  }

  /** And no fewer pages would hold them, except that a growth is never smaller
      than four: together with GrowthFits this is the number. */
  lemma GrowthIsLeast(payload: Word)
    ensures payload + 12 + 4095 < 0x1_0000_0000 ==>
              && PagesNeeded(payload) >= 4
              && payload + 12 <= 4096 * PagesNeeded(payload)
              && (PagesNeeded(payload) > 4 ==> 4096 * (PagesNeeded(payload) - 1) < payload + 12)
    ensures payload + 12 + 4095 >= 0x1_0000_0000 ==> PagesNeeded(payload) == 4
  {
    GrowthFits(payload);
    if GrowthExact(payload) {
      assert Add32(Add32(payload, HEADER_BYTES), 4095) == payload + 12 + 4095;
    }
  }

  /** Bytes that a growth commits for a payload, in literal terms: the fewest
      whole pages for payload and header, but no fewer than four; and just four
      when the size arithmetic wraps. */
  predicate FewestPages(payload: int, bytes: int) {
    if payload + 12 + 4095 < 0x1_0000_0000
    then bytes >= 16384 && payload + 12 <= bytes && (bytes == 16384 || bytes < payload + 12 + 4096)
    else bytes == 16384
  }

  lemma GrowthBytes(payload: Word)
    ensures FewestPages(payload, 4096 * PagesNeeded(payload))
  {
    GrowthIsLeast(payload);
  }

  /** The first page that a growth adds. */
  function NextPage(s: Snapshot): (page: int) {
    HEAP_FIRST_PAGE + s.pages
  }

  /** Whether a growth has what it needs: room in the heap range, and a frame for
      every page and for every page table still missing. */
  ghost predicate RoomToGrow(s: Snapshot, payload: Word)
    requires ListInvariant(s)
  {
    s.pages + PagesNeeded(payload) <= HEAP_PAGES && |s.free| >= FramesToGrow(s, payload)
  }

  /** Frames that a growth spends: its pages and the missing tables under them. */
  ghost function FramesToGrow(s: Snapshot, payload: Word): (n: nat)
    requires ListInvariant(s)
  {
    TakenBefore(s.w, NextPage(s), PagesNeeded(payload))
  }

  /** Whether every table that a growth touches is within the kernel's reach. */
  ghost predicate GrowthReaches(s: Snapshot, payload: Word)
    requires ListInvariant(s)
  {
    s.pages + PagesNeeded(payload) <= HEAP_PAGES ==> RowReached(s.w, s.free, NextPage(s), PagesNeeded(payload))
  }

  /** What a refused growth leaves behind: nothing when the range is too small;
      else as many mapped pages as the frames suffice for, which is none exactly
      when there is no frame for the first page and its table. */
  ghost predicate GrowthLeft(s: Snapshot, t: Snapshot, payload: Word, mapped: nat)
    requires ListInvariant(s) && ListInvariant(t)
  {
    var n := PagesNeeded(payload);
    && (mapped == 0 ==> t.w == s.w && t.free == s.free)
    && PagesMoved(s.w, t.w, NextPage(s), mapped)
    && if s.pages + n > HEAP_PAGES then mapped == 0
       else
         && mapped < n
         && TakenBefore(s.w, NextPage(s), mapped) <= |s.free| < TakenBefore(s.w, NextPage(s), mapped + 1)
         && |t.free| == |s.free| - TakenBefore(s.w, NextPage(s), mapped) <= 1
         && (mapped == 0 <==> |s.free| <= TablesToMap(s.w, NextPage(s)))
  }

  /** Whether an allocation must fail: no block fits, and no growth can help. */
  ghost predicate OutOfMemory(s: Snapshot, size: Word)
    requires ListInvariant(s)
  {
    && FirstFit(s.blocks, RoundUp(size)) == |s.blocks|
    && !(GrowthExact(RoundUp(size)) && RoomToGrow(s, RoundUp(size)))
  }

  /** Whether an allocation touches a table out of reach: no block fits, and the
      growth needs such a table. */
  ghost predicate GoesAstray(s: Snapshot, size: Word)
    requires ListInvariant(s)
  {
    size != 0 && FirstFit(s.blocks, RoundUp(size)) == |s.blocks| && !GrowthReaches(s, RoundUp(size))
  }

  /** The heap has been the allocator's only user since boot. */
  ghost predicate Early(s: Snapshot)
    requires ListInvariant(s)
  {
    EarlyOwners(s.w, s.free, s.reserved, s.pages)
  }

  // ---- What an allocation gives, told beforehand ----

  /** The list in which an allocation finds its block: with a new region at the
      end when no block fits. */
  function Searched(s: Snapshot, size: Word): (bs: seq<Block>) {
    if FirstFit(s.blocks, RoundUp(size)) < |s.blocks| then s.blocks
    else s.blocks + [Region(s.pages * PAGE_ENTRIES, (s.pages + PagesNeeded(RoundUp(size))) * PAGE_ENTRIES)]
  }

  /** The block it finds there. */
  function Chosen(s: Snapshot, size: Word): (i: nat) {
    FirstFit(Searched(s, size), RoundUp(size))
  }

  /** The address it returns, if it succeeds. */
  function GrantAddress(s: Snapshot, size: Word): (p: int) {
    if Chosen(s, size) < |Searched(s, size)| then Searched(s, size)[Chosen(s, size)].Payload() else 0
  }

  /** How many blocks of the same region come before it. */
  function RankOfGrant(s: Snapshot, size: Word): (k: nat) {
    if Chosen(s, size) < |s.blocks| then Rank(s.blocks, s.regions, Chosen(s, size)) else 0
  }

  /** The outcome of a successful allocation: the chosen block is taken. */
  predicate FirstFitGrant(s: Snapshot, after: seq<Block>, i: nat, p: int, size: Word) {
    && i == Chosen(s, size) < |Searched(s, size)|
    && after == Take(Searched(s, size), i, RoundUp(size))
    && p == GrantAddress(s, size)
    && GoodGrant(s.blocks, after, i, p, size)
  }

  class Heap {
    const paging: Paging.Paging
    var head: Word
    var current: Word
    var committed: Word
    ghost var pages: nat
    ghost var regions: set<nat>
    ghost var blocks: seq<Block>

    ghost predicate MemoryValid()
      reads this, paging, paging.ram, paging.pmm, paging.pmm.bitmap
    {
      && paging.Valid()
      && Viewable(paging.ram[..], paging.pmm.free, paging.pmm.reserved, pages)
      && current == HEAP_START + PAGE_SIZE * pages
      && committed == PAGE_SIZE * pages
    }

    ghost function View(): (r: seq<Word>)
      requires MemoryValid()
      reads this, paging, paging.ram, paging.pmm, paging.pmm.bitmap
    {
      Flat(paging.ram[..], paging.pmm.free, paging.pmm.reserved, pages)
    }

    ghost function Now(): (s: Snapshot)
      reads this, paging, paging.ram, paging.pmm
    {
      Snapshot(paging.ram[..], paging.pmm.free, paging.pmm.reserved, pages, regions, blocks, head)
    }

    ghost predicate ListValid()
      reads this, paging, paging.ram, paging.pmm, paging.pmm.bitmap
    {
      MemoryValid() && ListInvariant(Now())
    }

    ghost predicate Valid()
      reads this, paging, paging.ram, paging.pmm, paging.pmm.bitmap
    {
      MemoryValid() && HeapInvariant(Now())
    }

    constructor (paging: Paging.Paging)
      requires paging.Valid() && Owned(paging.ram[..], paging.pmm.free, paging.pmm.reserved)
      ensures Valid() && this.paging == paging && blocks == [] && pages == 0 && regions == {} && head == 0
    {
      this.paging := paging;
      head := 0;
      current := HEAP_START;
      committed := 0;
      pages := 0;
      regions := {};
      blocks := [];
    }

    // ---- Loads and stores through the page tables ----

    method Load(v: Word, ghost i: nat) returns (x: Word)
      requires MemoryValid() && v == WordAddress(i) && i < pages * PAGE_ENTRIES
      ensures x == View()[i]
    {
      WordAddressSplits(i);
      WordMapped(paging.ram[..], paging.pmm.free, paging.pmm.reserved, pages, i);
      FlatAt(paging.ram[..], paging.pmm.free, paging.pmm.reserved, pages, i);
      var at := paging.Walk(v);
      var k := v % PAGE_SIZE / 4;
      assert k == i % PAGE_ENTRIES;
      x := paging.ram[at.value * PAGE_ENTRIES + k];
    }

    method Store(v: Word, x: Word, ghost i: nat)
      requires MemoryValid() && v == WordAddress(i) && i < pages * PAGE_ENTRIES
      modifies paging.ram
      ensures MemoryValid() && SameMap(old(paging.ram[..]), paging.ram[..])
      ensures View() == old(View())[i := x]
      ensures paging.ram[..] == StoreWord(old(paging.ram[..]), paging.pmm.free, paging.pmm.reserved, pages, i, x)
    {
      WordAddressSplits(i);
      WordMapped(paging.ram[..], paging.pmm.free, paging.pmm.reserved, pages, i);
      StoreIsFlatUpdate(paging.ram[..], paging.pmm.free, paging.pmm.reserved, pages, i, x);
      var at := paging.Walk(v);
      var k := v % PAGE_SIZE / 4;
      assert k == i % PAGE_ENTRIES;
      paging.ram[at.value * PAGE_ENTRIES + k] := x;
      assert paging.ram[..] == StoreWord(old(paging.ram[..]), paging.pmm.free, paging.pmm.reserved, pages, i, x);
    }

    // ---- Growing ----

    /** One round of the growth loop: take a frame and map it, or undo. */
    method GrowOnePage(v: Word) returns (outcome: Paging.Outcome)
      requires MemoryValid() && HeapPage(v / PAGE_SIZE) && current <= v
      modifies paging.ram, paging.pmm`free, paging.pmm.bitmap
      ensures MemoryValid() && View() == old(View())
      ensures paging.pmm.free <= old(paging.pmm.free)
      ensures outcome.Missed? <==> !StepReaches(old(paging.ram[..]), old(paging.pmm.free), v / PAGE_SIZE)
      ensures !outcome.Missed? ==>
                (outcome.Done? <==> |old(paging.pmm.free)| > TablesToMap(old(paging.ram[..]), v / PAGE_SIZE))
      ensures !outcome.Done? ==> paging.ram[..] == old(paging.ram[..])
      ensures outcome.Refused? ==> paging.pmm.free == old(paging.pmm.free)
      ensures outcome.Done? ==>
                StepTaken(old(paging.ram[..]), old(paging.pmm.free), paging.ram[..], paging.pmm.free, v / PAGE_SIZE)
    {
      hide Owned;
      hide Flat;
      hide CanMap;
      hide MapWords;
      hide FreeAfterMap;
      hide StepReaches;
      hide StepTaken;
      hide Committed;
      hide Paging.MapFreshMisses;
      ghost var w, free, reserved := paging.ram[..], paging.pmm.free, paging.pmm.reserved;
      StepReachesIff(w, free, reserved, paging.pmm.totalPages, v / PAGE_SIZE);
      var address;
      ghost var table;
      outcome, address, table := paging.MapFreshFrame(v, PAGE_WRITABLE);
      if outcome.Done? {
        StepMeaning(w, free, reserved, pages, paging.pmm.totalPages, v / PAGE_SIZE, PAGE_WRITABLE, table);
      } else {
        OwnedFewer(w, free, paging.pmm.free, reserved);
        FlatIgnoresFree(w, free, paging.pmm.free, reserved, pages);
      }
    }

    /** Pages past the committed end, all or some of them: the loop ends at the
        first page for which the frames do not suffice. */
    method GrowPages(count: nat) returns (outcome: Paging.Outcome, ghost mapped: nat)
      requires MemoryValid() && pages + count <= HEAP_PAGES
      modifies paging.ram, paging.pmm`free, paging.pmm.bitmap
      ensures MemoryValid() && View() == old(View())
      ensures paging.pmm.free <= old(paging.pmm.free) && mapped <= count
      ensures var w, free, first := old(paging.ram[..]), old(paging.pmm.free), HEAP_FIRST_PAGE + pages;
              && (outcome.Missed? <==> !RowReached(w, free, first, count))
              && PagesMoved(w, paging.ram[..], first, mapped)
              && (outcome.Done? ==> mapped == count)
              && (!outcome.Missed? ==> RowState(w, free, paging.ram[..], paging.pmm.free, first, mapped))
              && (outcome.Refused? ==> mapped < count && |free| < TakenBefore(w, first, mapped + 1))
              && (outcome.Refused? && mapped == 0 ==> paging.ram[..] == w && paging.pmm.free == free)
    {
      hide Owned;
      hide Flat;
      hide MissingTables;
      hide TakenBefore;
      hide UnderPages;
      hide Reached;
      hide RowState;
      hide PagesMoved;
      hide StepTaken;
      hide PageFrame;
      ghost var w, free, first := paging.ram[..], paging.pmm.free, HEAP_FIRST_PAGE + pages;
      var v := current;
      mapped := 0;
      RowBegins(w, free, first);
      NothingMoved(w, first);
      for i := 0 to count
        invariant v == current + PAGE_SIZE * i && mapped == i
        invariant MemoryValid() && View() == old(View())
        invariant paging.pmm.free <= free
        invariant RowState(w, free, paging.ram[..], paging.pmm.free, first, i)
        invariant PagesMoved(w, paging.ram[..], first, i)
        invariant RowReached(w, free, first, i)
        invariant i == 0 ==> paging.ram[..] == w && paging.pmm.free == free
      {
        assert v / PAGE_SIZE == first + i;
        ghost var w', free' := paging.ram[..], paging.pmm.free;
        RowStepReached(w, free, w', free', first, i);
        outcome := GrowOnePage(v);
        if outcome.Missed? {
          return;
        }
        assert Reached(w, free, first, i);
        if outcome.Refused? {
          RowCount(w, free, w', free', first, i);
          RowEnds(w, free, first, i, count);
          return;
        }
        RowContinues(w, free, w', free', paging.ram[..], paging.pmm.free, first, i);
        RowMoved(w, free, paging.ram[..], paging.pmm.free, first, i + 1);
        v, mapped := v + PAGE_SIZE, i + 1;
      }
      outcome := Paging.Done;
    }

    /** heap_add_region: the last committed pages become one free block at the
        end of the list. */
    method AddRegion(region: Word, size: Word, ghost lo: nat)
      requires MemoryValid() && Tiled(blocks, 0, lo) && Linked(View(), blocks, head)
      requires region == WordAddress(lo) && lo + HEADER_WORDS < pages * PAGE_ENTRIES
      requires size == 4 * (pages * PAGE_ENTRIES - lo)
      requires forall r :: r in regions ==> r <= pages * PAGE_ENTRIES
      modifies `head, `blocks, paging.ram
      ensures ListValid() && SameMap(old(paging.ram[..]), paging.ram[..])
      ensures blocks == old(blocks) + [Region(lo, pages * PAGE_ENTRIES)]
      ensures PayloadsKept(old(View()), View(), old(blocks))
    {
      hide StoreWord;
      hide Viewable;
      hide Owned;
      hide Flat;
      hide SameMap;
      hide PayloadsKept;
      hide Tiled;
      hide Linked;
      ghost var start, hi := Now(), pages * PAGE_ENTRIES;
      RegionHeaderLinked(View(), blocks, head, lo, hi);
      WriteBlockHeader(region, size - HEADER_BYTES, 1, 0, Region(lo, hi));
      ghost var written := paging.ram[..];
      SameMapReflexive(written);
      if head == 0 {
        head := region;
      } else {
        var last := FindLast(lo);
        Store(last + 8, region, blocks[|blocks| - 1].pos + 2);
      }
      SameMapTransitive(start.w, written, paging.ram[..]);
      blocks := blocks + [Region(lo, hi)];
      RegionStep(start, Now(), lo);
    }

    /** Three stores in a row. */
    method WriteBlockHeader(address: Word, size: Word, flag: Word, next: Word, ghost b: Block)
      requires MemoryValid() && b.End() <= pages * PAGE_ENTRIES
      requires address == b.Address() && size == b.Bytes() && flag == (if b.free then 1 else 0)
      modifies paging.ram
      ensures MemoryValid() && SameMap(old(paging.ram[..]), paging.ram[..])
      ensures View() == WriteHeader(old(View()), b, next)
    {
      hide Owned;
      hide Flat;
      hide StoreWord;
      hide Viewable;
      Store(address, size, b.pos);
      Store(address + 4, flag, b.pos + 1);
      Store(address + 8, next, b.pos + 2);
    }

    /** The three fields of the header of block i. */
    method LoadHeader(address: Word, ghost hi: nat, ghost i: nat) returns (bytes: Word, flag: Word, next: Word)
      requires MemoryValid() && hi <= pages * PAGE_ENTRIES
      requires Tiled(blocks, 0, hi) && Linked(View(), blocks, head) && i < |blocks|
      requires address == blocks[i].Address()
      ensures bytes == blocks[i].Bytes()
      ensures flag == if blocks[i].free then 1 else 0
      ensures next == NextAddress(blocks, i)
    {
      hide Owned;
      hide Flat;
      HeaderFields(View(), blocks, head, 0, hi, i);
      bytes := Load(address, blocks[i].pos);
      flag := Load(address + 4, blocks[i].pos + 1);
      next := Load(address + 8, blocks[i].pos + 2);
    }

    /** Follow `next` to the end of the list. */
    method FindLast(ghost hi: nat) returns (last: Word)
      requires MemoryValid() && hi <= pages * PAGE_ENTRIES
      requires Tiled(blocks, 0, hi) && Linked(View(), blocks, head) && |blocks| > 0
      ensures last == blocks[|blocks| - 1].Address()
    {
      last := head;
      ghost var i := 0;
      var bytes, flag, next := LoadHeader(last, hi, 0);
      while next != 0
        invariant 0 <= i < |blocks| && last == blocks[i].Address() && next == NextAddress(blocks, i)
        decreases |blocks| - i
      {
        last, i := next, i + 1;
        bytes, flag, next := LoadHeader(last, hi, i);
      }
    }

    /** heap_grow: it goes astray exactly when a table it needs is out of reach,
        and otherwise succeeds exactly when range and frames suffice. Unless it
        succeeds, the list, the counters and every committed word are as before;
        `mapped` pages past the committed end may stay mapped. On success one
        free block covering exactly the new pages is at the end of the list. */
    method Grow(payload: Word) returns (outcome: Paging.Outcome, ghost mapped: nat)
      requires Valid()
      modifies this, paging.ram, paging.pmm`free, paging.pmm.bitmap
      ensures Valid() && Advances(old(Now()), Now())
      ensures paging.pmm.free <= old(paging.pmm.free)
      ensures outcome.Missed? <==> !GrowthReaches(old(Now()), payload)
      ensures outcome.Done? <==> GrowthReaches(old(Now()), payload) && RoomToGrow(old(Now()), payload)
      ensures !outcome.Done? ==>
                blocks == old(blocks) && head == old(head) && pages == old(pages) && regions == old(regions)
      ensures outcome.Refused? ==> GrowthLeft(old(Now()), Now(), payload, mapped)
      ensures outcome.Done? ==>
                && pages == old(pages) + PagesNeeded(payload)
                && FewestPages(payload, committed - old(committed))
                && |paging.pmm.free| == |old(paging.pmm.free)| - FramesToGrow(old(Now()), payload)
                && regions == old(regions) + {old(pages) * PAGE_ENTRIES}
                && blocks == old(blocks) + [Region(old(pages) * PAGE_ENTRIES, pages * PAGE_ENTRIES)]
      ensures !outcome.Missed? && Early(old(Now())) ==> Early(Now())
    {
      hide Valid;
      hide Advances;
      hide HeapInvariant;
      hide GrowthReaches;
      hide RoomToGrow;
      hide GrowthLeft;
      hide FramesToGrow;
      hide RowReached;
      hide RowState;
      hide PagesMoved;
      hide TakenBefore;
      hide EarlyOwners;
      hide FewestPages;
      GrowthBytes(payload);
      mapped := 0;
      ghost var start := Now();
      ValidSnapshot();
      var count := Add32(Add32(payload, HEADER_BYTES), 4095) / PAGE_SIZE;
      if count < GROW_PAGES {
        count := GROW_PAGES;
      }
      assert count == PagesNeeded(payload);
      var size: Word := count * PAGE_SIZE;
      if Add32(current, size) < current {
        NoRange(start, payload);
        return Paging.Refused, 0;
      }
      if Add32(current, size) > HEAP_END {
        NoRange(start, payload);
        return Paging.Refused, 0;
      }
      outcome, mapped := GrowBy(count);
      InRange(start, payload);
      ValidSnapshot();
      if outcome.Refused? {
        GrowthRefused(start, Now(), payload, mapped);
      }
    }

    lemma ValidSnapshot()
      requires Valid()
      ensures ListInvariant(Now()) && current == HEAP_START + PAGE_SIZE * pages && pages <= HEAP_PAGES
      ensures committed == PAGE_SIZE * pages
    {
    }

    /** The growth itself, once the range is known to suffice. */
    method GrowBy(count: nat) returns (outcome: Paging.Outcome, ghost mapped: nat)
      requires Valid() && GROW_PAGES <= count && pages + count <= HEAP_PAGES
      modifies this, paging.ram, paging.pmm`free, paging.pmm.bitmap
      ensures Valid() && Advances(old(Now()), Now()) && paging.pmm.free <= old(paging.pmm.free)
      ensures outcome.Missed? <==>
                !RowReached(old(paging.ram[..]), old(paging.pmm.free), HEAP_FIRST_PAGE + old(pages), count)
      ensures !outcome.Missed? ==>
                (outcome.Done? <==>
                   |old(paging.pmm.free)| >= TakenBefore(old(paging.ram[..]), HEAP_FIRST_PAGE + old(pages), count))
      ensures !outcome.Done? ==>
                blocks == old(blocks) && head == old(head) && pages == old(pages) && regions == old(regions)
      ensures outcome.Refused? ==>
                && PagesMoved(old(paging.ram[..]), paging.ram[..], HEAP_FIRST_PAGE + old(pages), mapped)
                && RowState(old(paging.ram[..]), old(paging.pmm.free), paging.ram[..], paging.pmm.free,
                            HEAP_FIRST_PAGE + old(pages), mapped)
                && mapped < count
                && |old(paging.pmm.free)| < TakenBefore(old(paging.ram[..]), HEAP_FIRST_PAGE + old(pages), mapped + 1)
                && (mapped == 0 ==> paging.ram[..] == old(paging.ram[..]) && paging.pmm.free == old(paging.pmm.free))
      ensures outcome.Done? ==>
                && pages == old(pages) + count
                && |paging.pmm.free| == |old(paging.pmm.free)| -
                                        TakenBefore(old(paging.ram[..]), HEAP_FIRST_PAGE + old(pages), count)
                && regions == old(regions) + {old(pages) * PAGE_ENTRIES}
                && blocks == old(blocks) + [Region(old(pages) * PAGE_ENTRIES, pages * PAGE_ENTRIES)]
      ensures !outcome.Missed? && Early(old(Now())) ==> Early(Now())
    {
      hide Owned;
      hide Flat;
      hide Tiled;
      hide Linked;
      hide Regioned;
      hide TakenBefore;
      hide RowState;
      hide Committed;
      hide RowReached;
      hide PagesMoved;
      hide EarlyOwners;
      hide SameMap;
      hide Advances;
      hide PayloadsKept;
      ghost var start, first := Now(), HEAP_FIRST_PAGE + pages;
      outcome, mapped := GrowPages(count);
      ghost var grown := Now();
      if !outcome.Done? {
        SameList(start, grown, mapped);
        if outcome.Refused? {
          RowRefused(start.w, start.free, grown.w, grown.free, first, mapped, count);
          GrowthEarly(start, grown, count, mapped);
        }
        return;
      }
      RowCount(start.w, start.free, grown.w, grown.free, first, count);
      AddPages(count, start);
    }

    /** Once all pages are mapped: count them and link them as a region. */
    method AddPages(count: nat, ghost start: Snapshot)
      requires MemoryValid() && GROW_PAGES <= count && pages + count <= HEAP_PAGES
      requires HeapInvariant(start) && Now() == start.(w := Now().w, free := Now().free) && |start.w| == paging.ram.Length
      requires View() == Flat(start.w, start.free, start.reserved, start.pages)
      requires paging.pmm.free <= start.free
      requires RowState(start.w, start.free, paging.ram[..], paging.pmm.free, NextPage(start), count)
      requires PagesMoved(start.w, paging.ram[..], NextPage(start), count)
      requires RowReached(start.w, start.free, NextPage(start), count)
      modifies this, paging.ram
      ensures Valid() && Advances(start, Now())
      ensures pages == old(pages) + count && regions == old(regions) + {old(pages) * PAGE_ENTRIES}
      ensures blocks == old(blocks) + [Region(old(pages) * PAGE_ENTRIES, pages * PAGE_ENTRIES)]
      ensures Early(start) ==> Early(Now())
    {
      hide Owned;
      hide Flat;
      hide Tiled;
      hide Linked;
      hide Regioned;
      hide TakenBefore;
      hide RowState;
      hide RowReached;
      hide PagesMoved;
      hide EarlyOwners;
      hide SameMap;
      hide Advances;
      hide PayloadsKept;
      ghost var grown := Now();
      var begin, size := current, count * PAGE_SIZE;
      GrownPages(start, grown, pages + count);
      pages := pages + count;
      current := Add32(current, size);
      committed := Add32(committed, size);
      regions := regions + {start.pages * PAGE_ENTRIES};
      AddRegion(begin, size, start.pages * PAGE_ENTRIES);
      LongerList(start, grown, Now());
      GrowthEarly(start, grown.(pages := pages), count, count);
      if Early(start) {
        EarlyKept(grown.(pages := pages), Now());
      }
    }

    // ---- Searching, splitting, allocating ----

    /** heap_find_free_block: the first block that fits, or 0. */
    method FindFreeBlock(size: Word) returns (found: Word, ghost i: nat)
      requires Valid()
      ensures i == FirstFit(blocks, size)
      ensures found == if FirstFit(blocks, size) < |blocks| then blocks[FirstFit(blocks, size)].Address() else 0
    {
      found := head;
      i := 0;
      ghost var hi := pages * PAGE_ENTRIES;
      while found != 0
        invariant 0 <= i <= |blocks|
        invariant found == if i < |blocks| then blocks[i].Address() else 0
        invariant forall j :: 0 <= j < i ==> !Fits(blocks[j], size)
        decreases |blocks| - i
      {
        var bytes, flag, next := LoadHeader(found, hi, i);
        if flag != 0 && bytes >= size {
          break;
        }
        found, i := next, i + 1;
      }
      FirstFitUnique(blocks, size, i);
    }

    /** heap_split_block: the block shrinks to the rounded size when the rest
        can hold a header and more than 16 bytes. */
    method SplitBlock(block: Word, size: Word, ghost i: nat)
      requires Valid() && i < |blocks| && block == blocks[i].Address()
      requires Fits(blocks[i], RoundUp(size))
      modifies `blocks, paging.ram
      ensures ListValid() && Advances(old(Now()), Now()) && SameMap(old(paging.ram[..]), paging.ram[..])
      ensures blocks == Split(old(blocks), i, RoundUp(size))
      ensures old(blocks)[i].Bytes() <= RoundUp(size) + 28 ==> blocks == old(blocks)
      ensures old(blocks)[i].Bytes() > RoundUp(size) + 28 ==>
                && |blocks| == |old(blocks)| + 1 && blocks[i].Bytes() == RoundUp(size)
                && blocks[i + 1].free && blocks[i + 1].Bytes() == old(blocks)[i].Bytes() - RoundUp(size) - 12
    {
      var aligned := RoundUp(size);
      ghost var start := Now();
      BlockInHeap(start, i);
      var bytes, flag, next := LoadHeader(block, pages * PAGE_ENTRIES, i);
      if bytes <= aligned + HEADER_BYTES + MIN_SPLIT {
        AdvancesReflexive(Now());
        SameMapReflexive(paging.ram[..]);
        return;
      }
      WriteSplit(block, bytes, aligned, next, blocks[i]);
      blocks := Split(blocks, i, aligned);
      SplitStep(start, Now(), i, aligned);
    }

    /** The five stores of a split. */
    method WriteSplit(block: Word, bytes: Word, aligned: Word, next: Word, ghost b: Block)
      requires MemoryValid() && b.End() <= pages * PAGE_ENTRIES && b.free
      requires block == b.Address() && bytes == b.Bytes()
      requires aligned % 4 == 0 && Splits(b, aligned)
      modifies paging.ram
      ensures MemoryValid() && SameMap(old(paging.ram[..]), paging.ram[..])
      ensures Halves(b, aligned)[1].Address() < TWO_32
      ensures View() == SplitWrites(old(View()), b, aligned, next)
    {
      hide Owned;
      hide Flat;
      hide StoreWord;
      hide Viewable;
      ghost var h := Halves(b, aligned);
      var rest: Word := block + HEADER_BYTES + aligned;
      assert rest == h[1].Address();
      WriteBlockHeader(rest, bytes - aligned - HEADER_BYTES, 1, next, h[1]);
      Store(block, aligned, b.pos);
      Store(block + 8, rest, b.pos + 2);
    }

    /** Clear the free flag of block i. */
    method MarkBlockUsed(block: Word, ghost i: nat)
      requires ListValid() && i < |blocks| && blocks[i].free && block == blocks[i].Address()
      modifies `blocks, paging.ram
      ensures ListValid() && Advances(old(Now()), Now()) && SameMap(old(paging.ram[..]), paging.ram[..])
      ensures blocks == MarkUsed(old(blocks), i)
    {
      hide Owned;
      hide Flat;
      hide ListInvariant;
      hide Advances;
      hide SameMap;
      ghost var start := Now();
      BlockInHeap(start, i);
      Store(block + 4, 0, blocks[i].pos + 1);
      blocks := MarkUsed(blocks, i);
      MarkStep(start, Now(), i);
    }

    /** kmalloc on the paged heap. The result is the payload of block i of the
        new list, which first fit finds in the old list or, when nothing fits
        there, in the old list with the pages of a growth. `astray` tells that a
        page table was out of the kernel's reach; the call is followed up to
        that access. */
    method Kmalloc(size: Word) returns (p: Word, astray: bool, ghost i: nat)
      requires Valid()
      modifies this, paging.ram, paging.pmm`free, paging.pmm.bitmap
      ensures Valid() && Advances(old(Now()), Now()) && paging.pmm.free <= old(paging.pmm.free)
      ensures astray == GoesAstray(old(Now()), size)
      ensures p == 0 <==> size == 0 || astray || OutOfMemory(old(Now()), size)
      ensures p != 0 ==> FirstFitGrant(old(Now()), blocks, i, p, size)
      ensures p == 0 ==>
                || (blocks == old(blocks) && pages == old(pages))
                || (blocks == Searched(old(Now()), size) && !astray && !GrowthExact(RoundUp(size)))
      ensures p == 0 && size != 0 ==> FirstFit(blocks, RoundUp(size)) == |blocks|
      ensures size == 0 || FirstFit(old(blocks), RoundUp(size)) < |old(blocks)| ==>
                paging.pmm.free == old(paging.pmm.free) && pages == old(pages) && committed == old(committed)
      ensures pages == old(pages) && !astray ==>
                || paging.pmm.free == old(paging.pmm.free)
                || (p == 0 && |paging.pmm.free| <= 1)
      ensures pages > old(pages) || (p != 0 && FirstFit(old(blocks), RoundUp(size)) == |old(blocks)|) ==>
                && pages == old(pages) + PagesNeeded(RoundUp(size))
                && FewestPages(RoundUp(size), committed - old(committed))
                && |paging.pmm.free| == |old(paging.pmm.free)| - FramesToGrow(old(Now()), RoundUp(size))
      ensures !astray && Early(old(Now())) ==> Early(Now())
    {
      hide Advances;
      hide ListInvariant;
      hide Regioned;
      hide Owned;
      hide Flat;
      hide Tiled;
      hide FirstFit;
      hide RoundUp;
      hide PagesNeeded;
      hide RoomToGrow;
      hide FramesToGrow;
      hide GrowthExact;
      hide GrowthReaches;
      hide EarlyOwners;
      hide Take;
      hide Linked;
      hide Region;
      hide Exclusive;
      hide FirstFitGrant;
      hide FewestPages;
      i, astray := 0, false;
      ghost var start := Now();
      AdvancesReflexive(start);
      if size == 0 {
        return 0, astray, i;
      }
      var rounded := RoundUp(size);
      RoundUpTwice(size);
      var block;
      block, i := FindFreeBlock(rounded);
      if block == 0 {
        var outcome;
        ghost var mapped;
        outcome, mapped := Grow(rounded);
        if outcome.Missed? {
          return 0, true, i;
        }
        if outcome.Refused? {
          return 0, false, i;
        }
        if !GrowthExact(rounded) {
          NothingThatBig(Now(), rounded);
        }
        NewRegionFits(start.blocks, start.pages, rounded);
        block, i := FindFreeBlock(rounded);
        if block == 0 {
          return 0, false, i;
        }
      }
      ghost var found := Now();
      p := TakeBlock(block, rounded, i);
      AdvancesTransitive(start, found, Now());
      GrantMeaning(start, found, Now(), i, size, p);
    }

    /** Split block i if worthwhile and mark it used. */
    method TakeBlock(block: Word, rounded: Word, ghost i: nat) returns (p: Word)
      requires Valid() && i < |blocks| && block == blocks[i].Address()
      requires RoundUp(rounded) == rounded && Fits(blocks[i], rounded)
      modifies `blocks, paging.ram
      ensures Valid() && Advances(old(Now()), Now())
      ensures blocks == Take(old(blocks), i, rounded)
      ensures p == old(blocks)[i].Payload() && p != 0
      ensures Early(old(Now())) ==> Early(Now())
    {
      hide Advances;
      hide ListInvariant;
      hide Regioned;
      hide Owned;
      hide Flat;
      hide SameMap;
      hide EarlyOwners;
      ghost var start := Now();
      BlockInHeap(start, i);
      SplitKeepsUsed(blocks, i, rounded);
      SplitBlock(block, rounded, i);
      ghost var split := Now();
      MarkBlockUsed(block, i);
      AdvancesTransitive(start, split, Now());
      SameMapTransitive(start.w, split.w, paging.ram[..]);
      KeptRegions(start, i, rounded);
      if Early(start) {
        EarlyKept(start, Now());
      }
      p := block + HEADER_BYTES;
    }

    /** Kernel code storing a word into block i, which it owns. */
    method ClientStore(v: Word, x: Word, ghost i: nat, ghost k: nat)
      requires Valid() && i < |blocks| && v == WordAddress(k)
      requires blocks[i].pos + HEADER_WORDS <= k < blocks[i].End()
      modifies paging.ram
      ensures Valid() && SameMap(old(paging.ram[..]), paging.ram[..])
      ensures k < |old(View())| && View() == old(View())[k := x]
      ensures paging.ram[..] == StoreWord(old(paging.ram[..]), paging.pmm.free, paging.pmm.reserved, pages, k, x)
      ensures OnlyBlockChanged(old(View()), View(), blocks[i])
      ensures Early(old(Now())) ==> Early(Now())
    {
      hide EarlyOwners;
      ghost var start := Now();
      BlockInHeap(Now(), i);
      PayloadStoreLinked(View(), blocks, head, 0, pages * PAGE_ENTRIES, i, k, x);
      Store(v, x, k);
      if Early(start) {
        EarlyKept(start, Now());
      }
    }

    /** kmalloc_aligned on the paged heap, for every size and alignment. Up to 16
        it is kmalloc, whose results are aligned according to their rank in the
        region. Above 16 the request is enlarged so that an aligned address and
        the word before it fit, and that word receives the address kmalloc gave;
        where enlarging wraps, that word may lie outside the block, and the call
        is followed up to that store. Block, address and rank can be told from
        the state before the call. */
    method KmallocAligned(size: Word, alignment: Word) returns (p: Word, astray: bool, ghost raw: Word, ghost i: nat)
      requires Valid()
      modifies this, paging.ram, paging.pmm`free, paging.pmm.bitmap
      ensures Valid() && Advances(old(Now()), Now()) && paging.pmm.free <= old(paging.pmm.free)
      ensures raw != 0 <==> AlignedGranted(old(Now()), size, alignment)
      ensures raw != 0 ==> FirstFitGrant(old(Now()), blocks, i, raw, Request(size, alignment))
      ensures raw != 0 && AlignedRequestExact(size, alignment) ==> !PlacedOutside(blocks, i, raw, alignment)
      ensures astray <==>
                || AlignedAstray(old(Now()), size, alignment)
                || (raw != 0 && PlacedOutside(blocks, i, raw, alignment))
      ensures p == 0 <==> raw == 0 || astray
      ensures p != 0 ==> p == AlignedAddress(raw, alignment)
      ensures p != 0 && alignment <= DEFAULT_ALIGNMENT ==> ByRank(p, RankOfGrant(old(Now()), size))
      ensures p != 0 && alignment > DEFAULT_ALIGNMENT ==>
                i < |blocks| && AlignedGrant(View(), blocks[i], p, size, alignment)
      ensures !astray && Early(old(Now())) ==> Early(Now())
    {
      hide Advances;
      hide ListInvariant;
      hide Regioned;
      hide Owned;
      hide Flat;
      hide FirstFit;
      hide Take;
      hide PagesNeeded;
      hide SameMap;
      hide OutOfMemory;
      hide GoesAstray;
      hide EarlyOwners;
      hide MaskUp;
      hide ByRank;
      hide RankOfGrant;
      hide FirstFitGrant;
      hide GoodGrant;
      hide AlignedGrant;
      hide Placed;
      raw, i, astray := 0, 0, false;
      ghost var start := Now();
      if size == 0 {
        AdvancesReflexive(start);
        return 0, astray, raw, i;
      }
      if alignment <= DEFAULT_ALIGNMENT {
        p, astray, i := Kmalloc(size);
        raw := p;
        if p != 0 {
          GrantRank(start, blocks, i, p, size);
        }
        return p, astray, raw, i;
      }
      var extra := Add32(alignment, 4);
      var block;
      block, astray, i := Kmalloc(Add32(size, extra));
      if block == 0 {
        return 0, astray, raw, i;
      }
      raw := block;
      GrantIsGood(start, blocks, i, raw, Request(size, alignment));
      p, astray := PlaceGrant(block, size, alignment, start, i);
      return p, astray, raw, i;
    }

    /** Find the aligned address in a block just granted and store the block's
        own address in the word before it, if that word lies in the block. */
    method PlaceGrant(block: Word, size: Word, alignment: Word, ghost start: Snapshot, ghost i: nat)
      returns (p: Word, astray: bool)
      requires Valid() && alignment > DEFAULT_ALIGNMENT
      requires GoodGrant(start.blocks, blocks, i, block, Request(size, alignment))
      requires ListInvariant(start) && Advances(start, Now())
      modifies paging.ram
      ensures Valid() && Advances(start, Now())
      ensures AlignedRequestExact(size, alignment) ==> !PlacedOutside(blocks, i, block, alignment)
      ensures astray == PlacedOutside(blocks, i, block, alignment) && (p == 0 <==> astray)
      ensures !astray ==> p == AlignedAddress(block, alignment)
      ensures !astray ==> AlignedGrant(View(), blocks[i], p, size, alignment)
      ensures Early(old(Now())) ==> Early(Now())
    {
      hide Advances;
      hide Tiled;
      hide Linked;
      hide Regioned;
      hide Owned;
      hide Flat;
      hide SameMap;
      hide EarlyOwners;
      hide MaskUp;
      hide Placed;
      hide GoodGrant;
      hide AlignedGrant;
      GrantIsNew(start.blocks, blocks, i, block, Request(size, alignment));
      BlockInHeap(Now(), i);
      PlaceBounds(start.blocks, blocks, i, block, size, alignment);
      p := Placed(block, alignment);
      var bytes, flag, next := LoadHeader(block - HEADER_BYTES, pages * PAGE_ENTRIES, i);
      if p < block + 4 || block + bytes < p {
        return 0, true;
      }
      PlaceAligned(block, p, start, i);
      AlignedMeaning(View(), start.blocks, blocks, i, block, size, alignment);
      return p, false;
    }

    /** Store the block's own payload address in the word before an aligned address. */
    method PlaceAligned(raw: Word, p: Word, ghost start: Snapshot, ghost i: nat)
      requires Valid() && i < |blocks| && raw == blocks[i].Payload()
      requires ListInvariant(start) && Advances(start, Now()) && NewBlock(start.blocks, blocks, i)
      requires InPlace(blocks, i, p)
      modifies paging.ram
      ensures Valid() && Advances(start, Now())
      ensures 0 <= (p - 4 - HEAP_START) / 4 < |View()| && View()[(p - 4 - HEAP_START) / 4] == raw
      ensures Early(old(Now())) ==> Early(Now())
    {
      hide Advances;
      hide ListInvariant;
      hide Regioned;
      hide Owned;
      hide Flat;
      hide SameMap;
      hide EarlyOwners;
      hide OnlyBlockChanged;
      BlockInHeap(Now(), i);
      ghost var granted, k := Now(), (p - 4 - HEAP_START) / 4;
      WordBefore(blocks[i], p);
      ClientStore(p - 4, raw, i, k);
      StoreInNewBlock(start, granted, Now(), i);
    }

    /** kcalloc: the block is zeroed byte by byte. For products above 0xFFFFFFF0
        the block is too small, and the call is followed up to the clearing. */
    method Kcalloc(num: Word, size: Word) returns (p: Word, astray: bool, ghost i: nat)
      requires Valid()
      modifies this, paging.ram, paging.pmm`free, paging.pmm.bitmap
      ensures Valid() && Advances(old(Now()), Now()) && paging.pmm.free <= old(paging.pmm.free)
      ensures num == 0 || size == 0 || TWO_32 <= Total(num, size) ==> p == 0 && !astray && Now() == old(Now())
      ensures num != 0 && size != 0 && Total(num, size) < TWO_32 ==>
                && astray == (|| GoesAstray(old(Now()), Total(num, size))
                              || (Total(num, size) > 0xFFFF_FFF0 && !OutOfMemory(old(Now()), Total(num, size))))
                && (p == 0 <==> astray || OutOfMemory(old(Now()), Total(num, size)))
      ensures p != 0 ==>
                && Total(num, size) < TWO_32 && FirstFitGrant(old(Now()), blocks, i, p, Total(num, size))
                && i < |blocks| && ZeroedGrant(View(), blocks[i], Total(num, size))
      ensures !astray && Early(old(Now())) ==> Early(Now())
    {
      hide Advances;
      hide ListInvariant;
      hide Regioned;
      hide Owned;
      hide Flat;
      hide FirstFit;
      hide Take;
      hide PagesNeeded;
      hide OutOfMemory;
      hide GoesAstray;
      hide EarlyOwners;
      hide FirstFitGrant;
      hide Total;
      i, astray := 0, false;
      ghost var start := Now();
      AdvancesReflexive(start);
      ProductBound(num, size);
      if num == 0 || size == 0 {
        return 0, astray, i;
      }
      if num > 0xFFFF_FFFF / size {
        return 0, astray, i;
      }
      var total: Word := Total(num, size);
      p, astray, i := Kmalloc(total);
      if p == 0 {
        return 0, astray, i;
      }
      if total > 0xFFFF_FFF0 {
        return 0, true, i;
      }
      GrantIsGood(start, blocks, i, p, total);
      ClearBytes(p, total, start, i);
      return p, astray, i;
    }

    /** memset(p, 0, total) on a block just granted. */
    method ClearBytes(p: Word, total: Word, ghost start: Snapshot, ghost i: nat)
      requires Valid() && i < |blocks| && p == blocks[i].Payload() && total <= blocks[i].Bytes()
      requires ListInvariant(start) && Advances(start, Now()) && NewBlock(start.blocks, blocks, i)
      modifies paging.ram
      ensures Valid() && Advances(start, Now())
      ensures ZeroedGrant(View(), blocks[i], total)
      ensures Early(old(Now())) ==> Early(Now())
    {
      hide Advances;
      hide ListInvariant;
      hide Regioned;
      hide EarlyOwners;
      hide Owned;
      hide Flat;
      hide SameMap;
      hide WithoutByte;
      hide ZeroBytes;
      ghost var first := 4 * (blocks[i].pos + HEADER_WORDS);
      BlockInHeap(Now(), i);
      NoBytes(View(), first);
      for n := 0 to total
        invariant Valid() && Advances(start, Now()) && (Early(old(Now())) ==> Early(Now()))
        invariant ZeroBytes(View(), first, n)
      {
        ghost var view := View();
        ByteInWord(blocks[i].pos + HEADER_WORDS, n);
        OneMoreZero(view, first, n);
        ClearOneByte(p, n, start, i);
        assert View() == view[(first + n) / 4 := WithoutByte(view[(first + n) / 4], (first + n) % 4)];
      }
    }

    /** One byte of memset: the word that holds it, without that byte. */
    method ClearOneByte(p: Word, n: nat, ghost start: Snapshot, ghost i: nat)
      requires Valid() && i < |blocks| && p == blocks[i].Payload() && n < blocks[i].Bytes()
      requires ListInvariant(start) && Advances(start, Now()) && NewBlock(start.blocks, blocks, i)
      modifies paging.ram
      ensures Valid() && Advances(start, Now())
      ensures Early(old(Now())) ==> Early(Now())
      ensures blocks[i].End() <= |old(View())|
      ensures var k := blocks[i].pos + HEADER_WORDS + n / 4;
              View() == old(View())[k := WithoutByte(old(View())[k], n % 4)]
    {
      hide Advances;
      hide ListInvariant;
      hide Regioned;
      hide EarlyOwners;
      hide Owned;
      hide Flat;
      hide SameMap;
      hide WithoutByte;
      hide OnlyBlockChanged;
      ghost var before, k := Now(), blocks[i].pos + HEADER_WORDS + n / 4;
      BlockInHeap(before, i);
      ByteInWord(blocks[i].pos + HEADER_WORDS, n);
      var address := p + n - n % 4;
      var x := Load(address, k);
      ClientStore(address, WithoutByte(x, n % 4), i, k);
      StoreInNewBlock(start, before, Now(), i);
    }

    // ---- Counters ----

    method CountUsedBytes() returns (total: Word)
      requires Valid()
      ensures total == UsedBytes(blocks)
    {
      total := 0;
      var at := head;
      ghost var i, hi := 0, pages * PAGE_ENTRIES;
      BytesAccounted(blocks, 0, hi);
      assert blocks[0..] == blocks;
      while at != 0
        invariant 0 <= i <= |blocks|
        invariant at == if i < |blocks| then blocks[i].Address() else 0
        invariant UsedBytes(blocks) == total + UsedBytes(blocks[i..])
        decreases |blocks| - i
      {
        assert blocks[i..][1..] == blocks[i + 1..];
        var bytes, flag, next := LoadHeader(at, hi, i);
        if flag == 0 {
          total := Add32(total, bytes);
        }
        at, i := next, i + 1;
      }
    }

    method CountFreeBytes() returns (total: Word)
      requires Valid()
      ensures total == FreeBytes(blocks)
    {
      total := 0;
      var at := head;
      ghost var i, hi := 0, pages * PAGE_ENTRIES;
      BytesAccounted(blocks, 0, hi);
      assert blocks[0..] == blocks;
      while at != 0
        invariant 0 <= i <= |blocks|
        invariant at == if i < |blocks| then blocks[i].Address() else 0
        invariant FreeBytes(blocks) == total + FreeBytes(blocks[i..])
        decreases |blocks| - i
      {
        assert blocks[i..][1..] == blocks[i + 1..];
        var bytes, flag, next := LoadHeader(at, hi, i);
        if flag != 0 {
          total := Add32(total, bytes);
        }
        at, i := next, i + 1;
      }
    }
  }

  /** Address p is the payload of a block that was not in use before. The block
      holds the request exactly when rounding the request did not wrap, and it
      is at most 28 bytes larger than the rounded request. */
  predicate GoodGrant(before: seq<Block>, after: seq<Block>, i: nat, p: int, size: Word) {
    && NewBlock(before, after, i)
    && p == after[i].Payload()
    && RoundUp(size) <= after[i].Bytes() <= RoundUp(size) + HEADER_BYTES + MIN_SPLIT
    && (size <= after[i].Bytes() <==> size <= 0xFFFF_FFF0)
  }

  /** The first `total` bytes of the payload are zero. */
  predicate ZeroedGrant(flat: seq<Word>, b: Block, total: int) {
    && 0 <= total <= b.Bytes() && b.End() <= |flat|
    && ZeroBytes(flat, 4 * (b.pos + HEADER_WORDS), total)
  }

  /** The size kmalloc_aligned passes on. */
  function Request(size: Word, alignment: Word): (r: Word) {
    if alignment <= DEFAULT_ALIGNMENT then size else Add32(size, Add32(alignment, 4))
  }

  /** The address kmalloc_aligned computes above an alignment of 16. */
  function Placed(raw: Word, alignment: Word): (p: Word)
    requires alignment > 0
  {
    MaskUp(Add32(raw, 4), alignment - 1)
  }

  /** kmalloc_aligned gets a block from kmalloc. */
  ghost predicate AlignedGranted(s: Snapshot, size: Word, alignment: Word)
    requires ListInvariant(s)
  {
    && size != 0
    && Request(size, alignment) != 0
    && !GoesAstray(s, Request(size, alignment))
    && !OutOfMemory(s, Request(size, alignment))
  }

  /** kmalloc_aligned goes astray inside kmalloc. */
  ghost predicate AlignedAstray(s: Snapshot, size: Word, alignment: Word)
    requires ListInvariant(s)
  {
    size != 0 && GoesAstray(s, Request(size, alignment))
  }

  /** The address kmalloc_aligned returns for one that kmalloc gave. */
  function AlignedAddress(raw: int, alignment: Word): (p: int) {
    if 0 <= raw < TWO_32 && alignment > DEFAULT_ALIGNMENT then Placed(raw, alignment) else raw
  }

  /** The word before the aligned address lies outside the block. */
  predicate PlacedOutside(bs: seq<Block>, i: nat, raw: int, alignment: Word) {
    alignment > DEFAULT_ALIGNMENT && !InPlace(bs, i, AlignedAddress(raw, alignment))
  }

  /** The word before the address lies in the block. */
  predicate InPlace(bs: seq<Block>, i: nat, p: int) {
    i < |bs| && p % 4 == 0 && bs[i].Payload() + 4 <= p <= bs[i].Payload() + bs[i].Bytes()
  }

  /** p and the word before it lie inside the payload, and that word holds the
      payload's own address. The request fits behind p exactly when enlarging it
      did not wrap, and then the block is the enlarged request rounded to 16 and
      at most 28 bytes more. For a power of two p is the lowest multiple of the
      alignment that leaves room for that word. */
  ghost predicate AlignedGrant(flat: seq<Word>, b: Block, p: int, size: int, alignment: int) {
    && p % 4 == 0 && b.Payload() + 4 <= p <= b.Payload() + b.Bytes() && p < b.Payload() + 4 + alignment
    && (size + alignment + 4 <= 0xFFFF_FFF0 ==>
          size + alignment + 4 <= b.Bytes() <= (size + alignment + 4 + 15) / 16 * 16 + 28)
    && 0 <= (p - 4 - HEAP_START) / 4 < |flat| && flat[(p - 4 - HEAP_START) / 4] == b.Payload()
    && (p + size <= b.Payload() + b.Bytes() <==> AlignedRequestExact(size, alignment))
    && (PowerOfTwo(alignment) ==> p % alignment == 0)
  }

  lemma ByteInWord(word: nat, n: nat)
    ensures (4 * word + n) / 4 == word + n / 4 && (4 * word + n) % 4 == n % 4 && n - n % 4 == 4 * (n / 4)
  {
  }

  /** The word before an aligned address inside a payload is in the payload. */
  lemma WordBefore(b: Block, p: int)
    requires p % 4 == 0 && b.Payload() + 4 <= p <= b.Payload() + b.Bytes()
    ensures var k := (p - 4 - HEAP_START) / 4;
            WordAddress(k) == p - 4 && b.pos + HEADER_WORDS <= k < b.End()
  {
  }

  lemma GrantMeaning(s: Snapshot, found: Snapshot, t: Snapshot, i: nat, size: Word, p: int)
    requires ListInvariant(s) && ListInvariant(found) && ListInvariant(t) && Advances(s, found)
    requires found.blocks == Searched(s, size) && i == FirstFit(found.blocks, RoundUp(size)) < |found.blocks|
    requires t.blocks == Take(found.blocks, i, RoundUp(size)) && p == found.blocks[i].Payload()
    ensures FirstFitGrant(s, t.blocks, i, p, size)
  {
    TakeMeaning(found.blocks, i, RoundUp(size));
    TakeNewBlock(found, i, RoundUp(size));
    BlockInHeap(found, i);
    BlockInHeap(t, i);
  }

  /** Block i of the new list is used and was not in use before. */
  predicate NewBlock(before: seq<Block>, after: seq<Block>, i: nat) {
    && i < |after| && !after[i].free
    && forall b :: b in before && !b.free ==> b != after[i]
  }

  lemma TakeNewBlock(s: Snapshot, i: nat, size: nat)
    requires ListInvariant(s) && i < |s.blocks| && size % 4 == 0 && s.blocks[i].free
    ensures NewBlock(s.blocks, Take(s.blocks, i, size), i)
  {
    var bs, hi := s.blocks, s.pages * PAGE_ENTRIES;
    SplitKeepsUsed(bs, i, size);
    forall b | b in bs && !b.free
      ensures b != Take(bs, i, size)[i]
    {
      var j :| 0 <= j < |bs| && bs[j] == b;
      Separate(bs, 0, hi, i, j);
    }
  }

  predicate AlignedRequestExact(size: int, alignment: int) {
    size + alignment + 4 <= 0xFFFF_FFF0
  }

  /** Where kmalloc_aligned puts its result. */
  lemma PlaceRange(raw: Word, bytes: nat, size: Word, alignment: Word)
    requires alignment > DEFAULT_ALIGNMENT && raw % 4 == 0 && HEAP_START <= raw && raw + bytes <= HEAP_END
    requires AlignedRequestExact(size, alignment) ==> size + alignment + 4 <= bytes
    ensures var p := Placed(raw, alignment);
            && p % 4 == 0 && p < raw + 4 + alignment
            && (AlignedRequestExact(size, alignment) ==> raw + 4 <= p && p + size <= raw + bytes)
            && (!AlignedRequestExact(size, alignment) && raw + 4 <= p ==> raw + bytes < p + size)
  {
    hide MaskUp;
    MaskUpBounds(Add32(raw, 4), alignment - 1);
    MaskUpWord(Add32(raw, 4), alignment - 1);
    MaskUpCeiling(Add32(raw, 4), alignment - 1);
  }

  lemma PlaceBounds(before: seq<Block>, bs: seq<Block>, i: nat, raw: Word, size: Word, alignment: Word)
    requires alignment > DEFAULT_ALIGNMENT && GoodGrant(before, bs, i, raw, Request(size, alignment))
    requires bs[i].Payload() + bs[i].Bytes() <= HEAP_END
    ensures var p := Placed(raw, alignment);
            && p % 4 == 0 && p < raw + 4 + alignment
            && (AlignedRequestExact(size, alignment) ==> InPlace(bs, i, p))
            && (InPlace(bs, i, p) ==> (p + size <= raw + bs[i].Bytes() <==> AlignedRequestExact(size, alignment)))
  {
    hide Placed;
    hide RoundUp;
    PlaceRange(raw, bs[i].Bytes(), size, alignment);
  }

  lemma AlignedMeaning(flat: seq<Word>, before: seq<Block>, bs: seq<Block>, i: nat, raw: Word,
                       size: Word, alignment: Word)
    requires alignment > DEFAULT_ALIGNMENT && GoodGrant(before, bs, i, raw, Request(size, alignment))
    requires bs[i].Payload() + bs[i].Bytes() <= HEAP_END && InPlace(bs, i, Placed(raw, alignment))
    requires var k := (Placed(raw, alignment) - 4 - HEAP_START) / 4; 0 <= k < |flat| && flat[k] == raw
    ensures AlignedGrant(flat, bs[i], Placed(raw, alignment), size, alignment)
  {
    hide MaskUp;
    PlaceBounds(before, bs, i, raw, size, alignment);
    if size + alignment + 4 <= 0xFFFF_FFF0 {
      EnlargedBytes(before, bs, i, raw, size, alignment);
    }
    if PowerOfTwo(alignment) {
      PlacedAligned(raw, alignment);
    }
  }

  lemma EnlargedBytes(before: seq<Block>, bs: seq<Block>, i: nat, raw: Word, size: Word, alignment: Word)
    requires alignment > DEFAULT_ALIGNMENT && GoodGrant(before, bs, i, raw, Request(size, alignment))
    requires size + alignment + 4 <= 0xFFFF_FFF0
    ensures size + alignment + 4 <= bs[i].Bytes() <= (size + alignment + 4 + 15) / 16 * 16 + 28
  {
    RoundUpLiteral(size + alignment + 4);
    hide RoundUp;
  }

  lemma RoundUpLiteral(size: Word)
    requires size <= 0xFFFF_FFF0
    ensures RoundUp(size) == (size + 15) / 16 * 16
  {
    hide RoundUp;
    assert RoundUp(size) == 16 * (RoundUp(size) / 16);
  }

  /** Whether memory is out, told with the fewest pages for the request. */
  lemma OutOfMemoryByPages(s: Snapshot, size: Word, n: nat)
    requires ListInvariant(s) && FirstFit(s.blocks, RoundUp(size)) == |s.blocks|
    requires RoundUp(size) + 12 + 4095 < 0x1_0000_0000
    requires n >= 4 && RoundUp(size) + 12 <= 4096 * n && (n > 4 ==> 4096 * (n - 1) < RoundUp(size) + 12)
    ensures OutOfMemory(s, size) <==>
            s.pages + n > 0x1_F000 || |s.free| < TakenBefore(s.w, HEAP_FIRST_PAGE + s.pages, n)
  {
    hide RoundUp;
    hide ListInvariant;
    hide FirstFit;
    GrowthIsLeast(RoundUp(size));
    assert n == PagesNeeded(RoundUp(size));
    hide PagesNeeded;
  }

  lemma GrantIsNew(before: seq<Block>, after: seq<Block>, i: nat, p: int, size: Word)
    requires GoodGrant(before, after, i, p, size)
    ensures NewBlock(before, after, i) && p == after[i].Payload()
  {
  }

  lemma GrantIsGood(s: Snapshot, after: seq<Block>, i: nat, p: int, size: Word)
    requires FirstFitGrant(s, after, i, p, size)
    ensures GoodGrant(s.blocks, after, i, p, size) && NewBlock(s.blocks, after, i) && p == after[i].Payload()
    ensures size <= 0xFFFF_FFF0 ==> size <= after[i].Bytes()
  {
  }

  lemma PlacedAligned(raw: Word, alignment: Word)
    requires PowerOfTwo(alignment)
    ensures Placed(raw, alignment) % alignment == 0
  {
    hide MaskUp;
    var k: nat :| k < 32 && alignment == Pow2(k);
    MaskUpIsAlignUp(Add32(raw, 4), k);
    AlignUpBounds(Add32(raw, 4), alignment);
  }

  /** The alignment of a grant, told before the call: by the rank of the first
      block that fits, or by rank 0 when none does. */
  lemma GrantRank(s: Snapshot, after: seq<Block>, i: nat, p: int, size: Word)
    requires HeapInvariant(s) && FirstFitGrant(s, after, i, p, size)
    ensures ByRank(p, RankOfGrant(s, size))
  {
    hide ByRank;
    hide RoundUp;
    hide PagesNeeded;
    hide FirstFit;
    hide GoodGrant;
    hide Take;
    if i < |s.blocks| {
      PayloadByRank(s.blocks, s.regions, 0, s.pages * PAGE_ENTRIES, i);
    } else {
      RegionPayloadByRank(s.pages);
    }
  }

  /** The first payload of a region has rank 0. */
  lemma RegionPayloadByRank(page: nat)
    ensures ByRank(WordAddress(page * PAGE_ENTRIES + HEADER_WORDS), 0)
  {
    hide ByRank;
    BoundaryOffset(page * PAGE_ENTRIES);
    OffsetToAddress(page * PAGE_ENTRIES, 0);
  }

  lemma WholeQuads(n: nat)
    requires n % 16 == 0
    ensures n % 4 == 0 && n / 4 % 4 == 0
  {
    var m := n / 16;
    assert n == 4 * (4 * m) && n / 4 == 4 * m;
    FourModulo(4 * m, 0, n);
    FourModulo(m, 0, n / 4);
  }

  /** An allocation keeps the regions. */
  lemma KeptRegions(s: Snapshot, i: nat, rounded: Word)
    requires HeapInvariant(s) && i < |s.blocks| && s.blocks[i].free && RoundUp(rounded) == rounded
    ensures Regioned(Take(s.blocks, i, rounded), s.regions)
  {
    hide RoundUp;
    assert rounded % DEFAULT_ALIGNMENT == 0;
    WholeQuads(rounded);
    hide Take;
    hide Regioned;
    hide Tiled;
    TakeRegioned(s.blocks, s.regions, 0, s.pages * PAGE_ENTRIES, i, rounded);
  }

  /** Stores move no page, so they leave the early state as it was. */
  lemma EarlyKept(s: Snapshot, t: Snapshot)
    requires EarlyOwners(s.w, s.free, s.reserved, s.pages) && Viewable(t.w, t.free, t.reserved, t.pages)
    requires SameMap(s.w, t.w) && t.free == s.free && t.reserved == s.reserved && t.pages == s.pages
    ensures EarlyOwners(t.w, t.free, t.reserved, t.pages)
  {
    EarlyMoved(s.w, t.w, s.free);
  }

  /** A growth that the range cannot take changes nothing. */
  lemma NoRange(s: Snapshot, payload: Word)
    requires ListInvariant(s) && s.pages + PagesNeeded(payload) > HEAP_PAGES
    ensures Advances(s, s)
    ensures GrowthReaches(s, payload) && !RoomToGrow(s, payload) && GrowthLeft(s, s, payload, 0)
  {
    AdvancesReflexive(s);
    NothingMoved(s.w, NextPage(s));
  }

  lemma InRange(s: Snapshot, payload: Word)
    requires ListInvariant(s) && s.pages + PagesNeeded(payload) <= HEAP_PAGES
    ensures GrowthReaches(s, payload) <==> RowReached(s.w, s.free, NextPage(s), PagesNeeded(payload))
    ensures RoomToGrow(s, payload) <==> |s.free| >= TakenBefore(s.w, NextPage(s), PagesNeeded(payload))
    ensures FramesToGrow(s, payload) == TakenBefore(s.w, NextPage(s), PagesNeeded(payload))
  {
  }

  /** What a growth that ran out of frames leaves behind. */
  lemma GrowthRefused(s: Snapshot, t: Snapshot, payload: Word, mapped: nat)
    requires ListInvariant(s) && ListInvariant(t) && s.pages + PagesNeeded(payload) <= HEAP_PAGES
    requires PagesMoved(s.w, t.w, NextPage(s), mapped)
    requires RowState(s.w, s.free, t.w, t.free, NextPage(s), mapped)
    requires mapped < PagesNeeded(payload) && |s.free| < TakenBefore(s.w, NextPage(s), mapped + 1)
    requires mapped == 0 ==> t.w == s.w && t.free == s.free
    ensures GrowthLeft(s, t, payload, mapped) && !RoomToGrow(s, payload)
  {
    assert Reachable(s.w) && Reachable(t.w);
    hide ListInvariant;
    hide Advances;
    hide Viewable;
    hide RowState;
    hide PagesMoved;
    hide PagesNeeded;
    RowRefused(s.w, s.free, t.w, t.free, NextPage(s), mapped, PagesNeeded(payload));
  }

  /** List and committed words as before: nothing to prove again. */
  lemma SameList(s: Snapshot, t: Snapshot, mapped: nat)
    requires HeapInvariant(s)
    requires t == s.(w := t.w, free := t.free) && |t.w| == |s.w|
    requires Viewable(t.w, t.free, t.reserved, t.pages)
    requires Flat(t.w, t.free, t.reserved, t.pages) == Flat(s.w, s.free, s.reserved, s.pages)
    requires PagesMoved(s.w, t.w, NextPage(s), mapped)
    ensures HeapInvariant(t) && Advances(s, t)
  {
    PagesKept(s, t, mapped);
  }

  lemma PagesKept(s: Snapshot, t: Snapshot, mapped: nat)
    requires ListInvariant(s) && Reachable(t.w) && PagesMoved(s.w, t.w, NextPage(s), mapped)
    ensures forall page :: HEAP_FIRST_PAGE <= page < HEAP_FIRST_PAGE + s.pages ==> PageFrame(t.w, page) == PageFrame(s.w, page)
  {
  }

  /** The frames of a refused row. */
  lemma RowRefused(w0: Memory, free0: set<int>, w: Memory, free: set<int>, first: int, mapped: nat, count: nat)
    requires Reachable(w0) && Reachable(w) && 0 <= first && first + count <= TOTAL_FRAMES && mapped < count
    requires RowState(w0, free0, w, free, first, mapped) && |free0| < TakenBefore(w0, first, mapped + 1)
    ensures |free| == |free0| - TakenBefore(w0, first, mapped) <= 1
    ensures mapped == 0 <==> |free0| <= TablesToMap(w0, first)
    ensures |free0| < TakenBefore(w0, first, count)
  {
    RowStepReached(w0, free0, w, free, first, mapped);
    MissingTablesGrow(w0, first, mapped + 1, count);
    RowBegins(w0, free0, first);
    RowStepReached(w0, free0, w0, free0, first, 0);
    NoPagesNoTables(w0, first);
    if mapped > 0 {
      MissingTablesGrow(w0, first, 1, mapped);
    }
  }

  /** The new pages count as committed; the old words are still the first ones. */
  lemma GrownPages(s: Snapshot, t: Snapshot, n: nat)
    requires ListInvariant(s) && s.pages <= n <= HEAP_PAGES
    requires t == s.(w := t.w, free := t.free) && Viewable(t.w, t.free, t.reserved, t.pages)
    requires Flat(t.w, t.free, t.reserved, t.pages) == Flat(s.w, s.free, s.reserved, s.pages)
    requires PagesMoved(s.w, t.w, NextPage(s), n - s.pages)
    ensures Viewable(t.w, t.free, t.reserved, n)
    ensures var view := Flat(t.w, t.free, t.reserved, n);
            && Linked(view, s.blocks, s.head)
            && PayloadsKept(Flat(s.w, s.free, s.reserved, s.pages), view, s.blocks)
  {
    MoreFlat(t.w, t.free, t.reserved, s.pages, n);
    LinkedPrefix(Flat(s.w, s.free, s.reserved, s.pages), Flat(t.w, t.free, t.reserved, n), s.blocks, s.head,
                 s.pages * PAGE_ENTRIES);
  }

  /** Growing within reach keeps the heap in its early state. */
  lemma GrowthEarly(s: Snapshot, t: Snapshot, count: nat, mapped: nat)
    requires ListInvariant(s) && Viewable(s.w, s.free, s.reserved, s.pages) && Viewable(t.w, t.free, t.reserved, t.pages)
    requires t.reserved == s.reserved && t.free <= s.free
    requires mapped <= count && s.pages + count <= HEAP_PAGES && t.pages <= s.pages + mapped
    requires RowState(s.w, s.free, t.w, t.free, NextPage(s), mapped)
    requires RowReached(s.w, s.free, NextPage(s), count)
    ensures Early(s) ==> EarlyOwners(t.w, t.free, t.reserved, t.pages)
  {
    hide ListInvariant;
    hide Viewable;
    hide EarlyOwners;
    hide RowState;
    hide RowReached;
    ReachableIfViewable(s.w, s.free, s.reserved, s.pages);
    ReachableIfViewable(t.w, t.free, t.reserved, t.pages);
    if Early(s) {
      RowPrefix(s.w, s.free, NextPage(s), mapped, count);
      EarlyAfterRow(s.w, s.free, s.reserved, s.pages, t.w, t.free, mapped, t.pages);
    }
  }

  /** A growth that mapped all its pages and linked them as a region. */
  lemma LongerList(s: Snapshot, grown: Snapshot, t: Snapshot)
    requires HeapInvariant(s) && ListInvariant(t) && s.pages < t.pages
    requires grown == s.(w := grown.w, free := grown.free) && Viewable(grown.w, grown.free, grown.reserved, t.pages)
    requires PagesMoved(s.w, grown.w, NextPage(s), t.pages - s.pages) && |grown.w| == |s.w|
    requires PayloadsKept(Flat(s.w, s.free, s.reserved, s.pages),
                          Flat(grown.w, grown.free, grown.reserved, t.pages), s.blocks)
    requires PayloadsKept(Flat(grown.w, grown.free, grown.reserved, t.pages),
                          Flat(t.w, t.free, t.reserved, t.pages), s.blocks)
    requires SameMap(grown.w, t.w) && t.reserved == s.reserved
    requires t.regions == s.regions + {s.pages * PAGE_ENTRIES}
    requires t.blocks == s.blocks + [Region(s.pages * PAGE_ENTRIES, t.pages * PAGE_ENTRIES)]
    ensures HeapInvariant(t) && Advances(s, t)
  {
    hide Owned;
    hide Flat;
    hide Tiled;
    hide Linked;
    hide Regioned;
    hide PagesMoved;
    var lo := s.pages * PAGE_ENTRIES;
    PagesKept(s, grown, t.pages - s.pages);
    assert PageBoundary(lo);
    AppendRegioned(s.blocks, s.regions, lo, Region(lo, t.pages * PAGE_ENTRIES));
  }

  lemma EarlyMoved(w: Memory, w': Memory, free: set<int>)
    requires SameMap(w, w') && EarlyTables(w) && FramesBelow(w, free)
    ensures EarlyTables(w') && FramesBelow(w', free)
  {
    forall d | 0 <= d < PAGE_ENTRIES && HasTable(w', d)
      ensures (d == WINDOW_DIRECTORY || d == HEAP_DIRECTORY) && TableFrame(w', d) < PAGE_ENTRIES
    {
      assert DirEntry(w', d) == DirEntry(w, d) && HasTable(w, d);
    }
    forall page | HeapPage(page) && PageFrame(w', page).Some?
      ensures Below(PageFrame(w', page).value, free)
    {
      assert PageFrame(w', page) == PageFrame(w, page);
    }
  }

  /** Stores into a block that was not in use disturb nothing older. */
  lemma StoreInNewBlock(s: Snapshot, t: Snapshot, u: Snapshot, i: nat)
    requires ListInvariant(s) && ListInvariant(t) && ListInvariant(u) && Advances(s, t)
    requires NewBlock(s.blocks, t.blocks, i)
    requires u == t.(w := u.w) && SameMap(t.w, u.w)
    requires OnlyBlockChanged(Flat(t.w, t.free, t.reserved, t.pages), Flat(u.w, u.free, u.reserved, u.pages), t.blocks[i])
    ensures Advances(s, u)
  {
    PayloadsKeptThrough(Flat(s.w, s.free, s.reserved, s.pages), Flat(t.w, t.free, t.reserved, t.pages),
                        Flat(u.w, u.free, u.reserved, u.pages), s.blocks, t.blocks, t.pages * PAGE_ENTRIES, i);
  }

  /** The size of an array, before any wrap. */
  function Total(num: nat, size: nat): (t: nat) {
    num * size
  }

  /** The division test of kcalloc is exact. */
  lemma ProductBound(num: Word, size: Word)
    ensures Total(num, size) == 0 <==> num == 0 || size == 0
    ensures size != 0 ==> (num > 0xFFFF_FFFF / size <==> TWO_32 <= Total(num, size))
  {
    if num != 0 && size != 0 {
      var q, r := 0xFFFF_FFFF / size, 0xFFFF_FFFF % size;
      assert 0xFFFF_FFFF == size * q + r;
      if num > q {
        MulMonotone(size, q + 1, num);
      } else {
        MulMonotone(size, num, q);
      }
      MulMonotone(size, 1, num);
    }
  }

  /** A growth whose arithmetic is exact always leaves a block that fits. */
  lemma NewRegionFits(bs: seq<Block>, pages: nat, payload: Word)
    ensures var grown := bs + [Region(pages * PAGE_ENTRIES, (pages + PagesNeeded(payload)) * PAGE_ENTRIES)];
            GrowthExact(payload) ==> FirstFit(grown, payload) < |grown|
  {
    GrowthFits(payload);
    var grown := bs + [Region(pages * PAGE_ENTRIES, (pages + PagesNeeded(payload)) * PAGE_ENTRIES)];
    assert GrowthExact(payload) ==> Fits(grown[|bs|], payload);
  }

  /** No block of the heap can hold a request whose growth would wrap. */
  lemma NothingThatBig(s: Snapshot, payload: Word)
    requires ListInvariant(s) && !GrowthExact(payload)
    ensures FirstFit(s.blocks, payload) == |s.blocks|
  {
    forall j | 0 <= j < |s.blocks|
      ensures !Fits(s.blocks[j], payload)
    {
      BlockInHeap(s, j);
    }
    FirstFitUnique(s.blocks, payload, |s.blocks|);
  }

  lemma AdvancesTransitive(s: Snapshot, t: Snapshot, u: Snapshot)
    requires ListInvariant(s) && ListInvariant(t) && ListInvariant(u)
    requires Advances(s, t) && Advances(t, u)
    ensures Advances(s, u)
  {
  }

  lemma BlockInHeap(s: Snapshot, i: nat)
    requires ListInvariant(s) && i < |s.blocks|
    ensures s.blocks[i].End() <= s.pages * PAGE_ENTRIES <= HEAP_PAGES * PAGE_ENTRIES
  {
    TiledBounds(s.blocks, 0, s.pages * PAGE_ENTRIES, i);
  }

  /** The flag store of an allocation. */
  lemma MarkStep(s: Snapshot, t: Snapshot, i: nat)
    requires ListInvariant(s) && i < |s.blocks| && s.blocks[i].free
    requires t == s.(w := t.w, blocks := MarkUsed(s.blocks, i)) && SameMap(s.w, t.w)
    requires Viewable(t.w, t.free, t.reserved, t.pages)
    requires s.blocks[i].pos + 1 < s.pages * PAGE_ENTRIES
    requires Flat(t.w, t.free, t.reserved, t.pages) ==
             Flat(s.w, s.free, s.reserved, s.pages)[s.blocks[i].pos + 1 := 0]
    ensures ListInvariant(t) && Advances(s, t)
  {
    var hi := s.pages * PAGE_ENTRIES;
    MarkUsedLinked(Flat(s.w, s.free, s.reserved, s.pages), s.blocks, s.head, 0, hi, i);
    MarkTiles(s.blocks, 0, hi, i);
    MarkKeepsUsed(s.blocks, i);
    AdvancesByStores(s, t);
  }

  /** The stores of a split. */
  lemma SplitStep(s: Snapshot, t: Snapshot, i: nat, size: Word)
    requires ListInvariant(s) && i < |s.blocks| && s.blocks[i].free
    requires size % 4 == 0 && Splits(s.blocks[i], size)
    requires t == s.(w := t.w, blocks := Split(s.blocks, i, size)) && SameMap(s.w, t.w)
    requires Viewable(t.w, t.free, t.reserved, t.pages)
    requires s.blocks[i].End() <= s.pages * PAGE_ENTRIES && NextAddress(s.blocks, i) < TWO_32
    requires Halves(s.blocks[i], size)[1].Address() < TWO_32 && s.blocks[i].Bytes() < TWO_32
    requires Flat(t.w, t.free, t.reserved, t.pages) ==
             SplitWrites(Flat(s.w, s.free, s.reserved, s.pages), s.blocks[i], size, NextAddress(s.blocks, i))
    ensures ListInvariant(t) && Advances(s, t)
  {
    var hi := s.pages * PAGE_ENTRIES;
    SplitLinked(Flat(s.w, s.free, s.reserved, s.pages), s.blocks, s.head, 0, hi, i, size);
    SplitTiles(s.blocks, 0, hi, i, size);
    SplitKeepsUsed(s.blocks, i, size);
    AdvancesByStores(s, t);
  }

  lemma SameMapReflexive(w: Memory)
    requires Reachable(w)
    ensures SameMap(w, w)
  {
  }

  lemma SameMapTransitive(a: Memory, b: Memory, c: Memory)
    requires SameMap(a, b) && SameMap(b, c)
    ensures SameMap(a, c)
  {
  }

  /** The stores that append a region. */
  lemma RegionStep(s: Snapshot, t: Snapshot, lo: nat)
    requires Viewable(s.w, s.free, s.reserved, s.pages) && Viewable(t.w, t.free, t.reserved, s.pages)
    requires Tiled(s.blocks, 0, lo) && lo + HEADER_WORDS < s.pages * PAGE_ENTRIES
    requires Linked(Flat(s.w, s.free, s.reserved, s.pages), s.blocks, s.head)
    requires |s.blocks| > 0 ==> s.blocks[|s.blocks| - 1].End() <= lo
    requires t.head == if s.head == 0 then WordAddress(lo) else s.head
    requires t.pages == s.pages && t.blocks == s.blocks + [Region(lo, s.pages * PAGE_ENTRIES)]
    requires forall r :: r in t.regions ==> r <= t.pages * PAGE_ENTRIES
    requires Flat(t.w, t.free, t.reserved, t.pages) ==
             AppendWrites(Flat(s.w, s.free, s.reserved, s.pages), s.blocks, Region(lo, s.pages * PAGE_ENTRIES))
    ensures ListInvariant(t)
    ensures PayloadsKept(Flat(s.w, s.free, s.reserved, s.pages), Flat(t.w, t.free, t.reserved, t.pages), s.blocks)
  {
    AppendTiled(s.blocks, lo, s.pages * PAGE_ENTRIES);
    AppendLinked(Flat(s.w, s.free, s.reserved, s.pages), s.blocks, s.head, lo, s.pages * PAGE_ENTRIES);
  }

  /** Rewriting headers moves no page. */
  lemma AdvancesByStores(s: Snapshot, t: Snapshot)
    requires ListInvariant(s) && ListInvariant(t)
    requires s.pages == t.pages && s.regions == t.regions && s.reserved == t.reserved && SameMap(s.w, t.w)
    requires forall b :: b in s.blocks && !b.free ==> b in t.blocks
    requires PayloadsKept(Flat(s.w, s.free, s.reserved, s.pages), Flat(t.w, t.free, t.reserved, t.pages), s.blocks)
    ensures Advances(s, t)
  {
  }

  lemma AdvancesReflexive(s: Snapshot)
    requires ListInvariant(s)
    ensures Advances(s, s)
  {
  }

  /** With more pages counted, the old words are still the first ones. */
  lemma MoreFlat(w: Memory, free: set<int>, reserved: set<int>, n: nat, m: nat)
    requires Viewable(w, free, reserved, n) && n <= m && Committed(w, m)
    ensures Viewable(w, free, reserved, m)
    ensures Flat(w, free, reserved, n) == Flat(w, free, reserved, m)[..n * PAGE_ENTRIES]
  {
    var a, b := Flat(w, free, reserved, n), Flat(w, free, reserved, m);
    forall i | 0 <= i < |a|
      ensures a[i] == b[i]
    {
      FlatAt(w, free, reserved, n, i);
      FlatAt(w, free, reserved, m, i);
    }
  }

  lemma LinkedPrefix(flat: seq<Word>, flat': seq<Word>, bs: seq<Block>, head: int, hi: nat)
    requires Linked(flat, bs, head) && Tiled(bs, 0, hi)
    requires |flat| == hi <= |flat'| && flat == flat'[..hi]
    ensures Linked(flat', bs, head) && PayloadsKept(flat, flat', bs)
  {
    forall i | 0 <= i < |bs|
      ensures HeaderAt(flat', bs, i)
    {
      TiledBounds(bs, 0, hi, i);
      assert HeaderAt(flat, bs, i);
    }
  }

  /** Writing the new region's header leaves the old list alone. */
  lemma RegionHeaderLinked(view: seq<Word>, bs: seq<Block>, head: int, lo: nat, hi: nat)
    requires Tiled(bs, 0, lo) && Linked(view, bs, head) && lo + HEADER_WORDS <= hi <= |view| && WordAddress(hi) < TWO_32
    ensures Linked(WriteHeader(view, Region(lo, hi), 0), bs, head)
    ensures |bs| > 0 ==> bs[|bs| - 1].End() <= lo && head != 0
    ensures |bs| == 0 ==> head == 0
  {
    forall i | 0 <= i < |bs|
      ensures HeaderAt(WriteHeader(view, Region(lo, hi), 0), bs, i)
    {
      TiledBounds(bs, 0, lo, i);
      assert HeaderAt(view, bs, i);
    }
  }
}

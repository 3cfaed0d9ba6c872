/** The kernel's paging calls, editing page tables in place. The kernel reaches
    physical memory at fixed virtual addresses, so every table access goes
    through the tables itself; where such an access would not lead to the frame
    it is meant for, the call is followed no further. */
module Paging {
  import opened Machine
  import opened FrameRuns
  import opened PageTables
  import opened WordBytes
  import Pmm

  /** How a call ends. `Missed` means that the next access was meant for the
      directory or a table but would have faulted or hit other memory. */
  datatype Outcome = Done | Refused | Missed

  /** What a lookup of the table for an address finds. */
  datatype Lookup = Table(frame: int) | NoTable | Astray

  /** The directory itself is out of the kernel's reach. */
  predicate DirectoryAstray(w: Memory)
    requires Reachable(w)
  {
    !DirectlyMapped(w, DIRECTORY_FRAME)
  }

  /** The page's table is present but out of reach. */
  predicate TableAstray(w: Memory, page: int)
    requires Reachable(w) && 0 <= page < TOTAL_FRAMES
  {
    var d := page / PAGE_ENTRIES;
    HasTable(w, d) && !DirectlyMapped(w, TableFrame(w, d))
  }

  /** The page needs a table, and the frame next in line for it is out of reach. */
  predicate NewTableAstray(w: Memory, free: set<int>, total: nat, page: int)
    requires Reachable(w) && 0 <= page < TOTAL_FRAMES
  {
    && !HasTable(w, page / PAGE_ENTRIES)
    && Lowest(free, total) != 0
    && !DirectlyMapped(w, Lowest(free, total))
  }

  /** Reading or clearing a page's entry goes astray. */
  predicate WalkMisses(w: Memory, page: int)
    requires Reachable(w) && 0 <= page < TOTAL_FRAMES
  {
    DirectoryAstray(w) || TableAstray(w, page)
  }

  /** Mapping a page goes astray. */
  predicate MapMisses(w: Memory, free: set<int>, total: nat, page: int)
    requires Reachable(w) && 0 <= page < TOTAL_FRAMES
  {
    WalkMisses(w, page) || NewTableAstray(w, free, total, page)
  }

  /** Taking a frame and mapping it goes astray. */
  predicate MapFreshMisses(w: Memory, free: set<int>, total: nat, page: int)
    requires Reachable(w) && 0 <= page < TOTAL_FRAMES
  {
    free != {} && MapMisses(w, free - {Lowest(free, total)}, total, page)
  }

  /** What astray means, in terms of the map: the page at 0xC0009000, where the
      kernel looks for the directory, is not backed by frame 9, or the page 3 GiB
      above a frame (in wrapping arithmetic), where it looks for a table in that
      frame, is not backed by it. The frame for a new table is the lowest free one. */
  lemma AstrayMeaning(w: Memory, free: set<int>, total: nat, page: int)
    requires Reachable(w) && 0 <= page < TOTAL_FRAMES
    requires 0 !in free && forall f :: f in free ==> 0 <= f < total <= TOTAL_FRAMES
    ensures WalkMisses(w, page) <==>
            || PageFrame(w, 0xC_0009) != Some(9)
            || (HasTable(w, page / 1024) &&
                var t := TableFrame(w, page / 1024);
                PageFrame(w, if t < 0x4_0000 then t + 0xC_0000 else t - 0x4_0000) != Some(t))
    ensures MapMisses(w, free, total, page) <==>
            || WalkMisses(w, page)
            || (!HasTable(w, page / 1024) &&
                exists t :: t in free && (forall g :: g in free ==> t <= g)
                            && PageFrame(w, if t < 0x4_0000 then t + 0xC_0000 else t - 0x4_0000) != Some(t))
  {
    hide PageFrame;
    hide Lowest;
    DirectPage(DIRECTORY_FRAME);
    if HasTable(w, page / 1024) {
      DirectPage(TableFrame(w, page / 1024));
    } else {
      LowestMeaning(free, total);
      var t := Lowest(free, total);
      if t != 0 {
        DirectPage(t);
      }
    }
  }

  class Paging {
    const ram: array<Word>
    const pmm: Pmm.Pmm

    ghost predicate Valid()
      reads this, ram, pmm, pmm.bitmap
    {
      && pmm.Valid()
      && (pmm.bitmap != null ==> ram as object != pmm.bitmap as object)
      && pmm.totalPages <= Frames(ram[..]) <= TOTAL_FRAMES
      && Exclusive(ram[..], pmm.free)
    }

    constructor (ram: array<Word>, pmm: Pmm.Pmm)
      ensures this.ram == ram && this.pmm == pmm
    {
      this.ram := ram;
      this.pmm := pmm;
    }

    // ---- The processor ----

    /** The processor's own walk, which uses physical addresses throughout. */
    method Walk(v: Word) returns (frame: Option<int>)
      requires Reachable(ram[..])
      ensures frame == PageFrame(ram[..], v / PAGE_SIZE)
    {
      var d, k := v / 0x40_0000, v / PAGE_SIZE % PAGE_ENTRIES;
      assert d == v / PAGE_SIZE / PAGE_ENTRIES;
      var entry := ram[DIRECTORY_FRAME * PAGE_ENTRIES + d];
      assert entry == DirEntry(ram[..], d);
      if !Present(entry) {
        return None;
      }
      assert HasTable(ram[..], d);
      var pte := ram[FrameOf(entry) * PAGE_ENTRIES + k];
      assert pte == WordAt(ram[..], TableFrame(ram[..], d), k);
      if !Present(pte) {
        return None;
      }
      return Some(FrameOf(pte));
    }

    /** Whether an access at PHYS_TO_VIRT of a frame lands in that frame. */
    method Reaches(frame: int) returns (there: bool)
      requires Reachable(ram[..]) && 0 <= frame < TOTAL_FRAMES
      ensures there == DirectlyMapped(ram[..], frame)
    {
      var at := Walk(PhysToVirt(frame * PAGE_SIZE));
      there := at == Some(frame);
    }

    /** memset of 4096 bytes at a virtual address, byte by byte; it is followed
        as long as it stays in the page of that address, which is backed by
        `frame`. */
    method ClearPage(v: Word, ghost frame: int) returns (inside: bool)
      requires Exclusive(ram[..], pmm.free)
      requires PageFrame(ram[..], v / PAGE_SIZE) == Some(frame) && frame < Frames(ram[..])
      requires frame != DIRECTORY_FRAME && !IsTable(ram[..], frame)
      modifies ram
      ensures inside <==> v % PAGE_SIZE == 0
      ensures inside ==> ram[..] == ZeroFrame(old(ram[..]), frame)
      ensures ClearedBytes(old(ram[..]), ram[..], frame * PAGE_SIZE + v % PAGE_SIZE, PAGE_SIZE - v % PAGE_SIZE)
      ensures OnlyFrameChanged(old(ram[..]), ram[..], frame)
    {
      hide Exclusive;
      hide Reachable;
      hide IsTable;
      hide PageFrame;
      hide ZeroFrame;
      hide ClearedBytes;
      hide WithoutByte;
      ghost var before, at := ram[..], frame * PAGE_SIZE + v % PAGE_SIZE;
      ReachableIfExclusive(before, pmm.free);
      NoneCleared(before, at);
      for n := 0 to PAGE_SIZE
        invariant Exclusive(ram[..], pmm.free) && Reachable(ram[..])
        invariant PageFrame(ram[..], v / PAGE_SIZE) == Some(frame)
        invariant ClearedBytes(before, ram[..], at, n) && OnlyFrameChanged(before, ram[..], frame)
        invariant n <= PAGE_SIZE - v % PAGE_SIZE
      {
        ClearingLeavesPage(v, n);
        if Add32(v, n) / PAGE_SIZE != v / PAGE_SIZE {
          return false;
        }
        var there := Walk(v + n);
        var i := there.value * PAGE_ENTRIES + (v + n) % PAGE_SIZE / 4;
        ByteInFrame(frame, v, n);
        OneMoreCleared(before, ram[..], at, n);
        ram[i] := WithoutByte(ram[i], (v + n) % 4);
        FrameContentsIrrelevant(before, ram[..], pmm.free, frame);
        ReachableIfExclusive(ram[..], pmm.free);
      }
      ClearedFrame(before, ram[..], frame);
      return true;
    }

    // ---- The kernel's calls ----

    /** The table frame for an address; a missing table is created on demand. */
    method GetPageTable(v: Word, create: bool, tableFlags: Word) returns (found: Lookup)
      requires Valid()
      modifies ram, pmm`free, pmm.bitmap
      ensures Valid()
      ensures var w, d := old(ram[..]), v / PAGE_SIZE / PAGE_ENTRIES;
              && (found.Astray? <==>
                    || DirectoryAstray(w)
                    || (create && NewTableAstray(w, old(pmm.free), pmm.totalPages, v / PAGE_SIZE)))
              && (!found.Astray? && HasTable(w, d) ==> found == Table(TableFrame(w, d)))
              && (!found.Astray? && !HasTable(w, d) ==> (found.Table? <==> create && old(pmm.free) != {}))
      ensures !found.Table? || HasTable(old(ram[..]), v / PAGE_SIZE / PAGE_ENTRIES) ==> ram[..] == old(ram[..])
      ensures found.NoTable? || HasTable(old(ram[..]), v / PAGE_SIZE / PAGE_ENTRIES) ==> pmm.free == old(pmm.free)
      ensures pmm.free <= old(pmm.free) && (!create ==> pmm.free == old(pmm.free))
      ensures found.Table? && !HasTable(old(ram[..]), v / PAGE_SIZE / PAGE_ENTRIES) ==>
                && found.frame == Lowest(old(pmm.free), pmm.totalPages)
                && found.frame in old(pmm.free) && pmm.free == old(pmm.free) - {found.frame}
                && ram[..] == InstallTable(old(ram[..]), v / PAGE_SIZE / PAGE_ENTRIES, found.frame, tableFlags)
    {
      hide DirectlyMapped;
      hide InstallTable;
      hide Lowest;
      ReachableIfExclusive(ram[..], pmm.free);
      hide Exclusive;
      var d := v / 0x40_0000;
      assert d == v / PAGE_SIZE / PAGE_ENTRIES;
      var there := Reaches(DIRECTORY_FRAME);
      if !there {
        return Astray;
      }
      var entry := ram[DIRECTORY_FRAME * PAGE_ENTRIES + d];
      assert entry == DirEntry(ram[..], d);
      if Present(entry) {
        return Table(FrameOf(entry));
      }
      if !create {
        return NoTable;
      }
      var address := pmm.AllocPage();
      if address == 0 {
        return NoTable;
      }
      var table := address / PAGE_SIZE;
      FewerFree(ram[..], old(pmm.free), table);
      assert table < Frames(ram[..]);
      there := Reaches(table);
      if !there {
        return Astray;
      }
      NewTable(v, table, tableFlags, old(pmm.free));
      return Table(table);
    }

    /** Clear a frame just taken and enter it into the directory. */
    method NewTable(v: Word, table: int, tableFlags: Word, ghost free: set<int>)
      requires Exclusive(ram[..], free) && table in free && pmm.free == free - {table}
      requires table < Frames(ram[..]) && DirectlyMapped(ram[..], table)
      requires DirectlyMapped(ram[..], DIRECTORY_FRAME)
      requires !HasTable(ram[..], v / PAGE_SIZE / PAGE_ENTRIES)
      modifies ram
      ensures ram[..] == InstallTable(old(ram[..]), v / PAGE_SIZE / PAGE_ENTRIES, table, tableFlags)
      ensures Exclusive(ram[..], pmm.free)
    {
      hide ZeroFrame;
      var d := v / PAGE_SIZE / PAGE_ENTRIES;
      DirectPage(table);
      FewerFree(ram[..], free, table);
      InstallTableKeepsMap(ram[..], free, d, table, tableFlags);
      var inside := ClearPage(PhysToVirt(table * PAGE_SIZE), table);
      SetEntry(DIRECTORY_FRAME, d, Entry(table, tableFlags));
    }

    /** Store an entry into the directory or a table that is within reach. */
    method SetEntry(table: int, k: int, entry: Word)
      requires 0 <= table < Frames(ram[..]) && 0 <= k < PAGE_ENTRIES
      modifies ram
      ensures ram[..] == SetTableEntry(old(ram[..]), table, k, entry)
    {
      ram[table * PAGE_ENTRIES + k] := entry;
    }

    /** paging_map_page, against the pure update of the tables. */
    method MapPage(v: Word, p: Word, flags: Word) returns (outcome: Outcome, ghost table: int)
      requires Valid()
      modifies ram, pmm`free, pmm.bitmap
      ensures Valid() && pmm.free <= old(pmm.free)
      ensures outcome.Missed? <==> MapMisses(old(ram[..]), old(pmm.free), pmm.totalPages, v / PAGE_SIZE)
      ensures outcome.Refused? ==> !HasTable(old(ram[..]), v / PAGE_SIZE / PAGE_ENTRIES) && old(pmm.free) == {}
      ensures outcome.Done? ==> HasTable(old(ram[..]), v / PAGE_SIZE / PAGE_ENTRIES) || old(pmm.free) != {}
      ensures !outcome.Done? ==> ram[..] == old(ram[..])
      ensures outcome.Refused? ==> pmm.free == old(pmm.free)
      ensures outcome.Done? ==>
                && CanMap(old(ram[..]), old(pmm.free), v / PAGE_SIZE, table)
                && (!HasTable(old(ram[..]), v / PAGE_SIZE / PAGE_ENTRIES) ==> table == Lowest(old(pmm.free), pmm.totalPages))
                && ram[..] == MapWords(old(ram[..]), old(pmm.free), v / PAGE_SIZE, p / PAGE_SIZE, flags, table)
                && pmm.free == FreeAfterMap(old(ram[..]), old(pmm.free), v / PAGE_SIZE, table)
    {
      hide DirectlyMapped;
      var page, frame := v / PAGE_SIZE, p / PAGE_SIZE;
      ghost var w := ram[..];
      var found := GetPageTable(v, true, TableFlags(flags));
      if found.Astray? {
        return Missed, 0;
      }
      if found.NoTable? {
        return Refused, 0;
      }
      table := found.frame;
      MapInTwoSteps(w, old(pmm.free), page, frame, flags, table);
      assert ram[..] == WithTable(w, page, flags, table);
      TableStillReached(w, old(pmm.free), page, flags, table);
      var there := Reaches(found.frame);
      if !there {
        return Missed, 0;
      }
      SetEntry(found.frame, page % PAGE_ENTRIES, Entry(frame, flags));
      return Done, table;
    }

    method UnmapPage(v: Word) returns (outcome: Outcome)
      requires Valid()
      modifies ram, pmm`free, pmm.bitmap
      ensures Valid() && pmm.free == old(pmm.free)
      ensures outcome.Missed? <==> WalkMisses(old(ram[..]), v / PAGE_SIZE)
      ensures ram[..] == if outcome.Missed? then old(ram[..]) else UnmapWords(old(ram[..]), v / PAGE_SIZE)
    {
      hide DirectlyMapped;
      var page := v / PAGE_SIZE;
      var found := GetPageTable(v, false, 0);
      UnmapIsRemoval(ram[..], pmm.free, page);
      if found.Astray? {
        return Missed;
      }
      if found.NoTable? {
        return Done;
      }
      var there := Reaches(found.frame);
      if !there {
        return Missed;
      }
      SetEntry(found.frame, page % PAGE_ENTRIES, 0);
      return Done;
    }

    /** paging_translate */
    method TranslateAddress(v: Word) returns (p: Option<Word>)
      requires Valid()
      ensures p == if WalkMisses(ram[..], v / PAGE_SIZE) then None else Some(Translate(ram[..], v))
    {
      var d, k := v / 0x40_0000, v / PAGE_SIZE % PAGE_ENTRIES;
      assert d == v / PAGE_SIZE / PAGE_ENTRIES;
      var there := Reaches(DIRECTORY_FRAME);
      if !there {
        return None;
      }
      var entry := ram[DIRECTORY_FRAME * PAGE_ENTRIES + d];
      assert entry == DirEntry(ram[..], d);
      if !Present(entry) {
        return Some(0);
      }
      assert HasTable(ram[..], d);
      there := Reaches(FrameOf(entry));
      if !there {
        return None;
      }
      var pte := ram[FrameOf(entry) * PAGE_ENTRIES + k];
      assert pte == WordAt(ram[..], TableFrame(ram[..], d), k);
      if !Present(pte) {
        return Some(0);
      }
      return Some(FrameOf(pte) * PAGE_SIZE + v % PAGE_SIZE);
    }

    /** Take a frame from the allocator and map it, or give it back: the common
        part of paging_alloc_page and of the heap's growth. */
    method MapFreshFrame(v: Word, flags: Word) returns (outcome: Outcome, address: Word, ghost table: int)
      requires Valid()
      modifies ram, pmm`free, pmm.bitmap
      ensures Valid() && pmm.free <= old(pmm.free)
      ensures outcome.Missed? <==> MapFreshMisses(old(ram[..]), old(pmm.free), pmm.totalPages, v / PAGE_SIZE)
      ensures !outcome.Missed? ==>
                (outcome.Done? <==> |old(pmm.free)| > TablesToMap(old(ram[..]), v / PAGE_SIZE))
      ensures !outcome.Done? ==> ram[..] == old(ram[..])
      ensures outcome.Refused? ==> pmm.free == old(pmm.free)
      ensures outcome.Done? ==>
                && address % PAGE_SIZE == 0
                && var frame := address / PAGE_SIZE;
                && frame == Lowest(old(pmm.free), pmm.totalPages)
                && frame in old(pmm.free) && 0 < frame < Frames(old(ram[..])) && frame < TOTAL_FRAMES
                && CanMap(old(ram[..]), old(pmm.free) - {frame}, v / PAGE_SIZE, table)
                && (!HasTable(old(ram[..]), v / PAGE_SIZE / PAGE_ENTRIES) ==>
                      table == Lowest(old(pmm.free) - {frame}, pmm.totalPages))
                && ram[..] == MapWords(old(ram[..]), old(pmm.free) - {frame}, v / PAGE_SIZE, frame, flags, table)
                && pmm.free == FreeAfterMap(old(ram[..]), old(pmm.free) - {frame}, v / PAGE_SIZE, table)
    {
      hide CanMap;
      hide MapWords;
      hide FreeAfterMap;
      hide MapMisses;
      hide TablesToMap;
      hide Lowest;
      TablesCounted(ram[..], v / PAGE_SIZE);
      table := 0;
      address := pmm.AllocPage();
      if address == 0 {
        return Refused, address, table;
      }
      FewerFree(ram[..], old(pmm.free), address / PAGE_SIZE);
      outcome, table := MapPage(v, address, flags);
      if outcome.Refused? {
        GiveBack(address, old(pmm.free));
      }
    }

    /** Undo an allocation. */
    method GiveBack(address: Word, ghost free: set<int>)
      requires pmm.Valid() && pmm.bitmap != null && address % PAGE_SIZE == 0 && 0 < address / PAGE_SIZE < pmm.totalPages
      requires address / PAGE_SIZE in free && pmm.free == free - {address / PAGE_SIZE}
      modifies pmm`free, pmm.bitmap
      ensures pmm.Valid() && pmm.free == free
    {
      pmm.FreePage(address);
      assert Pages(address / PAGE_SIZE, address / PAGE_SIZE + 1) == {address / PAGE_SIZE};
    }

    /** paging_alloc_page: when frames suffice and the tables are within reach, the
        page is backed by a frame from the allocator, and only that frame and a
        new table's are gone from the free set. Clearing starts at the address
        itself: it zeroes that frame, and nothing else, if and only if the address
        is the page's first; otherwise it zeroes the rest of the page and then
        goes astray. When refused neither tables nor free set have changed. */
    method AllocPage(v: Word, flags: Word) returns (outcome: Outcome, ghost frame: int, ghost table: int)
      requires Valid()
      modifies ram, pmm`free, pmm.bitmap
      ensures Valid() && pmm.free <= old(pmm.free)
      ensures outcome.Missed? <==>
                || MapFreshMisses(old(ram[..]), old(pmm.free), pmm.totalPages, v / PAGE_SIZE)
                || (v % PAGE_SIZE != 0 && |old(pmm.free)| > TablesToMap(old(ram[..]), v / PAGE_SIZE))
      ensures !outcome.Missed? ==>
                (outcome.Done? <==> |old(pmm.free)| > TablesToMap(old(ram[..]), v / PAGE_SIZE))
      ensures outcome.Refused? ==> pmm.free == old(pmm.free)
      ensures outcome.Refused? || MapFreshMisses(old(ram[..]), old(pmm.free), pmm.totalPages, v / PAGE_SIZE) ==>
                ram[..] == old(ram[..])
      ensures |old(pmm.free)| > TablesToMap(old(ram[..]), v / PAGE_SIZE) &&
              !MapFreshMisses(old(ram[..]), old(pmm.free), pmm.totalPages, v / PAGE_SIZE) ==>
                && frame == Lowest(old(pmm.free), pmm.totalPages)
                && frame in old(pmm.free) && 0 < frame < Frames(old(ram[..])) && frame < TOTAL_FRAMES
                && CanMap(old(ram[..]), old(pmm.free) - {frame}, v / PAGE_SIZE, table)
                && pmm.free == FreeAfterMap(old(ram[..]), old(pmm.free) - {frame}, v / PAGE_SIZE, table)
                && (var mapped := MapWords(old(ram[..]), old(pmm.free) - {frame}, v / PAGE_SIZE, frame, flags, table);
                    && (v % PAGE_SIZE == 0 ==> ram[..] == ZeroFrame(mapped, frame))
                    && ClearedBytes(mapped, ram[..], frame * PAGE_SIZE + v % PAGE_SIZE, PAGE_SIZE - v % PAGE_SIZE))
                && forall q :: 0 <= q < TOTAL_FRAMES ==>
                     PageFrame(ram[..], q) == if q == v / PAGE_SIZE then Some(frame) else PageFrame(old(ram[..]), q)
    {
      hide MapFreshMisses;
      hide MapWords;
      hide CanMap;
      hide IsTable;
      hide ZeroFrame;
      hide TablesToMap;
      hide ClearedBytes;
      hide Lowest;
      var address;
      outcome, address, table := MapFreshFrame(v, flags);
      frame := address / PAGE_SIZE;
      if !outcome.Done? {
        return;
      }
      ghost var free, mapped := old(pmm.free) - {frame}, ram[..];
      FewerFree(old(ram[..]), old(pmm.free), frame);
      MapIsUpdate(old(ram[..]), free, v / PAGE_SIZE, frame, flags, table);
      NoTableAfterMap(old(ram[..]), free, v / PAGE_SIZE, frame, flags, table);
      var inside := ClearPage(v, frame);
      FrameContentsIrrelevant(mapped, ram[..], pmm.free, frame);
      if !inside {
        outcome := Missed;
      }
    }
  }

  /** Where the 4096 bytes from an address on lie: in its page, and, as many as
      the address is bytes into that, in the next one, mapped or not. */
  lemma ClearingLeavesPage(v: Word, n: nat)
    requires n < PAGE_SIZE
    ensures Add32(v, n) / PAGE_SIZE ==
            if n < PAGE_SIZE - v % PAGE_SIZE then v / PAGE_SIZE
            else if v / PAGE_SIZE == TOTAL_FRAMES - 1 then 0 else v / PAGE_SIZE + 1
  {
    var page, k := v / PAGE_SIZE, v % PAGE_SIZE;
    assert v == PAGE_SIZE * page + k;
  }

  /** So they stay in the page if and only if the address is its first. */
  lemma ClearingStaysInPageIff(v: Word)
    ensures (forall n: nat :: n < PAGE_SIZE ==> Add32(v, n) / PAGE_SIZE == v / PAGE_SIZE) <==> v % PAGE_SIZE == 0
  {
    if v % PAGE_SIZE == 0 {
      forall n: nat | n < PAGE_SIZE
        ensures Add32(v, n) / PAGE_SIZE == v / PAGE_SIZE
      {
        ClearingLeavesPage(v, n);
      }
    } else {
      ClearingLeavesPage(v, PAGE_SIZE - v % PAGE_SIZE);
    }
  }

  lemma ByteInFrame(frame: int, v: Word, n: nat)
    requires 0 <= frame && n < PAGE_SIZE - v % PAGE_SIZE
    ensures var b := frame * PAGE_SIZE + v % PAGE_SIZE + n;
            && b / 4 == frame * PAGE_ENTRIES + (v + n) % PAGE_SIZE / 4 && b % 4 == (v + n) % 4
            && b / 4 / PAGE_ENTRIES == frame
            && v + n < TWO_32 && (v + n) / PAGE_SIZE == v / PAGE_SIZE
  {
    var page, k := v / PAGE_SIZE, v % PAGE_SIZE + n;
    var q, r := k / 4, k % 4;
    InPage(page, k, v + n);
    Quarter(frame * PAGE_ENTRIES + q, r, frame * PAGE_SIZE + k);
    Quarter(page * PAGE_ENTRIES + q, r, v + n);
  }

  lemma InPage(page: int, k: int, x: int)
    requires x == PAGE_SIZE * page + k && 0 <= k < PAGE_SIZE
    ensures x / PAGE_SIZE == page && x % PAGE_SIZE == k
  {
  }

  lemma Quarter(q: int, r: int, x: int)
    requires x == 4 * q + r && 0 <= r < 4
    ensures x / 4 == q && x % 4 == r
  {
  }

  /** Clearing all bytes of a frame clears its words. */
  lemma ClearedFrame(w: Memory, w': Memory, frame: int)
    requires 0 <= frame < Frames(w) && ClearedBytes(w, w', frame * PAGE_SIZE, PAGE_SIZE)
    ensures w' == ZeroFrame(w, frame)
  {
    var zeroed := ZeroFrame(w, frame);
    assert |w'| == |w|;
    forall i | 0 <= i < |w|
      ensures w'[i] == zeroed[i]
    {
      ClearedWord(w, w', frame * PAGE_SIZE, PAGE_SIZE, i);
    }
  }

  lemma ReachableIfExclusive(w: Memory, free: set<int>)
    requires Exclusive(w, free)
    ensures Reachable(w)
  {
  }

  lemma TablesCounted(w: Memory, page: int)
    requires HasDirectory(w) && 0 <= page < TOTAL_FRAMES
    ensures TablesToMap(w, page) == if HasTable(w, page / PAGE_ENTRIES) then 0 else 1
  {
  }

  /** Creating a table moves no page, so reach stays as it was. */
  lemma TableStillReached(w: Memory, free: set<int>, page: int, flags: Word, table: int)
    requires CanMap(w, free, page, table)
    ensures Reachable(WithTable(w, page, flags, table))
    ensures forall frame :: DirectlyMapped(WithTable(w, page, flags, table), frame) <==> DirectlyMapped(w, frame)
  {
    WithTableKeepsMap(w, free, page, flags, table);
  }

  lemma MapInTwoSteps(w: Memory, free: set<int>, page: int, frame: int, flags: Word, table: int)
    requires CanMap(w, free, page, table) && 0 <= frame < TOTAL_FRAMES
    ensures var w1 := WithTable(w, page, flags, table);
            && HasTable(w1, page / PAGE_ENTRIES)
            && TableFrame(w1, page / PAGE_ENTRIES) < Frames(w1)
            && MapWords(w, free, page, frame, flags, table) ==
               SetTableEntry(w1, TableFrame(w1, page / PAGE_ENTRIES), page % PAGE_ENTRIES, Entry(frame, flags))
            && Exclusive(MapWords(w, free, page, frame, flags, table), FreeAfterMap(w, free, page, table))
  {
    WithTableKeepsMap(w, free, page, flags, table);
    MapIsUpdate(w, free, page, frame, flags, table);
  }

  lemma FewerFree(w: Memory, free: set<int>, frame: int)
    requires Exclusive(w, free) && frame in free
    ensures |free - {frame}| == |free| - 1
    ensures Exclusive(w, free - {frame})
    ensures frame != DIRECTORY_FRAME && !IsTable(w, frame)
  {
  }

  /** A frame that was neither free nor a table is no table after a mapping. */
  lemma NoTableAfterMap(w: Memory, free: set<int>, page: int, frame: int, flags: Word, table: int)
    requires CanMap(w, free, page, table) && 0 <= frame < TOTAL_FRAMES
    requires frame !in free && !IsTable(w, frame)
    ensures HasDirectory(w) && !IsTable(MapWords(w, free, page, frame, flags, table), frame)
  {
    TablesAfterMap(w, free, page, frame, flags, table, frame);
  }
}

/** Two-level page tables (32-bit paging, section 4.3 of the Intel SDM volume 3A)
    stored in physical memory, and the partial map from pages to frames that
    they stand for. Memory is a sequence of words; frame f is words
    1024 * f .. 1024 * f + 1023. */
module PageTables {
  import opened Machine

  const DIRECTORY_FRAME: int := 9
  const PAGE_PRESENT: int := 1
  const PAGE_WRITABLE: int := 2
  const PAGE_USER: int := 4

  type Memory = seq<Word>

  predicate Present(entry: Word) {
    entry % 2 == 1
  }

  function FrameOf(entry: Word): (f: int)
    ensures 0 <= f < TOTAL_FRAMES
  {
    entry / PAGE_SIZE
  }

  /** `frame base | (flags & 0xFFF) | PAGE_PRESENT` */
  function Entry(frame: int, flags: Word): (e: Word)
    requires 0 <= frame < TOTAL_FRAMES
    ensures Present(e) && FrameOf(e) == frame
  {
    frame * PAGE_SIZE + WithPresent(flags % PAGE_SIZE)
  }

  function WithPresent(flags: int): (r: int) {
    if flags % 2 == 1 then flags else flags + 1
  }

  function Frames(w: Memory): (n: nat) {
    |w| / PAGE_ENTRIES
  }

  function WordAt(w: Memory, frame: int, k: int): (r: Word)
    requires 0 <= frame < Frames(w) && 0 <= k < PAGE_ENTRIES
  {
    w[frame * PAGE_ENTRIES + k]
  }

  predicate HasDirectory(w: Memory) {
    DIRECTORY_FRAME < Frames(w)
  }

  function DirEntry(w: Memory, d: int): (r: Word)
    requires HasDirectory(w) && 0 <= d < PAGE_ENTRIES
  {
    WordAt(w, DIRECTORY_FRAME, d)
  }

  predicate HasTable(w: Memory, d: int)
    requires HasDirectory(w) && 0 <= d < PAGE_ENTRIES
  {
    Present(DirEntry(w, d))
  }

  function TableFrame(w: Memory, d: int): (f: int)
    requires HasDirectory(w) && 0 <= d < PAGE_ENTRIES
  {
    FrameOf(DirEntry(w, d))
  }

  /** Every table the directory names can be dereferenced. */
  predicate Reachable(w: Memory) {
    && HasDirectory(w)
    && forall d :: 0 <= d < PAGE_ENTRIES && HasTable(w, d) ==> TableFrame(w, d) < Frames(w)
  }

  /** The frame that backs a virtual page. */
  function PageFrame(w: Memory, page: int): (r: Option<int>)
    requires Reachable(w) && 0 <= page < TOTAL_FRAMES
    ensures r.Some? ==> 0 <= r.value < TOTAL_FRAMES
  {
    if !HasTable(w, page / PAGE_ENTRIES) then None
    else
      var entry := WordAt(w, TableFrame(w, page / PAGE_ENTRIES), page % PAGE_ENTRIES);
      if Present(entry) then Some(FrameOf(entry)) else None
  }

  /** paging_translate: 0 stands for "not mapped". */
  function Translate(w: Memory, v: Word): (p: Word)
    requires Reachable(w)
  {
    match PageFrame(w, v / PAGE_SIZE)
    case None => 0
    case Some(f) => f * PAGE_SIZE + v % PAGE_SIZE
  }

  /** The result 0 is ambiguous: it also is the translation of the first byte of
      frame 0. */
  lemma TranslateZeroMeaning(w: Memory, v: Word)
    requires Reachable(w)
    ensures Translate(w, v) == 0 <==>
            PageFrame(w, v / PAGE_SIZE) == None || (PageFrame(w, v / PAGE_SIZE) == Some(0) && v % PAGE_SIZE == 0)
  {
  }

  /** The address at which the kernel looks for a frame leads to that frame. */
  predicate DirectlyMapped(w: Memory, frame: int)
    requires Reachable(w)
  {
    0 <= frame < TOTAL_FRAMES && PageFrame(w, PhysToVirt(frame * PAGE_SIZE) / PAGE_SIZE) == Some(frame)
  }

  lemma DirectPage(frame: int)
    requires 0 <= frame < TOTAL_FRAMES
    ensures PhysToVirt(frame * PAGE_SIZE) % PAGE_SIZE == 0
    ensures PhysToVirt(frame * PAGE_SIZE) / PAGE_SIZE == if frame < 0x4_0000 then frame + 0xC_0000 else frame - 0x4_0000
  {
  }

  predicate IsTable(w: Memory, frame: int)
    requires HasDirectory(w)
  {
    exists d :: 0 <= d < PAGE_ENTRIES && HasTable(w, d) && TableFrame(w, d) == frame
  }

  /** No two directory entries share a table, no table is the directory, and
      none of their frames is free. */
  predicate Exclusive(w: Memory, free: set<int>) {
    && Reachable(w)
    && DIRECTORY_FRAME !in free
    && (forall d :: 0 <= d < PAGE_ENTRIES && HasTable(w, d) ==>
          TableFrame(w, d) != DIRECTORY_FRAME && TableFrame(w, d) !in free)
    && (forall d, e :: 0 <= d < e < PAGE_ENTRIES && HasTable(w, d) && HasTable(w, e) ==>
          TableFrame(w, d) != TableFrame(w, e))
  }

  predicate SameFrame(w: Memory, w': Memory, frame: int)
    requires |w| == |w'| && 0 <= frame < Frames(w)
  {
    forall k :: 0 <= k < PAGE_ENTRIES ==> WordAt(w', frame, k) == WordAt(w, frame, k)
  }

  /** Only words of one frame differ. */
  predicate OnlyFrameChanged(w: Memory, w': Memory, frame: int) {
    && |w'| == |w|
    && forall i :: 0 <= i < |w| && i / PAGE_ENTRIES != frame ==> w'[i] == w[i]
  }

  lemma OtherFrameKept(w: Memory, w': Memory, frame: int, other: int, k: int)
    requires OnlyFrameChanged(w, w', frame) && 0 <= other < Frames(w) && other != frame && 0 <= k < PAGE_ENTRIES
    ensures WordAt(w', other, k) == WordAt(w, other, k)
  {
    assert (other * PAGE_ENTRIES + k) / PAGE_ENTRIES == other;
  }

  /** Whatever happens to a frame that holds no table, the directory, the tables
      and so every translation stay as they are. */
  lemma FrameContentsIrrelevant(w: Memory, w': Memory, free: set<int>, frame: int)
    requires Exclusive(w, free) && OnlyFrameChanged(w, w', frame)
    requires frame != DIRECTORY_FRAME && !IsTable(w, frame)
    ensures Exclusive(w', free)
    ensures forall d :: 0 <= d < PAGE_ENTRIES ==> DirEntry(w', d) == DirEntry(w, d)
    ensures forall page :: 0 <= page < TOTAL_FRAMES ==> PageFrame(w', page) == PageFrame(w, page)
    ensures !IsTable(w', frame)
  {
    forall d | 0 <= d < PAGE_ENTRIES
      ensures DirEntry(w', d) == DirEntry(w, d)
      ensures HasTable(w', d) <==> HasTable(w, d)
      ensures TableFrame(w', d) == TableFrame(w, d)
    {
      OtherFrameKept(w, w', frame, DIRECTORY_FRAME, d);
    }
    forall page | 0 <= page < TOTAL_FRAMES
      ensures PageFrame(w', page) == PageFrame(w, page)
    {
      var d := page / PAGE_ENTRIES;
      if HasTable(w, d) {
        assert TableFrame(w, d) != frame;
        OtherFrameKept(w, w', frame, TableFrame(w, d), page % PAGE_ENTRIES);
      }
    }
  }

  // ---- The two kinds of write ----

  function ZeroFrame(w: Memory, frame: int): (r: Memory)
    requires 0 <= frame < Frames(w)
    ensures |r| == |w|
  {
    seq(|w|, i requires 0 <= i < |w| =>
      if frame * PAGE_ENTRIES <= i < (frame + 1) * PAGE_ENTRIES then 0 else w[i])
  }

  function InstallTable(w: Memory, d: int, table: int, tableFlags: Word): (r: Memory)
    requires HasDirectory(w) && 0 <= d < PAGE_ENTRIES && 0 <= table < Frames(w) && table < TOTAL_FRAMES
    ensures |r| == |w|
  {
    ZeroFrame(w, table)[DIRECTORY_FRAME * PAGE_ENTRIES + d := Entry(table, tableFlags)]
  }

  function SetTableEntry(w: Memory, table: int, k: int, entry: Word): (r: Memory)
    requires 0 <= table < Frames(w) && 0 <= k < PAGE_ENTRIES
    ensures |r| == |w|
  {
    w[table * PAGE_ENTRIES + k := entry]
  }

  lemma InstallTableWords(w: Memory, d: int, table: int, tableFlags: Word, frame: int, k: int)
    requires HasDirectory(w) && 0 <= d < PAGE_ENTRIES && 0 <= table < Frames(w) && table < TOTAL_FRAMES
    requires table != DIRECTORY_FRAME
    requires 0 <= frame < Frames(w) && 0 <= k < PAGE_ENTRIES
    ensures WordAt(InstallTable(w, d, table, tableFlags), frame, k) ==
            if frame == table then 0
            else if frame == DIRECTORY_FRAME && k == d then Entry(table, tableFlags)
            else WordAt(w, frame, k)
  {
  }

  lemma SetTableEntryWords(w: Memory, table: int, k: int, entry: Word, frame: int, j: int)
    requires 0 <= table < Frames(w) && 0 <= k < PAGE_ENTRIES
    requires 0 <= frame < Frames(w) && 0 <= j < PAGE_ENTRIES
    ensures WordAt(SetTableEntry(w, table, k, entry), frame, j) ==
            if frame == table && j == k then entry else WordAt(w, frame, j)
  {
  }

  /** Installing a fresh, zeroed table where there was none changes no translation. */
  lemma InstallTableKeepsMap(w: Memory, free: set<int>, d: int, table: int, tableFlags: Word)
    requires Exclusive(w, free) && 0 <= d < PAGE_ENTRIES && !HasTable(w, d)
    requires table in free && 0 <= table < Frames(w) && table < TOTAL_FRAMES
    ensures var w' := InstallTable(w, d, table, tableFlags);
            && Exclusive(w', free - {table})
            && HasTable(w', d) && TableFrame(w', d) == table
            && (forall e :: 0 <= e < PAGE_ENTRIES && e != d ==> DirEntry(w', e) == DirEntry(w, e))
            && (forall page :: 0 <= page < TOTAL_FRAMES ==> PageFrame(w', page) == PageFrame(w, page))
  {
    var w' := InstallTable(w, d, table, tableFlags);
    forall e | 0 <= e < PAGE_ENTRIES
      ensures DirEntry(w', e) == if e == d then Entry(table, tableFlags) else DirEntry(w, e)
      ensures HasTable(w', e) <==> e == d || HasTable(w, e)
      ensures TableFrame(w', e) == if e == d then table else TableFrame(w, e)
    {
      InstallTableWords(w, d, table, tableFlags, DIRECTORY_FRAME, e);
    }
    forall page | 0 <= page < TOTAL_FRAMES
      ensures PageFrame(w', page) == PageFrame(w, page)
    {
      var e, k := page / PAGE_ENTRIES, page % PAGE_ENTRIES;
      if e == d {
        InstallTableWords(w, d, table, tableFlags, table, k);
      } else if HasTable(w, e) {
        InstallTableWords(w, d, table, tableFlags, TableFrame(w, e), k);
      }
    }
  }

  /** Writing one entry of an exclusively owned table changes one page. */
  lemma SetTableEntryMap(w: Memory, free: set<int>, page: int, entry: Word)
    requires Exclusive(w, free) && 0 <= page < TOTAL_FRAMES && HasTable(w, page / PAGE_ENTRIES)
    ensures var w' := SetTableEntry(w, TableFrame(w, page / PAGE_ENTRIES), page % PAGE_ENTRIES, entry);
            && Exclusive(w', free)
            && (forall d :: 0 <= d < PAGE_ENTRIES ==> DirEntry(w', d) == DirEntry(w, d))
            && (forall q :: 0 <= q < TOTAL_FRAMES ==>
                  PageFrame(w', q) ==
                  if q != page then PageFrame(w, q)
                  else if Present(entry) then Some(FrameOf(entry)) else None)
  {
    var table, k := TableFrame(w, page / PAGE_ENTRIES), page % PAGE_ENTRIES;
    var w' := SetTableEntry(w, table, k, entry);
    forall d | 0 <= d < PAGE_ENTRIES
      ensures DirEntry(w', d) == DirEntry(w, d)
      ensures HasTable(w', d) <==> HasTable(w, d)
      ensures TableFrame(w', d) == TableFrame(w, d)
    {
      SetTableEntryWords(w, table, k, entry, DIRECTORY_FRAME, d);
    }
    forall q | 0 <= q < TOTAL_FRAMES
      ensures PageFrame(w', q) ==
              if q != page then PageFrame(w, q)
              else if Present(entry) then Some(FrameOf(entry)) else None
    {
      if HasTable(w, q / PAGE_ENTRIES) {
        SetTableEntryWords(w, table, k, entry, TableFrame(w, q / PAGE_ENTRIES), q % PAGE_ENTRIES);
      }
    }
  }

  /** No other directory entry names the table of entry d. */
  predicate SoleTable(w: Memory, d: int)
    requires Reachable(w) && 0 <= d < PAGE_ENTRIES
  {
    forall e :: 0 <= e < PAGE_ENTRIES && e != d && HasTable(w, e) ==> TableFrame(w, e) != TableFrame(w, d)
  }

  /** A write to a table moves the page at that index of every directory entry
      that names the table. */
  lemma SharedTableEntry(w: Memory, table: int, k: int, entry: Word, q: int)
    requires Reachable(w) && 0 <= table < Frames(w) && table != DIRECTORY_FRAME
    requires 0 <= k < PAGE_ENTRIES && 0 <= q < TOTAL_FRAMES
    ensures var w' := SetTableEntry(w, table, k, entry);
            && Reachable(w')
            && PageFrame(w', q) ==
               if HasTable(w, q / PAGE_ENTRIES) && TableFrame(w, q / PAGE_ENTRIES) == table && q % PAGE_ENTRIES == k
               then if Present(entry) then Some(FrameOf(entry)) else None
               else PageFrame(w, q)
  {
    var w' := SetTableEntry(w, table, k, entry);
    forall d | 0 <= d < PAGE_ENTRIES
      ensures DirEntry(w', d) == DirEntry(w, d)
    {
      SetTableEntryWords(w, table, k, entry, DIRECTORY_FRAME, d);
    }
    assert forall d :: 0 <= d < PAGE_ENTRIES ==>
             (HasTable(w', d) <==> HasTable(w, d)) && TableFrame(w', d) == TableFrame(w, d);
    if HasTable(w, q / PAGE_ENTRIES) {
      SetTableEntryWords(w, table, k, entry, TableFrame(w, q / PAGE_ENTRIES), q % PAGE_ENTRIES);
    }
  }

  /** The write moves no page but page k of entry d. */
  ghost predicate MovesOnePage(w: Memory, d: int, k: int, entry: Word)
    requires Reachable(w) && 0 <= d < PAGE_ENTRIES && HasTable(w, d) && 0 <= k < PAGE_ENTRIES
  {
    var w' := SetTableEntry(w, TableFrame(w, d), k, entry);
    && Reachable(w')
    && forall q :: 0 <= q < TOTAL_FRAMES && q != d * PAGE_ENTRIES + k ==> PageFrame(w', q) == PageFrame(w, q)
  }

  /** Whatever is written into a present table moves one page only, if and only
      if no other directory entry names that table. */
  lemma OnePageIffSole(w: Memory, d: int, k: int)
    requires Reachable(w) && 0 <= d < PAGE_ENTRIES && HasTable(w, d) && 0 <= k < PAGE_ENTRIES
    requires TableFrame(w, d) != DIRECTORY_FRAME
    ensures SoleTable(w, d) <==> forall entry: Word :: MovesOnePage(w, d, k, entry)
  {
    var table := TableFrame(w, d);
    if SoleTable(w, d) {
      forall entry: Word
        ensures MovesOnePage(w, d, k, entry)
      {
        SharedTableEntry(w, table, k, entry, 0);
        forall q | 0 <= q < TOTAL_FRAMES && q != d * PAGE_ENTRIES + k
          ensures PageFrame(SetTableEntry(w, table, k, entry), q) == PageFrame(w, q)
        {
          SharedTableEntry(w, table, k, entry, q);
        }
      }
    } else {
      var e :| 0 <= e < PAGE_ENTRIES && e != d && HasTable(w, e) && TableFrame(w, e) == table;
      var q := e * PAGE_ENTRIES + k;
      var entry: Word := if PageFrame(w, q) == None then 1 else 0;
      assert q / PAGE_ENTRIES == e && q % PAGE_ENTRIES == k;
      SharedTableEntry(w, table, k, entry, q);
      assert !MovesOnePage(w, d, k, entry);
    }
  }

  // ---- Mapping and unmapping ----

  function TableFlags(flags: Word): (r: Word) {
    if flags / PAGE_USER % 2 == 1 then PAGE_WRITABLE + PAGE_USER else PAGE_WRITABLE
  }

  /** Memory once the directory entry for `page` has a table; `table` is the
      frame taken for it when it had none. */
  function WithTable(w: Memory, page: int, flags: Word, table: int): (r: Memory)
    requires HasDirectory(w) && 0 <= page < TOTAL_FRAMES
    requires !HasTable(w, page / PAGE_ENTRIES) ==> 0 <= table < Frames(w) && table < TOTAL_FRAMES
    ensures |r| == |w|
  {
    if HasTable(w, page / PAGE_ENTRIES) then w
    else InstallTable(w, page / PAGE_ENTRIES, table, TableFlags(flags))
  }

  predicate CanMap(w: Memory, free: set<int>, page: int, table: int) {
    && Exclusive(w, free)
    && 0 <= page < TOTAL_FRAMES
    && (!HasTable(w, page / PAGE_ENTRIES) ==> table in free && 0 <= table < Frames(w) && table < TOTAL_FRAMES)
  }

  function FreeAfterMap(w: Memory, free: set<int>, page: int, table: int): (r: set<int>)
    requires HasDirectory(w) && 0 <= page < TOTAL_FRAMES
  {
    if HasTable(w, page / PAGE_ENTRIES) then free else free - {table}
  }

  lemma WithTableKeepsMap(w: Memory, free: set<int>, page: int, flags: Word, table: int)
    requires CanMap(w, free, page, table)
    ensures var w' := WithTable(w, page, flags, table);
            && Exclusive(w', FreeAfterMap(w, free, page, table))
            && HasTable(w', page / PAGE_ENTRIES)
            && forall q :: 0 <= q < TOTAL_FRAMES ==> PageFrame(w', q) == PageFrame(w, q)
  {
    if !HasTable(w, page / PAGE_ENTRIES) {
      InstallTableKeepsMap(w, free, page / PAGE_ENTRIES, table, TableFlags(flags));
    }
  }

  function MapWords(w: Memory, free: set<int>, page: int, frame: int, flags: Word, table: int): (r: Memory)
    requires CanMap(w, free, page, table) && 0 <= frame < TOTAL_FRAMES
    ensures |r| == |w|
  {
    WithTableKeepsMap(w, free, page, flags, table);
    var w1 := WithTable(w, page, flags, table);
    SetTableEntry(w1, TableFrame(w1, page / PAGE_ENTRIES), page % PAGE_ENTRIES, Entry(frame, flags))
  }

  function UnmapWords(w: Memory, page: int): (r: Memory)
    requires Reachable(w) && 0 <= page < TOTAL_FRAMES
    ensures |r| == |w|
  {
    if HasTable(w, page / PAGE_ENTRIES)
    then SetTableEntry(w, TableFrame(w, page / PAGE_ENTRIES), page % PAGE_ENTRIES, 0)
    else w
  }

  /** How many frames a mapping takes for tables. */
  function TablesToMap(w: Memory, page: int): (n: nat)
    requires HasDirectory(w) && 0 <= page < TOTAL_FRAMES
  {
    if HasTable(w, page / PAGE_ENTRIES) then 0 else 1
  }

  /** A successful mapping adds one pair to the partial map and nothing else,
      even when it had to create a table. */
  lemma MapIsUpdate(w: Memory, free: set<int>, page: int, frame: int, flags: Word, table: int)
    requires CanMap(w, free, page, table) && 0 <= frame < TOTAL_FRAMES
    ensures var w' := MapWords(w, free, page, frame, flags, table);
            && Exclusive(w', FreeAfterMap(w, free, page, table))
            && forall q :: 0 <= q < TOTAL_FRAMES ==>
                 PageFrame(w', q) == if q == page then Some(frame) else PageFrame(w, q)
  {
    WithTableKeepsMap(w, free, page, flags, table);
    var w1 := WithTable(w, page, flags, table);
    SetTableEntryMap(w1, FreeAfterMap(w, free, page, table), page, Entry(frame, flags));
  }

  lemma UnmapIsRemoval(w: Memory, free: set<int>, page: int)
    requires Exclusive(w, free) && 0 <= page < TOTAL_FRAMES
    ensures var w' := UnmapWords(w, page);
            && Exclusive(w', free)
            && forall q :: 0 <= q < TOTAL_FRAMES ==>
                 PageFrame(w', q) == if q == page then None else PageFrame(w, q)
  {
    if HasTable(w, page / PAGE_ENTRIES) {
      SetTableEntryMap(w, free, page, 0);
    }
  }

  /** On addresses: exactly the 4096 addresses of the page move. */
  lemma MapTranslates(w: Memory, free: set<int>, page: int, frame: int, flags: Word, table: int, v: Word)
    requires CanMap(w, free, page, table) && 0 <= frame < TOTAL_FRAMES
    ensures var w' := MapWords(w, free, page, frame, flags, table);
            && Reachable(w')
            && Translate(w', v) ==
               if page * PAGE_SIZE <= v < (page + 1) * PAGE_SIZE then frame * PAGE_SIZE + (v - page * PAGE_SIZE)
               else Translate(w, v)
  {
    MapIsUpdate(w, free, page, frame, flags, table);
  }

  /** Mapping an unmapped page and unmapping it again restores every translation. */
  lemma MapUnmapRestores(w: Memory, free: set<int>, page: int, frame: int, flags: Word, table: int, v: Word)
    requires CanMap(w, free, page, table) && 0 <= frame < TOTAL_FRAMES
    requires PageFrame(w, page) == None
    ensures var w' := MapWords(w, free, page, frame, flags, table);
            Reachable(w') && Reachable(UnmapWords(w', page)) && Translate(UnmapWords(w', page), v) == Translate(w, v)
  {
    MapIsUpdate(w, free, page, frame, flags, table);
    var w' := MapWords(w, free, page, frame, flags, table);
    UnmapIsRemoval(w', FreeAfterMap(w, free, page, table), page);
  }

  /** Only the page's table, a new table and the directory are written. */
  lemma MapTouchesOnlyTables(w: Memory, free: set<int>, page: int, frame: int, flags: Word, table: int, other: int)
    requires CanMap(w, free, page, table) && 0 <= frame < TOTAL_FRAMES
    requires 0 <= other < Frames(w) && other != DIRECTORY_FRAME && !IsTable(w, other)
    requires HasTable(w, page / PAGE_ENTRIES) || other != table
    ensures SameFrame(w, MapWords(w, free, page, frame, flags, table), other)
  {
    WithTableKeepsMap(w, free, page, flags, table);
    var w1 := WithTable(w, page, flags, table);
    var w' := MapWords(w, free, page, frame, flags, table);
    var d := page / PAGE_ENTRIES;
    forall k | 0 <= k < PAGE_ENTRIES
      ensures WordAt(w', other, k) == WordAt(w, other, k)
    {
      if HasTable(w, d) {
        assert TableFrame(w, d) != other;
      } else {
        InstallTableWords(w, d, table, TableFlags(flags), other, k);
        InstallTableKeepsMap(w, free, d, table, TableFlags(flags));
      }
      SetTableEntryWords(w1, TableFrame(w1, d), page % PAGE_ENTRIES, Entry(frame, flags), other, k);
    }
  }

  /** The tables after a mapping are the old ones plus the new one. */
  lemma TablesAfterMap(w: Memory, free: set<int>, page: int, frame: int, flags: Word, table: int, other: int)
    requires CanMap(w, free, page, table) && 0 <= frame < TOTAL_FRAMES
    ensures var w' := MapWords(w, free, page, frame, flags, table);
            && HasDirectory(w')
            && HasTable(w', page / PAGE_ENTRIES)
            && (IsTable(w', other) ==> IsTable(w, other) || (!HasTable(w, page / PAGE_ENTRIES) && other == table))
            && (forall d :: 0 <= d < PAGE_ENTRIES && d != page / PAGE_ENTRIES ==> DirEntry(w', d) == DirEntry(w, d))
  {
    WithTableKeepsMap(w, free, page, flags, table);
    var w1 := WithTable(w, page, flags, table);
    var w' := MapWords(w, free, page, frame, flags, table);
    if !HasTable(w, page / PAGE_ENTRIES) {
      InstallTableKeepsMap(w, free, page / PAGE_ENTRIES, table, TableFlags(flags));
    }
    SetTableEntryMap(w1, FreeAfterMap(w, free, page, table), page, Entry(frame, flags));
    if IsTable(w', other) {
      var d :| 0 <= d < PAGE_ENTRIES && HasTable(w', d) && TableFrame(w', d) == other;
      assert DirEntry(w', d) == DirEntry(w1, d);
      if d != page / PAGE_ENTRIES || HasTable(w, d) {
        assert HasTable(w, d) && TableFrame(w, d) == other;
      }
    }
  }

  /** The words a mapping stores: in the page's entry the frame's address with the
      flags and the present bit, and in a new table's directory entry its address,
      present and writable, for user mode exactly when the flags ask for it. All
      other entries of a new table are 0. */
  lemma MapStores(w: Memory, free: set<int>, page: int, frame: int, flags: Word, table: int, j: int)
    requires CanMap(w, free, page, table) && 0 <= frame < TOTAL_FRAMES && 0 <= j < 1024
    ensures var w' := MapWords(w, free, page, frame, flags, table);
            var d, k := page / 1024, page % 1024;
            && HasDirectory(w') && HasTable(w', d) && TableFrame(w', d) < Frames(w')
            && WordAt(w', TableFrame(w', d), k) ==
               4096 * frame + (if flags % 2 == 1 then flags % 4096 else flags % 4096 + 1)
            && (HasTable(w, d) ==> DirEntry(w', d) == DirEntry(w, d))
            && (!HasTable(w, d) ==>
                  && DirEntry(w', d) == 4096 * table + (if flags / 4 % 2 == 1 then 7 else 3)
                  && TableFrame(w', d) == table
                  && (j != k ==> WordAt(w', table, j) == 0))
  {
    WithTableKeepsMap(w, free, page, flags, table);
    var d, k, w1 := page / PAGE_ENTRIES, page % PAGE_ENTRIES, WithTable(w, page, flags, table);
    SetTableEntryMap(w1, FreeAfterMap(w, free, page, table), page, Entry(frame, flags));
    var t := TableFrame(w1, d);
    SetTableEntryWords(w1, t, k, Entry(frame, flags), t, k);
    assert DirEntry(MapWords(w, free, page, frame, flags, table), d) == DirEntry(w1, d);
    FlagParity(flags);
    if !HasTable(w, d) {
      InstallTableWords(w, d, table, TableFlags(flags), DIRECTORY_FRAME, d);
      InstallTableWords(w, d, table, TableFlags(flags), table, j);
      SetTableEntryWords(w1, t, k, Entry(frame, flags), t, j);
    }
  }

  lemma FlagParity(flags: Word)
    ensures flags % 4096 % 2 == flags % 2
  {
  }

  /** Unmapping stores 0 in the page's entry. */
  lemma UnmapStores(w: Memory, free: set<int>, page: int)
    requires Exclusive(w, free) && 0 <= page < TOTAL_FRAMES && HasTable(w, page / 1024)
    ensures WordAt(UnmapWords(w, page), TableFrame(w, page / 1024), page % 1024) == 0
  {
    SetTableEntryWords(w, TableFrame(w, page / 1024), page % 1024, 0, TableFrame(w, page / 1024), page % 1024);
  }
}

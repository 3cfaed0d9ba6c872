/** Who owns which frame: the kernel window, the heap range and the page tables,
    and the flat array of words that the heap range looks like to the kernel. */
module KernelSpace {
  import opened Machine
  import opened PageTables

  const HEAP_START: int := 0xC100_0000
  const HEAP_END: int := 0xE000_0000
  const HEAP_FIRST_PAGE: int := 0xC_1000
  const HEAP_LAST_PAGE: int := 0xE_0000
  const HEAP_PAGES: int := 0x1_F000
  const WINDOW_PAGE: int := 0xC_0000
  const WINDOW_DIRECTORY: int := 768
  const WINDOW_TABLE: int := 10

  predicate HeapPage(page: int) {
    HEAP_FIRST_PAGE <= page < HEAP_LAST_PAGE
  }

  predicate WindowPage(page: int) {
    WINDOW_PAGE <= page < WINDOW_PAGE + PAGE_ENTRIES
  }

  /** A page outside the window: of the heap, or of whoever maps pages. */
  predicate PrivatePage(page: int) {
    0 <= page < TOTAL_FRAMES && !WindowPage(page)
  }

  /** The loader's table sits in low memory; every other table came from the
      allocator and lies outside the reserved frames. */
  predicate TablesOwned(w: Memory, reserved: set<int>)
    requires HasDirectory(w)
  {
    forall d :: 0 <= d < PAGE_ENTRIES && HasTable(w, d) ==>
      if d == WINDOW_DIRECTORY then TableFrame(w, d) == WINDOW_TABLE else TableFrame(w, d) !in reserved
  }

  ghost predicate WindowIntact(w: Memory)
    requires Reachable(w)
  {
    forall page :: WindowPage(page) ==> PageFrame(w, page) == Some(page - WINDOW_PAGE)
  }

  /** A frame behind a page outside the window is nobody else's. */
  predicate PrivateFrame(w: Memory, free: set<int>, reserved: set<int>, frame: int)
    requires HasDirectory(w)
  {
    && 0 < frame < Frames(w)
    && frame !in free
    && frame !in reserved
    && !IsTable(w, frame)
  }

  ghost predicate PrivateFramesOwned(w: Memory, free: set<int>, reserved: set<int>)
    requires Reachable(w)
  {
    && (forall page :: PrivatePage(page) && PageFrame(w, page).Some? ==>
          PrivateFrame(w, free, reserved, PageFrame(w, page).value))
    && (forall p, q :: PrivatePage(p) && PrivatePage(q) && p != q && PageFrame(w, p).Some? ==>
          PageFrame(w, p) != PageFrame(w, q))
  }

  /** The ownership invariant over the whole of memory. */
  ghost predicate Owned(w: Memory, free: set<int>, reserved: set<int>) {
    && Exclusive(w, free)
    && free !! reserved
    && DIRECTORY_FRAME in reserved && WINDOW_TABLE in reserved
    && TablesOwned(w, reserved)
    && WindowIntact(w)
    && PrivateFramesOwned(w, free, reserved)
  }

  /** The first n heap pages are present. */
  predicate Committed(w: Memory, n: nat)
    requires Reachable(w)
  {
    && n <= HEAP_PAGES
    && forall page :: HEAP_FIRST_PAGE <= page < HEAP_FIRST_PAGE + n ==> PageFrame(w, page).Some?
  }

  // ---- The heap range as a flat array of words ----

  /** Word i of the heap range is the word at address HEAP_START + 4 * i. */
  function WordAddress(i: int): (v: int) {
    HEAP_START + 4 * i
  }

  function WordPage(i: int): (page: int) {
    HEAP_FIRST_PAGE + i / PAGE_ENTRIES
  }

  lemma WordAddressSplits(i: nat)
    ensures WordAddress(i) / PAGE_SIZE == WordPage(i)
    ensures WordAddress(i) % PAGE_SIZE == 4 * (i % PAGE_ENTRIES)
    ensures WordAddress(i) % PAGE_SIZE / 4 == i % PAGE_ENTRIES
  {
  }

  ghost predicate Viewable(w: Memory, free: set<int>, reserved: set<int>, n: nat) {
    Owned(w, free, reserved) && Committed(w, n)
  }

  lemma WordMapped(w: Memory, free: set<int>, reserved: set<int>, n: nat, i: int)
    requires Viewable(w, free, reserved, n) && 0 <= i < n * PAGE_ENTRIES
    ensures HeapPage(WordPage(i)) && PageFrame(w, WordPage(i)).Some?
    ensures PrivateFrame(w, free, reserved, PageFrame(w, WordPage(i)).value)
  {
    assert WordPage(i) < HEAP_FIRST_PAGE + n;
    assert PrivatePage(WordPage(i));
  }

  ghost function FlatWord(w: Memory, free: set<int>, reserved: set<int>, n: nat, i: int): (x: Word)
    requires Viewable(w, free, reserved, n) && 0 <= i < n * PAGE_ENTRIES
  {
    WordMapped(w, free, reserved, n, i);
    WordAt(w, PageFrame(w, WordPage(i)).value, i % PAGE_ENTRIES)
  }

  ghost function Flat(w: Memory, free: set<int>, reserved: set<int>, n: nat): (r: seq<Word>)
    requires Viewable(w, free, reserved, n)
    ensures |r| == n * PAGE_ENTRIES
  {
    seq(n * PAGE_ENTRIES, i requires 0 <= i < n * PAGE_ENTRIES => FlatWord(w, free, reserved, n, i))
  }

  lemma FlatAt(w: Memory, free: set<int>, reserved: set<int>, n: nat, i: int)
    requires Viewable(w, free, reserved, n) && 0 <= i < n * PAGE_ENTRIES
    ensures Flat(w, free, reserved, n)[i] == FlatWord(w, free, reserved, n, i)
  {
  }

  /** Storing through the address of heap word i. */
  ghost function StoreWord(w: Memory, free: set<int>, reserved: set<int>, n: nat, i: int, x: Word): (r: Memory)
    requires Viewable(w, free, reserved, n) && 0 <= i < n * PAGE_ENTRIES
    ensures |r| == |w|
  {
    WordMapped(w, free, reserved, n, i);
    SetTableEntry(w, PageFrame(w, WordPage(i)).value, i % PAGE_ENTRIES, x)
  }

  /** Whatever is stored in a frame that holds no table, the directory, the
      tables and so every translation stay as they are. */
  lemma StoreOutsideTables(w: Memory, free: set<int>, frame: int, k: int, x: Word)
    requires Exclusive(w, free) && 0 <= frame < Frames(w) && 0 <= k < PAGE_ENTRIES
    requires frame != DIRECTORY_FRAME && !IsTable(w, frame)
    ensures var w' := SetTableEntry(w, frame, k, x);
            && Exclusive(w', free)
            && (forall d :: 0 <= d < PAGE_ENTRIES ==> DirEntry(w', d) == DirEntry(w, d))
            && (forall page :: 0 <= page < TOTAL_FRAMES ==> PageFrame(w', page) == PageFrame(w, page))
  {
    FrameContentsIrrelevant(w, SetTableEntry(w, frame, k, x), free, frame);
  }

  /** Ownership depends only on the directory and on the translations. */
  lemma SameMapSameOwners(w: Memory, w': Memory, free: set<int>, reserved: set<int>)
    requires Owned(w, free, reserved) && Exclusive(w', free) && |w'| == |w|
    requires forall d :: 0 <= d < PAGE_ENTRIES ==> DirEntry(w', d) == DirEntry(w, d)
    requires forall page :: 0 <= page < TOTAL_FRAMES ==> PageFrame(w', page) == PageFrame(w, page)
    ensures Owned(w', free, reserved)
    ensures forall frame :: IsTable(w', frame) <==> IsTable(w, frame)
  {
    SameTables(w, w');
  }

  /** The paged heap behaves like an array: a store changes the addressed word
      of the flat view and nothing else, and moves no page. */
  lemma StoreIsFlatUpdate(w: Memory, free: set<int>, reserved: set<int>, n: nat, i: int, x: Word)
    requires Viewable(w, free, reserved, n) && 0 <= i < n * PAGE_ENTRIES
    ensures var w' := StoreWord(w, free, reserved, n, i, x);
            && Viewable(w', free, reserved, n)
            && (forall d :: 0 <= d < PAGE_ENTRIES ==> DirEntry(w', d) == DirEntry(w, d))
            && (forall page :: 0 <= page < TOTAL_FRAMES ==> PageFrame(w', page) == PageFrame(w, page))
            && Flat(w', free, reserved, n) == Flat(w, free, reserved, n)[i := x]
  {
    WordMapped(w, free, reserved, n, i);
    var frame, k := PageFrame(w, WordPage(i)).value, i % PAGE_ENTRIES;
    StoreOutsideTables(w, free, frame, k, x);
    var w' := StoreWord(w, free, reserved, n, i, x);
    SameMapSameOwners(w, w', free, reserved);
    var before, after := Flat(w, free, reserved, n), Flat(w', free, reserved, n);
    forall j | 0 <= j < |before|
      ensures after[j] == before[i := x][j]
    {
      FlatAt(w, free, reserved, n, j);
      FlatAt(w', free, reserved, n, j);
      WordMapped(w, free, reserved, n, j);
      SetTableEntryWords(w, frame, k, x, PageFrame(w, WordPage(j)).value, j % PAGE_ENTRIES);
      if j != i && WordPage(j) == WordPage(i) {
        assert j % PAGE_ENTRIES != k;
      }
    }
  }

  /** Taking frames away from the allocator disturbs no owner. */
  lemma OwnedFewer(w: Memory, free: set<int>, free': set<int>, reserved: set<int>)
    requires Owned(w, free, reserved) && free' <= free
    ensures Owned(w, free', reserved)
  {
    forall page | PrivatePage(page) && PageFrame(w, page).Some?
      ensures PrivateFrame(w, free', reserved, PageFrame(w, page).value)
    {
      assert PrivateFrame(w, free, reserved, PageFrame(w, page).value);
    }
  }

  /** The flat view does not depend on the free set. */
  lemma FlatIgnoresFree(w: Memory, free: set<int>, free': set<int>, reserved: set<int>, n: nat)
    requires Viewable(w, free, reserved, n) && Viewable(w, free', reserved, n)
    ensures Flat(w, free', reserved, n) == Flat(w, free, reserved, n)
  {
    var a, b := Flat(w, free, reserved, n), Flat(w, free', reserved, n);
    forall i | 0 <= i < |a|
      ensures b[i] == a[i]
    {
      FlatAt(w, free, reserved, n, i);
      FlatAt(w, free', reserved, n, i);
    }
  }

  // ---- Other pages ----

  /** A page outside the window that is no committed heap page. */
  predicate OtherPage(page: int, n: nat) {
    PrivatePage(page) && !(HEAP_FIRST_PAGE <= page < HEAP_FIRST_PAGE + n)
  }

  /** What is stored in a frame behind no committed page, and in no table, is
      nothing to the heap. */
  lemma OtherFrameKeepsView(w: Memory, w': Memory, free: set<int>, reserved: set<int>, n: nat, frame: int)
    requires Viewable(w, free, reserved, n) && OnlyFrameChanged(w, w', frame)
    requires frame != DIRECTORY_FRAME && !IsTable(w, frame)
    requires forall page :: HEAP_FIRST_PAGE <= page < HEAP_FIRST_PAGE + n ==> PageFrame(w, page) != Some(frame)
    ensures Viewable(w', free, reserved, n)
    ensures Flat(w', free, reserved, n) == Flat(w, free, reserved, n)
    ensures forall page :: 0 <= page < TOTAL_FRAMES ==> PageFrame(w', page) == PageFrame(w, page)
  {
    FrameContentsIrrelevant(w, w', free, frame);
    SameMapSameOwners(w, w', free, reserved);
    var before, after := Flat(w, free, reserved, n), Flat(w', free, reserved, n);
    forall j | 0 <= j < |before|
      ensures after[j] == before[j]
    {
      FlatAt(w, free, reserved, n, j);
      FlatAt(w', free, reserved, n, j);
      WordMapped(w, free, reserved, n, j);
      OtherFrameKept(w, w', frame, PageFrame(w, WordPage(j)).value, j % PAGE_ENTRIES);
    }
  }

  /** Unmapping another page keeps all owners and every committed word. */
  lemma UnmapKeepsView(w: Memory, free: set<int>, reserved: set<int>, n: nat, page: int)
    requires Viewable(w, free, reserved, n) && OtherPage(page, n)
    ensures var w' := UnmapWords(w, page);
            && Viewable(w', free, reserved, n)
            && Flat(w', free, reserved, n) == Flat(w, free, reserved, n)
            && forall q :: 0 <= q < TOTAL_FRAMES ==> PageFrame(w', q) == if q == page then None else PageFrame(w, q)
  {
    UnmapIsRemoval(w, free, page);
    UnmapKeepsOwners(w, free, reserved, page);
    var w' := UnmapWords(w, page);
    var before, after := Flat(w, free, reserved, n), Flat(w', free, reserved, n);
    forall j | 0 <= j < |before|
      ensures after[j] == before[j]
    {
      FlatAt(w, free, reserved, n, j);
      FlatAt(w', free, reserved, n, j);
      WordMapped(w, free, reserved, n, j);
      if HasTable(w, page / PAGE_ENTRIES) {
        assert IsTable(w, TableFrame(w, page / PAGE_ENTRIES));
        SetTableEntryWords(w, TableFrame(w, page / PAGE_ENTRIES), page % PAGE_ENTRIES, 0,
                           PageFrame(w, WordPage(j)).value, j % PAGE_ENTRIES);
      }
    }
  }

  lemma UnmapKeepsOwners(w: Memory, free: set<int>, reserved: set<int>, page: int)
    requires Owned(w, free, reserved) && PrivatePage(page)
    ensures Owned(UnmapWords(w, page), free, reserved)
  {
    var w' := UnmapWords(w, page);
    UnmapIsRemoval(w, free, page);
    UnmapKeepsDirectory(w, free, page);
    SameTables(w, w');
    hide UnmapWords;
    hide PageFrame;
    hide HasTable;
    hide TableFrame;
    hide DirEntry;
    hide IsTable;
    forall q | PrivatePage(q) && PageFrame(w', q).Some?
      ensures PrivateFrame(w', free, reserved, PageFrame(w', q).value)
    {
      assert q != page && PageFrame(w', q) == PageFrame(w, q);
      assert PrivateFrame(w, free, reserved, PageFrame(w, q).value);
    }
  }

  lemma UnmapKeepsDirectory(w: Memory, free: set<int>, page: int)
    requires Exclusive(w, free) && 0 <= page < TOTAL_FRAMES
    ensures HasDirectory(UnmapWords(w, page))
    ensures forall d :: 0 <= d < PAGE_ENTRIES ==> DirEntry(UnmapWords(w, page), d) == DirEntry(w, d)
  {
    if HasTable(w, page / PAGE_ENTRIES) {
      SetTableEntryMap(w, free, page, 0);
    }
  }

  /** With the same directory, the same frames are tables. */
  lemma SameTables(w: Memory, w': Memory)
    requires HasDirectory(w) && HasDirectory(w')
    requires forall d :: 0 <= d < PAGE_ENTRIES ==> DirEntry(w', d) == DirEntry(w, d)
    ensures forall d :: 0 <= d < PAGE_ENTRIES ==> (HasTable(w', d) <==> HasTable(w, d))
    ensures forall d :: 0 <= d < PAGE_ENTRIES ==> TableFrame(w', d) == TableFrame(w, d)
    ensures forall frame :: IsTable(w', frame) <==> IsTable(w, frame)
  {
    forall d | 0 <= d < PAGE_ENTRIES
      ensures HasTable(w', d) <==> HasTable(w, d)
      ensures TableFrame(w', d) == TableFrame(w, d)
    {
    }
    forall frame
      ensures IsTable(w', frame) <==> IsTable(w, frame)
    {
      if IsTable(w, frame) {
        var d :| 0 <= d < PAGE_ENTRIES && HasTable(w, d) && TableFrame(w, d) == frame;
        assert HasTable(w', d) && TableFrame(w', d) == frame;
      }
      if IsTable(w', frame) {
        var d :| 0 <= d < PAGE_ENTRIES && HasTable(w', d) && TableFrame(w', d) == frame;
        assert HasTable(w, d) && TableFrame(w, d) == frame;
      }
    }
  }

  // ---- Adding a page ----

  /** One page more: frame from the allocator, mapped outside the window. */
  lemma GrowKeepsOwners(w: Memory, free: set<int>, reserved: set<int>, page: int, frame: int, flags: Word, table: int)
    requires Owned(w, free, reserved) && PrivatePage(page)
    requires frame in free && 0 < frame < Frames(w) && frame < TOTAL_FRAMES
    requires CanMap(w, free - {frame}, page, table)
    ensures var w' := MapWords(w, free - {frame}, page, frame, flags, table);
            && Owned(w', FreeAfterMap(w, free - {frame}, page, table), reserved)
            && (forall q :: 0 <= q < TOTAL_FRAMES ==>
                  PageFrame(w', q) == if q == page then Some(frame) else PageFrame(w, q))
  {
    var free1 := free - {frame};
    var w' := MapWords(w, free1, page, frame, flags, table);
    var free' := FreeAfterMap(w, free1, page, table);
    MapIsUpdate(w, free1, page, frame, flags, table);
    TablesAfterMap(w, free1, page, frame, flags, table, frame);
    forall d | 0 <= d < PAGE_ENTRIES && HasTable(w', d)
      ensures if d == WINDOW_DIRECTORY then TableFrame(w', d) == WINDOW_TABLE else TableFrame(w', d) !in reserved
    {
      if d != page / PAGE_ENTRIES {
        assert HasTable(w, d);
      } else {
        GrowTable(w, free1, page, frame, flags, table);
      }
    }
    forall q | PrivatePage(q) && PageFrame(w', q).Some?
      ensures PrivateFrame(w', free', reserved, PageFrame(w', q).value)
    {
      var f := PageFrame(w', q).value;
      TablesAfterMap(w, free1, page, frame, flags, table, f);
      if q == page {
        assert !IsTable(w, frame);
      } else {
        assert PrivateFrame(w, free, reserved, f);
      }
    }
    forall p, q | PrivatePage(p) && PrivatePage(q) && p != q && PageFrame(w', p).Some?
      ensures PageFrame(w', p) != PageFrame(w', q)
    {
      assert PageFrame(w, p) == Some(frame) ==> PrivateFrame(w, free, reserved, frame);
      assert PageFrame(w, q) == Some(frame) ==> PrivateFrame(w, free, reserved, frame);
    }
  }

  /** Directory entries that pages page .. page + n - 1 fall under. */
  predicate UnderPages(page: int, n: nat, d: int) {
    0 < n && page / PAGE_ENTRIES <= d <= (page + n - 1) / PAGE_ENTRIES
  }

  /** Those of them that have no table yet. */
  function MissingTables(w: Memory, page: int, n: nat): (r: set<int>)
    requires HasDirectory(w)
  {
    set d | 0 <= d < PAGE_ENTRIES && UnderPages(page, n, d) && !HasTable(w, d)
  }

  /** One page more needs at most one table more: its own, unless an earlier
      page brought it along. */
  lemma MissingTablesStep(w: Memory, page: int, n: nat)
    requires HasDirectory(w) && 0 <= page && page + n < TOTAL_FRAMES
    ensures var d := (page + n) / PAGE_ENTRIES;
            |MissingTables(w, page, n + 1)| ==
            |MissingTables(w, page, n)| + if HasTable(w, d) || UnderPages(page, n, d) then 0 else 1
    ensures forall d :: UnderPages(page, n + 1, d) <==> UnderPages(page, n, d) || d == (page + n) / PAGE_ENTRIES
  {
    hide UnderPages;
    hide HasTable;
    forall d
      ensures UnderPages(page, n + 1, d) <==> UnderPages(page, n, d) || d == (page + n) / PAGE_ENTRIES
    {
      UnderOneMore(page, n, d);
    }
    var d := (page + n) / PAGE_ENTRIES;
    var added := if HasTable(w, d) || UnderPages(page, n, d) then {} else {d};
    assert MissingTables(w, page, n + 1) == MissingTables(w, page, n) + added;
    assert MissingTables(w, page, n) !! added;
  }

  lemma UnderOneMore(page: int, n: nat, d: int)
    requires 0 <= page
    ensures UnderPages(page, n + 1, d) <==> UnderPages(page, n, d) || d == (page + n) / PAGE_ENTRIES
  {
    if n > 0 {
      NextQuotient(page + n - 1);
      QuotientGrows(page, page + n - 1);
    }
  }

  lemma NextQuotient(x: int)
    ensures x / PAGE_ENTRIES <= (x + 1) / PAGE_ENTRIES <= x / PAGE_ENTRIES + 1
  {
  }

  lemma QuotientGrows(x: int, y: int)
    requires x <= y
    ensures x / PAGE_ENTRIES <= y / PAGE_ENTRIES
  {
  }

  lemma NoPagesNoTables(w: Memory, page: int)
    requires HasDirectory(w)
    ensures |MissingTables(w, page, 0)| == 0 && forall d :: !UnderPages(page, 0, d)
  {
    assert MissingTables(w, page, 0) == {};
  }

  lemma MissingTablesGrow(w: Memory, page: int, n: nat, m: nat)
    requires HasDirectory(w) && n <= m
    ensures |MissingTables(w, page, n)| <= |MissingTables(w, page, m)|
  {
    SubsetSize(MissingTables(w, page, n), MissingTables(w, page, m));
  }

  /** A mapping adds its page's table, if that is missing, and takes a frame for it. */
  lemma MappedTables(w: Memory, free: set<int>, page: int, frame: int, flags: Word, table: int)
    requires CanMap(w, free, page, table) && 0 <= frame < TOTAL_FRAMES
    ensures var w' := MapWords(w, free, page, frame, flags, table);
            && HasDirectory(w')
            && (forall d :: 0 <= d < PAGE_ENTRIES ==> (HasTable(w', d) <==> HasTable(w, d) || d == page / PAGE_ENTRIES))
            && (forall d :: 0 <= d < PAGE_ENTRIES && HasTable(w, d) ==> TableFrame(w', d) == TableFrame(w, d))
            && (!HasTable(w, page / PAGE_ENTRIES) ==> TableFrame(w', page / PAGE_ENTRIES) == table)
    ensures |FreeAfterMap(w, free, page, table)| == |free| - TablesToMap(w, page)
  {
    TablesAfterMap(w, free, page, frame, flags, table, frame);
    GrowTable(w, free, page, frame, flags, table);
    var w' := MapWords(w, free, page, frame, flags, table);
    forall d | 0 <= d < PAGE_ENTRIES
      ensures HasTable(w', d) <==> HasTable(w, d) || d == page / PAGE_ENTRIES
      ensures d != page / PAGE_ENTRIES ==> TableFrame(w', d) == TableFrame(w, d)
    {
      if d != page / PAGE_ENTRIES {
        assert DirEntry(w', d) == DirEntry(w, d);
      }
    }
  }

  /** The table behind the grown page is the old one or the frame just taken. */
  lemma GrowTable(w: Memory, free: set<int>, page: int, frame: int, flags: Word, table: int)
    requires CanMap(w, free, page, table) && 0 <= frame < TOTAL_FRAMES
    ensures var w' := MapWords(w, free, page, frame, flags, table);
            && HasDirectory(w')
            && TableFrame(w', page / PAGE_ENTRIES) ==
               if HasTable(w, page / PAGE_ENTRIES) then TableFrame(w, page / PAGE_ENTRIES) else table
  {
    var d := page / PAGE_ENTRIES;
    WithTableKeepsMap(w, free, page, flags, table);
    var w1 := WithTable(w, page, flags, table);
    if !HasTable(w, d) {
      InstallTableKeepsMap(w, free, d, table, TableFlags(flags));
    }
    SetTableEntryMap(w1, FreeAfterMap(w, free, page, table), page, Entry(frame, flags));
    assert DirEntry(MapWords(w, free, page, frame, flags, table), d) == DirEntry(w1, d);
  }

  /** Mapping any other page leaves every committed word in place. */
  lemma GrowKeepsFlat(w: Memory, free: set<int>, reserved: set<int>, n: nat,
                      page: int, frame: int, flags: Word, table: int)
    requires Viewable(w, free, reserved, n) && OtherPage(page, n)
    requires frame in free && 0 < frame < Frames(w) && frame < TOTAL_FRAMES
    requires CanMap(w, free - {frame}, page, table)
    ensures var w' := MapWords(w, free - {frame}, page, frame, flags, table);
            var free' := FreeAfterMap(w, free - {frame}, page, table);
            && Viewable(w', free', reserved, n)
            && Flat(w', free', reserved, n) == Flat(w, free, reserved, n)
  {
    GrowKeepsOwners(w, free, reserved, page, frame, flags, table);
    var free1 := free - {frame};
    var w' := MapWords(w, free1, page, frame, flags, table);
    var free' := FreeAfterMap(w, free1, page, table);
    var before, after := Flat(w, free, reserved, n), Flat(w', free', reserved, n);
    forall j | 0 <= j < |before|
      ensures after[j] == before[j]
    {
      FlatAt(w, free, reserved, n, j);
      FlatAt(w', free', reserved, n, j);
      WordMapped(w, free, reserved, n, j);
      MapTouchesOnlyTables(w, free1, page, frame, flags, table, PageFrame(w, WordPage(j)).value);
    }
  }

  /** One round of growth in full: every owner keeps what it has, the new page
      is backed, and the frames spent are the page's and a missing table's. */
  lemma GrowMeaning(w: Memory, free: set<int>, reserved: set<int>, n: nat,
                    page: int, frame: int, flags: Word, table: int)
    requires Viewable(w, free, reserved, n) && OtherPage(page, n)
    requires frame in free && 0 < frame < Frames(w) && frame < TOTAL_FRAMES
    requires CanMap(w, free - {frame}, page, table)
    ensures var w' := MapWords(w, free - {frame}, page, frame, flags, table);
            var free' := FreeAfterMap(w, free - {frame}, page, table);
            && Viewable(w', free', reserved, n)
            && Flat(w', free', reserved, n) == Flat(w, free, reserved, n)
            && free' <= free && |free'| == |free| - 1 - TablesToMap(w, page)
            && (forall q :: 0 <= q < TOTAL_FRAMES ==>
                  PageFrame(w', q) == if q == page then Some(frame) else PageFrame(w, q))
            && (forall d :: 0 <= d < PAGE_ENTRIES ==> (HasTable(w', d) <==> HasTable(w, d) || d == page / PAGE_ENTRIES))
            && (forall d :: 0 <= d < PAGE_ENTRIES && HasTable(w, d) ==> TableFrame(w', d) == TableFrame(w, d))
            && (!HasTable(w, page / PAGE_ENTRIES) ==> TableFrame(w', page / PAGE_ENTRIES) == table)
  {
    GrowKeepsOwners(w, free, reserved, page, frame, flags, table);
    GrowKeepsFlat(w, free, reserved, n, page, frame, flags, table);
    MappedTables(w, free - {frame}, page, frame, flags, table);
  }
}

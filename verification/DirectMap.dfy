/** The kernel's fixed window onto physical memory: which frames it reaches, and
    when mapping pages stays within it. */
module DirectMap {
  import opened Machine
  import opened FrameRuns
  import opened PageTables
  import opened KernelSpace
  import Paging

  /** How many free frames lie below 4 MiB. */
  function LowFree(free: set<int>): (n: nat) {
    |set f | f in free && f < PAGE_ENTRIES|
  }

  /** The allocator takes the lowest frame, so low frames go first. */
  lemma LowestTaken(free: set<int>, total: nat)
    requires 0 !in free && (forall f :: f in free ==> 0 <= f < total) && free != {}
    ensures var f := Lowest(free, total);
            && f in free && (forall g :: g in free ==> f <= g)
            && |free - {f}| == |free| - 1
            && (f < PAGE_ENTRIES <==> LowFree(free) > 0)
            && LowFree(free - {f}) == Max(LowFree(free) - 1, 0)
  {
    LowestMeaning(free, total);
    var f := Lowest(free, total);
    var low, rest := set g | g in free && g < PAGE_ENTRIES, set g | g in free - {f} && g < PAGE_ENTRIES;
    if f < PAGE_ENTRIES {
      assert f in low && rest == low - {f};
    } else {
      assert low == {} && rest == {};
    }
  }

  /** Under the ownership invariant the window reaches the directory, a table or
      a free frame exactly when it lies below 4 MiB. */
  lemma DirectIffLow(w: Memory, free: set<int>, reserved: set<int>, frame: int)
    requires Owned(w, free, reserved) && 0 <= frame < TOTAL_FRAMES
    requires frame == DIRECTORY_FRAME || IsTable(w, frame) || frame in free
    ensures DirectlyMapped(w, frame) <==> frame < PAGE_ENTRIES
  {
    DirectPage(frame);
    var page := PhysToVirt(frame * PAGE_SIZE) / PAGE_SIZE;
    if frame < PAGE_ENTRIES {
      assert WindowPage(page);
    } else if PageFrame(w, page).Some? {
      assert PrivatePage(page);
      assert PrivateFrame(w, free, reserved, PageFrame(w, page).value);
    }
  }

  // ---- Mapping one page ----

  /** Mapping a fresh frame at a page stays within reach: out of frames, or the
      page's table is low, or the second frame in line is. */
  predicate StepReaches(w: Memory, free: set<int>, page: int)
    requires HasDirectory(w) && 0 <= page < TOTAL_FRAMES
  {
    var d := page / PAGE_ENTRIES;
    || free == {}
    || if HasTable(w, d) then TableFrame(w, d) < PAGE_ENTRIES else |free| == 1 || LowFree(free) > 1
  }

  lemma StepReachesIff(w: Memory, free: set<int>, reserved: set<int>, total: nat, page: int)
    requires Owned(w, free, reserved) && 0 <= page < TOTAL_FRAMES && total <= TOTAL_FRAMES
    requires 0 !in free && forall f :: f in free ==> 0 <= f < total
    ensures Paging.MapFreshMisses(w, free, total, page) <==> !StepReaches(w, free, page)
  {
    if free != {} {
      var d, first := page / PAGE_ENTRIES, Lowest(free, total);
      LowestTaken(free, total);
      DirectIffLow(w, free, reserved, DIRECTORY_FRAME);
      var rest := free - {first};
      if HasTable(w, d) {
        DirectIffLow(w, free, reserved, TableFrame(w, d));
      } else if rest != {} {
        LowestTaken(rest, total);
        DirectIffLow(w, free, reserved, Lowest(rest, total));
      } else {
        LowestMeaning(rest, total);
      }
    }
  }

  /** One page was mapped with the lowest free frames and within reach. */
  ghost predicate StepTaken(w: Memory, free: set<int>, w': Memory, free': set<int>, page: int)
    requires Reachable(w) && Reachable(w') && 0 <= page < TOTAL_FRAMES
  {
    && free' <= free
    && |free'| == |free| - 1 - TablesToMap(w, page)
    && LowFree(free') == Max(LowFree(free) - 1 - TablesToMap(w, page), 0)
    && TablesAdded(w, w', page, 1)
    && PagesMoved(w, w', page, 1)
    && PageFrame(w', page).Some? && PageFrame(w', page).value in free && Below(PageFrame(w', page).value, free')
  }

  /** Tables were added, all within reach, for exactly these pages. */
  predicate TablesAdded(w: Memory, w': Memory, first: int, n: nat)
    requires HasDirectory(w) && HasDirectory(w')
  {
    && (forall d :: 0 <= d < PAGE_ENTRIES ==> (HasTable(w', d) <==> HasTable(w, d) || UnderPages(first, n, d)))
    && (forall d :: 0 <= d < PAGE_ENTRIES && HasTable(w, d) ==> TableFrame(w', d) == TableFrame(w, d))
    && (forall d :: 0 <= d < PAGE_ENTRIES && UnderPages(first, n, d) ==> TableFrame(w', d) < PAGE_ENTRIES)
  }

  /** Exactly these pages may have moved, and they are present. */
  predicate PagesMoved(w: Memory, w': Memory, first: int, n: nat)
    requires Reachable(w) && Reachable(w')
  {
    && (forall q :: 0 <= q < TOTAL_FRAMES && !(first <= q < first + n) ==> PageFrame(w', q) == PageFrame(w, q))
    && (forall q :: 0 <= q < TOTAL_FRAMES && first <= q < first + n ==> PageFrame(w', q).Some?)
  }

  predicate Below(frame: int, free: set<int>) {
    forall g :: g in free ==> frame < g
  }

  /** Every frame behind a heap page lies below every free frame. */
  ghost predicate FramesBelow(w: Memory, free: set<int>)
    requires Reachable(w)
  {
    forall page :: HeapPage(page) && PageFrame(w, page).Some? ==> Below(PageFrame(w, page).value, free)
  }

  lemma StepKeepsBelow(w: Memory, free: set<int>, w': Memory, free': set<int>, page: int)
    requires Reachable(w) && Reachable(w') && 0 <= page < TOTAL_FRAMES
    requires StepTaken(w, free, w', free', page) && FramesBelow(w, free)
    ensures FramesBelow(w', free')
  {
    forall q | HeapPage(q) && PageFrame(w', q).Some?
      ensures Below(PageFrame(w', q).value, free')
    {
      if q != page {
        assert PageFrame(w', q) == PageFrame(w, q);
      }
    }
  }

  /** What mapping the lowest free frame, with the next one as a table where one
      is missing, amounts to. */
  lemma StepMeaning(w: Memory, free: set<int>, reserved: set<int>, n: nat, total: nat,
                    page: int, flags: Word, table: int)
    requires Viewable(w, free, reserved, n) && HeapPage(page) && HEAP_FIRST_PAGE + n <= page
    requires 0 !in free && free != {} && (forall f :: f in free ==> 0 <= f < total) && total <= Frames(w) <= TOTAL_FRAMES
    requires CanMap(w, free - {Lowest(free, total)}, page, table)
    requires !HasTable(w, page / PAGE_ENTRIES) ==> table == Lowest(free - {Lowest(free, total)}, total)
    requires StepReaches(w, free, page)
    ensures Lowest(free, total) < TOTAL_FRAMES
    ensures var w' := MapWords(w, free - {Lowest(free, total)}, page, Lowest(free, total), flags, table);
            var free' := FreeAfterMap(w, free - {Lowest(free, total)}, page, table);
            && Viewable(w', free', reserved, n)
            && Flat(w', free', reserved, n) == Flat(w, free, reserved, n)
            && Reachable(w')
            && StepTaken(w, free, w', free', page)
  {
    var frame := Lowest(free, total);
    LowestTaken(free, total);
    GrowMeaning(w, free, reserved, n, page, frame, flags, table);
    if !HasTable(w, page / PAGE_ENTRIES) {
      LowestTaken(free - {frame}, total);
    }
    OneUnder(page);
  }

  lemma OneUnder(page: int)
    requires 0 <= page
    ensures forall d :: UnderPages(page, 1, d) <==> d == page / PAGE_ENTRIES
  {
  }

  // ---- Mapping a row of pages ----

  /** Frames taken before page j of a row that starts at page `first`. */
  function TakenBefore(w: Memory, first: int, j: nat): (n: nat)
    requires HasDirectory(w)
  {
    j + |MissingTables(w, first, j)|
  }

  /** Page j of the row is mapped within reach, or the frames do not last that
      long. Only counts of free frames and the tables at the start matter. */
  predicate Reached(w: Memory, free: set<int>, first: int, j: nat)
    requires HasDirectory(w) && 0 <= first && first + j < TOTAL_FRAMES
  {
    var d, taken := (first + j) / PAGE_ENTRIES, TakenBefore(w, first, j);
    || |free| <= taken
    || (if HasTable(w, d) then TableFrame(w, d) < PAGE_ENTRIES
        else UnderPages(first, j, d) || |free| == taken + 1 || LowFree(free) > taken + 1)
  }

  predicate RowReached(w: Memory, free: set<int>, first: int, n: nat)
    requires HasDirectory(w) && 0 <= first && first + n <= TOTAL_FRAMES
  {
    forall j :: 0 <= j < n ==> Reached(w, free, first, j)
  }

  /** The state of memory after the first i pages of a row were mapped. */
  ghost predicate RowState(w0: Memory, free0: set<int>, w: Memory, free: set<int>, first: int, i: nat)
    requires Reachable(w0) && Reachable(w)
  {
    && free <= free0
    && |free| == |free0| - TakenBefore(w0, first, i)
    && LowFree(free) == Max(LowFree(free0) - TakenBefore(w0, first, i), 0)
    && TablesAdded(w0, w, first, i)
    && PagesMoved(w0, w, first, i)
    && (FramesBelow(w0, free0) ==> FramesBelow(w, free))
  }

  lemma RowBegins(w: Memory, free: set<int>, first: int)
    requires Reachable(w)
    ensures RowState(w, free, w, free, first, 0)
  {
    NoPagesNoTables(w, first);
  }

  /** What the next step does can be told from the start. */
  lemma RowStepReached(w0: Memory, free0: set<int>, w: Memory, free: set<int>, first: int, i: nat)
    requires Reachable(w0) && Reachable(w) && 0 <= first && first + i < TOTAL_FRAMES
    requires RowState(w0, free0, w, free, first, i)
    ensures StepReaches(w, free, first + i) <==> Reached(w0, free0, first, i)
    ensures TakenBefore(w0, first, i + 1) == TakenBefore(w0, first, i) + 1 + TablesToMap(w, first + i)
  {
    MissingTablesStep(w0, first, i);
  }

  lemma RowContinues(w0: Memory, free0: set<int>, w: Memory, free: set<int>, w': Memory, free': set<int>,
                     first: int, i: nat)
    requires Reachable(w0) && Reachable(w) && Reachable(w') && 0 <= first && first + i < TOTAL_FRAMES
    requires RowState(w0, free0, w, free, first, i)
    requires StepTaken(w, free, w', free', first + i)
    ensures RowState(w0, free0, w', free', first, i + 1)
  {
    RowStepReached(w0, free0, w, free, first, i);
    MissingTablesStep(w0, first, i);
    OneUnder(first + i);
    if FramesBelow(w0, free0) {
      StepKeepsBelow(w, free, w', free', first + i);
    }
    forall d | 0 <= d < PAGE_ENTRIES
      ensures HasTable(w', d) <==> HasTable(w0, d) || UnderPages(first, i + 1, d)
      ensures HasTable(w0, d) ==> TableFrame(w', d) == TableFrame(w0, d)
      ensures UnderPages(first, i + 1, d) ==> TableFrame(w', d) < PAGE_ENTRIES
    {
      assert UnderPages(first + i, 1, d) <==> d == (first + i) / PAGE_ENTRIES;
      assert UnderPages(first, i + 1, d) <==> UnderPages(first, i, d) || d == (first + i) / PAGE_ENTRIES;
    }
  }

  lemma RowCount(w0: Memory, free0: set<int>, w: Memory, free: set<int>, first: int, i: nat)
    requires Reachable(w0) && Reachable(w) && RowState(w0, free0, w, free, first, i)
    ensures |free| == |free0| - TakenBefore(w0, first, i)
  {
  }

  lemma RowMoved(w0: Memory, free0: set<int>, w: Memory, free: set<int>, first: int, i: nat)
    requires Reachable(w0) && Reachable(w) && RowState(w0, free0, w, free, first, i)
    ensures PagesMoved(w0, w, first, i)
  {
  }

  lemma NothingMoved(w: Memory, first: int)
    requires Reachable(w)
    ensures PagesMoved(w, w, first, 0)
  {
  }

  /** Once the frames do not suffice for a page, no later page is an issue. */
  lemma RowEnds(w: Memory, free: set<int>, first: int, i: nat, n: nat)
    requires HasDirectory(w) && 0 <= first && i < n && first + n <= TOTAL_FRAMES
    requires |free| < TakenBefore(w, first, i + 1)
    requires forall j :: 0 <= j <= i ==> Reached(w, free, first, j)
    ensures RowReached(w, free, first, n)
  {
    forall j | i < j < n
      ensures Reached(w, free, first, j)
    {
      MissingTablesGrow(w, first, i + 1, j);
    }
  }

  // ---- From boot by heap calls alone ----

  const HEAP_DIRECTORY: int := 772
  const LOW_PAGES: int := 0x100

  /** Only the window's table and the first heap table exist, both within reach. */
  predicate EarlyTables(w: Memory)
    requires HasDirectory(w)
  {
    forall d :: 0 <= d < PAGE_ENTRIES && HasTable(w, d) ==>
      (d == WINDOW_DIRECTORY || d == HEAP_DIRECTORY) && TableFrame(w, d) < PAGE_ENTRIES
  }

  /** So nothing is mapped outside the window and the heap's first 4 MiB. */
  lemma OnlyWindowAndHeapMapped(w: Memory, page: int)
    requires Reachable(w) && EarlyTables(w) && 0 <= page < TOTAL_FRAMES
    requires PageFrame(w, page).Some?
    ensures WindowPage(page) || HEAP_FIRST_PAGE <= page < HEAP_FIRST_PAGE + PAGE_ENTRIES
  {
    assert HasTable(w, page / PAGE_ENTRIES);
  }

  /** The owners while the heap is the only user of the allocator: frames were
      taken from the bottom, and the heap is at most one table long. */
  ghost predicate EarlyOwners(w: Memory, free: set<int>, reserved: set<int>, n: nat) {
    && Viewable(w, free, reserved, n)
    && (forall f :: f in free ==> 0 <= f)
    && Pages(0, LOW_PAGES) <= reserved
    && n <= PAGE_ENTRIES
    && EarlyTables(w)
    && FramesBelow(w, free)
  }

  /** The frames behind the first n heap pages. */
  ghost function Backing(w: Memory, n: nat): (r: set<int>)
    requires Reachable(w) && Committed(w, n)
  {
    if n == 0 then {} else Backing(w, n - 1) + {PageFrame(w, HEAP_FIRST_PAGE + n - 1).value}
  }

  lemma {:induction false} InBacking(w: Memory, n: nat, f: int)
    requires Reachable(w) && Committed(w, n)
    ensures f in Backing(w, n) <==>
            exists page :: HEAP_FIRST_PAGE <= page < HEAP_FIRST_PAGE + n && PageFrame(w, page) == Some(f)
  {
    if n > 0 {
      InBacking(w, n - 1, f);
    }
  }

  lemma ReachableIfViewable(w: Memory, free: set<int>, reserved: set<int>, n: nat)
    requires Viewable(w, free, reserved, n)
    ensures Reachable(w)
  {
  }

  lemma NotBackedTwice(w: Memory, free: set<int>, reserved: set<int>, n: nat)
    requires Viewable(w, free, reserved, n) && n > 0
    ensures Committed(w, n - 1) && PageFrame(w, HEAP_FIRST_PAGE + n - 1).value !in Backing(w, n - 1)
  {
    hide Backing;
    hide Exclusive;
    hide TablesOwned;
    hide WindowIntact;
    var last := HEAP_FIRST_PAGE + n - 1;
    assert Reachable(w) by {
      ReachableIfViewable(w, free, reserved, n);
    }
    InBacking(w, n - 1, PageFrame(w, last).value);
    forall page | HEAP_FIRST_PAGE <= page < HEAP_FIRST_PAGE + n - 1
      ensures PageFrame(w, page) != PageFrame(w, last)
    {
      assert PrivatePage(page) && PrivatePage(last);
    }
  }

  lemma {:induction false} BackingSize(w: Memory, free: set<int>, reserved: set<int>, n: nat)
    requires Viewable(w, free, reserved, n)
    ensures |Backing(w, n)| == n
  {
    if n > 0 {
      BackingSize(w, free, reserved, n - 1);
      NotBackedTwice(w, free, reserved, n);
    }
  }

  lemma BackingIsLow(w: Memory, free: set<int>, reserved: set<int>, n: nat, f: int)
    requires EarlyOwners(w, free, reserved, n) && LowFree(free) > 0 && f in Backing(w, n)
    ensures f !in free && f in Pages(LOW_PAGES, PAGE_ENTRIES)
  {
    var low := set g | g in free && g < PAGE_ENTRIES;
    assert exists g :: g in low;
    var g :| g in low;
    InBacking(w, n, f);
    var page :| HEAP_FIRST_PAGE <= page < HEAP_FIRST_PAGE + n && PageFrame(w, page) == Some(f);
    assert HeapPage(page) && PrivatePage(page);
    assert PrivateFrame(w, free, reserved, f) && Below(f, free);
    assert f !in Pages(0, LOW_PAGES);
  }

  lemma LowFreeInBudget(w: Memory, free: set<int>, reserved: set<int>, n: nat)
    requires EarlyOwners(w, free, reserved, n)
    ensures forall f :: f in free && f < PAGE_ENTRIES ==> f in Pages(LOW_PAGES, PAGE_ENTRIES)
  {
    forall f | f in free && f < PAGE_ENTRIES
      ensures f in Pages(LOW_PAGES, PAGE_ENTRIES)
    {
      assert f !in Pages(0, LOW_PAGES);
    }
  }

  /** While low frames are left, the heap's frames and they share the 768 frames
      between 1 MiB and 4 MiB. */
  lemma LowBudget(w: Memory, free: set<int>, reserved: set<int>, n: nat)
    requires EarlyOwners(w, free, reserved, n) && LowFree(free) > 0
    ensures n + LowFree(free) <= PAGE_ENTRIES - LOW_PAGES
  {
    var low := set f | f in free && f < PAGE_ENTRIES;
    var backing := Backing(w, n);
    forall f | f in backing
      ensures f !in low && f in Pages(LOW_PAGES, PAGE_ENTRIES)
    {
      BackingIsLow(w, free, reserved, n, f);
    }
    LowFreeInBudget(w, free, reserved, n);
    BackingSize(w, free, reserved, n);
    DisjointSize(backing, low);
    assert backing + low <= Pages(LOW_PAGES, PAGE_ENTRIES);
    SubsetSize(backing + low, Pages(LOW_PAGES, PAGE_ENTRIES));
    PagesSize(LOW_PAGES, PAGE_ENTRIES);
  }

  /** Pages of the first heap table need no other. */
  lemma EarlyTaken(w: Memory, first: int, j: nat)
    requires HasDirectory(w) && EarlyTables(w) && HEAP_FIRST_PAGE <= first && first + j <= HEAP_FIRST_PAGE + PAGE_ENTRIES
    ensures TakenBefore(w, first, j) == j + if j > 0 && !HasTable(w, HEAP_DIRECTORY) then 1 else 0
    ensures forall d :: UnderPages(first, j, d) ==> d == HEAP_DIRECTORY
  {
    var missing := MissingTables(w, first, j);
    if j > 0 && !HasTable(w, HEAP_DIRECTORY) {
      assert missing == {HEAP_DIRECTORY};
    } else {
      assert missing == {};
    }
  }

  /** In such a state a growth by `count` pages stays within reach exactly when
      it needs no second table or the frames do not last to it. */
  lemma EarlyGrowthReached(w: Memory, free: set<int>, reserved: set<int>, n: nat, count: nat)
    requires EarlyOwners(w, free, reserved, n) && 0 < n && n + count <= HEAP_PAGES
    ensures RowReached(w, free, HEAP_FIRST_PAGE + n, count) <==>
            n + count <= PAGE_ENTRIES || |free| <= PAGE_ENTRIES + 1 - n
  {
    var first := HEAP_FIRST_PAGE + n;
    assert HasTable(w, HEAP_DIRECTORY) by {
      assert PageFrame(w, HEAP_FIRST_PAGE).Some?;
    }
    forall j | 0 <= j < count && n + j < PAGE_ENTRIES
      ensures Reached(w, free, first, j)
    {
      assert (first + j) / PAGE_ENTRIES == HEAP_DIRECTORY;
    }
    if n + count > PAGE_ENTRIES {
      var j := PAGE_ENTRIES - n;
      EarlyTaken(w, first, j);
      assert (first + j) / PAGE_ENTRIES == HEAP_DIRECTORY + 1;
      if LowFree(free) > 0 {
        LowBudget(w, free, reserved, n);
      }
      assert Reached(w, free, first, j) <==> |free| <= j + 1;
      if |free| <= j + 1 {
        forall i | j < i < count
          ensures Reached(w, free, first, i)
        {
          SecondTableTaken(w, n, i);
        }
      }
    }
  }

  /** Past the first table at least one more frame is gone than pages. */
  lemma SecondTableTaken(w: Memory, n: nat, i: nat)
    requires HasDirectory(w) && EarlyTables(w) && n <= PAGE_ENTRIES && PAGE_ENTRIES - n < i
    ensures TakenBefore(w, HEAP_FIRST_PAGE + n, i) > i
  {
    assert UnderPages(HEAP_FIRST_PAGE + n, i, HEAP_DIRECTORY + 1);
    assert HEAP_DIRECTORY + 1 in MissingTables(w, HEAP_FIRST_PAGE + n, i);
  }

  /** Growing within reach never leaves the first heap table. */
  lemma EarlyRow(w0: Memory, free0: set<int>, reserved: set<int>, n: nat, w: Memory, free: set<int>, m: nat)
    requires EarlyOwners(w0, free0, reserved, n) && Reachable(w) && n + m <= HEAP_PAGES
    requires RowState(w0, free0, w, free, HEAP_FIRST_PAGE + n, m)
    requires RowReached(w0, free0, HEAP_FIRST_PAGE + n, m)
    ensures n + m <= PAGE_ENTRIES
    ensures EarlyTables(w) && FramesBelow(w, free)
  {
    EarlyRowFits(w0, free0, reserved, n, |free|, m);
    EarlyTaken(w0, HEAP_FIRST_PAGE + n, m);
  }

  lemma EarlyRowFits(w0: Memory, free0: set<int>, reserved: set<int>, n: nat, left: nat, m: nat)
    requires EarlyOwners(w0, free0, reserved, n) && n + m <= HEAP_PAGES
    requires left == |free0| - TakenBefore(w0, HEAP_FIRST_PAGE + n, m)
    requires RowReached(w0, free0, HEAP_FIRST_PAGE + n, m)
    ensures n + m <= PAGE_ENTRIES
  {
    var first := HEAP_FIRST_PAGE + n;
    if n + m > PAGE_ENTRIES {
      var j := PAGE_ENTRIES - n;
      EarlyTaken(w0, first, j);
      assert (first + j) / PAGE_ENTRIES == HEAP_DIRECTORY + 1;
      assert Reached(w0, free0, first, j);
      MissingTablesStep(w0, first, j);
      MissingTablesGrow(w0, first, j + 1, m);
      if LowFree(free0) > 0 {
        LowBudget(w0, free0, reserved, n);
      }
      assert false;
    }
  }

  /** So it leads from such a state to such a state. */
  lemma EarlyAfterRow(w0: Memory, free0: set<int>, reserved: set<int>, n: nat, w: Memory, free: set<int>, m: nat, n': nat)
    requires EarlyOwners(w0, free0, reserved, n) && n + m <= HEAP_PAGES && n' <= n + m
    requires Viewable(w, free, reserved, n') && free <= free0
    requires RowState(w0, free0, w, free, HEAP_FIRST_PAGE + n, m)
    requires RowReached(w0, free0, HEAP_FIRST_PAGE + n, m)
    ensures EarlyOwners(w, free, reserved, n')
  {
    EarlyRow(w0, free0, reserved, n, w, free, m);
  }

  lemma RowPrefix(w: Memory, free: set<int>, first: int, m: nat, n: nat)
    requires HasDirectory(w) && 0 <= first && first + n <= TOTAL_FRAMES && m <= n
    requires RowReached(w, free, first, n)
    ensures RowReached(w, free, first, m)
  {
  }
}

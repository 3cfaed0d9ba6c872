/** The page tables the loader builds before entering the kernel, and what
    removing the identity map makes of them. */
module LoaderTables {
  import opened Machine
  import opened PageTables
  import opened KernelSpace

  /** One table maps the first 4 MiB, and both directory entry 0 and entry 768
      point to it. */
  predicate LoaderMap(w: Memory) {
    && WINDOW_TABLE < Frames(w)
    && (forall d :: 0 <= d < PAGE_ENTRIES ==>
          DirEntry(w, d) == if d == 0 || d == WINDOW_DIRECTORY then WINDOW_TABLE * PAGE_SIZE + 3 else 0)
    && (forall k :: 0 <= k < PAGE_ENTRIES ==> WordAt(w, WINDOW_TABLE, k) == k * PAGE_SIZE + 3)
  }

  method BuildTables(ram: array<Word>)
    requires WINDOW_TABLE < Frames(ram[..])
    modifies ram
    ensures LoaderMap(ram[..])
    ensures forall f :: 0 <= f < Frames(ram[..]) && f != DIRECTORY_FRAME && f != WINDOW_TABLE ==>
              SameFrame(old(ram[..]), ram[..], f)
  {
    var directory, table := DIRECTORY_FRAME * PAGE_ENTRIES, WINDOW_TABLE * PAGE_ENTRIES;
    for k := 0 to PAGE_ENTRIES
      invariant forall i :: 0 <= i < ram.Length ==> ram[i] == if directory <= i < directory + k then 0 else old(ram[i])
    {
      ram[directory + k] := 0;
    }
    for k := 0 to PAGE_ENTRIES
      invariant forall i :: directory <= i < table ==> ram[i] == 0
      invariant forall i :: 0 <= i < directory || table + PAGE_ENTRIES <= i < ram.Length ==> ram[i] == old(ram[i])
    {
      ram[table + k] := 0;
    }
    var base := 0;
    for k := 0 to PAGE_ENTRIES
      invariant base == k * PAGE_SIZE
      invariant forall i :: directory <= i < table ==> ram[i] == 0
      invariant forall i :: 0 <= i < k ==> ram[table + i] == i * PAGE_SIZE + 3
      invariant forall i :: 0 <= i < directory || table + PAGE_ENTRIES <= i < ram.Length ==> ram[i] == old(ram[i])
    {
      ram[table + k] := base + 3;
      base := base + PAGE_SIZE;
    }
    ram[directory] := WINDOW_TABLE * PAGE_SIZE + 3;
    ram[directory + WINDOW_DIRECTORY] := WINDOW_TABLE * PAGE_SIZE + 3;
    assert forall d :: 0 <= d < PAGE_ENTRIES ==> DirEntry(ram[..], d) == ram[directory + d];
  }

  /** Directory entries 0 and 768 cover the identity map and the window. */
  lemma WindowPages(page: int)
    requires 0 <= page < TOTAL_FRAMES
    ensures page < PAGE_ENTRIES <==> page / PAGE_ENTRIES == 0
    ensures WindowPage(page) <==> page / PAGE_ENTRIES == WINDOW_DIRECTORY
    ensures page / PAGE_ENTRIES == 0 ==> page % PAGE_ENTRIES == page
    ensures WindowPage(page) ==> page % PAGE_ENTRIES == page - WINDOW_PAGE
  {
  }

  lemma LoaderEntry(w: Memory, k: int)
    requires LoaderMap(w) && 0 <= k < PAGE_ENTRIES
    ensures Present(WordAt(w, WINDOW_TABLE, k)) && FrameOf(WordAt(w, WINDOW_TABLE, k)) == k
    ensures WordAt(w, WINDOW_TABLE, k) % 4096 == 3
  {
  }

  lemma LoaderReachable(w: Memory)
    requires LoaderMap(w)
    ensures Reachable(w)
    ensures forall d :: 0 <= d < PAGE_ENTRIES ==>
              (HasTable(w, d) <==> d == 0 || d == WINDOW_DIRECTORY)
              && (HasTable(w, d) ==> TableFrame(w, d) == WINDOW_TABLE)
  {
    forall d | 0 <= d < PAGE_ENTRIES
      ensures HasTable(w, d) <==> d == 0 || d == WINDOW_DIRECTORY
      ensures HasTable(w, d) ==> TableFrame(w, d) == WINDOW_TABLE
    {
      assert DirEntry(w, d) == if d == 0 || d == WINDOW_DIRECTORY then WINDOW_TABLE * PAGE_SIZE + 3 else 0;
    }
  }

  /** The first 4 MiB twice, at 0 and at 0xC0000000, and nothing else. */
  lemma LoaderTranslations(w: Memory, page: int)
    requires LoaderMap(w) && 0 <= page < TOTAL_FRAMES
    ensures Reachable(w)
    ensures PageFrame(w, page) ==
            if page < PAGE_ENTRIES then Some(page)
            else if WindowPage(page) then Some(page - WINDOW_PAGE)
            else None
  {
    LoaderReachable(w);
    WindowPages(page);
    LoaderEntry(w, page % PAGE_ENTRIES);
  }

  /** The window is already there, so the kernel reaches the directory. */
  lemma LoaderReaches(w: Memory)
    requires LoaderMap(w)
    ensures Reachable(w) && DirectlyMapped(w, DIRECTORY_FRAME)
  {
    DirectPage(DIRECTORY_FRAME);
    LoaderTranslations(w, WINDOW_PAGE + DIRECTORY_FRAME);
  }

  /** While the identity map stands, one table write moves two pages: the
      loader's tables are not exclusive. */
  lemma IdentityMapShares(w: Memory, k: int, entry: Word, free: set<int>)
    requires LoaderMap(w) && 0 <= k < PAGE_ENTRIES
    ensures !Exclusive(w, free) && Reachable(w) && !SoleTable(w, 0)
    ensures var w' := SetTableEntry(w, WINDOW_TABLE, k, entry);
            Reachable(w') && PageFrame(w', k) == PageFrame(w', WINDOW_PAGE + k) ==
                             if Present(entry) then Some(FrameOf(entry)) else None
  {
    LoaderReachable(w);
    assert TableFrame(w, 0) == TableFrame(w, WINDOW_DIRECTORY);
    assert HasTable(w, 0) && HasTable(w, WINDOW_DIRECTORY);
    var w' := SetTableEntry(w, WINDOW_TABLE, k, entry);
    forall d | 0 <= d < PAGE_ENTRIES
      ensures DirEntry(w', d) == DirEntry(w, d)
      ensures HasTable(w', d) <==> HasTable(w, d)
      ensures TableFrame(w', d) == TableFrame(w, d)
    {
      SetTableEntryWords(w, WINDOW_TABLE, k, entry, DIRECTORY_FRAME, d);
    }
    SetTableEntryWords(w, WINDOW_TABLE, k, entry, WINDOW_TABLE, k);
  }

  function WithoutIdentity(w: Memory): (r: Memory)
    requires HasDirectory(w)
    ensures |r| == |w|
  {
    SetTableEntry(w, DIRECTORY_FRAME, 0, 0)
  }

  /** paging_remove_identity_map */
  method RemoveIdentityMap(ram: array<Word>)
    requires Reachable(ram[..]) && DirectlyMapped(ram[..], DIRECTORY_FRAME)
    modifies ram
    ensures ram[..] == WithoutIdentity(old(ram[..]))
    ensures forall i :: 0 <= i < ram.Length ==> ram[i] == if i == 0x9000 / 4 then 0 else old(ram[i])
  {
    ram[DIRECTORY_FRAME * PAGE_ENTRIES] := 0;
  }

  /** Removing the identity map keeps the window and establishes ownership for
      whatever free set the allocator later starts with. */
  lemma RemovalEstablishesOwnership(w: Memory, free: set<int>, reserved: set<int>)
    requires LoaderMap(w)
    requires free !! reserved && DIRECTORY_FRAME in reserved && WINDOW_TABLE in reserved
    ensures var w' := WithoutIdentity(w);
            && Owned(w', free, reserved)
            && forall page :: 0 <= page < TOTAL_FRAMES ==>
                 PageFrame(w', page) == if WindowPage(page) then Some(page - WINDOW_PAGE) else None
  {
    DirectoryWithoutIdentity(w);
    forall page | 0 <= page < TOTAL_FRAMES
      ensures PageFrame(WithoutIdentity(w), page) == if WindowPage(page) then Some(page - WINDOW_PAGE) else None
    {
      WindowOnly(w, page);
    }
  }

  lemma DirectoryWithoutIdentity(w: Memory)
    requires LoaderMap(w)
    ensures var w' := WithoutIdentity(w);
            && Reachable(w')
            && forall d :: 0 <= d < PAGE_ENTRIES ==>
                 (HasTable(w', d) <==> d == WINDOW_DIRECTORY)
                 && (HasTable(w', d) ==> TableFrame(w', d) == WINDOW_TABLE)
  {
    LoaderReachable(w);
    var w' := WithoutIdentity(w);
    forall d | 0 <= d < PAGE_ENTRIES
      ensures HasTable(w', d) <==> d == WINDOW_DIRECTORY
      ensures HasTable(w', d) ==> TableFrame(w', d) == WINDOW_TABLE
    {
      SetTableEntryWords(w, DIRECTORY_FRAME, 0, 0, DIRECTORY_FRAME, d);
      assert DirEntry(w', d) == if d == 0 then 0 else DirEntry(w, d);
    }
  }

  lemma WindowOnly(w: Memory, page: int)
    requires LoaderMap(w) && 0 <= page < TOTAL_FRAMES
    ensures Reachable(WithoutIdentity(w))
    ensures PageFrame(WithoutIdentity(w), page) == if WindowPage(page) then Some(page - WINDOW_PAGE) else None
  {
    DirectoryWithoutIdentity(w);
    WindowPages(page);
    LoaderEntry(w, page % PAGE_ENTRIES);
    SetTableEntryWords(w, DIRECTORY_FRAME, 0, 0, WINDOW_TABLE, page % PAGE_ENTRIES);
  }

  /** The first address of the kernel window is mapped, yet translates to 0. */
  lemma WindowBaseTranslatesToZero(w: Memory)
    requires LoaderMap(w)
    ensures var w' := WithoutIdentity(w);
            Reachable(w') && PageFrame(w', KERNEL_VIRT_BASE / PAGE_SIZE) == Some(0) && Translate(w', KERNEL_VIRT_BASE) == 0
  {
    DirectoryWithoutIdentity(w);
    WindowOnly(w, WINDOW_PAGE);
  }
}

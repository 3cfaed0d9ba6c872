/** What the heap invariant means for the kernel: separation of live
    allocations in virtual and physical memory, and over whole runs. */
module HeapSafety {
  import opened DirectMap
  import opened Machine
  import opened PageTables
  import opened KernelSpace
  import opened HeapBlocks
  import opened HeapWrites
  import opened Heap

  /** Address v belongs to the payload of block b. */
  predicate InPayload(b: Block, v: int) {
    b.Payload() <= v < b.Payload() + b.Bytes()
  }

  /** Every byte of the heap is present, and its frame is used and belongs to
      this page alone: it is not the directory, a table, reserved (low memory,
      kernel image, bitmap) or behind any other page outside the window. */
  lemma HeapByteOwned(s: Snapshot, v: Word)
    requires HeapInvariant(s) && HEAP_START <= v < HEAP_START + s.pages * PAGE_SIZE
    ensures Reachable(s.w) && PageFrame(s.w, v / PAGE_SIZE).Some?
    ensures var frame := PageFrame(s.w, v / PAGE_SIZE).value;
            && Translate(s.w, v) == frame * PAGE_SIZE + v % PAGE_SIZE != 0
            && 0 < frame < Frames(s.w)
            && frame !in s.free && frame !in s.reserved
            && frame != DIRECTORY_FRAME && !IsTable(s.w, frame)
            && forall page :: PrivatePage(page) && page != v / PAGE_SIZE ==> PageFrame(s.w, page) != Some(frame)
  {
    var page := v / PAGE_SIZE;
    assert HEAP_FIRST_PAGE <= page < HEAP_FIRST_PAGE + s.pages;
    assert PrivatePage(page);
    assert PrivateFrame(s.w, s.free, s.reserved, PageFrame(s.w, page).value);
  }

  lemma PayloadInHeap(s: Snapshot, i: nat, v: Word)
    requires HeapInvariant(s) && i < |s.blocks| && InPayload(s.blocks[i], v)
    ensures HEAP_START <= v < HEAP_START + s.pages * PAGE_SIZE
  {
    BlockInHeap(s, i);
  }

  /** Translation is injective on the heap. */
  lemma TranslateInjective(s: Snapshot, u: Word, v: Word)
    requires HeapInvariant(s) && u != v
    requires HEAP_START <= u < HEAP_START + s.pages * PAGE_SIZE
    requires HEAP_START <= v < HEAP_START + s.pages * PAGE_SIZE
    ensures Reachable(s.w) && Translate(s.w, u) != Translate(s.w, v)
  {
    HeapByteOwned(s, u);
    HeapByteOwned(s, v);
    var fu, fv := PageFrame(s.w, u / PAGE_SIZE).value, PageFrame(s.w, v / PAGE_SIZE).value;
    if u / PAGE_SIZE == v / PAGE_SIZE {
      assert u % PAGE_SIZE != v % PAGE_SIZE;
    } else {
      assert fu != fv;
    }
  }

  /** Two live allocations share no byte, neither virtually nor physically. */
  lemma LiveAllocationsDisjoint(s: Snapshot, i: nat, j: nat, u: Word, v: Word)
    requires HeapInvariant(s) && i < |s.blocks| && j < |s.blocks| && i != j
    requires !s.blocks[i].free && !s.blocks[j].free
    requires InPayload(s.blocks[i], u) && InPayload(s.blocks[j], v)
    ensures u != v
    ensures Reachable(s.w) && Translate(s.w, u) != Translate(s.w, v)
  {
    PayloadInHeap(s, i, u);
    PayloadInHeap(s, j, v);
    Separate(s.blocks, 0, s.pages * PAGE_ENTRIES, i, j);
    TranslateInjective(s, u, v);
  }

  /** Committed bytes are used, free or header bytes. */
  lemma CommittedAccounted(s: Snapshot)
    requires HeapInvariant(s)
    ensures s.pages * PAGE_SIZE == UsedBytes(s.blocks) + FreeBytes(s.blocks) + HEADER_BYTES * |s.blocks|
  {
    BytesAccounted(s.blocks, 0, s.pages * PAGE_ENTRIES);
  }

  /** Following `next` from the head visits the blocks at ascending addresses,
      so no walk meets a block twice. */
  lemma WalkAscends(s: Snapshot, i: nat, j: nat)
    requires HeapInvariant(s) && i < j < |s.blocks|
    ensures s.blocks[i].Address() + HEADER_BYTES + s.blocks[i].Bytes() <= s.blocks[j].Address()
  {
    TiledOrder(s.blocks, 0, s.pages * PAGE_ENTRIES, i, j);
  }

  /** First fit is lowest address: no block that fits lies below the chosen one. */
  lemma FirstFitLowest(s: Snapshot, size: int, j: nat)
    requires HeapInvariant(s) && j < |s.blocks| && Fits(s.blocks[j], size)
    ensures FirstFit(s.blocks, size) < |s.blocks|
    ensures s.blocks[FirstFit(s.blocks, size)].Address() <= s.blocks[j].Address()
  {
    var i := FirstFit(s.blocks, size);
    if i < j {
      TiledOrder(s.blocks, 0, s.pages * PAGE_ENTRIES, i, j);
    }
  }

  /** A frame the heap depends on: reserved, a page table, or behind a page of
      the heap or of another user, who would reach whatever it is used for next. */
  ghost predicate HeapDependsOn(s: Snapshot, frame: int)
    requires HeapInvariant(s)
  {
    || frame in s.reserved
    || IsTable(s.w, frame)
    || exists page :: PrivatePage(page) && PageFrame(s.w, page) == Some(frame)
  }

  /** Other callers may take and give back frames as they like: the heap stays
      intact exactly as long as no frame it depends on is freed. */
  lemma OthersHarmlessIff(s: Snapshot, free: set<int>)
    requires HeapInvariant(s)
    ensures HeapInvariant(s.(free := free)) <==> forall frame :: frame in free ==> !HeapDependsOn(s, frame)
    ensures HeapInvariant(s.(free := free)) ==> Advances(s, s.(free := free))
  {
    if exists frame :: frame in free && HeapDependsOn(s, frame) {
      var frame :| frame in free && HeapDependsOn(s, frame);
      FreeingBreaksOwners(s, free, frame);
    } else {
      OthersKeepOwners(s, free);
      FlatIgnoresFree(s.w, s.free, free, s.reserved, s.pages);
    }
  }

  lemma FreeingBreaksOwners(s: Snapshot, free: set<int>, frame: int)
    requires HeapInvariant(s) && frame in free && HeapDependsOn(s, frame)
    ensures !Owned(s.w, free, s.reserved)
  {
    if frame !in s.reserved && !IsTable(s.w, frame) {
      var page :| PrivatePage(page) && PageFrame(s.w, page) == Some(frame);
      assert !PrivateFrame(s.w, free, s.reserved, frame);
    }
  }

  lemma OthersKeepOwners(s: Snapshot, free: set<int>)
    requires HeapInvariant(s) && forall frame :: frame in free ==> !HeapDependsOn(s, frame)
    ensures Owned(s.w, free, s.reserved)
  {
    forall frame | frame in free
      ensures frame !in s.reserved
    {
      assert !HeapDependsOn(s, frame);
    }
    forall d | 0 <= d < PAGE_ENTRIES && HasTable(s.w, d)
      ensures TableFrame(s.w, d) !in free
    {
      assert HeapDependsOn(s, TableFrame(s.w, d));
    }
    forall page | PrivatePage(page) && PageFrame(s.w, page).Some?
      ensures PrivateFrame(s.w, free, s.reserved, PageFrame(s.w, page).value)
    {
      assert HeapDependsOn(s, PageFrame(s.w, page).value);
      assert PrivateFrame(s.w, s.free, s.reserved, PageFrame(s.w, page).value);
    }
  }

  /** List and committed words as before: the heap is as before. */
  lemma SameView(s: Snapshot, t: Snapshot)
    requires HeapInvariant(s) && t == s.(w := t.w, free := t.free) && |t.w| == |s.w|
    requires Viewable(t.w, t.free, t.reserved, t.pages)
    requires Flat(t.w, t.free, t.reserved, t.pages) == Flat(s.w, s.free, s.reserved, s.pages)
    requires forall q :: HEAP_FIRST_PAGE <= q < HEAP_FIRST_PAGE + s.pages ==> PageFrame(t.w, q) == PageFrame(s.w, q)
    ensures HeapInvariant(t) && Keeps(s, t)
  {
  }

  /** Another user may map any page that is no committed heap page. */
  ghost predicate CanMapPage(s: Snapshot, page: int, frame: int, table: int)
    requires HeapInvariant(s)
  {
    && OtherPage(page, s.pages)
    && frame in s.free && 0 < frame < Frames(s.w) && frame < TOTAL_FRAMES
    && CanMap(s.w, s.free - {frame}, page, table)
  }

  /** What paging_alloc_page does: map a free frame, and clear it. */
  ghost function WithPage(s: Snapshot, page: int, frame: int, flags: Word, table: int): (t: Snapshot)
    requires HeapInvariant(s) && CanMapPage(s, page, frame, table)
  {
    s.(w := ZeroFrame(MapWords(s.w, s.free - {frame}, page, frame, flags, table), frame),
       free := FreeAfterMap(s.w, s.free - {frame}, page, table))
  }

  lemma MappingHarmless(s: Snapshot, page: int, frame: int, flags: Word, table: int)
    requires HeapInvariant(s) && CanMapPage(s, page, frame, table)
    ensures var t := WithPage(s, page, frame, flags, table);
            HeapInvariant(t) && Keeps(s, t) && View(t) == View(s)
  {
    var w1 := MapWords(s.w, s.free - {frame}, page, frame, flags, table);
    var t := WithPage(s, page, frame, flags, table);
    GrowMeaning(s.w, s.free, s.reserved, s.pages, page, frame, flags, table);
    assert PrivateFrame(w1, t.free, s.reserved, PageFrame(w1, page).value);
    OtherFrameKeepsView(w1, t.w, t.free, s.reserved, s.pages, frame);
    SameView(s, t);
  }

  lemma UnmappingHarmless(s: Snapshot, page: int)
    requires HeapInvariant(s) && OtherPage(page, s.pages)
    ensures var t := s.(w := UnmapWords(s.w, page));
            HeapInvariant(t) && Keeps(s, t) && View(t) == View(s)
  {
    UnmapKeepsView(s.w, s.free, s.reserved, s.pages, page);
    SameView(s, s.(w := UnmapWords(s.w, page)));
  }

  /** Another user's store of a word into a page it has mapped. */
  ghost predicate CanStorePage(s: Snapshot, page: int, k: int)
    requires HeapInvariant(s)
  {
    OtherPage(page, s.pages) && PageFrame(s.w, page).Some? && 0 <= k < PAGE_ENTRIES
  }

  ghost function WithStore(s: Snapshot, page: int, k: int, x: Word): (t: Snapshot)
    requires HeapInvariant(s) && CanStorePage(s, page, k)
  {
    assert PrivateFrame(s.w, s.free, s.reserved, PageFrame(s.w, page).value);
    s.(w := SetTableEntry(s.w, PageFrame(s.w, page).value, k, x))
  }

  lemma StoringHarmless(s: Snapshot, page: int, k: int, x: Word)
    requires HeapInvariant(s) && CanStorePage(s, page, k)
    ensures var t := WithStore(s, page, k, x);
            HeapInvariant(t) && Keeps(s, t) && View(t) == View(s)
  {
    var frame := PageFrame(s.w, page).value;
    assert PrivateFrame(s.w, s.free, s.reserved, frame);
    OtherFrameKeepsView(s.w, WithStore(s, page, k, x).w, s.free, s.reserved, s.pages, frame);
    SameView(s, WithStore(s, page, k, x));
  }

  // ---- Runs ----

  /** What happens between two states: nothing; a heap call, successful or not;
      a store by the owner of a block into it; or other users taking and freeing
      frames, mapping and unmapping pages of their own and storing there. */
  datatype Event =
    | Idle
    | HeapCall
    | OwnerStore(owner: Block, at: nat, value: Word)
    | OthersCall
    | OthersMap(page: int, frame: int, flags: Word, table: int)
    | OthersUnmap(page: int)
    | OthersStore(page: int, offset: int, value: Word)

  /** Heap word k belongs to the payload of block b. */
  predicate Owns(b: Block, k: nat) {
    !b.free && b.pos + HEADER_WORDS <= k < b.End()
  }

  ghost predicate Step(s: Snapshot, e: Event, t: Snapshot)
    requires HeapInvariant(s)
  {
    match e
    case Idle => t == s
    case HeapCall => HeapInvariant(t) && Advances(s, t)
    case OwnerStore(b, k, x) =>
      && b in s.blocks && Owns(b, k) && k < s.pages * PAGE_ENTRIES
      && t == s.(w := StoreWord(s.w, s.free, s.reserved, s.pages, k, x))
    case OthersCall => t == s.(free := t.free) && forall frame :: frame in t.free ==> !HeapDependsOn(s, frame)
    case OthersMap(page, frame, flags, table) =>
      CanMapPage(s, page, frame, table) && t == WithPage(s, page, frame, flags, table)
    case OthersUnmap(page) => OtherPage(page, s.pages) && t == s.(w := UnmapWords(s.w, page))
    case OthersStore(page, k, x) => CanStorePage(s, page, k) && t == WithStore(s, page, k, x)
  }

  /** A run: each event leads from one state to the next. The invariant is asked
      of no state but follows from that of the first. */
  ghost predicate Run(states: seq<Snapshot>, events: seq<Event>) {
    && |states| == |events| + 1
    && forall k :: 0 <= k < |events| ==> Follows(states, events, k)
  }

  ghost predicate Follows(states: seq<Snapshot>, events: seq<Event>, k: nat)
    requires k < |events| < |states|
  {
    HeapInvariant(states[k]) ==> Step(states[k], events[k], states[k + 1])
  }

  ghost function View(s: Snapshot): (flat: seq<Word>)
    requires HeapInvariant(s)
    ensures |flat| == s.pages * PAGE_ENTRIES
  {
    Flat(s.w, s.free, s.reserved, s.pages)
  }

  /** The value of heap word k after an event. */
  function AfterEvent(e: Event, k: nat, x: Word): (y: Word) {
    if e.OwnerStore? && e.at == k then e.value else x
  }

  /** Every word of a used block is as the event leaves it. */
  ghost predicate WordsFollow(e: Event, flat: seq<Word>, flat': seq<Word>, bs: seq<Block>) {
    && |flat| <= |flat'|
    && forall b, k: nat :: b in bs && Owns(b, k) && k < |flat| ==> flat'[k] == AfterEvent(e, k, flat[k])
  }

  /** One event keeps the invariant, every used block, the frames behind the
      heap, and every used word but the one stored. */
  lemma StepMeans(s: Snapshot, e: Event, t: Snapshot)
    requires HeapInvariant(s) && Step(s, e, t)
    ensures HeapInvariant(t) && Keeps(s, t) && WordsFollow(e, View(s), View(t), s.blocks)
  {
    match e
    case Idle =>
      KeepsReflexive(s);
    case HeapCall =>
    case OwnerStore(b, k, x) =>
      var i :| 0 <= i < |s.blocks| && s.blocks[i] == b;
      StoreIsFlatUpdate(s.w, s.free, s.reserved, s.pages, k, x);
      PayloadStoreLinked(View(s), s.blocks, s.head, 0, s.pages * PAGE_ENTRIES, i, k, x);
    case OthersCall =>
      OthersHarmlessIff(s, t.free);
    case OthersMap(page, frame, flags, table) =>
      MappingHarmless(s, page, frame, flags, table);
    case OthersUnmap(page) =>
      UnmappingHarmless(s, page);
    case OthersStore(page, k, x) =>
      StoringHarmless(s, page, k, x);
  }

  lemma KeepsReflexive(s: Snapshot)
    requires HeapInvariant(s)
    ensures Keeps(s, s)
  {
    AdvancesReflexive(s);
  }

  lemma KeepsTransitive(s: Snapshot, t: Snapshot, u: Snapshot)
    requires HeapInvariant(s) && HeapInvariant(t) && HeapInvariant(u)
    requires Keeps(s, t) && Keeps(t, u)
    ensures Keeps(s, u)
  {
  }

  /** Over a run the invariant holds throughout, and used blocks and the frames
      behind the heap stay. */
  lemma {:induction false} RunKeeps(states: seq<Snapshot>, events: seq<Event>, i: nat, j: nat)
    requires Run(states, events) && i <= j <= |events| && HeapInvariant(states[i])
    ensures HeapInvariant(states[j]) && Keeps(states[i], states[j])
    decreases j - i
  {
    hide HeapInvariant;
    if i == j {
      KeepsReflexive(states[i]);
    } else {
      RunKeeps(states, events, i, j - 1);
      assert Follows(states, events, j - 1);
      StepMeans(states[j - 1], events[j - 1], states[j]);
      KeepsTransitive(states[i], states[j - 1], states[j]);
    }
  }

  /** Over any run, a live allocation stays live at its address and size, keeps
      its physical address, and stays physically disjoint from every allocation
      live later. */
  lemma AllocationsPersist(states: seq<Snapshot>, events: seq<Event>, i: nat, j: nat,
                           b: Block, c: Block, u: Word, v: Word)
    requires Run(states, events) && i <= j <= |events| && HeapInvariant(states[i])
    requires b in states[i].blocks && !b.free && InPayload(b, u)
    requires c in states[j].blocks && !c.free && c != b && InPayload(c, v)
    ensures b in states[j].blocks
    ensures Reachable(states[i].w) && Reachable(states[j].w)
    ensures Translate(states[j].w, u) == Translate(states[i].w, u) != Translate(states[j].w, v)
  {
    RunKeeps(states, events, i, j);
    var s, t := states[i], states[j];
    var k :| 0 <= k < |s.blocks| && s.blocks[k] == b;
    PayloadInHeap(s, k, u);
    HeapByteOwned(s, u);
    assert PageFrame(t.w, u / PAGE_SIZE) == PageFrame(s.w, u / PAGE_SIZE);
    var k' :| 0 <= k' < |t.blocks| && t.blocks[k'] == b;
    var m :| 0 <= m < |t.blocks| && t.blocks[m] == c;
    LiveAllocationsDisjoint(t, k', m, u, v);
  }

  /** The last value stored in heap word k, or x. */
  function LastStored(events: seq<Event>, k: nat, x: Word): (y: Word) {
    if |events| == 0 then x
    else AfterEvent(events[|events| - 1], k, LastStored(events[..|events| - 1], k, x))
  }

  /** Block b is in use and its word k holds x. */
  ghost predicate WordIs(s: Snapshot, b: Block, k: nat, x: Word) {
    HeapInvariant(s) && b in s.blocks && Owns(b, k) && k < |View(s)| && View(s)[k] == x
  }

  lemma WordStep(s: Snapshot, e: Event, t: Snapshot, b: Block, k: nat, x: Word)
    requires WordIs(s, b, k, x) && Step(s, e, t)
    ensures WordIs(t, b, k, AfterEvent(e, k, x))
  {
    StepMeans(s, e, t);
    WordFollows(e, View(s), View(t), s.blocks, b, k);
  }

  /** A live payload is memory: each of its words holds what was last stored
      there, whatever else the run did. */
  lemma {:induction false} ContentsFollow(states: seq<Snapshot>, events: seq<Event>, i: nat, j: nat,
                                           b: Block, k: nat, x: Word)
    requires Run(states, events) && i <= j <= |events|
    requires WordIs(states[i], b, k, x)
    ensures WordIs(states[j], b, k, LastStored(events[i..j], k, x))
    decreases j - i
  {
    hide LastStored;
    hide HeapInvariant;
    hide View;
    hide Step;
    hide Owns;
    if i == j {
      NothingStored(events, i, k, x);
    } else {
      ContentsFollow(states, events, i, j - 1, b, k, x);
      var y := LastStored(events[i..j - 1], k, x);
      assert HeapInvariant(states[j - 1]);
      assert Follows(states, events, j - 1);
      WordStep(states[j - 1], events[j - 1], states[j], b, k, y);
      LastStoredStep(events, i, j, k, x);
    }
  }

  lemma WordFollows(e: Event, flat: seq<Word>, flat': seq<Word>, bs: seq<Block>, b: Block, k: nat)
    requires WordsFollow(e, flat, flat', bs) && b in bs && Owns(b, k) && k < |flat|
    ensures k < |flat'| && |flat| <= |flat'| && flat'[k] == AfterEvent(e, k, flat[k])
  {
  }

  lemma NothingStored(events: seq<Event>, i: nat, k: nat, x: Word)
    requires i <= |events|
    ensures LastStored(events[i..i], k, x) == x
  {
  }

  lemma LastStoredStep(events: seq<Event>, i: nat, j: nat, k: nat, x: Word)
    requires i < j <= |events|
    ensures LastStored(events[i..j], k, x) == AfterEvent(events[j - 1], k, LastStored(events[i..j - 1], k, x))
  {
    assert events[i..j][..j - 1 - i] == events[i..j - 1];
  }

  /** Only the owner's own stores change a live payload: over a run in which the
      owner does not store there, a word of it stays. */
  lemma {:induction false} ContentsPersist(states: seq<Snapshot>, events: seq<Event>, i: nat, j: nat,
                                            b: Block, k: nat, x: Word)
    requires Run(states, events) && i <= j <= |events|
    requires WordIs(states[i], b, k, x)
    requires forall m :: i <= m < j && events[m].OwnerStore? && events[m].owner == b ==> events[m].at != k
    ensures WordIs(states[j], b, k, x)
    decreases j - i
  {
    hide HeapInvariant;
    hide View;
    if i < j {
      ContentsPersist(states, events, i, j - 1, b, k, x);
      var s, e := states[j - 1], events[j - 1];
      assert Follows(states, events, j - 1);
      WordStep(s, e, states[j], b, k, x);
      if e.OwnerStore? {
        StoreIsOwn(s, e.owner, b, e.at, k);
      }
    }
  }

  /** No two blocks own the same word. */
  lemma StoreIsOwn(s: Snapshot, b: Block, c: Block, k: nat, l: nat)
    requires HeapInvariant(s) && b in s.blocks && c in s.blocks && Owns(b, k) && Owns(c, l)
    ensures k == l ==> b == c
  {
    var i :| 0 <= i < |s.blocks| && s.blocks[i] == b;
    var j :| 0 <= j < |s.blocks| && s.blocks[j] == c;
    Separate(s.blocks, 0, s.pages * PAGE_ENTRIES, i, j);
  }

  // ---- Where the code falls short ----

  /** The kernel expects a table at PHYS_TO_VIRT of its frame, but the loader
      maps only 4 MiB there. In every heap state that address leads to the table
      exactly when the table's frame lies below 4 MiB. */
  lemma TableReachableIffLow(s: Snapshot, d: nat)
    requires HeapInvariant(s) && d < PAGE_ENTRIES && HasTable(s.w, d)
    ensures var p := TableFrame(s.w, d) * PAGE_SIZE;
            && (DirectlyMapped(s.w, TableFrame(s.w, d)) <==> p < 0x40_0000)
            && (Translate(s.w, PhysToVirt(p)) == p <==> p < 0x40_0000)
  {
    var f := TableFrame(s.w, d);
    assert Reachable(s.w) && IsTable(s.w, f);
    DirectIffLow(s.w, s.free, s.reserved, f);
    hide HeapInvariant;
    hide Reachable;
    DirectPage(f);
    TranslateDirect(s.w, f);
  }

  /** For a frame other than 0, reach can be read off paging_translate. */
  lemma TranslateDirect(w: Memory, frame: int)
    requires Reachable(w) && 0 <= frame < TOTAL_FRAMES
    ensures DirectlyMapped(w, frame) ==> Translate(w, PhysToVirt(frame * PAGE_SIZE)) == frame * PAGE_SIZE
    ensures frame != 0 && Translate(w, PhysToVirt(frame * PAGE_SIZE)) == frame * PAGE_SIZE ==> DirectlyMapped(w, frame)
  {
    DirectPage(frame);
  }

  /** While the heap is the allocator's only user, a growth stays within the
      kernel's reach exactly when it needs no second table, that is when the
      heap stays within 4 MiB, or when it fails before it gets to that table. */
  lemma EarlyGrowthIff(s: Snapshot, payload: Word)
    requires HeapInvariant(s) && Early(s) && s.pages > 0
    ensures GrowthReaches(s, payload) <==>
            var n := s.pages + PagesNeeded(payload);
            n > HEAP_PAGES || n <= PAGE_ENTRIES || |s.free| <= PAGE_ENTRIES + 1 - s.pages
  {
    if s.pages + PagesNeeded(payload) <= HEAP_PAGES {
      EarlyGrowthReached(s.w, s.free, s.reserved, s.pages, PagesNeeded(payload));
    }
  }

  /** So in such a state a request that no block fits is granted exactly when
      the grown heap stays within 4 MiB and there is a frame for each new page. */
  lemma EarlyGrantIff(s: Snapshot, size: Word)
    requires HeapInvariant(s) && Early(s) && s.pages > 0
    requires size != 0 && FirstFit(s.blocks, RoundUp(size)) == |s.blocks|
    ensures !GoesAstray(s, size) && !OutOfMemory(s, size) <==>
            var n := PagesNeeded(RoundUp(size));
            GrowthExact(RoundUp(size)) && s.pages + n <= PAGE_ENTRIES && n <= |s.free|
  {
    hide RoundUp;
    hide PagesNeeded;
    var n := PagesNeeded(RoundUp(size));
    EarlyGrowthIff(s, RoundUp(size));
    if s.pages + n <= PAGE_ENTRIES {
      EarlyFrames(s, n);
    } else if s.pages + n <= HEAP_PAGES {
      SecondTableTaken(s.w, s.pages, n);
    }
  }

  /** Within the first table a growth spends one frame a page. */
  lemma EarlyFrames(s: Snapshot, n: nat)
    requires HeapInvariant(s) && Early(s) && s.pages > 0 && s.pages + n <= PAGE_ENTRIES
    ensures TakenBefore(s.w, NextPage(s), n) == n
  {
    EarlyTaken(s.w, NextPage(s), n);
    assert HasTable(s.w, HEAP_DIRECTORY) by {
      assert PageFrame(s.w, HEAP_FIRST_PAGE).Some?;
    }
  }

  /** A request of 4 MiB right after boot: with 1026 free frames there is room
      for it in every respect, yet it goes astray at the second page table. */
  lemma FourMegabytesGoAstray(s: Snapshot)
    requires HeapInvariant(s) && Early(s) && s.pages == GROW_PAGES
    requires s.blocks == [Region(0, GROW_PAGES * PAGE_ENTRIES)] && |s.free| >= 1026
    ensures !OutOfMemory(s, 0x40_0000) && GoesAstray(s, 0x40_0000)
  {
    assert RoundUp(0x40_0000) == 0x40_0000 && PagesNeeded(0x40_0000) == 1025;
    EarlyGrowthIff(s, 0x40_0000);
    var first, j := NextPage(s), PAGE_ENTRIES - GROW_PAGES;
    EarlyFrames(s, j);
    var d := HEAP_DIRECTORY + 1;
    forall e
      ensures e in MissingTables(s.w, first, 1025) <==> e == d
    {
      assert HasTable(s.w, HEAP_DIRECTORY) by {
        assert PageFrame(s.w, HEAP_FIRST_PAGE).Some?;
      }
    }
    assert MissingTables(s.w, first, 1025) == {d};
  }

  lemma {:induction false} Pow2Bound(k: nat)
    requires k < 32
    ensures Pow2(k) <= Pow2(31)
    decreases 31 - k
  {
    if k < 31 {
      Pow2Bound(k + 1);
    }
  }

  lemma Pow2Of31()
    ensures Pow2(31) == 0x8000_0000
  {
    assert Pow2(8) == 0x100;
    assert Pow2(16) == 0x1_0000;
    assert Pow2(24) == 0x100_0000;
    assert Pow2(31) == 0x8000_0000;
  }

  /** The size condition of kmalloc_aligned is exact: when it fails, no heap
      block of any size could hold the request. */
  lemma InexactAlignedRequestTooBig(size: Word, alignment: Word)
    requires PowerOfTwo(alignment) && !AlignedRequestExact(size, alignment)
    ensures size > HEAP_END - HEAP_START
  {
    var k: nat :| k < 32 && alignment == Pow2(k);
    Pow2Bound(k);
    Pow2Of31();
  }

  /** Payloads are word aligned; whether they are aligned to 8 or 16 is told by
      the block's rank in its region, and by nothing in the request. */
  lemma PayloadAlignment(s: Snapshot, i: nat)
    requires HeapInvariant(s) && i < |s.blocks|
    ensures ByRank(s.blocks[i].Payload(), Rank(s.blocks, s.regions, i))
  {
    hide ByRank;
    PayloadByRank(s.blocks, s.regions, 0, s.pages * PAGE_ENTRIES, i);
  }

  /** The first grant after boot, whatever alignment up to 16 it was asked with:
      its address is 12 modulo 16. */
  lemma FirstGrantMisaligned(s: Snapshot, size: Word)
    requires HeapInvariant(s) && s.blocks == [Region(0, GROW_PAGES * PAGE_ENTRIES)]
    requires size != 0 && RoundUp(size) <= s.blocks[0].Bytes()
    ensures FirstFit(s.blocks, RoundUp(size)) == 0
    ensures var p := Take(s.blocks, 0, RoundUp(size))[0].Payload();
            p % 16 == 12 && p % 8 == 4
  {
    TakeMeaning(s.blocks, 0, RoundUp(size));
  }

  /** A request of 0xFFFFFFF1 bytes right after boot rounds to 0 and is granted,
      with a block of no bytes at all. */
  lemma HugeRequestGranted(s: Snapshot)
    requires HeapInvariant(s) && s.blocks == [Region(0, GROW_PAGES * PAGE_ENTRIES)]
    ensures !GoesAstray(s, 0xFFFF_FFF1) && !OutOfMemory(s, 0xFFFF_FFF1)
    ensures Searched(s, 0xFFFF_FFF1) == s.blocks && Chosen(s, 0xFFFF_FFF1) == 0
    ensures GrantAddress(s, 0xFFFF_FFF1) == HEAP_START + HEADER_BYTES
    ensures RoundUp(0xFFFF_FFF1) == 0 && |Take(s.blocks, 0, 0)| > 0
    ensures Take(s.blocks, 0, 0)[0] == Block(0, 0, false)
  {
    hide PagesNeeded;
    hide HeapInvariant;
    assert Fits(s.blocks[0], 0) && Splits(s.blocks[0], 0);
    FirstFitUnique(s.blocks, 0, 0);
  }
}

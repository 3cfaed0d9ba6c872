/** Sequences of heap calls, of stores by the callers and of other mappings,
    carried out. */
module HeapRuns {
  import opened Machine
  import opened DirectMap
  import opened E820
  import FrameRuns
  import opened KernelSpace
  import opened PageTables
  import opened HeapBlocks
  import opened HeapSafety
  import opened HeapWrites
  import BitForms
  import Boot
  import Bootstrap
  import Heap
  import Paging
  import Pmm
  import WordBytes

  /** Where the shell's paging check maps a page. */
  const TEST_ADDRESS: Word := 0xC040_0000
  const TEST_PAGE: int := 0xC_0400

  /** What the rest of the kernel may ask: an allocation; a store of a word into
      the result of an earlier one; and the two steps of the shell's paging check,
      which maps a page outside the heap and stores there. */
  datatype Call =
    | Malloc(size: Word)
    | MallocAligned(size: Word, alignment: Word)
    | Calloc(num: Word, size: Word)
    | Write(which: nat, offset: nat, value: Word)
    | TestMap
    | TestStore(value: Word)

  predicate ByHeap(call: Call) {
    !call.TestMap? && !call.TestStore?
  }

  /** An allocation as its caller knows it: an address and the bytes promised. */
  datatype Grant = Grant(address: int, bytes: nat)

  /** How a call ends: with an allocation, with null, with its store or mapping
      done, without a store because that would lie outside every grant, or astray. */
  datatype Answer = Granted(grant: Grant) | Null | Finished | Ignored | Astray

  // ---- What each call answers ----

  /** The bytes that a granted request of this size can hold. */
  function Promised(size: Word): (n: nat) {
    if size <= 0xFFFF_FFF0 then size else 0
  }

  function AlignedPromise(size: Word, alignment: Word): (n: nat) {
    if alignment <= DEFAULT_ALIGNMENT then Promised(size)
    else if Heap.AlignedRequestExact(size, alignment) then size else 0
  }

  /** The block that an allocation of this size takes. */
  predicate IsTaken(s: Heap.Snapshot, t: Heap.Snapshot, size: Word, owner: Block) {
    && Heap.FirstFitGrant(s, t.blocks, Heap.Chosen(s, size), Heap.GrantAddress(s, size), size)
    && Heap.Chosen(s, size) < |t.blocks| && owner == t.blocks[Heap.Chosen(s, size)]
  }

  ghost predicate MallocAnswer(s: Heap.Snapshot, size: Word, answer: Answer, t: Heap.Snapshot, owner: Block)
    requires Heap.HeapInvariant(s)
  {
    && (answer.Granted? || answer.Null? || answer.Astray?)
    && (answer.Astray? <==> Heap.GoesAstray(s, size))
    && (answer.Granted? <==> size != 0 && !Heap.GoesAstray(s, size) && !Heap.OutOfMemory(s, size))
    && (answer.Granted? ==>
          && IsTaken(s, t, size, owner)
          && answer.grant == Grant(Heap.GrantAddress(s, size), Promised(size)))
  }

  /** kmalloc's block is there, but the back pointer would lie outside it. */
  ghost predicate Misplaced(s: Heap.Snapshot, t: Heap.Snapshot, size: Word, alignment: Word)
    requires Heap.HeapInvariant(s)
  {
    var request := Heap.Request(size, alignment);
    && Heap.AlignedGranted(s, size, alignment)
    && Heap.PlacedOutside(t.blocks, Heap.Chosen(s, request), Heap.GrantAddress(s, request), alignment)
  }

  /** When kmalloc_aligned grants a request and when it goes astray. */
  ghost predicate AlignedWhen(s: Heap.Snapshot, size: Word, alignment: Word, answer: Answer, t: Heap.Snapshot)
    requires Heap.HeapInvariant(s)
  {
    && (answer.Granted? || answer.Null? || answer.Astray?)
    && (answer.Astray? <==> Heap.AlignedAstray(s, size, alignment) || Misplaced(s, t, size, alignment))
    && (answer.Granted? <==> Heap.AlignedGranted(s, size, alignment) && !Misplaced(s, t, size, alignment))
  }

  /** What it then grants. */
  ghost predicate AlignedWhat(s: Heap.Snapshot, size: Word, alignment: Word, g: Grant, t: Heap.Snapshot, owner: Block)
    requires Heap.HeapInvariant(t)
  {
    var request := Heap.Request(size, alignment);
    && IsTaken(s, t, request, owner)
    && g == Grant(Heap.AlignedAddress(Heap.GrantAddress(s, request), alignment), AlignedPromise(size, alignment))
    && (alignment <= DEFAULT_ALIGNMENT ==> ByRank(g.address, Heap.RankOfGrant(s, size)))
    && (alignment > DEFAULT_ALIGNMENT ==> Heap.AlignedGrant(View(t), owner, g.address, size, alignment))
  }

  ghost predicate AlignedAnswer(s: Heap.Snapshot, size: Word, alignment: Word, answer: Answer,
                                t: Heap.Snapshot, owner: Block)
    requires Heap.HeapInvariant(s) && Heap.HeapInvariant(t)
  {
    && AlignedWhen(s, size, alignment, answer, t)
    && (answer.Granted? ==> AlignedWhat(s, size, alignment, answer.grant, t, owner))
  }

  ghost predicate CallocAnswer(s: Heap.Snapshot, num: Word, size: Word, answer: Answer, t: Heap.Snapshot, owner: Block)
    requires Heap.HeapInvariant(s) && Heap.HeapInvariant(t)
  {
    var total := Heap.Total(num, size);
    if num == 0 || size == 0 || TWO_32 <= total then answer.Null? && t == s
    else
      && (answer.Granted? || answer.Null? || answer.Astray?)
      && (answer.Astray? <==>
            Heap.GoesAstray(s, total) || (total > 0xFFFF_FFF0 && !Heap.OutOfMemory(s, total)))
      && (answer.Granted? <==>
            !Heap.GoesAstray(s, total) && total <= 0xFFFF_FFF0 && !Heap.OutOfMemory(s, total))
      && (answer.Granted? ==>
            && IsTaken(s, t, total, owner)
            && answer.grant == Grant(Heap.GrantAddress(s, total), total)
            && Heap.ZeroedGrant(View(t), owner, total))
  }

  /** A store into an earlier grant must lie within the bytes promised. */
  predicate WithinGrant(grants: seq<Grant>, which: nat, offset: nat) {
    which < |grants| && 4 * offset + 4 <= grants[which].bytes
  }

  /** The heap word at an offset into a grant. */
  function GrantWord(g: Grant, offset: nat): (k: int) {
    (g.address + 4 * offset - HEAP_START) / 4
  }

  predicate WriteAnswer(grants: seq<Grant>, owners: seq<Block>, which: nat, offset: nat, value: Word,
                        answer: Answer, e: Event)
    requires |grants| <= |owners|
  {
    if WithinGrant(grants, which, offset) then
      && answer.Finished?
      && GrantWord(grants[which], offset) >= 0
      && e == OwnerStore(owners[which], GrantWord(grants[which], offset), value)
    else answer.Ignored? && e.Idle?
  }

  /** The check maps the lowest free frame, if frames suffice and the table is
      within reach. */
  ghost predicate MapAnswer(s: Heap.Snapshot, answer: Answer, e: Event)
    requires Heap.HeapInvariant(s)
  {
    && (answer.Finished? || answer.Null? || answer.Astray?)
    && (answer.Astray? <==> !StepReaches(s.w, s.free, TEST_PAGE))
    && (answer.Finished? <==> StepReaches(s.w, s.free, TEST_PAGE) && |s.free| > TablesToMap(s.w, TEST_PAGE))
    && (answer.Finished? ==>
          && e.OthersMap? && e.page == TEST_PAGE && e.flags == PAGE_WRITABLE
          && forall f :: f in s.free ==> e.frame <= f)
    && (answer.Null? ==> e.Idle?)
    && (answer.Astray? ==> e.OthersCall?)
  }

  /** The store goes astray exactly when the page is not mapped. */
  ghost predicate StoreAnswer(s: Heap.Snapshot, value: Word, answer: Answer, e: Event)
    requires Heap.HeapInvariant(s)
  {
    if PageFrame(s.w, TEST_PAGE).Some? then answer.Finished? && e == OthersStore(TEST_PAGE, 0, value)
    else answer.Astray? && e.Idle?
  }

  /** What a call answers in state s, which event it is and what it leads to.
      `owners` are the blocks behind the grants so far, `owner` that behind a new
      one. */
  ghost predicate Answered(s: Heap.Snapshot, call: Call, grants: seq<Grant>, owners: seq<Block>,
                           answer: Answer, e: Event, t: Heap.Snapshot, owner: Block)
    requires |grants| <= |owners|
  {
    && Heap.HeapInvariant(s) && Step(s, e, t) && Heap.HeapInvariant(t)
    && match call
       case Malloc(size) => e.HeapCall? && MallocAnswer(s, size, answer, t, owner)
       case MallocAligned(size, alignment) => e.HeapCall? && AlignedAnswer(s, size, alignment, answer, t, owner)
       case Calloc(num, size) => e.HeapCall? && CallocAnswer(s, num, size, answer, t, owner)
       case Write(which, offset, value) => WriteAnswer(grants, owners, which, offset, value, answer, e)
       case TestMap => MapAnswer(s, answer, e)
       case TestStore(value) => StoreAnswer(s, value, answer, e)
  }

  // ---- Grants and their blocks ----

  /** The grant lies inside the payload of a used block. */
  predicate Backed(bs: seq<Block>, g: Grant, b: Block) {
    && b in bs && !b.free
    && g.address % 4 == 0
    && b.Payload() <= g.address && g.address + g.bytes <= b.Payload() + b.Bytes()
  }

  predicate AllBacked(bs: seq<Block>, grants: seq<Grant>, owners: seq<Block>) {
    |grants| <= |owners| && forall h :: 0 <= h < |grants| ==> Backed(bs, grants[h], owners[h])
  }

  predicate Distinct(owners: seq<Block>) {
    forall g, h :: 0 <= g < h < |owners| ==> owners[g] != owners[h]
  }

  lemma OwnersSuffice(bs: seq<Block>, grants: seq<Grant>, owners: seq<Block>)
    requires AllBacked(bs, grants, owners)
    ensures |grants| <= |owners|
  {
  }

  lemma StillBacked(s: Heap.Snapshot, t: Heap.Snapshot, grants: seq<Grant>, owners: seq<Block>)
    requires Heap.ListInvariant(s) && Heap.ListInvariant(t) && Heap.Keeps(s, t)
    requires AllBacked(s.blocks, grants, owners)
    ensures AllBacked(t.blocks, grants, owners)
  {
    forall h | 0 <= h < |grants|
      ensures Backed(t.blocks, grants[h], owners[h])
    {
      assert Backed(s.blocks, grants[h], owners[h]);
    }
  }

  /** The grants among the answers, in order. */
  function GrantsOf(answers: seq<Answer>): (grants: seq<Grant>) {
    if |answers| == 0 then []
    else
      var before := GrantsOf(answers[..|answers| - 1]);
      match answers[|answers| - 1]
      case Granted(g) => before + [g]
      case _ => before
  }

  /** No two grants share a byte, neither virtually nor physically. */
  ghost predicate Apart(s: Heap.Snapshot, grants: seq<Grant>)
    requires Heap.HeapInvariant(s)
  {
    forall g, h :: 0 <= g < |grants| && 0 <= h < |grants| && g != h ==> TwoApart(s, grants[g], grants[h])
  }

  ghost predicate TwoApart(s: Heap.Snapshot, g: Grant, h: Grant)
    requires Heap.HeapInvariant(s)
  {
    assert Reachable(s.w);
    forall u: Word, v: Word :: InGrant(g, u) && InGrant(h, v) ==> u != v && Translate(s.w, u) != Translate(s.w, v)
  }

  predicate InGrant(g: Grant, v: int) {
    g.address <= v < g.address + g.bytes
  }

  /** Grants in distinct blocks are apart. */
  lemma GrantsApart(s: Heap.Snapshot, grants: seq<Grant>, owners: seq<Block>)
    requires Heap.HeapInvariant(s) && AllBacked(s.blocks, grants, owners) && Distinct(owners)
    ensures Apart(s, grants)
  {
    hide Heap.HeapInvariant;
    hide InGrant;
    forall g, h | 0 <= g < |grants| && 0 <= h < |grants| && g != h
      ensures TwoApart(s, grants[g], grants[h])
    {
      forall u: Word, v: Word | InGrant(grants[g], u) && InGrant(grants[h], v)
        ensures Reachable(s.w) && u != v && Translate(s.w, u) != Translate(s.w, v)
      {
        TwoGrantsApart(s, grants, owners, g, h, u, v);
      }
    }
  }

  lemma TwoGrantsApart(s: Heap.Snapshot, grants: seq<Grant>, owners: seq<Block>, g: nat, h: nat, u: Word, v: Word)
    requires Heap.HeapInvariant(s) && AllBacked(s.blocks, grants, owners) && Distinct(owners)
    requires g < |grants| && h < |grants| && g != h && InGrant(grants[g], u) && InGrant(grants[h], v)
    ensures Reachable(s.w) && u != v && Translate(s.w, u) != Translate(s.w, v)
  {
    hide Heap.HeapInvariant;
    assert Backed(s.blocks, grants[g], owners[g]) && Backed(s.blocks, grants[h], owners[h]);
    var i :| 0 <= i < |s.blocks| && s.blocks[i] == owners[g];
    var j :| 0 <= j < |s.blocks| && s.blocks[j] == owners[h];
    LiveAllocationsDisjoint(s, i, j, u, v);
  }

  // ---- One call ----

  const NO_BLOCK: Block := Block(0, 0, true)

  function Reply(p: Word, astray: bool, bytes: nat): (answer: Answer) {
    if astray then Astray else if p == 0 then Null else Granted(Grant(p, bytes))
  }

  function OwnerAt(bs: seq<Block>, i: nat, answer: Answer): (b: Block) {
    if answer.Granted? && i < |bs| then bs[i] else NO_BLOCK
  }

  /** A grant lies in its block, which was not in use before. */
  predicate NewOwner(s: Heap.Snapshot, t: Heap.Snapshot, g: Grant, owner: Block) {
    Backed(t.blocks, g, owner) && owner !in s.blocks
  }

  lemma MallocReplied(s: Heap.Snapshot, t: Heap.Snapshot, size: Word, p: Word, astray: bool, i: nat)
    requires Heap.HeapInvariant(s) && Heap.HeapInvariant(t)
    requires astray == Heap.GoesAstray(s, size)
    requires p == 0 <==> size == 0 || astray || Heap.OutOfMemory(s, size)
    requires p != 0 ==> Heap.FirstFitGrant(s, t.blocks, i, p, size)
    ensures var answer := Reply(p, astray, Promised(size));
            && MallocAnswer(s, size, answer, t, OwnerAt(t.blocks, i, answer))
            && (answer.Granted? ==> NewOwner(s, t, answer.grant, OwnerAt(t.blocks, i, answer)))
  {
    hide Heap.HeapInvariant;
    hide Heap.OutOfMemory;
    assert astray ==> size != 0;
    hide Heap.GoesAstray;
    if p != 0 {
      Taken(s, t, size, p, i);
    }
  }

  /** What a successful allocation gives its caller. */
  lemma Taken(s: Heap.Snapshot, t: Heap.Snapshot, size: Word, p: int, i: nat)
    requires Heap.HeapInvariant(t) && Heap.FirstFitGrant(s, t.blocks, i, p, size)
    ensures i == Heap.Chosen(s, size) && p == Heap.GrantAddress(s, size) && i < |t.blocks|
    ensures IsTaken(s, t, size, t.blocks[i])
    ensures !t.blocks[i].free && t.blocks[i] !in s.blocks && p == t.blocks[i].Payload() && p % 4 == 0
    ensures Promised(size) <= t.blocks[i].Bytes()
  {
    hide Heap.HeapInvariant;
    hide Heap.Chosen;
    hide Heap.Searched;
    hide Heap.GrantAddress;
    hide RoundUp;
    hide Take;
    PayloadAlignment(t, i);
  }

  lemma AlignedReplied(s: Heap.Snapshot, t: Heap.Snapshot, size: Word, alignment: Word,
                       p: Word, astray: bool, raw: Word, i: nat)
    requires Heap.HeapInvariant(s) && Heap.HeapInvariant(t)
    requires raw != 0 <==> Heap.AlignedGranted(s, size, alignment)
    requires raw != 0 ==> Heap.FirstFitGrant(s, t.blocks, i, raw, Heap.Request(size, alignment))
    requires astray <==>
               || Heap.AlignedAstray(s, size, alignment)
               || (raw != 0 && Heap.PlacedOutside(t.blocks, i, raw, alignment))
    requires p == 0 <==> raw == 0 || astray
    requires p != 0 ==> p == Heap.AlignedAddress(raw, alignment)
    requires p != 0 && alignment <= DEFAULT_ALIGNMENT ==> ByRank(p, Heap.RankOfGrant(s, size))
    requires p != 0 && alignment > DEFAULT_ALIGNMENT ==>
               i < |t.blocks| && Heap.AlignedGrant(View(t), t.blocks[i], p, size, alignment)
    ensures var answer := Reply(p, astray, AlignedPromise(size, alignment));
            && AlignedAnswer(s, size, alignment, answer, t, OwnerAt(t.blocks, i, answer))
            && (answer.Granted? ==> NewOwner(s, t, answer.grant, OwnerAt(t.blocks, i, answer)))
  {
    hide Heap.HeapInvariant;
    hide View;
    hide Heap.FirstFitGrant;
    hide Heap.AlignedGranted;
    hide Heap.AlignedAstray;
    hide Heap.PlacedOutside;
    hide AlignedWhen;
    hide AlignedWhat;
    hide NewOwner;
    AlignedWhenReplied(s, t, size, alignment, p, astray, raw, i);
    if p != 0 {
      AlignedWhatReplied(s, t, size, alignment, p, raw, i);
    }
  }

  lemma AlignedWhenReplied(s: Heap.Snapshot, t: Heap.Snapshot, size: Word, alignment: Word,
                           p: Word, astray: bool, raw: Word, i: nat)
    requires Heap.HeapInvariant(s) && Heap.HeapInvariant(t)
    requires raw != 0 <==> Heap.AlignedGranted(s, size, alignment)
    requires raw != 0 ==> Heap.FirstFitGrant(s, t.blocks, i, raw, Heap.Request(size, alignment))
    requires astray <==>
               || Heap.AlignedAstray(s, size, alignment)
               || (raw != 0 && Heap.PlacedOutside(t.blocks, i, raw, alignment))
    requires p == 0 <==> raw == 0 || astray
    ensures AlignedWhen(s, size, alignment, Reply(p, astray, AlignedPromise(size, alignment)), t)
    ensures p != 0 ==> raw != 0 && !astray
  {
    hide Heap.HeapInvariant;
    hide Heap.FirstFitGrant;
    hide Heap.GrantAddress;
    hide Heap.Chosen;
    hide Heap.PlacedOutside;
    hide Heap.Request;
    hide Heap.GoesAstray;
    hide Heap.OutOfMemory;
    hide AlignedPromise;
    hide IsTaken;
    if raw != 0 {
      Taken(s, t, Heap.Request(size, alignment), raw, i);
    }
  }

  lemma AlignedWhatReplied(s: Heap.Snapshot, t: Heap.Snapshot, size: Word, alignment: Word, p: Word, raw: Word, i: nat)
    requires Heap.HeapInvariant(t) && p != 0
    requires Heap.FirstFitGrant(s, t.blocks, i, raw, Heap.Request(size, alignment))
    requires p == Heap.AlignedAddress(raw, alignment)
    requires alignment <= DEFAULT_ALIGNMENT ==> ByRank(p, Heap.RankOfGrant(s, size))
    requires alignment > DEFAULT_ALIGNMENT ==>
               i < |t.blocks| && Heap.AlignedGrant(View(t), t.blocks[i], p, size, alignment)
    ensures i < |t.blocks|
    ensures AlignedWhat(s, size, alignment, Grant(p, AlignedPromise(size, alignment)), t, t.blocks[i])
    ensures NewOwner(s, t, Grant(p, AlignedPromise(size, alignment)), t.blocks[i])
  {
    hide Heap.HeapInvariant;
    hide View;
    hide Heap.FirstFitGrant;
    hide Heap.RankOfGrant;
    hide Heap.GrantAddress;
    hide Heap.Chosen;
    hide Heap.AlignedAddress;
    hide Heap.AlignedGrant;
    hide Heap.Request;
    hide AlignedPromise;
    hide ByRank;
    hide IsTaken;
    hide Backed;
    Taken(s, t, Heap.Request(size, alignment), raw, i);
    AlignedBacked(t, i, raw, p, size, alignment);
  }

  lemma AlignedBacked(t: Heap.Snapshot, i: nat, raw: Word, p: Word, size: Word, alignment: Word)
    requires Heap.HeapInvariant(t) && i < |t.blocks| && !t.blocks[i].free
    requires raw == t.blocks[i].Payload() && raw % 4 == 0 && p == Heap.AlignedAddress(raw, alignment)
    requires Promised(Heap.Request(size, alignment)) <= t.blocks[i].Bytes()
    requires alignment > DEFAULT_ALIGNMENT ==> Heap.AlignedGrant(View(t), t.blocks[i], p, size, alignment)
    ensures Backed(t.blocks, Grant(p, AlignedPromise(size, alignment)), t.blocks[i])
  {
    hide Heap.Placed;
    hide Heap.HeapInvariant;
    hide View;
  }

  lemma CallocReplied(s: Heap.Snapshot, t: Heap.Snapshot, num: Word, size: Word, p: Word, astray: bool, i: nat)
    requires Heap.HeapInvariant(s) && Heap.HeapInvariant(t)
    requires num == 0 || size == 0 || TWO_32 <= Heap.Total(num, size) ==> p == 0 && !astray && t == s
    requires num != 0 && size != 0 && Heap.Total(num, size) < TWO_32 ==>
               && astray == (|| Heap.GoesAstray(s, Heap.Total(num, size))
                             || (Heap.Total(num, size) > 0xFFFF_FFF0 && !Heap.OutOfMemory(s, Heap.Total(num, size))))
               && (p == 0 <==> astray || Heap.OutOfMemory(s, Heap.Total(num, size)))
    requires p != 0 ==>
               && Heap.Total(num, size) < TWO_32 && Heap.FirstFitGrant(s, t.blocks, i, p, Heap.Total(num, size))
               && i < |t.blocks| && Heap.ZeroedGrant(View(t), t.blocks[i], Heap.Total(num, size))
    ensures var answer := Reply(p, astray, Heap.Total(num, size));
            && CallocAnswer(s, num, size, answer, t, OwnerAt(t.blocks, i, answer))
            && (answer.Granted? ==> NewOwner(s, t, answer.grant, OwnerAt(t.blocks, i, answer)))
  {
    hide Heap.HeapInvariant;
    hide View;
    hide Heap.Total;
    hide Heap.GoesAstray;
    hide Heap.OutOfMemory;
    hide Heap.FirstFitGrant;
    hide Heap.GrantAddress;
    hide Heap.Chosen;
    if p != 0 {
      Taken(s, t, Heap.Total(num, size), p, i);
    }
  }

  lemma NothingHappens(s: Heap.Snapshot)
    requires Heap.HeapInvariant(s)
    ensures Step(s, Idle, s)
  {
  }

  lemma WriteReplied(grants: seq<Grant>, owners: seq<Block>, which: nat, offset: nat, value: Word,
                     answer: Answer, e: Event)
    requires |grants| <= |owners|
    requires WithinGrant(grants, which, offset) ==>
               && GrantWord(grants[which], offset) >= 0
               && answer == Finished && e == OwnerStore(owners[which], GrantWord(grants[which], offset), value)
    requires !WithinGrant(grants, which, offset) ==> answer == Ignored && e == Idle
    ensures WriteAnswer(grants, owners, which, offset, value, answer, e)
  {
  }

  lemma KeptBy(s: Heap.Snapshot, t: Heap.Snapshot, grants: seq<Grant>, owners: seq<Block>)
    requires Heap.HeapInvariant(s) && Heap.HeapInvariant(t) && Heap.Advances(s, t)
    requires AllBacked(s.blocks, grants, owners)
    ensures Step(s, HeapCall, t) && AllBacked(t.blocks, grants, owners)
  {
    StillBacked(s, t, grants, owners);
  }

  lemma KeptByOthers(s: Heap.Snapshot, e: Event, t: Heap.Snapshot, grants: seq<Grant>, owners: seq<Block>)
    requires Heap.HeapInvariant(s) && Step(s, e, t) && AllBacked(s.blocks, grants, owners)
    ensures Heap.HeapInvariant(t) && AllBacked(t.blocks, grants, owners)
  {
    StepMeans(s, e, t);
    StillBacked(s, t, grants, owners);
  }

  /** A store into an earlier grant. */
  method WriteWord(heap: Heap.Heap, grants: seq<Grant>, ghost owners: seq<Block>, which: nat, offset: nat, value: Word)
    returns (ghost event: Event)
    requires heap.Valid() && AllBacked(heap.blocks, grants, owners)
    requires WithinGrant(grants, which, offset)
    modifies heap.paging.ram
    ensures heap.Valid() && AllBacked(heap.blocks, grants, owners)
    ensures GrantWord(grants[which], offset) >= 0
    ensures event == OwnerStore(owners[which], GrantWord(grants[which], offset), value)
    ensures Step(old(heap.Now()), event, heap.Now())
    ensures Heap.Early(old(heap.Now())) ==> Heap.Early(heap.Now())
  {
    ghost var b := owners[which];
    assert Backed(heap.blocks, grants[which], b);
    ghost var i :| 0 <= i < |heap.blocks| && heap.blocks[i] == b;
    ghost var k := GrantWord(grants[which], offset);
    WordInBlock(grants[which], b, offset);
    Heap.BlockInHeap(heap.Now(), i);
    heap.ClientStore(grants[which].address + 4 * offset, value, i, k);
    event := OwnerStore(b, k, value);
  }

  /** The heap word at an offset into a grant. */
  lemma WordInBlock(g: Grant, b: Block, offset: nat)
    requires g.address % 4 == 0 && 4 * offset + 4 <= g.bytes
    requires b.Payload() <= g.address && g.address + g.bytes <= b.Payload() + b.Bytes()
    ensures var k := GrantWord(g, offset);
            0 <= k && WordAddress(k) == g.address + 4 * offset && b.pos + HEADER_WORDS <= k < b.End()
  {
  }

  /** paging_alloc_page as the shell's check calls it. */
  method MapTestPage(heap: Heap.Heap) returns (answer: Answer, ghost event: Event)
    requires heap.Valid()
    modifies heap.paging.ram, heap.paging.pmm`free, heap.paging.pmm.bitmap
    ensures heap.Valid()
    ensures Step(old(heap.Now()), event, heap.Now()) && MapAnswer(old(heap.Now()), answer, event) && !answer.Granted?
  {
    hide Heap.ListInvariant;
    hide Regioned;
    hide Exclusive;
    hide Flat;
    hide CanMap;
    hide MapWords;
    hide FreeAfterMap;
    hide ZeroFrame;
    hide WordBytes.ClearedBytes;
    hide TablesToMap;
    hide StepReaches;
    hide Step;
    hide MapAnswer;
    hide PageFrame;
    hide Paging.MapFreshMisses;
    hide FrameRuns.Lowest;
    ghost var s, total := heap.Now(), heap.paging.pmm.totalPages;
    TestReach(s, total);
    var outcome;
    ghost var frame, table;
    outcome, frame, table := heap.paging.AllocPage(TEST_ADDRESS, PAGE_WRITABLE);
    ghost var t := heap.Now();
    if outcome.Done? {
      answer, event := Finished, OthersMap(TEST_PAGE, frame, PAGE_WRITABLE, table);
      TestMapped(s, t, frame, table);
    } else if outcome.Refused? {
      answer, event := Null, Idle;
      TestRefused(s);
    } else {
      answer, event := Astray, OthersCall;
      TestAstray(s, t);
    }
    StepMeans(s, event, t);
    IsViewable(t);
  }

  lemma IsViewable(s: Heap.Snapshot)
    requires Heap.HeapInvariant(s)
    ensures Viewable(s.w, s.free, s.reserved, s.pages)
  {
  }

  lemma TestReach(s: Heap.Snapshot, total: nat)
    requires Heap.HeapInvariant(s) && total <= TOTAL_FRAMES
    requires 0 !in s.free && forall f :: f in s.free ==> 0 <= f < total
    ensures Reachable(s.w)
    ensures Paging.MapFreshMisses(s.w, s.free, total, TEST_PAGE) <==> !StepReaches(s.w, s.free, TEST_PAGE)
    ensures forall f :: f in s.free ==> FrameRuns.Lowest(s.free, total) <= f
  {
    StepReachesIff(s.w, s.free, s.reserved, total, TEST_PAGE);
    if s.free != {} {
      LowestTaken(s.free, total);
    }
  }

  lemma TestMapped(s: Heap.Snapshot, t: Heap.Snapshot, frame: int, table: int)
    requires Heap.HeapInvariant(s)
    requires StepReaches(s.w, s.free, TEST_PAGE) && |s.free| > TablesToMap(s.w, TEST_PAGE)
    requires frame in s.free && 0 < frame < Frames(s.w) && frame < TOTAL_FRAMES
    requires forall f :: f in s.free ==> frame <= f
    requires CanMap(s.w, s.free - {frame}, TEST_PAGE, table)
    requires t == s.(w := ZeroFrame(MapWords(s.w, s.free - {frame}, TEST_PAGE, frame, PAGE_WRITABLE, table), frame),
                     free := FreeAfterMap(s.w, s.free - {frame}, TEST_PAGE, table))
    ensures var e := OthersMap(TEST_PAGE, frame, PAGE_WRITABLE, table); Step(s, e, t) && MapAnswer(s, Finished, e)
  {
  }

  lemma TestRefused(s: Heap.Snapshot)
    requires Heap.HeapInvariant(s)
    requires StepReaches(s.w, s.free, TEST_PAGE) && |s.free| <= TablesToMap(s.w, TEST_PAGE)
    ensures Step(s, Idle, s) && MapAnswer(s, Null, Idle)
  {
  }

  lemma TestAstray(s: Heap.Snapshot, t: Heap.Snapshot)
    requires Heap.HeapInvariant(s) && !StepReaches(s.w, s.free, TEST_PAGE)
    requires t == s.(free := t.free) && t.free <= s.free
    ensures Step(s, OthersCall, t) && MapAnswer(s, Astray, OthersCall)
  {
    FewerHarmless(s, t.free);
  }

  lemma FewerHarmless(s: Heap.Snapshot, free: set<int>)
    requires Heap.HeapInvariant(s) && free <= s.free
    ensures forall frame :: frame in free ==> !HeapDependsOn(s, frame)
  {
    forall frame | frame in free
      ensures !HeapDependsOn(s, frame)
    {
      forall page | PrivatePage(page) && PageFrame(s.w, page).Some?
        ensures PageFrame(s.w, page).value !in s.free
      {
        assert PrivateFrame(s.w, s.free, s.reserved, PageFrame(s.w, page).value);
      }
    }
  }

  /** The check's store into the page it mapped. */
  method StoreTestPage(heap: Heap.Heap, value: Word) returns (answer: Answer, ghost event: Event)
    requires heap.Valid()
    modifies heap.paging.ram
    ensures heap.Valid()
    ensures Step(old(heap.Now()), event, heap.Now()) && StoreAnswer(old(heap.Now()), value, answer, event)
    ensures !answer.Granted?
  {
    ghost var s := heap.Now();
    var at := heap.paging.Walk(TEST_ADDRESS);
    if at == None {
      return Astray, Idle;
    }
    assert PrivateFrame(s.w, s.free, s.reserved, at.value);
    heap.paging.ram[at.value * PAGE_ENTRIES] := value;
    event := OthersStore(TEST_PAGE, 0, value);
    assert heap.Now().w == SetTableEntry(s.w, at.value, 0, value);
    StepMeans(s, event, heap.Now());
    return Finished, event;
  }

  /** One call, which is one event. */
  method Perform(heap: Heap.Heap, call: Call, grants: seq<Grant>, ghost owners: seq<Block>)
    returns (answer: Answer, ghost event: Event, ghost owner: Block)
    requires heap.Valid() && AllBacked(heap.blocks, grants, owners)
    modifies heap, heap.paging.ram, heap.paging.pmm`free, heap.paging.pmm.bitmap
    ensures heap.Valid() && AllBacked(heap.blocks, grants, owners)
    ensures Answered(old(heap.Now()), call, grants, owners, answer, event, heap.Now(), owner)
    ensures answer.Granted? ==> NewOwner(old(heap.Now()), heap.Now(), answer.grant, owner)
    ensures !answer.Granted? ==> owner == NO_BLOCK
    ensures Heap.Early(old(heap.Now())) && !answer.Astray? && ByHeap(call) ==> Heap.Early(heap.Now())
  {
    hide Heap.GoesAstray;
    hide Heap.OutOfMemory;
    hide Heap.ListInvariant;
    hide Regioned;
    hide Heap.Early;
    hide AllBacked;
    hide Backed;
    hide Heap.FirstFitGrant;
    hide Heap.AlignedGrant;
    hide Heap.AlignedAddress;
    hide Heap.RankOfGrant;
    hide Heap.ZeroedGrant;
    hide Heap.Total;
    hide Promised;
    hide AlignedPromise;
    hide ByRank;
    hide MallocAnswer;
    hide AlignedAnswer;
    hide CallocAnswer;
    hide WriteAnswer;
    hide MapAnswer;
    hide StoreAnswer;
    hide NewOwner;
    hide Heap.HeapInvariant;
    hide Heap.Advances;
    hide Step;
    ghost var start := heap.Now();
    OwnersSuffice(heap.blocks, grants, owners);
    owner, event := NO_BLOCK, HeapCall;
    ghost var i;
    match call {
      case Malloc(size) =>
        var p, astray;
        p, astray, i := heap.Kmalloc(size);
        answer := Reply(p, astray, Promised(size));
        owner := OwnerAt(heap.blocks, i, answer);
        MallocReplied(start, heap.Now(), size, p, astray, i);
        KeptBy(start, heap.Now(), grants, owners);
      case MallocAligned(size, alignment) =>
        var p, astray;
        ghost var raw;
        p, astray, raw, i := heap.KmallocAligned(size, alignment);
        answer := Reply(p, astray, AlignedPromise(size, alignment));
        owner := OwnerAt(heap.blocks, i, answer);
        AlignedReplied(start, heap.Now(), size, alignment, p, astray, raw, i);
        KeptBy(start, heap.Now(), grants, owners);
      case Calloc(num, size) =>
        var p, astray;
        p, astray, i := heap.Kcalloc(num, size);
        answer := Reply(p, astray, Heap.Total(num, size));
        owner := OwnerAt(heap.blocks, i, answer);
        CallocReplied(start, heap.Now(), num, size, p, astray, i);
        KeptBy(start, heap.Now(), grants, owners);
      case Write(which, offset, value) =>
        if WithinGrant(grants, which, offset) {
          event := WriteWord(heap, grants, owners, which, offset, value);
          answer := Finished;
        } else {
          answer, event := Ignored, Idle;
          NothingHappens(start);
        }
        WriteReplied(grants, owners, which, offset, value, answer, event);
      case TestMap =>
        answer, event := MapTestPage(heap);
        KeptByOthers(start, event, heap.Now(), grants, owners);
      case TestStore(value) =>
        answer, event := StoreTestPage(heap, value);
        KeptByOthers(start, event, heap.Now(), grants, owners);
    }
  }

  // ---- Sequences of calls ----

  /** What came of a sequence of calls: the answers, the blocks behind the grants,
      the states passed through and the events between them. */
  datatype Trace = Trace(answers: seq<Answer>, owners: seq<Block>, states: seq<Heap.Snapshot>, events: seq<Event>) {
    predicate Fits() {
      |events| == |answers| && |states| == |answers| + 1
    }

    /** The grants after the first k calls. */
    function Grants(k: nat): (grants: seq<Grant>)
      requires k <= |answers|
    {
      GrantsOf(answers[..k])
    }

    /** The block behind the grant of call k, if it was granted. */
    function Owner(k: nat): (b: Block)
      requires k < |answers|
    {
      if answers[k].Granted? && |Grants(k)| < |owners| then owners[|Grants(k)|] else NO_BLOCK
    }
  }

  /** Call k was answered as it must be in its state. */
  ghost predicate CallAnswered(tr: Trace, call: Call, k: nat)
    requires tr.Fits() && k < |tr.answers|
  {
    && |tr.Grants(k)| <= |tr.owners|
    && Answered(tr.states[k], call, tr.Grants(k), tr.owners, tr.answers[k], tr.events[k], tr.states[k + 1], tr.Owner(k))
  }

  /** After k calls every grant so far has its own block. */
  ghost predicate GrantsBacked(tr: Trace, k: nat)
    requires tr.Fits() && k <= |tr.answers|
  {
    Heap.HeapInvariant(tr.states[k]) && AllBacked(tr.states[k].blocks, tr.Grants(k), tr.owners)
  }

  /** The calls were carried out in order, at most the last one going astray. */
  ghost predicate CarriedOut(tr: Trace, calls: seq<Call>) {
    && tr.Fits() && |tr.answers| <= |calls|
    && (forall k :: 0 <= k < |tr.answers| ==> CallAnswered(tr, calls[k], k))
    && (forall k :: 0 <= k <= |tr.answers| ==> GrantsBacked(tr, k))
    && (forall k :: 0 <= k < |tr.answers| - 1 ==> !tr.answers[k].Astray?)
    && |tr.owners| == |tr.Grants(|tr.answers|)| && Distinct(tr.owners)
  }

  lemma {:induction false} GrantsPrefix(answers: seq<Answer>, k: nat)
    requires k <= |answers|
    ensures GrantsOf(answers[..k]) <= GrantsOf(answers)
    ensures k < |answers| && answers[k].Granted? ==>
              |GrantsOf(answers[..k])| < |GrantsOf(answers)| &&
              GrantsOf(answers)[|GrantsOf(answers[..k])|] == answers[k].grant
  {
    var n := |answers|;
    if k == n {
      assert answers[..k] == answers;
    } else if k == n - 1 {
    } else {
      assert answers[..n - 1][..k] == answers[..k] && answers[..n - 1][k] == answers[k];
      GrantsPrefix(answers[..n - 1], k);
    }
  }

  lemma OneAnswerMore(answers: seq<Answer>, a: Answer)
    ensures GrantsOf(answers + [a]) == GrantsOf(answers) + if a.Granted? then [a.grant] else []
  {
    assert (answers + [a])[..|answers|] == answers;
  }

  /** The trace with one more call. */
  function Longer(tr: Trace, a: Answer, owner: Block, e: Event, t: Heap.Snapshot): (r: Trace) {
    Trace(tr.answers + [a], tr.owners + (if a.Granted? then [owner] else []), tr.states + [t], tr.events + [e])
  }

  lemma GoesOn(tr: Trace, calls: seq<Call>, a: Answer, owner: Block, e: Event, t: Heap.Snapshot)
    requires CarriedOut(tr, calls) && |tr.answers| < |calls|
    requires forall k :: 0 <= k < |tr.answers| ==> !tr.answers[k].Astray?
    requires |tr.Grants(|tr.answers|)| <= |tr.owners|
    requires Answered(tr.states[|tr.answers|], calls[|tr.answers|], tr.Grants(|tr.answers|), tr.owners, a, e, t, owner)
    requires AllBacked(t.blocks, tr.Grants(|tr.answers|), tr.owners)
    requires a.Granted? ==> NewOwner(tr.states[|tr.answers|], t, a.grant, owner)
    requires !a.Granted? ==> owner == NO_BLOCK
    ensures CarriedOut(Longer(tr, a, owner, e, t), calls)
  {
    hide Answered;
    hide AllBacked;
    hide Distinct;
    hide NewOwner;
    hide GrantsOf;
    hide Heap.HeapInvariant;
    var n, r := |tr.answers|, Longer(tr, a, owner, e, t);
    assert tr.answers[..n] == tr.answers;
    OneAnswerMore(tr.answers, a);
    assert r.answers[..n + 1] == r.answers && r.answers[..n] == tr.answers;
    IsAnswered(tr.states[n], calls[n], tr.Grants(n), tr.owners, a, e, t, owner);
    forall k | 0 <= k < |r.answers|
      ensures CallAnswered(r, calls[k], k)
    {
      if k < n {
        assert CallAnswered(tr, calls[k], k);
        StillAnswered(tr, r, calls[k], k);
      } else {
        GrantsPrefix(r.answers, n);
        MoreOwners(tr.states[n], calls[n], tr.Grants(n), tr.owners, r.owners, a, e, t, owner);
      }
    }
    forall k | 0 <= k <= |r.answers|
      ensures GrantsBacked(r, k)
    {
      if k <= n {
        StillGranted(tr, r, k);
      } else {
        NewBacked(tr.states[n], t, tr.Grants(n), tr.owners, a, owner);
      }
    }
    assert GrantsBacked(tr, n);
    StillDistinct(tr.states[n], t, tr.Grants(n), tr.owners, a, owner);
  }

  /** An answer stays right as the trace goes on. */
  lemma StillAnswered(tr: Trace, r: Trace, call: Call, k: nat)
    requires tr.Fits() && r.Fits() && k < |tr.answers|
    requires tr.answers <= r.answers && tr.owners <= r.owners && tr.states <= r.states && tr.events <= r.events
    requires |tr.owners| == |tr.Grants(|tr.answers|)|
    requires CallAnswered(tr, call, k)
    ensures CallAnswered(r, call, k)
  {
    hide Answered;
    hide GrantsOf;
    assert tr.answers[..|tr.answers|] == tr.answers && r.answers[..k] == tr.answers[..k];
    GrantsPrefix(tr.answers, k);
    MoreOwners(tr.states[k], call, tr.Grants(k), tr.owners, r.owners, tr.answers[k], tr.events[k], tr.states[k + 1],
               tr.Owner(k));
  }

  lemma StillGranted(tr: Trace, r: Trace, k: nat)
    requires tr.Fits() && r.Fits() && k <= |tr.answers| && GrantsBacked(tr, k)
    requires tr.answers <= r.answers && tr.owners <= r.owners && tr.states <= r.states
    ensures GrantsBacked(r, k)
  {
    hide AllBacked;
    hide Heap.HeapInvariant;
    assert r.answers[..k] == tr.answers[..k];
    MoreBacked(r.states[k].blocks, r.Grants(k), tr.owners, r.owners);
  }

  lemma IsAnswered(s: Heap.Snapshot, call: Call, grants: seq<Grant>, owners: seq<Block>,
                   a: Answer, e: Event, t: Heap.Snapshot, owner: Block)
    requires |grants| <= |owners| && Answered(s, call, grants, owners, a, e, t, owner)
    ensures Heap.HeapInvariant(s) && Heap.HeapInvariant(t) && Step(s, e, t)
  {
  }

  /** Only the owners of the grants so far matter. */
  lemma MoreOwners(s: Heap.Snapshot, call: Call, grants: seq<Grant>, owners: seq<Block>, owners': seq<Block>,
                   a: Answer, e: Event, t: Heap.Snapshot, owner: Block)
    requires |grants| <= |owners| && owners <= owners' && Answered(s, call, grants, owners, a, e, t, owner)
    ensures Answered(s, call, grants, owners', a, e, t, owner)
  {
    hide Heap.HeapInvariant;
    hide Step;
    hide MallocAnswer;
    hide AlignedAnswer;
    hide CallocAnswer;
    hide MapAnswer;
    hide StoreAnswer;
  }

  lemma MoreBacked(bs: seq<Block>, grants: seq<Grant>, owners: seq<Block>, owners': seq<Block>)
    requires AllBacked(bs, grants, owners) && owners <= owners'
    ensures AllBacked(bs, grants, owners')
  {
  }

  lemma NewBacked(s: Heap.Snapshot, t: Heap.Snapshot, grants: seq<Grant>, owners: seq<Block>, a: Answer, owner: Block)
    requires AllBacked(t.blocks, grants, owners) && |grants| == |owners|
    requires a.Granted? ==> NewOwner(s, t, a.grant, owner)
    ensures AllBacked(t.blocks, grants + (if a.Granted? then [a.grant] else []),
                      owners + (if a.Granted? then [owner] else []))
  {
    hide Backed;
  }

  lemma StillDistinct(s: Heap.Snapshot, t: Heap.Snapshot, grants: seq<Grant>, owners: seq<Block>, a: Answer, owner: Block)
    requires AllBacked(s.blocks, grants, owners) && |grants| == |owners| && Distinct(owners)
    requires a.Granted? ==> NewOwner(s, t, a.grant, owner)
    ensures Distinct(owners + (if a.Granted? then [owner] else []))
  {
    if a.Granted? {
      forall h | 0 <= h < |owners|
        ensures owners[h] != owner
      {
        assert Backed(s.blocks, grants[h], owners[h]);
      }
    }
  }

  lemma NothingYet(s: Heap.Snapshot, calls: seq<Call>)
    requires Heap.HeapInvariant(s)
    ensures CarriedOut(Trace([], [], [s], []), calls) && GrantsOf([]) == []
  {
  }

  /** The states of calls carried out form a run. */
  lemma CallsRun(tr: Trace, calls: seq<Call>)
    requires CarriedOut(tr, calls)
    ensures Run(tr.states, tr.events)
  {
    hide Heap.HeapInvariant;
    hide Step;
    hide Answered;
    hide GrantsBacked;
    forall k | 0 <= k < |tr.events|
      ensures Follows(tr.states, tr.events, k)
    {
      assert CallAnswered(tr, calls[k], k);
      IsAnswered(tr.states[k], calls[k], tr.Grants(k), tr.owners, tr.answers[k], tr.events[k], tr.states[k + 1],
                 tr.Owner(k));
    }
  }

  /** At every moment no two of the grants so far share a byte. */
  lemma AlwaysApart(tr: Trace, calls: seq<Call>, k: nat)
    requires CarriedOut(tr, calls) && k <= |tr.answers|
    ensures Heap.HeapInvariant(tr.states[k]) && Apart(tr.states[k], tr.Grants(k))
  {
    hide CallAnswered;
    hide Distinct;
    hide AllBacked;
    hide Heap.HeapInvariant;
    assert GrantsBacked(tr, k);
    GrantsApart(tr.states[k], tr.Grants(k), tr.owners);
  }

  /** A granted byte keeps its physical address. */
  lemma GrantsStay(tr: Trace, calls: seq<Call>, i: nat, j: nat, h: nat, v: Word)
    requires CarriedOut(tr, calls) && i <= j <= |tr.answers|
    requires h < |tr.Grants(i)| && InGrant(tr.Grants(i)[h], v)
    ensures Reachable(tr.states[i].w) && Reachable(tr.states[j].w)
    ensures Translate(tr.states[j].w, v) == Translate(tr.states[i].w, v) != 0
  {
    hide CallAnswered;
    hide Distinct;
    CallsRun(tr, calls);
    assert GrantsBacked(tr, i) && GrantsBacked(tr, j);
    assert Backed(tr.states[i].blocks, tr.Grants(i)[h], tr.owners[h]);
    BackedByte(tr.states[i], tr.Grants(i)[h], tr.owners[h], v);
    RunKeeps(tr.states, tr.events, i, j);
    SamePage(tr.states[i], tr.states[j], v);
  }

  lemma BackedByte(s: Heap.Snapshot, g: Grant, b: Block, v: Word)
    requires Heap.HeapInvariant(s) && Backed(s.blocks, g, b) && InGrant(g, v)
    ensures HEAP_START <= v < HEAP_START + s.pages * PAGE_SIZE
  {
    hide Heap.HeapInvariant;
    var k :| 0 <= k < |s.blocks| && s.blocks[k] == b;
    PayloadInHeap(s, k, v);
  }

  lemma SamePage(s: Heap.Snapshot, t: Heap.Snapshot, v: Word)
    requires Heap.HeapInvariant(s) && Heap.HeapInvariant(t) && Heap.Keeps(s, t)
    requires HEAP_START <= v < HEAP_START + s.pages * PAGE_SIZE
    ensures Reachable(s.w) && Reachable(t.w) && Translate(t.w, v) == Translate(s.w, v) != 0
  {
    HeapByteOwned(s, v);
    HeapByteOwned(t, v);
    assert PageFrame(t.w, v / PAGE_SIZE) == PageFrame(s.w, v / PAGE_SIZE);
  }

  // ---- Contents ----

  /** The last value that these calls write at an offset into a grant, or x. */
  function LastWritten(calls: seq<Call>, which: nat, offset: nat, x: Word): (y: Word) {
    if |calls| == 0 then x
    else if calls[|calls| - 1].Write? && calls[|calls| - 1].which == which && calls[|calls| - 1].offset == offset
    then calls[|calls| - 1].value
    else LastWritten(calls[..|calls| - 1], which, offset, x)
  }

  /** A word of a grant reads as x: it lies in the grant's block, in use. */
  ghost predicate Reads(tr: Trace, k: nat, which: nat, offset: nat, x: Word)
    requires tr.Fits() && k <= |tr.answers|
  {
    && WithinGrant(tr.Grants(k), which, offset) && which < |tr.owners|
    && GrantWord(tr.Grants(k)[which], offset) >= 0
    && WordIs(tr.states[k], tr.owners[which], GrantWord(tr.Grants(k)[which], offset), x)
  }

  /** What one call does to a word of a grant: a write to just that word stores
      its value, and everything else leaves the word alone. */
  lemma OneCallReads(tr: Trace, calls: seq<Call>, k: nat, which: nat, offset: nat, x: Word)
    requires CarriedOut(tr, calls) && k < |tr.answers| && Reads(tr, k, which, offset, x)
    ensures Reads(tr, k + 1, which, offset,
                  if calls[k].Write? && calls[k].which == which && calls[k].offset == offset then calls[k].value else x)
  {
    hide Answered;
    hide AllBacked;
    hide WordIs;
    hide Heap.HeapInvariant;
    assert CallAnswered(tr, calls[k], k) && GrantsBacked(tr, k);
    var grants, owners, e, word := tr.Grants(k), tr.owners, tr.events[k], GrantWord(tr.Grants(k)[which], offset);
    assert tr.answers[..k + 1][..k] == tr.answers[..k];
    GrantsPrefix(tr.answers[..k + 1], k);
    assert tr.Grants(k + 1)[which] == grants[which];
    IsAnswered(tr.states[k], calls[k], grants, owners, tr.answers[k], e, tr.states[k + 1], tr.Owner(k));
    WordStep(tr.states[k], e, tr.states[k + 1], owners[which], word, x);
    CallStores(tr.states[k], calls[k], grants, owners, tr.answers[k], e, tr.states[k + 1], tr.Owner(k), which, offset, x);
  }

  lemma CallStores(s: Heap.Snapshot, call: Call, grants: seq<Grant>, owners: seq<Block>,
                   a: Answer, e: Event, t: Heap.Snapshot, owner: Block, which: nat, offset: nat, x: Word)
    requires AllBacked(s.blocks, grants, owners) && Distinct(owners) && Answered(s, call, grants, owners, a, e, t, owner)
    requires WithinGrant(grants, which, offset) && GrantWord(grants[which], offset) >= 0
    ensures AfterEvent(e, GrantWord(grants[which], offset), x) ==
            if call.Write? && call.which == which && call.offset == offset then call.value else x
  {
    hide Heap.HeapInvariant;
    hide MallocAnswer;
    hide AlignedAnswer;
    hide CallocAnswer;
    hide Step;
    if call.Write? && WithinGrant(grants, call.which, call.offset) {
      OtherWord(s, grants, owners, which, offset, call.which, call.offset);
    }
  }

  /** Different offsets and different grants are different words. */
  lemma OtherWord(s: Heap.Snapshot, grants: seq<Grant>, owners: seq<Block>, g: nat, i: nat, h: nat, j: nat)
    requires Heap.HeapInvariant(s) && AllBacked(s.blocks, grants, owners) && Distinct(owners)
    requires WithinGrant(grants, g, i) && WithinGrant(grants, h, j)
    ensures GrantWord(grants[g], i) == GrantWord(grants[h], j) ==> g == h && i == j
  {
    hide Heap.HeapInvariant;
    assert Backed(s.blocks, grants[g], owners[g]) && Backed(s.blocks, grants[h], owners[h]);
    WordInBlock(grants[g], owners[g], i);
    WordInBlock(grants[h], owners[h], j);
    StoreIsOwn(s, owners[g], owners[h], GrantWord(grants[g], i), GrantWord(grants[h], j));
  }

  /** Grants are memory: whatever else is called, a word of a grant reads as what
      was last written there. */
  lemma {:induction false} GrantsAreMemory(tr: Trace, calls: seq<Call>, i: nat, j: nat, which: nat, offset: nat, x: Word)
    requires CarriedOut(tr, calls) && i <= j <= |tr.answers|
    requires Reads(tr, i, which, offset, x)
    ensures Reads(tr, j, which, offset, LastWritten(calls[i..j], which, offset, x))
    decreases j - i
  {
    hide CarriedOut;
    hide Reads;
    assert tr.Fits() && |tr.answers| <= |calls| by {
      Carried(tr, calls);
    }
    if i == j {
      assert calls[i..j] == [];
    } else {
      GrantsAreMemory(tr, calls, i, j - 1, which, offset, x);
      OneCallReads(tr, calls, j - 1, which, offset, LastWritten(calls[i..j - 1], which, offset, x));
      assert calls[i..j][..j - 1 - i] == calls[i..j - 1];
    }
  }

  lemma Carried(tr: Trace, calls: seq<Call>)
    requires CarriedOut(tr, calls)
    ensures tr.Fits() && |tr.answers| <= |calls|
  {
  }

  /** What kcalloc grants reads as zero. */
  lemma CallocReadsZero(tr: Trace, calls: seq<Call>, k: nat, offset: nat)
    requires CarriedOut(tr, calls) && k < |tr.answers| && calls[k].Calloc? && tr.answers[k].Granted?
    requires 4 * offset + 4 <= tr.answers[k].grant.bytes
    ensures Reads(tr, k + 1, |tr.Grants(k)|, offset, 0)
  {
    hide Answered;
    hide AllBacked;
    hide WordIs;
    hide Heap.HeapInvariant;
    assert CallAnswered(tr, calls[k], k) && GrantsBacked(tr, k + 1);
    var which, g := |tr.Grants(k)|, tr.answers[k].grant;
    assert tr.answers[..k + 1][..k] == tr.answers[..k];
    GrantsPrefix(tr.answers[..k + 1], k);
    GrantsPrefix(tr.answers, k + 1);
    assert tr.Grants(k + 1)[which] == g;
    OwnersSuffice(tr.states[k + 1].blocks, tr.Grants(k + 1), tr.owners);
    CallocZero(tr.states[k], calls[k].num, calls[k].size, tr.Grants(k), tr.owners, tr.answers[k], tr.events[k],
               tr.states[k + 1], tr.Owner(k), tr.Grants(k + 1), which, offset);
  }

  lemma CallocZero(s: Heap.Snapshot, num: Word, size: Word, grants: seq<Grant>, owners: seq<Block>,
                   a: Answer, e: Event, t: Heap.Snapshot, owner: Block, grants': seq<Grant>, which: nat, offset: nat)
    requires |grants| <= |owners| && Answered(s, Calloc(num, size), grants, owners, a, e, t, owner) && a.Granted?
    requires AllBacked(t.blocks, grants', owners) && which < |grants'|
    requires grants'[which] == a.grant && owners[which] == owner
    requires 4 * offset + 4 <= a.grant.bytes
    ensures GrantWord(a.grant, offset) >= 0 && WordIs(t, owner, GrantWord(a.grant, offset), 0)
  {
    hide Heap.HeapInvariant;
    hide Heap.GoesAstray;
    hide Heap.OutOfMemory;
    hide Heap.Chosen;
    hide Heap.Searched;
    hide Step;
    hide Take;
    hide RoundUp;
    assert Backed(t.blocks, grants'[which], owners[which]);
    WordInBlock(a.grant, owner, offset);
    var i := Heap.Chosen(s, Heap.Total(num, size));
    Heap.GrantIsGood(s, t.blocks, i, a.grant.address, Heap.Total(num, size));
    hide Heap.FirstFitGrant;
    ZeroedWord(View(t), owner, a.grant.address, a.grant.bytes, offset);
    assert Owns(owner, GrantWord(a.grant, offset));
    assert owner in t.blocks;
    assert GrantWord(a.grant, offset) < |View(t)|;
    assert View(t)[GrantWord(a.grant, offset)] == 0;
  }

  lemma ZeroedWord(flat: seq<Word>, b: Block, address: int, bytes: nat, offset: nat)
    requires Heap.ZeroedGrant(flat, b, bytes) && address == b.Payload() && 4 * offset + 4 <= bytes
    ensures b.pos + HEADER_WORDS + offset < |flat| && flat[b.pos + HEADER_WORDS + offset] == 0
    ensures GrantWord(Grant(address, bytes), offset) == b.pos + HEADER_WORDS + offset
  {
    WordBytes.ZeroWord(flat, 4 * (b.pos + HEADER_WORDS), bytes, b.pos + HEADER_WORDS + offset);
  }

  /** What is granted is what was asked for: all the bytes of the request whenever
      its rounding and enlarging do not wrap, at a multiple of an alignment above
      16; and a write is carried out exactly when it lies within a grant. */
  lemma GrantsHoldRequests(tr: Trace, calls: seq<Call>, k: nat)
    requires CarriedOut(tr, calls) && k < |tr.answers|
    ensures tr.answers[k].Granted? ==>
              match calls[k]
              case Malloc(size) => size <= 0xFFFF_FFF0 ==> tr.answers[k].grant.bytes == size
              case MallocAligned(size, alignment) =>
                && (alignment <= 16 && size <= 0xFFFF_FFF0 ==> tr.answers[k].grant.bytes == size)
                && (alignment > 16 && size + alignment + 4 <= 0xFFFF_FFF0 ==> tr.answers[k].grant.bytes == size)
                && (alignment > 16 && PowerOfTwo(alignment) ==> tr.answers[k].grant.address % alignment == 0)
              case Calloc(num, size) => tr.answers[k].grant.bytes == num * size
              case _ => false
    ensures calls[k].Write? ==>
              (tr.answers[k].Finished? <==>
                 calls[k].which < |tr.Grants(k)| && 4 * calls[k].offset + 4 <= tr.Grants(k)[calls[k].which].bytes)
  {
    hide Answered;
    hide Heap.HeapInvariant;
    assert CallAnswered(tr, calls[k], k);
    AnswerHoldsRequest(tr.states[k], calls[k], tr.Grants(k), tr.owners, tr.answers[k], tr.events[k], tr.states[k + 1],
                       tr.Owner(k));
  }

  lemma AnswerHoldsRequest(s: Heap.Snapshot, call: Call, grants: seq<Grant>, owners: seq<Block>,
                           a: Answer, e: Event, t: Heap.Snapshot, owner: Block)
    requires |grants| <= |owners| && Answered(s, call, grants, owners, a, e, t, owner)
    ensures a.Granted? ==>
              match call
              case Malloc(size) => size <= 0xFFFF_FFF0 ==> a.grant.bytes == size
              case MallocAligned(size, alignment) =>
                && (alignment <= 16 && size <= 0xFFFF_FFF0 ==> a.grant.bytes == size)
                && (alignment > 16 && size + alignment + 4 <= 0xFFFF_FFF0 ==> a.grant.bytes == size)
                && (alignment > 16 && PowerOfTwo(alignment) ==> a.grant.address % alignment == 0)
              case Calloc(num, size) => a.grant.bytes == num * size
              case _ => false
    ensures call.Write? ==>
              (a.Finished? <==> call.which < |grants| && 4 * call.offset + 4 <= grants[call.which].bytes)
  {
    hide Heap.HeapInvariant;
    hide Heap.GoesAstray;
    hide Heap.OutOfMemory;
    hide Heap.Chosen;
    hide Heap.GrantAddress;
    hide Heap.AlignedAddress;
    hide Heap.FirstFitGrant;
    hide AlignedWhen;
    hide ByRank;
    hide Step;
  }

  // ---- Carrying them out ----

  /** Any sequence of calls, up to the first that goes astray. Each answer is the
      one that its call must get in its state; the states form a run; and at every
      moment no two of the grants so far share a byte. */
  method Execute(heap: Heap.Heap, calls: seq<Call>) returns (answers: seq<Answer>, ghost tr: Trace)
    requires heap.Valid()
    modifies heap, heap.paging.ram, heap.paging.pmm`free, heap.paging.pmm.bitmap
    ensures heap.Valid()
    ensures CarriedOut(tr, calls) && tr.answers == answers && Run(tr.states, tr.events)
    ensures tr.states[0] == old(heap.Now()) && tr.states[|answers|] == heap.Now()
    ensures |answers| < |calls| ==> |answers| > 0 && answers[|answers| - 1].Astray?
    ensures forall k :: 0 <= k <= |answers| ==>
              Heap.HeapInvariant(tr.states[k]) && Apart(tr.states[k], GrantsOf(answers[..k]))
    ensures Heap.Early(old(heap.Now())) && (forall call :: call in calls ==> ByHeap(call)) &&
            (forall a :: a in answers ==> !a.Astray?) ==>
              Heap.Early(heap.Now())
  {
    hide Heap.Early;
    hide Heap.ListInvariant;
    hide Regioned;
    hide CarriedOut;
    hide Answered;
    hide AllBacked;
    hide NewOwner;
    hide ByHeap;
    hide Run;
    hide Apart;
    hide GrantsOf;
    hide Distinct;
    ghost var start := heap.Now();
    var grants := [];
    answers, tr := [], Trace([], [], [heap.Now()], []);
    NothingYet(start, calls);
    while |answers| < |calls|
      invariant heap.Valid() && |answers| <= |calls|
      invariant tr.answers == answers && CarriedOut(tr, calls) && grants == GrantsOf(answers)
      invariant tr.Fits() && tr.states[0] == start && tr.states[|answers|] == heap.Now()
      invariant forall a :: a in answers ==> !a.Astray?
      invariant Heap.Early(start) && (forall call :: call in calls ==> ByHeap(call)) ==> Heap.Early(heap.Now())
      decreases |calls| - |answers|
    {
      var call := calls[|answers|];
      BackedNow(tr, calls);
      var answer;
      ghost var event, owner;
      answer, event, owner := Perform(heap, call, grants, tr.owners);
      GoesOn(tr, calls, answer, owner, event, heap.Now());
      OneAnswerMore(answers, answer);
      tr, answers := Longer(tr, answer, owner, event, heap.Now()), answers + [answer];
      if answer.Granted? {
        grants := grants + [answer.grant];
      }
      if answer.Astray? {
        break;
      }
    }
    CallsRun(tr, calls);
    forall k | 0 <= k <= |answers|
      ensures Heap.HeapInvariant(tr.states[k]) && Apart(tr.states[k], GrantsOf(answers[..k]))
    {
      AlwaysApart(tr, calls, k);
    }
  }

  lemma BackedNow(tr: Trace, calls: seq<Call>)
    requires CarriedOut(tr, calls)
    ensures tr.Grants(|tr.answers|) == GrantsOf(tr.answers) && |GrantsOf(tr.answers)| == |tr.owners|
    ensures Heap.HeapInvariant(tr.states[|tr.answers|])
    ensures AllBacked(tr.states[|tr.answers|].blocks, GrantsOf(tr.answers), tr.owners)
  {
    hide Heap.HeapInvariant;
    assert tr.answers[..|tr.answers|] == tr.answers;
    assert GrantsBacked(tr, |tr.answers|);
  }

  /** From power-on through any sequence of calls: the heap starts exactly when
      the allocator does, offers five frames and the second of them is within
      reach; the calls are then carried out from the heap's first state. */
  method BootAndExecute(ram: array<Word>, entries: seq<Entry>, available: bool, kernelEnd: Word, calls: seq<Call>)
    returns (heap: Heap.Heap?, answers: seq<Answer>, ghost tr: Trace)
    requires Frames(ram[..]) == TOTAL_FRAMES && |entries| <= 32 && kernelEnd <= Bootstrap.KERNEL_END_LIMIT
    modifies ram
    ensures heap != null <==>
              && Boot.AllocatorStarts(entries, available, kernelEnd)
              && |Boot.Offered(entries, kernelEnd)| > Heap.GROW_PAGES
              && !Boot.FirstTableAstray(Boot.Offered(entries, kernelEnd))
    ensures heap != null ==>
              && heap.Valid()
              && CarriedOut(tr, calls) && tr.answers == answers && Run(tr.states, tr.events)
              && Heap.HeapInvariant(tr.states[0]) && Heap.Early(tr.states[0])
              && tr.states[0].blocks == [Region(0, Heap.GROW_PAGES * PAGE_ENTRIES)]
              && tr.states[|answers|] == heap.Now()
              && (|answers| < |calls| ==> |answers| > 0 && answers[|answers| - 1].Astray?)
              && (forall k :: 0 <= k <= |answers| ==>
                    Heap.HeapInvariant(tr.states[k]) && Apart(tr.states[k], GrantsOf(answers[..k])))
              && ((forall call :: call in calls ==> ByHeap(call)) && (forall a :: a in answers ==> !a.Astray?) ==>
                    Heap.Early(heap.Now()))
  {
    hide Heap.Early;
    hide Heap.ListInvariant;
    hide Regioned;
    hide Run;
    hide Boot.Offered;
    hide Boot.AllocatorStarts;
    hide Boot.FirstTableAstray;
    hide Heap.HeapInvariant;
    hide CarriedOut;
    hide Apart;
    hide GrantsOf;
    hide ByHeap;
    var pmm, astray;
    pmm, heap, astray := Boot.Start(ram, entries, available, kernelEnd);
    answers, tr := [], Trace([], [], [], []);
    if heap != null {
      answers, tr := Execute(heap, calls);
    }
  }

  // ---- A machine with 16 MiB ----

  const KERNEL_END: Word := 0x10_8000

  function SixteenMegabytes(): (entries: seq<Entry>) {
    [Entry(0, 0x100_0000, USABLE)]
  }

  lemma OneEntry(e: Entry)
    ensures MapPages([e]) == EntryPages(e) && HighestEnd([e]) == RegionEnd(e)
  {
    hide EntryPages;
    hide RegionEnd;
    assert [e][..0] == [];
  }

  lemma SixteenMegabytesMap()
    ensures TrackedPages(SixteenMegabytes()) == 0x1000 && MapPages(SixteenMegabytes()) == Pages(0, 0x1000)
  {
    hide Pages;
    hide MapPages;
    hide HighestEnd;
    var e := Entry(0, 0x100_0000, USABLE);
    OneEntry(e);
    PageBounds(e);
  }

  lemma RoundedTouched(startAddress: Word, endAddress: Word)
    requires endAddress <= 0xFFFF_F000
    ensures Pmm.Touched(startAddress, endAddress) == Pages(startAddress / PAGE_SIZE, (endAddress + 4095) / PAGE_SIZE)
  {
    RoundUpPage(endAddress);
  }

  lemma SixteenMegabytesBitmap()
    ensures VirtToPhys(AlignUp32(Boot.HeapStart(KERNEL_END), PAGE_SIZE)) == KERNEL_END
    ensures Pmm.BitmapBytes(TrackedPages(SixteenMegabytes())) == 512
  {
    SixteenMegabytesMap();
    hide TrackedPages;
    BitmapStart();
    hide AlignUp32;
    assert Pmm.BitmapBytes(0x1000) == 512;
  }

  lemma BitmapStart()
    ensures Boot.HeapStart(KERNEL_END) == 0xC010_8000 == AlignUp32(0xC010_8000, PAGE_SIZE)
  {
    RoundUpPage(0xC010_8000);
    hide AlignUp32;
  }

  lemma SixteenMegabytesReserved()
    ensures Boot.BootReserved(SixteenMegabytes(), KERNEL_END) == Pages(0, 0x109)
  {
    SixteenMegabytesBitmap();
    hide TrackedPages;
    hide AlignUp32;
    hide VirtToPhys;
    hide Boot.HeapStart;
    hide Pmm.BitmapBytes;
    hide SixteenMegabytes;
    hide Pmm.Touched;
    hide Pages;
    RoundedTouched(0, Pmm.LOW_MEMORY);
    RoundedTouched(0, KERNEL_END);
    RoundedTouched(KERNEL_END, KERNEL_END + 512);
    assert Add32(KERNEL_END, 512) == KERNEL_END + 512;
  }

  lemma SixteenMegabytesStart()
    ensures Boot.AllocatorStarts(SixteenMegabytes(), true, KERNEL_END)
  {
    var es, e := SixteenMegabytes(), Entry(0, 0x100_0000, USABLE);
    SixteenMegabytesMap();
    hide TrackedPages;
    hide MapPages;
    hide Bootstrap.NoRoom;
    hide BitForms.MaskUp;
    assert es[0] == e && Bootstrap.HoldsKernelEnd(e, KERNEL_END);
    assert Bootstrap.HomeRegion(es, KERNEL_END) == 0;
    assert Bootstrap.HeapLimit(es, true, KERNEL_END) == Bootstrap.EARLY_MAPPED_LIMIT;
    BitmapStart();
    assert Pmm.BitmapBytes(0x1000) == 512;
    Bootstrap.NoRoomByPages(0xC010_8000, KERNEL_VIRT_BASE + Bootstrap.EARLY_MAPPED_LIMIT, 512);
  }

  lemma SixteenMegabytesOffered()
    ensures Boot.AllocatorStarts(SixteenMegabytes(), true, KERNEL_END)
    ensures Boot.Offered(SixteenMegabytes(), KERNEL_END) == Pages(0x109, 0x1000)
  {
    SixteenMegabytesStart();
    SixteenMegabytesMap();
    SixteenMegabytesReserved();
    hide Boot.BootReserved;
    hide TrackedPages;
    hide MapPages;
  }

  lemma SixteenMegabytesCounts()
    ensures |Pages(0x109, 0x1000)| == 3831 && LowFree(Pages(0x109, 0x1000)) == 759
  {
    PagesSize(0x109, 0x1000);
    PagesSize(0x109, 0x400);
    assert (set f | f in Pages(0x109, 0x1000) && f < PAGE_ENTRIES) == Pages(0x109, 0x400);
  }

  /** There the kernel boots with a heap, almost 15 MiB are free, and a first
      request of 4 MiB, which all of that could serve, goes astray. */
  method FourMegabytesOfSixteen(ram: array<Word>) returns (started: bool, astray: bool)
    requires Frames(ram[..]) == TOTAL_FRAMES
    modifies ram
    ensures started && astray
  {
    SixteenMegabytesOffered();
    SixteenMegabytesCounts();
    hide Heap.Early;
    hide Heap.ListInvariant;
    hide Regioned;
    hide Boot.Offered;
    hide Boot.AllocatorStarts;
    hide LowFree;
    hide Heap.GoesAstray;
    hide Heap.OutOfMemory;
    hide Pages;
    var pmm, heap;
    pmm, heap, astray := Boot.Start(ram, SixteenMegabytes(), true, KERNEL_END);
    started := heap != null;
    FourMegabytesGoAstray(heap.Now());
    var p;
    ghost var i;
    p, astray, i := heap.Kmalloc(0x40_0000);
  }
}

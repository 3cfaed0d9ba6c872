# Verified model of the Frewozet kernel

This project models the parts of a small 32-bit x86 kernel in which a mistake
corrupts memory or loses data, and proves what they promise.

**The memory stack.** `BootstrapHeap` is the bump allocator that serves the
kernel first. `Pmm` is the physical page allocator: a bitmap of `bv32` words that
refines a set of free frames. `Paging` edits two-level page tables (32-bit paging,
section 4.3 of the Intel SDM volume 3A) that live as words in physical memory and
stand for a partial map from pages to frames. `Heap` is the kernel heap: a linked
list of block headers that live in that same physical memory and are read and
written through the page tables. `Boot` puts the layers together in the order of
`kmain`, and `HeapRuns` carries out sequences of calls, stores and other mappings
from there: `HeapRuns.Answered` says what each call answers in its state and what
it leads to, and `HeapRuns.Execute` returns answers that all follow it.
`KernelSpace.Owned` is the global ownership invariant: a frame that is free,
reserved, a page table or behind a page outside the kernel window is only one of
these, and behind only one page.
`Heap.HeapInvariant` adds that the headers found by following `next` tile the
committed range, in regions of which only the last block can be free. Every heap
call keeps the invariant and `Heap.Advances`, also when it fails, and so does what
other users of the page allocator do: taking and freeing frames, mapping and
unmapping pages of their own. `HeapSafety` draws the consequences over whole runs.

The kernel reaches page tables at `PHYS_TO_VIRT` of their frames, that is through
the page tables, while the loader maps only 4 MiB there. The model makes every
such access through the tables. A call whose next access would fault or land in
other memory than it is meant for ends there with an outcome of its own (`Missed`,
`Astray`, or `astray`), and its contract says exactly when that happens; the model
does not follow the kernel past that point. `DirectMap` turns the condition into
counts of free frames that a caller can check beforehand.

**The shell.** `Shell.Editor` edits a 128-character buffer, a 16-slot history
ring and a saved line in place; `LineSpec` is what it refines: a zipper of two
strings, a bounded newest-first history and a saturating view counter.
`Tokenizer` splits the line in place, and Enter looks its first word up in the
chained `CommandTable`.

**Smaller parts.** Decimal printing and parsing (`Decimal`), NUL-terminated
strings (`CStrings`), the loader's page tables (`LoaderTables`) and its stepping
through the sectors of a floppy disk (`DiskLoader`).

Values are unbounded integers; 32- and 64-bit wrap-around is written out wherever
the C code can meet it. Masks and shifts appear as arithmetic; `BitForms` proves
each of these arithmetic functions equal to the bit expression it stands for, on
words as defined bit by bit in `WordBits`.

Where a method is proved against a function of its inputs, lemmas in literal terms
say what that function is, without naming its parts: `Heap.GrowthIsLeast`,
`HeapBlocks.TakeExactly`, `Bootstrap.HeapLimitInRegion`, `PageTables.MapStores`,
`Boot.OfferedMeaning`, `Tokenizer.SplitLine`, the laws of the keys in `LineSpec`,
`Decimal.SizeTextMeaning` and others.

## What does not hold

These are properties that the code or its comments suggest and that fail; each
is stated with the exact condition or with the state that shows it.

- A usable region that reaches 4 GiB is dropped whole, and a region based in the
  last page below 4 GiB starts at page 0 instead; the pages offered are right
  exactly when neither or both happen (`E820.EntryPagesExactIffFaithful`, which
  also covers regions that wrap in 64 bits). One region from 1 MiB to 4 GiB offers
  nothing (`E820.UpToFourGiBIsDropped`).
- A page table is within the kernel's reach exactly when its frame lies below
  4 MiB (`HeapSafety.TableReachableIffLow`). A growth of the heap goes astray
  exactly when it takes a higher frame for a table or uses a table there
  (`Heap.Heap.Grow`). While the heap is the allocator's only user it stays within
  reach exactly when the heap stays within 4 MiB, or when it runs out of frames
  first (`HeapSafety.EarlyGrowthIff`): the second table always lies too high. On a
  machine with 16 MiB of memory the first request for 4 MiB goes astray with
  almost 15 MiB free (`HeapRuns.FourMegabytesOfSixteen`).
- `paging_translate` returns 0 for unmapped addresses and also for a mapped one
  (`PageTables.TranslateZeroMeaning`, `LoaderTables.WindowBaseTranslatesToZero`).
- A write to a table moves one page only if and only if no other directory entry
  names the table (`PageTables.OnePageIffSole`); while the loader's identity map
  stands, another one does (`LoaderTables.IdentityMapShares`).
- `kmalloc` of more than 0xFFFFFFF0 bytes rounds the size to 0 and may return a
  block that is too small: the block holds the request if and only if the size is
  at most 0xFFFFFFF0 (`Heap.GoodGrant`, kept by `Heap.Heap.Kmalloc`). Right after
  boot 0xFFFFFFF1 bytes are granted with a block of no bytes
  (`HeapSafety.HugeRequestGranted`). For such products `kcalloc` clears past the
  block (`Heap.Heap.Kcalloc`), and where adding the alignment wraps,
  `kmalloc_aligned` returns an address that the request does not fit behind, or
  stores its back pointer outside the block (`Heap.Heap.KmallocAligned`).
- A refused growth is clean if and only if there was no frame for its first page
  and that page's table; otherwise it keeps as many pages as the frames sufficed
  for and leaves at most one frame (`Heap.GrowthLeft`, kept by `Heap.Heap.Grow`).
- `kmalloc_aligned` does not honour alignments 8 and 16: a result is 8-aligned if
  and only if the rank of its block in its region is odd, and 16-aligned if and
  only if that rank is 3 modulo 4. The rank can be told before the call: it is that
  of the first block that fits, or 0 when none does (`Heap.GrantRank`, kept by
  `Heap.Heap.KmallocAligned`). The first grant after boot is neither
  (`HeapSafety.FirstGrantMisaligned`).
- `paging_alloc_page` clears 4096 bytes from the address it is given. They stay in
  the page just mapped if and only if that is the page's first address
  (`Paging.ClearingStaysInPageIff`); otherwise they reach the next page, mapped or
  not, and there the call is followed no further (`Paging.Paging.AllocPage`).
- Enter on a blank line, and only there, looks up an argument that was never set
  (`Shell.Editor.HandleEnter`).
- Typing a character and then Backspace restores the line if and only if the
  buffer was not full (`LineSpec.InsertBackspace`).
- Rendering arguments in quotes and tokenizing gives them back if and only if
  none contains a quote (`Tokenizer.SplitRender`).
- The loader's registers name the right sector if and only if it lies below
  cylinder 256 (`DiskLoader.RegistersNameSector`), and its reads go to distinct
  addresses if and only if there are at most 128 sectors
  (`DiskLoader.DestinationsDistinctIffSmall`).
- `format_bytes` can print a decimal digit 0, for exactly one remainder of each
  unit (`Decimal.ScaledTextMeaning`).

## Model

| member | source | states |
|---|---|---|
| Machine.AlignUpBounds | memory.c:36-48 | rounding up in 32 bits lands on the next multiple, or wraps below the value exactly when the next multiple is out of range |
| WordBits.MaskIsMod | paging.c:18-20 | masking with 2^k - 1 is the remainder modulo 2^k |
| WordBits.NotMaskIsAlignDown | pmm.c:19-22 | masking with the complement rounds down to a multiple |
| WordBits.ShiftIsDiv | paging.c:14-16 | a right shift divides by a power of two |
| WordBits.PageMasks | paging.c:22-24 | the page mask, offset mask and present bit of an address or entry as arithmetic |
| WordBits.TableIndices | paging.c:14-20 | the directory and table index of an address are quotient and remainder of its page number |
| WordBits.EntryArithmetic | paging.c:89 | combining a frame address with flag bits by `or` adds them, since they share no bit |
| WordBits.OrOne | paging.c:54 | setting the present bit adds 1 exactly when it was clear |
| WordBits.AndSplit | pmm.c:14-17 | a word is the sum of its bits inside and outside a mask |
| WordBits.AndBit | paging.c:79 | testing a single bit by `and` is the parity of the shifted word |
| BitForms.MaskUpIsAlignUp | memory.c:36-48 | `(x + mask) & ~mask` is the model's rounding up for every power of two |
| BitForms.MaskUpBounds | memory.c:312-313 | for any other mask the same expression stays between x and x + mask, or falls below x if and only if the addition wraps |
| BitForms.MaskUpWord | memory.c:312-313 | and it keeps word-aligned addresses word-aligned |
| BitForms.PageRounding | pmm.c:14-22 | the allocator's two rounding helpers are the model's rounding to pages |
| BitForms.PageBase | paging.c:22-24 | the page mask gives the frame's base address |
| BitForms.PresentBit | paging.c:35 | the present test of the model is the test of the lowest bit |
| BitForms.EntryBits | paging.c:89 | frame base, flag bits and present bit combined by `or` are the model's table entry |
| BitForms.TableFlagBits | paging.c:78-81 | the flags of a new table, with the user bit exactly when asked for |
| BitForms.IndexBits | paging.c:14-20 | the two table indices are those the model divides out |
| BitForms.TranslationBits | paging.c:128-129 | what a successful walk returns is the model's translation |
| Bitmap.BitsDetermineWord | pmm.c:32-34 | two words that test equal in every bit are equal |
| Bitmap.MarkRefines | pmm.c:24-26 | setting a page's bit removes that page, and no other, from the free set |
| Bitmap.UnmarkRefines | pmm.c:28-30 | clearing a page's bit adds that page, and no other, to the free set |
| Bitmap.AllUsedRefines | pmm.c:120-122 | all-ones words stand for an empty free set |
| Bitmap.FreeSetDeterminesWords | pmm.c:24-34 | a free set has exactly one bitmap, so padding bits past the last page stay set |
| E820.EntryPagesExactIffFaithful | pmm.c:123-136 | for a usable region that does not wrap in 64 bits, the pages offered are those wholly inside it if and only if "reaches 4 GiB" and "based in the last page" are both false or both true |
| E820.UpToFourGiBIsDropped | pmm.c:123-136 | the memory from 1 MiB up to 4 GiB as one region: none of its pages is offered |
| E820.EntryPagesOffered | pmm.c:123-136 | the pages taken from any usable region, also one on which the rounding is inexact: past 4 GiB its end is read as 0, and in the last page its base is |
| E820.MapPagesExact | pmm.c:123-136 | for every map a page is offered if and only if some usable region offers it, which for a map of faithful regions means lies wholly inside one; and every offered page is tracked |
| E820.PageCountBounds | pmm.c:91-98 | the page total reported is at least the number of distinct pages offered, and cannot wrap for 32 entries |
| E820.DisjointRegionsCount | pmm.c:91-98 | and for regions that share no page it is that number exactly |
| E820.TrackedMeaning | pmm.c:76-109 | a page is tracked exactly when some entry, usable or not, ends behind it, ends being taken modulo 2^64 |
| Bootstrap.HomeRegion | memory.c:57-81 | the first usable region that contains the kernel's end with room behind it, and none before it does |
| Bootstrap.HoldsMeaning | memory.c:57-81 | a region counts exactly when it is usable, contains the kernel's end, still contains that end rounded to 16, and ends below 4 GiB |
| Bootstrap.HeapLimitInRegion | memory.c:226-238 | when the first such region has room below 4 MiB, the heap stops with that region or at 4 MiB, whichever comes first |
| Bootstrap.HeapLimitElsewhere | memory.c:240-247 | without a map, without such a region, or with a kernel past 4 MiB, it stops at 4 MiB |
| Bootstrap.GrantsInRegion | memory.c:86-112 | so every grant lies inside that region, behind the kernel and below 4 MiB |
| Bootstrap.NoRoomMeaning | memory.c:95-107 | a request for a power of two is refused exactly when no aligned address from the last grant on has room for it |
| Bootstrap.BootstrapHeap.FindRegion | memory.c:50-84 | finds that region if and only if it exists, with its rounded start and its end |
| Bootstrap.BootstrapHeap.constructor | memory.c:220-247 | the heap starts at the kernel's end rounded to 16 and stops with the first region that holds it, when that has room below 4 MiB and ends there, and else at 4 MiB |
| Bootstrap.BootstrapHeap.AllocAligned | memory.c:86-112 | for every alignment grants lie within the limit, start less than one alignment past the last grant and never overlap, and for powers of two are aligned; 0 if and only if there is no room, and then nothing changes |
| FrameRuns.FindRunMeaning | pmm.c:148-177 | with frame 0 in use, the result is the lowest start of a wholly free run, and 0 if and only if no such run exists |
| FrameRuns.FindRunUnique | pmm.c:148-177 | a lowest run found in any other way is the one returned |
| FrameRuns.FindBelow | pmm.c:179-197 | the lowest free frame below the bound; 0 only if there is none |
| FrameRuns.AllocFreeRestores | pmm.c:148-231 | allocating a run and freeing it restores the free set |
| FrameRuns.FreeResultMeaning | pmm.c:203-231 | freeing a run adds exactly its tracked frames |
| FrameRuns.StepConserves | pmm.c:148-235 | one call keeps: frames are free or held by one caller, held runs are disjoint, and together they are the initial frames |
| FrameRuns.RunsConserve | pmm.c:148-235 | the same over any sequence of allocations and frees of held runs |
| FrameRuns.AccountingOverRuns | pmm.c:245-269 | over any such sequence free pages never exceed usable pages, used plus free is usable, and used counts the frames held |
| Pmm.Pmm.SetPage | pmm.c:24-26 | in place, removes exactly one page from the free set |
| Pmm.Pmm.ClearPage | pmm.c:28-30 | in place, adds exactly one page to the free set |
| Pmm.Pmm.TestPage | pmm.c:32-34 | tells whether the page is outside the free set |
| Pmm.TouchedMeaning | pmm.c:36-46 | the pages marked for a byte range are those with a byte in it, except that an end in the last page rounds to 0 and leaves none |
| Pmm.Pmm.MarkRangeUsed | pmm.c:36-46 | removes exactly those pages, for every range |
| Pmm.Pmm.MarkRangeFree | pmm.c:48-62 | adds the tracked pages wholly inside the byte range and no other |
| Pmm.Pmm.CountMap | pmm.c:76-104 | the highest region end and the page total of the whole map |
| Pmm.Pmm.FreeMap | pmm.c:123-136 | afterwards the free set is the map's pages clipped to the tracked ones |
| Pmm.Pmm.AllocateBitmap | pmm.c:111-122 | succeeds exactly when the bootstrap heap has room; the storage is page aligned, below 4 MiB, granted by that heap, and all bits are set |
| Pmm.BitmapSize | pmm.c:111-113 | the bitmap has a bit for every tracked page and fewer than 32 to spare |
| Pmm.Pmm.Reserve | pmm.c:138-145 | low memory, the kernel and the bitmap's pages leave the free set; nothing else does |
| Pmm.Pmm.Init | pmm.c:64-146 | the allocator starts if and only if there is a map with a tracked page and room for the bitmap, and then its free set is the map's pages minus the reserved ones |
| Pmm.FreeAfterInit | pmm.c:64-146 | after start a tracked page is free if and only if some usable region offers it (for faithful regions: it lies wholly inside one), at or above 1 MiB and the rounded kernel end, and off the bitmap's storage |
| Pmm.FreeAtMostUsable | pmm.c:91-98 | the free pages never outnumber the usable pages reported, even when regions overlap |
| Pmm.Pmm.AllocContiguous | pmm.c:148-177 | the bitmap scan returns the lowest free run and takes exactly its frames, or returns 0 and takes none |
| Pmm.Pmm.AllocPage | pmm.c:199-201 | takes the lowest free frame; 0 exactly when none is free |
| Pmm.Pmm.AllocPageBelow | pmm.c:179-197 | takes the lowest free frame below the limit, or returns 0 and takes none |
| Pmm.Pmm.FreeContiguous | pmm.c:203-231 | frees the run clipped to the tracked pages, ignores null and unaligned addresses, and can never free frame 0 |
| Pmm.Pmm.CountFree | pmm.c:245-259 | the counting loop computes the size of the free set |
| Pmm.Pmm.CountUsed | pmm.c:261-269 | usable minus free, not below 0 |
| Pmm.Pmm.Execute | pmm.c:148-235 | the object, driven by any sequence of allocations and frees of held runs, goes through the states of the abstract run: no frame is lost or handed out twice |
| LoaderTables.BuildTables | loader2.asm:246-273 | one table maps the first 4 MiB under directory entries 0 and 768; no other frame is written |
| LoaderTables.LoaderTranslations | loader2.asm:258-273 | the tables map the first 4 MiB at 0 and at 0xC0000000 and nothing else |
| LoaderTables.LoaderReaches | loader2.asm:258-273 | the loader's window already reaches the directory |
| LoaderTables.IdentityMapShares | loader2.asm:270-273 | the loader's tables are shared: one table write changes two pages |
| LoaderTables.RemoveIdentityMap | paging.c:60-67 | clears the word at physical address 0x9000, directory entry 0, and no other |
| LoaderTables.RemovalEstablishesOwnership | paging.c:60-67 | removing the identity map leaves the kernel window as it was and establishes the ownership invariant for any free set apart from low memory |
| LoaderTables.WindowBaseTranslatesToZero | paging.c:109-130 | the first address of the kernel window is mapped and yet translates to the failure value |
| PageTables.TranslateZeroMeaning | paging.c:109-130 | the result 0 means unmapped or the first byte of frame 0 |
| PageTables.InstallTableKeepsMap | paging.c:44-57 | a new zeroed table from a free frame changes no translation and keeps tables exclusive |
| PageTables.SetTableEntryMap | paging.c:88-89 | with exclusive tables, writing one table entry changes the translation of one page |
| PageTables.SharedTableEntry | paging.c:88-89 | a table write moves the page at that index under every directory entry that names the table, and no other |
| PageTables.OnePageIffSole | paging.c:88-89 | whatever is written, exactly one page moves, if and only if no other directory entry names the table |
| PageTables.FrameContentsIrrelevant | paging.c:109-130 | whatever happens in a frame that holds no table, no translation changes |
| PageTables.MapIsUpdate | paging.c:74-93 | a successful mapping is a point update of the partial map, also when it creates a table, and keeps tables exclusive |
| PageTables.MapTranslates | paging.c:74-130 | exactly the page's 4096 addresses now translate into the new frame at the same offset; all others as before |
| PageTables.MapStores | paging.c:44-90 | the words stored: frame address, flags and present bit in the page's entry; a new table's address, writable, and for user mode exactly when asked for, in the directory; 0 in the rest of a new table |
| PageTables.UnmapIsRemoval | paging.c:95-107 | unmapping removes one page from the partial map |
| PageTables.UnmapStores | paging.c:95-107 | the entry of an unmapped page becomes 0 |
| PageTables.MapUnmapRestores | paging.c:74-107 | mapping an unmapped page and unmapping it restores every translation, also when a table was created |
| PageTables.MapTouchesOnlyTables | paging.c:74-93 | frames that hold no table keep every word |
| PageTables.TablesAfterMap | paging.c:40-57 | the tables afterwards are the old ones and the new one |
| Paging.Paging.Walk | paging.c:109-130 | the processor's walk by physical addresses finds the frame behind a page |
| Paging.Paging.ClearPage | string.c:13-20 | clearing 4096 bytes from a virtual address, byte by byte, clears exactly the bytes of its frame from there on, and stays inside the page if and only if the address is its first |
| Paging.ClearingStaysInPageIff | paging.c:143-144 | the 4096 bytes from an address on lie in one page if and only if it is the page's first |
| Paging.ClearingLeavesPage | paging.c:143-144 | otherwise the last of them lie in the next page, as many as the address is bytes into its own |
| Paging.Paging.GetPageTable | paging.c:30-58 | goes astray exactly when the directory, or the frame taken for a new table, is out of reach; otherwise finds the table, installs one from the lowest free frame, or changes nothing |
| Paging.AstrayMeaning | paging.c:10-58 | astray means that the page where the kernel looks for directory or table is not backed by that frame, the lowest free frame being the one for a new table |
| Paging.Paging.MapPage | paging.c:74-93 | goes astray exactly when directory or table is out of reach; otherwise refuses exactly when a table is missing and no frame is free, changing nothing, or performs the pure mapping and takes at most the table's frame |
| Paging.Paging.UnmapPage | paging.c:95-107 | goes astray exactly when directory or table is out of reach; otherwise performs the pure unmapping |
| Paging.Paging.TranslateAddress | paging.c:109-130 | goes astray exactly when directory or table is out of reach; otherwise computes the meaning of the tables |
| Paging.Paging.MapFreshFrame | memory.c:198-210 | goes astray exactly when frames are left and the table is out of reach; otherwise succeeds exactly when frames suffice for the page and a missing table, and if not gives the frame back |
| Paging.Paging.AllocPage | paging.c:132-146 | goes astray exactly when mapping does, or when it succeeds for an address inside a page; otherwise refused exactly when frames do not suffice; once mapped, exactly the bytes of the new frame from the address on are zero, all of them for a page-aligned address, and only that page moved |
| DirectMap.OnlyWindowAndHeapMapped | paging.c:74-93 | while the heap is the allocator's only user, nothing is mapped outside the kernel window and the heap's first 4 MiB |
| KernelSpace.SameMapSameOwners | paging.c:109-130 | ownership depends only on the directory and the translations |
| KernelSpace.StoreIsFlatUpdate | memory.c:120-122 | a store through a heap address changes the addressed word of the heap range and nothing else, and moves no page |
| KernelSpace.GrowMeaning | memory.c:198-211 | mapping a free frame at any page that is neither in the window nor a committed heap page keeps every owner and every committed word, backs the page alone, and spends one frame and one for a missing table |
| KernelSpace.UnmapKeepsView | paging.c:95-107 | unmapping such a page keeps every owner and every committed word |
| KernelSpace.OtherFrameKeepsView | paging.c:143-144 | whatever is stored in a frame that is no table and backs no committed heap page leaves every committed word alone |
| KernelSpace.MissingTablesStep | memory.c:198-211 | the next page needs a table more exactly when neither the old tables nor an earlier page provide it |
| DirectMap.LowestTaken | pmm.c:148-177 | the allocator uses up the frames below 4 MiB first |
| DirectMap.DirectIffLow | paging.c:10-12 | under the ownership invariant the direct map reaches the directory, a table or a free frame exactly below 4 MiB |
| DirectMap.StepReachesIff | paging.c:30-58 | mapping a fresh frame goes astray exactly when the page's table is high, or one is missing and the second free frame in line is high |
| DirectMap.RowStepReached | memory.c:198-211 | whether page j of a growth is mapped within reach can be told beforehand from counts of free frames and the tables present |
| DirectMap.LowBudget | memory.c:198-211 | while low frames are left, the heap's frames and they share the 768 frames from 1 MiB to 4 MiB |
| DirectMap.EarlyGrowthReached | memory.c:198-211 | with the heap as the allocator's only user, a growth stays within reach exactly when it needs no second table or the frames do not last to it |
| HeapBlocks.TiledOrder | memory.c:114-135 | in a tiling every earlier block ends before a later one starts |
| HeapBlocks.BytesAccounted | memory.c:371-406 | used, free and header bytes add up to the tiled range |
| HeapBlocks.FirstFit | memory.c:137-149 | the chosen block fits and none before it does |
| HeapBlocks.SplitTiles | memory.c:151-171 | splitting keeps the tiling |
| HeapBlocks.TakeMeaning | memory.c:286-287 | the chosen block becomes used in place, holds the request with at most 28 bytes to spare, and the used blocks are the old ones and this one |
| HeapBlocks.TakeExactly | memory.c:151-171 | in literal terms: with at most 28 bytes to spare the block only becomes used; with more it is cut to exactly the size asked for, and a free block of the rest less 12 bytes follows; all other blocks stay |
| HeapBlocks.TakeAccounts | memory.c:371-406 | an allocation moves exactly its block's bytes from the free to the used counter, and a split costs 12 free bytes |
| HeapBlocks.AppendAccounts | memory.c:371-406 | a growth adds its bytes, less a header, to the free counter only |
| HeapBlocks.PayloadByRank | memory.c:151-171 | the payload of the k-th block of a region lies at 12 * (k + 1) modulo 16 |
| HeapBlocks.TakeRegioned | memory.c:286-287 | an allocation keeps the regions: only their last block can be free, and only its size can be no multiple of 16 |
| HeapBlocks.AppendRegioned | memory.c:214-216 | a growth adds a region |
| HeapWrites.SplitLinked | memory.c:162-170 | after the stores of a split the list in memory is the split list, and no used payload changed |
| HeapWrites.MarkUsedLinked | memory.c:287 | after clearing the flag the list in memory has that block used, and no used payload changed |
| HeapWrites.AppendLinked | memory.c:119-134 | after the stores of a new region it is linked at the end, and no used payload changed |
| HeapWrites.PayloadStoreLinked | memory.c:289 | a store inside a payload disturbs no header and no other block |
| Heap.GrowthFits | memory.c:173-185 | the pages computed hold the payload and its header unless the size arithmetic wraps, and then they are four |
| Heap.GrowthIsLeast | memory.c:173-183 | and no fewer pages would do, but never fewer than four: with the bound above this is the number of pages, in literal terms |
| Heap.OutOfMemoryByPages | memory.c:177-212 | a request that no block fits is refused exactly when the range or the frames do not suffice for the fewest pages that hold it and the tables missing under them |
| Heap.Heap.Load | memory.c:140-146 | reads the addressed heap word through the page tables |
| Heap.Heap.Store | memory.c:120-122 | writes the addressed heap word through the page tables and moves no page |
| Heap.Heap.GrowOnePage | memory.c:198-211 | goes astray, backs the page, or changes nothing, exactly as reach and frames decide |
| Heap.Heap.GrowPages | memory.c:198-211 | goes astray exactly when some page of the row does; otherwise maps pages until the frames do not suffice, and says how many |
| Heap.Heap.AddRegion | memory.c:114-135 | the region becomes one free block at the end of the list, covering it exactly |
| Heap.Heap.Grow | memory.c:177-218 | goes astray exactly when a table it needs is out of reach, told beforehand; otherwise succeeds if and only if range and frames suffice; on success the bytes committed are the fewest whole pages, at least four, that hold payload and header; unless it succeeds list, counters and committed words are unchanged, and what a refusal leaves mapped is stated exactly |
| Heap.Heap.FindFreeBlock | memory.c:137-149 | the walk through memory returns the first block that fits, or 0 |
| Heap.Heap.SplitBlock | memory.c:151-171 | a block with at most 28 bytes to spare stays whole; a larger one keeps exactly the rounded size and the rest, less 12 bytes, is a free block behind it; the list in memory says so, and older allocations stay as they were |
| Heap.Heap.MarkBlockUsed | memory.c:287 | the list in memory has the block used and older allocations stay as they were |
| Heap.NewRegionFits | memory.c:275-284 | after a growth whose arithmetic does not wrap the second search succeeds |
| Heap.Heap.Kmalloc | memory.c:262-290 | goes astray exactly when no block fits and the growth does; null if and only if the size is 0, it goes astray, or no block fits and no growth can help; else block, address and new list are those that first fit on the old or grown list gives, as functions of the state before; large enough if and only if size <= 0xFFFFFFF0, with at most 28 spare bytes; earlier allocations keep address, size, contents and frames; frames spent and bytes committed are exactly those of the growth, the fewest whole pages that hold the rounded size and a header |
| Heap.GrantRank | memory.c:151-171 | whether a grant is aligned to 8 or 16 can be told before the call, from the rank of the first block that fits, and from rank 0 when none does |
| Heap.PlaceRange | memory.c:305-315 | where the aligned address falls, for every size and alignment: in the block with the request behind it exactly when enlarging did not wrap |
| Heap.Heap.KmallocAligned | memory.c:292-317 | for every size and alignment: null exactly when the underlying request is or when it goes astray; the block is the first fit on the state before; up to 16 the result is kmalloc's and aligned to 8 or 16 if and only if its rank before the call is odd or 3 modulo 4; above 16 it lies in the block with the raw address in the word before it, is for every power of two the lowest aligned address that leaves room for that word, the block is the enlarged request rounded to 16 and at most 28 bytes more, and the request fits behind it exactly when enlarging did not wrap |
| Heap.ProductBound | memory.c:320-326 | the division test rejects exactly the products that do not fit 32 bits |
| Heap.Heap.Kcalloc | memory.c:319-337 | null exactly for empty or overflowing products, when memory runs out, or when it goes astray, which products above 0xFFFFFFF0 do in the clearing; otherwise the block is the first fit on the state before, every byte asked for is zero and nothing older changed |
| Heap.Heap.ClearOneByte | string.c:13-20 | clears one byte of the payload and no other byte of the heap |
| Heap.Heap.CountUsedBytes | memory.c:371-388 | the walk computes the bytes of used payloads |
| Heap.Heap.CountFreeBytes | memory.c:390-406 | the walk computes the bytes of free payloads |
| Heap.AdvancesTransitive | memory.c:262-337 | what one call keeps, a sequence of calls keeps |
| HeapSafety.HeapByteOwned | memory.c:177-218 | every heap byte is present and its frame is used and is no table, not the directory, not reserved and behind no other page outside the window |
| HeapSafety.TranslateInjective | paging.c:109-130 | distinct heap addresses have distinct physical addresses |
| HeapSafety.LiveAllocationsDisjoint | memory.c:262-290 | two live allocations share no byte, virtually or physically |
| HeapSafety.CommittedAccounted | memory.c:363-406 | committed bytes are used plus free plus 12 per block |
| HeapSafety.WalkAscends | memory.c:137-149 | the list ascends in addresses, so no walk meets a block twice |
| HeapSafety.FirstFitLowest | memory.c:137-149 | first fit is the lowest address that fits |
| HeapSafety.OthersHarmlessIff | pmm.c:148-235 | other users of the page allocator leave the heap intact if and only if they free no frame that is reserved, a table or behind a page outside the window |
| HeapSafety.MappingHarmless | paging.c:132-146 | another user mapping and clearing a page, of any directory entry but the window's, leaves the heap intact |
| HeapSafety.UnmappingHarmless | paging.c:95-107 | so does unmapping such a page |
| HeapSafety.StoringHarmless | shell_commands.c:705-706 | and so does storing into it |
| HeapSafety.RunKeeps | memory.c:262-337 | over any run of heap calls, stores by owners, and other users taking and freeing frames, mapping and unmapping pages and storing there, the invariant holds throughout, asked only of the first state, and used blocks and the frames behind the heap stay |
| HeapSafety.AllocationsPersist | memory.c:262-337 | over any such run a live allocation keeps address, size and physical address and stays physically disjoint from all live later |
| HeapSafety.ContentsFollow | memory.c:262-337 | over any such run every word of a live allocation holds what was last stored there |
| HeapSafety.ContentsPersist | memory.c:262-337 | over any such run a word of a live allocation changes only by a store of its owner |
| HeapSafety.TableReachableIffLow | paging.c:44-52 | in every heap state the direct map reaches a page table exactly when its frame lies below 4 MiB |
| HeapSafety.EarlyGrowthIff | memory.c:177-218 | with the heap as the allocator's only user, a growth stays within reach if and only if the heap stays within 4 MiB, the range is full, or the frames run out before the second table |
| HeapSafety.EarlyGrantIff | memory.c:262-290 | then a request that no block fits is granted if and only if the grown heap stays within 4 MiB and there is a frame for each new page |
| HeapSafety.FourMegabytesGoAstray | memory.c:262-290 | right after boot with 1026 free frames a request of 4 MiB has room in every respect and goes astray |
| HeapSafety.InexactAlignedRequestTooBig | memory.c:305-306 | an aligned request whose enlarged size could wrap is larger than the whole heap range |
| HeapSafety.PayloadAlignment | memory.c:301-303 | every payload is word aligned, and 8- or 16-aligned if and only if its rank in its region is odd or 3 modulo 4 |
| HeapSafety.FirstGrantMisaligned | memory.c:301-303 | the first grant after boot is 12 modulo 16, whatever alignment up to 16 was asked |
| HeapSafety.HugeRequestGranted | memory.c:262-290 | right after boot a request of 0xFFFFFFF1 bytes is granted, with a block of no bytes |
| HeapRuns.Perform | memory.c:262-337 | one call, an allocation of any of the three kinds, a store into a grant, or a step of the paging check: granted, null, done, ignored or astray exactly as its state decides; a grant has the address and block that first fit gives there, a block not in use before; a store goes to the addressed word of its grant's block if and only if it lies within the bytes promised |
| HeapRuns.MapTestPage | shell_commands.c:695-703 | the shell's paging check maps the lowest free frame outside the heap, refuses or goes astray exactly as frames and reach decide, and keeps the heap valid |
| HeapRuns.Execute | memory.c:262-337 | any sequence of such calls is carried out up to the first that goes astray: each answer is the one its call must get in its state, the states form a run, every grant has its own block, and at every moment no two grants share a byte, virtually or physically |
| HeapRuns.GrantsApart | memory.c:262-337 | grants backed by distinct blocks share no byte, neither as addresses nor translated |
| HeapRuns.AlwaysApart | memory.c:262-337 | so after any number of the calls no two of the grants so far do |
| HeapRuns.GrantsStay | memory.c:262-337 | a granted byte keeps its physical address through all later calls |
| HeapRuns.GrantsAreMemory | memory.c:262-337 | a word of a grant reads as what was last written there, whatever else is called |
| HeapRuns.CallocReadsZero | memory.c:319-337 | every word of a kcalloc grant first reads as zero |
| HeapRuns.GrantsHoldRequests | memory.c:262-337 | what is granted is all the bytes asked for unless the size arithmetic wraps, aligned as asked above 16, and a write is carried out exactly when it lies within its grant |
| HeapRuns.BootAndExecute | kernel.c:41-62 | the same from power-on: the heap starts if and only if the allocator does, offers five frames and the second of them lies below 4 MiB, and then the calls are carried out from its first state |
| HeapRuns.FourMegabytesOfSixteen | kernel.c:41-62 | on a machine with 16 MiB the kernel boots with a heap and a first request of 4 MiB goes astray |
| Boot.StartAllocator | kernel.c:54-59 | memory_init and pmm_init give an allocator if and only if map and bitmap room allow, with its free and reserved frames as functions of map and kernel end |
| Boot.OfferedMeaning | pmm.c:64-146 | the frames on offer after start, told from the map and the kernel's end alone: pages of usable regions at or above 1 MiB and the rounded kernel end, off the bitmap, which lies at the first page boundary behind the kernel |
| Boot.ReadyToGrow | kernel.c:41-62 | ownership holds before the first growth, which needs one new table and stays within reach exactly when the second frame offered is low |
| Boot.EnableHeap | memory.c:249-260 | goes astray exactly when the first growth does; otherwise the heap starts exactly when frames for four pages and the missing tables are free |
| Boot.Start | kernel.c:41-62 | from any memory contents, memory map and kernel end: goes astray exactly when the second frame offered lies above 4 MiB; otherwise a valid heap of one free block if and only if the allocator starts and offers five frames |
| CStrings.HoldsUnique | string.c:22-28 | memory holds at most one terminated string |
| CStrings.Strlen | string.c:22-28 | the length of the string that memory holds |
| CStrings.Strcmp | string.c:30-39 | the difference of the characters at the first difference, the terminator counting as 0; 0 if and only if the strings are equal |
| CStrings.Strcpy | string.c:63-71 | the destination holds the string and is unchanged past its terminator |
| LineSpec.InsertBackspace | shell.c:126-155 | typing and then Backspace is the identity if and only if the buffer was not full |
| LineSpec.MovesKeepText | shell.c:168-190 | no cursor movement changes the text |
| LineSpec.LeftRightInverse | shell.c:168-180 | Left and Right undo each other away from the ends |
| LineSpec.DeleteIsRightBackspace | shell.c:145-166 | Delete is Right followed by Backspace |
| LineSpec.TypingLaw | shell.c:126-143 | typing puts the character at the cursor and steps over it; with 127 characters the line becomes empty; the view is left |
| LineSpec.ErasingLaw | shell.c:145-166 | Backspace removes the character before the cursor and leaves the view, Delete the one at it; at the ends nothing changes |
| LineSpec.MovingLaw | shell.c:168-190 | Left, Right, Home and End keep text, view, history and saved line and set the cursor |
| LineSpec.EnterLaw | shell.c:275-299 | Enter empties the line, leaves the view, forgets the saved line, and puts a new text in front of the history, of which sixteen entries stay |
| LineSpec.UpLaw | shell.c:192-211 | Up does nothing at all without a history or at its oldest entry; else it shows the next older entry, and saves the line when it leaves it |
| LineSpec.DownLaw | shell.c:213-231 | Down does nothing at all without a history or outside it; else it shows the next newer entry or the saved line |
| LineSpec.HistoryMeaning | shell.c:79-103 | the history is the newest 16 of the lines entered, without empty lines and without consecutive repeats |
| LineSpec.HistoryOverRun | shell.c:275-311 | over any sequence of keys the history is that of the lines submitted |
| LineSpec.ViewIsSaturatingCounter | shell.c:192-231 | over any sequence of navigation keys the view is a counter that saturates at -1 and the oldest entry |
| LineSpec.MovingLoadsEntry | shell.c:192-231 | an Up or Down that changes the view to an entry loads exactly that entry |
| LineSpec.DraftRestored | shell.c:38-54 | whenever Down leaves the history, line and cursor are those of the Up that entered it |
| Shell.SlotAfterAdd | shell.c:93-107 | adding a line moves every other entry one step back in the ring without touching its slot |
| Shell.Editor.constructor | shell.c:257-273 | an empty line, no history, nothing saved |
| Shell.Editor.InsertChar | shell.c:126-143 | puts the character at the cursor and steps over it; a buffer of 127 characters is thrown away and the view reset |
| Shell.Editor.OpenGap | shell.c:136-139 | the shifting loop leaves the text with the character inserted, terminated |
| Shell.Editor.CloseGap | shell.c:149-151 | the shifting loop leaves the text without one character, terminated |
| Shell.Editor.Backspace | shell.c:145-155 | removes the character before the cursor and changes nothing else |
| Shell.Editor.DeleteForward | shell.c:157-166 | removes the character at the cursor and changes nothing else |
| Shell.Editor.MoveLeft | shell.c:168-173 | the zipper's step to the left |
| Shell.Editor.MoveRight | shell.c:175-180 | the zipper's step to the right |
| Shell.Editor.MoveHome | shell.c:182-185 | the cursor before the whole text |
| Shell.Editor.MoveEnd | shell.c:187-190 | the cursor after the whole text |
| Shell.Editor.HistoryAdd | shell.c:79-103 | the ring refines the bounded history |
| Shell.Editor.StoreEntry | shell.c:93-102 | the new entry is the newest and only the oldest of 16 is lost |
| Shell.Editor.PhysicalIndex | shell.c:105-107 | the slot of the k-th newest line holds that line |
| Shell.Editor.SaveCurrentLine | shell.c:38-42 | text and cursor are saved |
| Shell.Editor.SetLine | shell.c:44-48 | the buffer holds the entry with the cursor at its end |
| Shell.Editor.HistoryPrev | shell.c:192-211 | Up, on the whole editor state; without a history or at its oldest entry nothing changes |
| Shell.Editor.HistoryNext | shell.c:213-231 | Down, on the whole editor state; without a history or outside it nothing changes |
| Shell.Editor.RestoreSavedLine | shell.c:50-54 | text and cursor are those saved |
| Shell.Editor.HistoryPrint | shell.c:233-255 | lists the entries oldest first, numbered up to -1 |
| Shell.Editor.HandleChar | shell.c:300-310 | any other key leaves the history view and edits the line |
| Shell.Editor.HandleEnter | shell.c:275-299 | the line goes into the history and is split into arguments, and the editor is reset; the latest command registered for the first word is found, except exactly for blank lines, where the lookup reads an argument never set |
| Shell.Editor.PressKeys | shell.c:126-311 | the editor, driven by any sequence of keys, goes through the states of the abstract run, and from an empty history its entries are those of the lines submitted |
| Shell.Editor.FindCommand | shell.c:286-293 | the arguments are the split line, and the handler is the latest registered for the first, except exactly for blank lines |
| Tokenizer.SplitRender | shell_parser.c:3-38 | splitting quoted arguments gives them back, empty ones included, if and only if none contains a quote |
| Tokenizer.SplitLine | shell_parser.c:3-38 | a line of bare words and quoted arguments, mixed in any way and spaced by any runs of spaces and tabs, splits into exactly their texts, cut to the maximum |
| Tokenizer.SplitWords | shell_parser.c:26-34 | in particular words separated by blanks are given back |
| Tokenizer.SplitOpenQuote | shell_parser.c:15-25 | a quote that nothing closes takes the rest of the line |
| Tokenizer.NoArgumentsIffBlank | shell_parser.c:6-12 | a line has no arguments if and only if it is blank throughout |
| Tokenizer.Tokenize | shell_parser.c:3-38 | the arguments are those of the pure splitter, ordered, disjoint and terminated in memory; only delimiters are overwritten, and nothing from the terminator on |
| Tokenizer.Round | shell_parser.c:7-35 | one round places the next argument or finds none or no room |
| Tokenizer.FindArgument | shell_parser.c:15-31 | where the next argument starts and ends, quoted or not |
| Tokenizer.Terminate | shell_parser.c:20-34 | overwrites only the delimiter and steps over it, but not past the end of the line |
| CommandTable.Hash | command_hashtable.c:11-17 | the loop computes the 32-bit hash of the string |
| CommandTable.HashAppend | command_hashtable.c:11-17 | one character more adds 739061 times its signed code, modulo 2^32 |
| CommandTable.BucketSearch | command_hashtable.c:39-48 | searching one bucket finds the latest registration of the key |
| CommandTable.FindMeaning | shell_commands.c:252-259 | the linear search fails exactly for unknown names and otherwise returns the first match |
| CommandTable.LatestMeaning | command_hashtable.c:19-48 | with repeated names the most recent registration wins |
| CommandTable.LookupAgreesWithFind | command_hashtable.c:39-48 | with distinct names the table and the linear search agree on every key |
| CommandTable.WalkShowsEachOnce | shell_commands.c:267-286 | the walk over all buckets meets every registered command exactly once |
| CommandTable.HelpsMeaning | shell_commands.c:267-286 | these are the help texts, one for each command |
| CommandTable.Table.Register | command_hashtable.c:19-33 | one more command is registered and every chain is as it should be |
| CommandTable.Table.RegisterAll | shell_commands.c:261-265 | all commands are registered in order |
| CommandTable.Table.Lookup | command_hashtable.c:39-48 | the handler of the latest registration, or none exactly for unknown names |
| CommandTable.Table.HelpAll | shell_commands.c:267-286 | the help text of every registered command, each once |
| CommandTable.FindCommand | shell_commands.c:252-259 | the loop over the declared commands is the linear search |
| Decimal.TextIsCanonical | string.c:105-124 | the text is digits only, without leading zeros, and denotes the number |
| Decimal.CanonicalUnique | string.c:105-124 | a canonical text is the text of the number it denotes |
| Decimal.PrintedDigit | string.c:108-114 | the text of ten times a number plus a digit is the number's text and the digit's character |
| Decimal.ReadDigit | utils.c:7-11 | reading one digit more is ten times the number plus the digit |
| Decimal.DigitsAre | utils.c:7 | the digits are the ten characters 0 to 9 |
| Decimal.Text64 | string.c:106 | a 64-bit number has at most 20 digits, so the 21-byte buffer suffices |
| Decimal.Digits | string.c:108-114 | the division loop leaves the digits in reverse order |
| Decimal.ReverseInPlace | string.c:116-120 | the swapping loop reverses the digits |
| Decimal.Append | string.c:93-98 | the text is appended and terminated; the rest of the destination stays |
| Decimal.AppendUint64 | string.c:105-124 | the canonical decimal text is appended and terminated; the rest of the destination stays |
| Decimal.ParseUint | utils.c:4-14 | the value of the leading digits modulo 2^32, consuming exactly them |
| Decimal.PrintThenParse | utils.c:4-14 | the digits that parsing consumes from printed text are exactly the text of the number, and denote it |
| Decimal.ScaledTextMeaning | utils.c:68-105 | the whole part and digit are those of floor(10 * bytes / unit); the digit is left out only when it is 0, and printed as 0 for one remainder |
| Decimal.SizeTextMeaning | utils.c:68-105 | the text in literal terms, unit by unit: whole part, the tenth exactly when the remainder reaches 102 of 1024 (and likewise above), and the name of the largest unit reached |
| Decimal.FormatBytes | utils.c:68-105 | the buffer holds the size in the largest unit it reaches |
| DiskLoader.ConversionRoundTrip | loader2.asm:115-140 | sector numbers and disk positions convert into each other without loss |
| DiskLoader.SectorOrder | loader2.asm:115-123 | sectors are numbered by cylinder, then head, then sector, from the first one on |
| DiskLoader.StepIsNextSector | loader2.asm:76-87 | one step leads to the next sector number and stays on the disk |
| DiskLoader.StepConverts | loader2.asm:76-87 | stepping a position is converting the next sector number |
| DiskLoader.RegistersNameSector | loader2.asm:138 | the byte registers name the right sector exactly below cylinder 256 |
| DiskLoader.RegistersKeepLowByte | loader2.asm:138-139 | what the registers lose is all but the low eight bits of the cylinder |
| DiskLoader.Convert | loader2.asm:115-140 | the register arithmetic computes the position of the start sector, its cylinder truncated to a byte |
| DiskLoader.LoadKernel | loader2.asm:60-87 | the sectors are requested once each and in order, as the registers can name them, to the addresses of the wrapping 64 KiB window |
| DiskLoader.NextAddress | loader2.asm:73 | each read goes 512 bytes further, and from the end of the 64 KiB window back to its start |
| DiskLoader.DestinationsDistinctIffSmall | loader2.asm:47-73 | the destinations are distinct if and only if there are at most 128 sectors |

## Left out

- After an access that goes astray: whether it faults or lands in another page of the heap, and what follows, is not modelled.
- Kernel accesses other than to page tables (the bitmap, the memory map, the screen) lie in the first 4 MiB and are not made through the tables.
- Physical memory is the whole 32-bit physical address space, 2^20 frames of words; frames that the memory map does not offer are never taken.
- Bitmap storage: the bitmap is an array of its own; that its frames are reserved and so never a table or heap page is proved, but its words are not also words of physical memory.
- KernelSpace.GrowMeaning: PAGE_USER and write permission are not part of the translation; an existing directory entry is never upgraded, as in the source.
- Caches and registers: `invlpg` and reloading CR3 have no effect on the software walk and are left out.
- Heap.Heap.Kmalloc: the branch to the bootstrap heap before the page allocator is enabled is modelled by `Bootstrap.BootstrapHeap.AllocAligned`, not as part of this method; a state where the page allocator runs but the heap could not be enabled ends in a null heap and is followed no further.
- Pmm.FreeAfterInit: kernel end and bitmap end lie below the last page, as they do after `Boot.StartAllocator`; `Pmm.Pmm.Init` covers all values.
- Bootstrap.BootstrapHeap.constructor: requires the kernel's end to lie in the window at 0xC0000000 to which it is linked.
- E820 collection: the memory map is any sequence of at most 32 entries; the firmware calls are not part of this model. The usable-bytes counter and the byte totals derived from page counts are left out.
- HeapRuns.Execute: of the other users of the page allocator only the shell's paging check is carried out; `HeapSafety.RunKeeps` covers any that maps pages outside the window and the committed heap.
- HeapRuns.Answered: a call that goes astray keeps the heap valid up to the access at which it does; what the access hits is not modelled.
- There is no `kfree` in the kernel, so blocks never become free again.
- Shell.Editor.HandleEnter: the command itself is not modelled, only which handler is found and with which arguments; what the lookup on a blank line finds is not modelled.
- Shell.Editor.FindCommand: the same.
- CommandTable.Table.Register: running out of memory for a node or its key is not modelled; help for one named command, which repeats the lookup, is left out.
- CommandTable.Table.RegisterAll: the same.
- LineSpec.DraftRestored: keys that type, erase backwards or submit leave the history view, so they are not among the keys browsed with.
- Terminal output, prompt and line rendering, keyboard tables, the calculator, hexadecimal parsing and the remaining commands: short branches and user interface.
- DiskLoader.LoadKernel: disk errors are left out.
- Decimal.FormatBytes: the size of the caller's buffer is a requirement, as in the source.

# StupidOS

StupidOS is a small i386 operating system in assembly, with a few host tools in C.
This project models the parts of it that carry the most state and arithmetic, and
proves what they are for, or exactly when they do it.

**Paging and the physical page allocator** (`Paging`, `Bootstrap`, `PmmSpec`, `Pmm`).
Memory is a map of 32-bit words, the processor walks two-level tables in that memory
and may cache any translation until told to forget it. The loader fills its tables
with paging off; `mm_bootstrap` builds the recursive directory through them; the page
allocator reaches every list header through one temporary page whose own table entry it
writes through the recursive window. `Pmm.Boot` runs the three in order. `PmmSpec`
states the allocator on values, with the wrap-around and the signed test of the
registers, and proves it over whole runs.

**The arena allocator** (`VmemSize`, `VmemTiles`, `VmemSpec`, `VmemRuns`, `VmemAlloc`,
`Vmem`, `VmemShared`, `VmemHash`, `VmemCases`). Segments that tile spans, 32 segregated free lists, instant fit and
best fit, cutting a segment, a pool of 64 descriptors, and the hash. The file is
unfinished, so the model follows the design and proves, for every departure that changes
behaviour, exactly when the code still does what the design wants. `VmemCases` holds
inputs, reached from bootstrap, on which it does not.

**Intrusive lists** (`Queue`), word by word in memory, as designed and as written.

**fas2sym** (`Bytes`, `GrowBuffer`, `FasSpec`, `ElfSpec`, `Fas2Sym`). The converter as a
class over its three growing byte buffers and five section headers; an independent
reader that knows only the ELF rules; and the theorem that the reader finds in the
written bytes what the FAS tables mean.

**Disk and FAT12** (`Disk`, `Fat12`), the **console** (`Cga`), **number printing**
(`Decimal`, `Klog`, `Hex`), the **archive walker** (`Archive`) and the **spin lock**
(`Lock`), each in its own module.

Code that changes state step by step is a class or a method with loops; each such method
is tied to a function on values, and the properties are lemmas about those functions.

## Where the code departs from its own intent

- `pmm_alloc` shifts the page count in a 32-bit register and compares signed. It is
  first fit for every request below 2^19 pages. A larger one is answered as first fit
  would exactly when the list is empty, or the low 20 bits of the request are below 2^19
  and more than any block has (`PmmSpec.AllocMeetsFirstFitIff`). It leaves a usable list
  exactly when the list was empty or those bits are below 2^19
  (`PmmSpec.RawKeepsListIff`). One free page satisfies a request for 2^19 of them
  (`PmmSpec.HugeRequestGranted`).
- `pmm_init` does not check the memory size it is given. The list is usable exactly when
  0x801000 <= high_mem < 0x80800000 (`Pmm.InitGoodIff`).
- `list_insert_head` stores the element's own address in its `prev` (kernel/queue.inc:33).
  Removal then works exactly for elements that are not first, and taking the first
  element twice gives the same element twice (`Queue.RemoveAsWrittenIff`,
  `Queue.FirstTakenTwice`; `Queue.LoneStays` is a list of one element).
- `vmem_xalloc` computes the cleared instant-fit flag and does not store it
  (kernel/mm/vmem.inc:681-685): an instant-fit miss never ends
  (`VmemAlloc.AsWrittenEndsIff`; `VmemCases.InstantMissSpins` is an input).
- Its right split puts the allocated piece on a free list (kernel/mm/vmem.inc:763-764):
  the lists stay exact only when nothing is split off (`VmemRuns.AsWrittenListsIff`;
  `VmemCases.SplitListsBlock` is an input), and else instant fit answers the next request
  of the same size, if a power of two, with the block just handed out
  (`VmemRuns.HeldIsFoundNext`).
- Its best fit passes over a segment of exactly the requested size, and compares sizes as
  signed words (kernel/mm/vmem.inc:647-648). Both are kept. It finds a strictly larger
  free segment whenever there is one exactly when the request is of 2^31 or more, or a
  larger one below 2^31 is free, or none from 2^31 on is (`VmemAlloc.BestFitMeantIff`);
  with 2 GiB free in one piece it finds nothing for 4 KiB (`VmemCases.LargeSegmentMissed`).
  Instant fit with its fallback is not affected (`VmemAlloc.InstantSearchExact`).
- The test whether a remainder is worth keeping is signed too
  (kernel/mm/vmem.inc:738-749). It is the test meant exactly when nothing remains or
  remainder and quantum are on the same side of 2^31 (`VmemSpec.WorthKeepingIff`); else a
  2 GiB remainder is handed out with the block (`VmemCases.LargeRestHandedOut`).
- An explicit alignment jumps to the wrong anonymous label (kernel/mm/vmem.inc:574); the
  model follows `vmem_alloc`, which passes 0.
- `_vmem_add` with one descriptor left takes it and returns: that descriptor is lost for
  good (`VmemAlloc.RunConserves`; `VmemCases.LeakReached` is a run from bootstrap).
- fas2sym puts the null symbol and the file symbol into .text exactly when the value found
  for the begin name is 0: if the name is on one symbol at most, when that symbol is
  missing or its value is 0 (`FasSpec.NullSymbolKeptIff`, `FasSpec.NullSymbolMeantIff`;
  `FasSpec.NullSymbolMoved` is an input).
- The archive reader pads by the parity of what follows an extended name; it lands on the
  next member exactly when that name has even length (`Archive.SkipRightIff`,
  `Archive.OddNameMisread`). A header name that uses all 16 bytes keeps whatever the
  buffer held after it (`Archive.NameRightIff`, `Archive.LongNameMisread`).
- `floppy_lba_to_chs` keeps the cylinder in a byte: exact below 256 * 36 sectors
  (`Disk.FloppyChsIff`).
- The loaders pass the BIOS the low bytes of cylinder, head and sector: right for every
  sector of the first 256 cylinders exactly when there are at most 256 heads and 255
  sectors a track (`Disk.InBytesIff`). The BIOS itself takes 63.
- `mm_bootstrap` writes two of the 1024 tables; every other page is mapped as the left-over
  memory happens to say (`Bootstrap.KernelTablesMeaning`).
- `fat_load_root` divides without rounding up: every directory entry is loaded exactly
  when the entries fill their sectors (`Fat12.RootWholeIff`). With fewer than 16 entries
  the sector count is 0, and the read's `loop` on CX = 0 would read 65536 sectors.
- The spin lock is not fair: one CPU can be passed by any number of requests
  (`Lock.CanStarve`).

## Model

| member | source | states |
|---|---|---|
| `Paging.FlatWalk` | kernel/mm/bootstrap.inc:25-40 | with a directory that names every table of the area, the two-level walk of any address is one lookup in a flat array of page entries |
| `Paging.WindowReachesTables` | kernel/mm/bootstrap.inc:5-6 | address 0xFFC00000 + 4p translates to the physical word that holds the entry of page p, for every p |
| `Paging.WalkFaultsIff` | kernel/mm/pmm.inc:62-64 | an address is translated exactly if the present bits of both its entries are set |
| `Paging.StoreOutsideTables` | kernel/mm/pmm.inc:102-108 | a store outside the table area changes the translation of no address and keeps the directory recursive |
| `Paging.StoreEntry` | kernel/mm/pmm.inc:44-47 | a store to one page's entry changes the translation of that page alone |
| `Paging.Processor.Translate` | kernel/mm/pmm.inc:53-54 | a translation, cached or walked, of a page that is not stale is the page walk's, and the cache stays coherent |
| `Paging.Processor.Write` | kernel/mm/pmm.inc:47 | a store reaches the word the walk names; afterwards cached entries still agree with the memory before the store, no more |
| `Paging.Processor.Invalidate` | kernel/mm/pmm.inc:53-54 | forgets exactly one page |
| `Bootstrap.FillTable` | boot/loader/loader.asm:244-268 | one loader loop leaves 1024 consecutive frames in a table, returns the next frame, and touches no other word |
| `Bootstrap.LoaderTranslates` | boot/loader/loader.asm:270-275 | under the loader's tables low memory is at its own address and, with the table area, again from 0xC0000000 |
| `Bootstrap.LoaderSurvives` | kernel/mm/bootstrap.inc:15-37 | stores into the table area leave the loader's translations as they were |
| `Bootstrap.LoaderSetup` | boot/loader/loader.asm:243-282 | from any memory the loader's paging code establishes those translations and changes only its own three pages |
| `Bootstrap.MapImage` | kernel/mm/bootstrap.inc:14-23 | the do-while loop maps exactly the pages of the kernel image and writes no other word |
| `Bootstrap.MapTables` | kernel/mm/bootstrap.inc:26-37 | the second loop makes the directory recursive and writes only the directory |
| `Bootstrap.MmBootstrap` | kernel/mm/bootstrap.inc:7-42 | every kernel address translates to itself minus 0xC0000000 both before and after the switch of CR3, memory outside the table area is unchanged, and no stale translation survives |
| `Bootstrap.KernelTablesMeaning` | kernel/mm/bootstrap.inc:7-42 | where the finished tables map every 32-bit address: the window, the image, or as the word says that memory held in the place of its entry |
| `PmmSpec.AcceptedIsFit` | kernel/mm/pmm.inc:195-225 | for requests below 2^19 pages the signed byte comparison stops at the block first fit stops at |
| `PmmSpec.AllocMeetsFirstFitIff` | kernel/mm/pmm.inc:189-213 | for every 32-bit request, `pmm_alloc` reports ENOMEM when first fit does exactly if the request is below 2^19 pages, or the list is empty, or the low 20 bits of the request are below 2^19 and more than any block has |
| `PmmSpec.HugeRequestGranted` | kernel/mm/pmm.inc:190-213 | a request of 2^19 pages is granted from a single free page, whose header then claims more than 2 GiB |
| `PmmSpec.RawIsPlain` | kernel/mm/pmm.inc:182-253 | below 2^19 pages the register arithmetic is first fit with tail carving: ENOMEM and nothing changed if no block fits, else the tail of the first that does |
| `PmmSpec.CarvePages` | kernel/mm/pmm.inc:221-243 | taking the tail of block k removes exactly its last n pages from the free pages and keeps the ranges disjoint |
| `PmmSpec.AllocChain` | kernel/mm/pmm.inc:221-244 | the words stored by an allocation spell out the carved list: same order, block shrunk or unlinked |
| `PmmSpec.AllocStores` | kernel/mm/pmm.inc:221-244 | an allocation writes only the size of the block it cuts and, if it unlinks it, the link before it; no other word and no translation changes |
| `PmmSpec.AllocKeepsInv` | kernel/mm/pmm.inc:182-253 | first fit of less than 2^19 pages, which is then what the code does, keeps the invariant: list in memory, disjoint ranges, free and held pages partition the managed ones |
| `PmmSpec.RawKeepsListIff` | kernel/mm/pmm.inc:182-253 | for every 32-bit request, the memory and head `pmm_alloc` leaves spell disjoint ranges within the pages that were free exactly if the list was empty or the low 20 bits of the request are below 2^19 |
| `PmmSpec.FreeKeepsInv` | kernel/mm/pmm.inc:270-302 | giving back held pages keeps the invariant and every translation |
| `PmmSpec.WriteKeepsInv` | kernel/mm/pmm.inc:182-302 | a client store of an aligned word of a page it holds keeps the invariant and every translation |
| `PmmSpec.RunKeepsInv` | kernel/mm/pmm.inc:182-302 | in every run of allocations below 2^19 pages, frees of held pages and client stores of aligned words the invariant holds at each point and no translation ever changes |
| `PmmSpec.AllocIsFresh` | kernel/mm/pmm.inc:177-181 | pages handed out are exactly n, were free, and are held by nobody else |
| `PmmSpec.AllocAddress` | kernel/mm/pmm.inc:221-249 | the pages handed out are exactly the n pages from the address returned on |
| `PmmSpec.HeldWordsKept` | kernel/mm/pmm.inc:182-302 | over a whole run an aligned word of a page held throughout changes only by client stores to that word |
| `PmmSpec.FreeThenAlloc` | kernel/mm/pmm.inc:270-302 | giving n pages back and asking for n returns the same pages and restores list, head and holdings |
| `PmmSpec.AllocThenFree` | kernel/mm/pmm.inc:270-302 | the other order restores the free pages; it restores the list exactly if the head was taken whole, and otherwise grows it by a block unless one was taken whole |
| `Pmm.Allocator.SetTemp` | kernel/mm/pmm.inc:44-73 | one store through the window and one `invlpg`: the entry is in, every other page translates as before, and the cache agrees with the tables |
| `Pmm.Allocator.MapTempPage` | kernel/mm/pmm.inc:44-56 | the temporary page then shows the physical page asked for; other memory is unchanged |
| `Pmm.Allocator.UnmapTempPage` | kernel/mm/pmm.inc:62-73 | the temporary page faults again and other memory is unchanged |
| `Pmm.Allocator.Peek` | kernel/mm/pmm.inc:211-217 | a header word read through the temporary page is the physical word |
| `Pmm.Allocator.Poke` | kernel/mm/pmm.inc:221-242 | a header word written through the temporary page changes exactly that physical word |
| `Pmm.Allocator.InitRegion` | kernel/mm/pmm.inc:83-119 | exactly the two header words of the range and the head change |
| `Pmm.InitGoodIff` | kernel/mm/pmm.inc:330-348 | the ranges `pmm_init` lists are a good free list exactly if 0x801000 <= high_mem < 0x80800000 |
| `Pmm.InitPagesExact` | kernel/mm/pmm.inc:330-348 | which pages `pmm_init` manages, page by page: from the image's end to 4 MiB if two pages at least are left there, and from 8 MiB to the end of memory |
| `Pmm.InitChain` | kernel/mm/pmm.inc:330-348 | the words it stores spell those ranges |
| `Pmm.Allocator.Init` | kernel/mm/pmm.inc:317-351 | for every high_mem the head is 0x800000 and the header words are those of the image's remainder and of memory from 8 MiB on, and nothing is held; in the good range of high_mem the invariant holds |
| `Pmm.Allocator.Alloc` | kernel/mm/pmm.inc:182-253 | for every 32-bit request the code leaves memory, head and result as specified; below 2^19 pages that is first fit, the state stays valid and no translation changes |
| `Pmm.Allocator.Search` | kernel/mm/pmm.inc:195-244 | the loop through the temporary page ends, at the first accepted block or with ENOMEM |
| `Pmm.Allocator.Take` | kernel/mm/pmm.inc:221-244 | shrinks block k or unlinks it from head or predecessor, and unmaps the temporary page |
| `Pmm.Allocator.Free` | kernel/mm/pmm.inc:270-302 | pushes the held range on the list and changes no translation |
| `Pmm.KernelNeverHandedOut` | kernel/mm/pmm.inc:330-348 | in no run after initialisation is a page of the kernel image or of the page tables free or handed out |
| `Pmm.Boot` | kernel/mm/pmm.inc:317-351 | loader tables, kernel tables and `pmm_init` in order give, from any starting memory, a valid allocator if high_mem is in its range |
| `Queue.Lists.InsertHead` | kernel/queue.inc:25-34 | on a list as the code leaves them the element goes in front, the list is again such a list, and no word is written but the head, the element and the `prev` of the former first |
| `Queue.Lists.Remove` | kernel/queue.inc:40-48 | on such a list removes exactly the element given if it is not the first; the first stays and memory is unchanged; no word is written but its slot and the `prev` after it |
| `Queue.Lists.Map` | kernel/queue.inc:56-82 | visits each element once and in order, and ends |
| `Queue.InsertPrepends` | kernel/queue.inc:25-34 | insertion prepends whatever it stores in `prev`, and the element it displaces gets its right `prev` |
| `Queue.InsertByDesign` | kernel/queue.inc:25-34 | with the head slot in `prev`, a list whose every `prev` names the slot pointing at its element stays one |
| `Queue.InsertAsWritten` | kernel/queue.inc:32-33 | as written, all but the first `prev` stay right |
| `Queue.RemoveDeletes` | kernel/queue.inc:40-48 | removing an element whose `prev` names its slot deletes just that element, at the front, in the middle or at the end |
| `Queue.RemoveByDesign` | kernel/queue.inc:40-48 | by design every member can be removed |
| `Queue.RemoveAsWrittenIff` | kernel/queue.inc:33-48 | after insertion as written, removal deletes exactly if the element is not the first; the first stays and memory is unchanged |
| `Queue.LoneStays` | kernel/queue.inc:25-48 | a list of one element, built by insertion, from which removal does not take it |
| `Queue.FirstTakenTwice` | kernel/mm/vmem.inc:170-187 | a pool on such a list hands out its first element again and again |
| `VmemSize.ClassBrackets` | kernel/mm/vmem.inc:55-61 | the macro computes the i with 2^i <= size < 2^(i+1) |
| `VmemSize.ClassMonotone` | kernel/mm/vmem.inc:55-61 | larger sizes are in no smaller class |
| `VmemSize.ClassInTable` | kernel/mm/vmem.inc:30-31 | 32 lists are enough for every 32-bit size |
| `VmemSize.PowerTestIff` | kernel/mm/vmem.inc:598-602 | `size and (size - 1)` is zero exactly for powers of two |
| `VmemSize.InstantStartExact` | kernel/mm/vmem.inc:597-604 | the class instant fit starts in is the first one all of whose sizes are large enough |
| `VmemTiles.TilesApart` | kernel/mm/vmem.inc:63-71 | two segments of a tiled queue never overlap, if the spans do not |
| `VmemTiles.TileWhere` | kernel/mm/vmem.inc:63-71 | every segment lies inside the span it follows |
| `VmemTiles.TiledReplace` | kernel/mm/vmem.inc:701-776 | replacing a segment by pieces that fill its place keeps the tiling |
| `VmemTiles.TiledAppend` | kernel/mm/vmem.inc:345-356 | appending a span and one free segment over it keeps the tiling |
| `VmemSpec.PiecesFill` | kernel/mm/vmem.inc:701-776 | the pieces of a cut fill the segment's place without gap or overlap, for every start inside it |
| `VmemSpec.WorthKeepingIff` | kernel/mm/vmem.inc:738-749 | the signed test splits exactly when a quantum or more remains, if and only if nothing remains or remainder and quantum are on the same side of 2^31 |
| `VmemSpec.FinishValues` | kernel/mm/vmem.inc:695-780 | the queue changes only where the segment stood, and there it holds the pieces in address order |
| `VmemRuns.CutFreeLists` | kernel/mm/vmem.inc:695-776 | after the design's cut, list i holds exactly the free segments of class i, once each |
| `VmemRuns.AsWrittenListsIff` | kernel/mm/vmem.inc:762-764 | as written the lists stay exact exactly if nothing is split off on the right; otherwise the block handed out is listed as free |
| `VmemRuns.HeldIsFoundNext` | kernel/mm/vmem.inc:762-764 | in every state, as written, after a right split for a power of two instant fit finds for that size the block just handed out |
| `VmemRuns.CutKeepsInv` | kernel/mm/vmem.inc:695-787 | a cut keeps tiling, free lists, sizes and descriptors |
| `VmemRuns.CutBlocks` | kernel/mm/vmem.inc:695-787 | a cut adds exactly one allocated block and disturbs none |
| `VmemRuns.FreeApart` | kernel/mm/vmem.inc:695-787 | whatever lies inside a free segment overlaps no block already out and lies in a span |
| `VmemAlloc.InstantFitExact` | kernel/mm/vmem.inc:605-635 | instant fit returns a free segment that is large enough without comparing sizes, and misses exactly when its classes are empty |
| `VmemAlloc.BestFitExact` | kernel/mm/vmem.inc:637-673 | best fit finds a segment that is larger as a signed word whenever a list from class i on holds one, and misses only then |
| `VmemAlloc.SearchExact` | kernel/mm/vmem.inc:581-687 | for every 32-bit size the search returns a free segment that is large enough, and misses exactly when every free one is no larger or hidden from a smaller request by the sign, and none is in the instant classes |
| `VmemAlloc.BestFitMeantIff` | kernel/mm/vmem.inc:637-673 | best fit finds a strictly larger segment whenever one is free exactly if the request is of 2^31 or more, or a larger one below 2^31 is free, or none from 2^31 on is |
| `VmemAlloc.InstantSearchExact` | kernel/mm/vmem.inc:581-687 | instant fit with its fallback misses exactly when no free segment is larger and none is in the instant classes, for every 32-bit size |
| `VmemAlloc.BestFitTakes` | kernel/mm/vmem.inc:637-673 | which segment best fit takes: the first visible one, lists from the request's own class upward, each from its head |
| `VmemAlloc.InstantTakes` | kernel/mm/vmem.inc:597-635 | which segment instant fit takes: the head of the first list in its classes that is not empty; if all are, the search is best fit's |
| `VmemAlloc.AsWrittenEndsIff` | kernel/mm/vmem.inc:674-686 | as written an instant-fit search ends, in any number of rounds, exactly when some free segment is in the instant classes |
| `VmemAlloc.XAllocKeeps` | kernel/mm/vmem.inc:533-813 | on every exit an allocation keeps the invariant and every descriptor, and the pool loses as many as the queue gains; on failure nothing is out that was not before, on success the block is new, apart from all others and inside a span |
| `VmemAlloc.XAllocSucceedsIff` | kernel/mm/vmem.inc:533-813 | an allocation succeeds exactly if two descriptors are left, a strategy is asked for, and some free segment is visible to best fit or, under instant fit, in the instant classes |
| `VmemAlloc.XAllocTakes` | kernel/mm/vmem.inc:695-787 | it answers the base of the segment searched for, and what is out from there is n bytes if the rest is worth keeping, the whole segment otherwise |
| `VmemAlloc.PoolShrinks` | kernel/mm/vmem.inc:794-804 | a successful cut uses up one descriptor per segment split off and returns the rest |
| `VmemAlloc.AddKeeps` | kernel/mm/vmem.inc:308-374 | with two descriptors the queue gains the span and one free segment over it, otherwise nothing; the invariant and what is held stay, and a descriptor is lost exactly if one was left |
| `VmemAlloc.StepIssues` | kernel/mm/vmem.inc:497-506 | a range handed out is clear of every block that was out, part of one that is out from then on, and inside a span |
| `VmemAlloc.RunDisjoint` | kernel/mm/vmem.inc:497-506 | over any run of spans added and blocks allocated, of any 32-bit sizes, the ranges handed out are pairwise disjoint |
| `VmemAlloc.RunInSpans` | kernel/mm/vmem.inc:497-506 | over any run every range handed out lies in a span of the arena |
| `VmemAlloc.RunConserves` | kernel/mm/vmem.inc:154-194 | pool and queue together are the same 64 descriptors, without a duplicate, after a run exactly if no span was added with one descriptor left |
| `Vmem.BootedInv` | kernel/mm/vmem.inc:909-932 | the state after bootstrap has all 64 descriptors in the pool, exact empty lists and no span |
| `Vmem.ArenaRuns` | kernel/mm/vmem.inc:398-813 | from bootstrap on, over every run, of any 32-bit sizes: segments tile the spans, list i holds exactly the free segments of class i, ranges handed out lie in spans and never overlap, and descriptors are conserved exactly if no span was added with one left |
| `VmemShared.DoKeeps` | kernel/mm/vmem.inc:398-813 | with any number of arenas on the pool, creating one or calling one keeps every arena sound and all queues and the pool pairwise disjoint |
| `VmemShared.DoIssues` | kernel/mm/vmem.inc:497-506 | a call leaves what every arena has out; what it hands out is clear of all its arena has out |
| `VmemShared.DoMoves` | kernel/mm/vmem.inc:154-194 | no call brings a lost descriptor back, and only a span added with one descriptor left loses one, that one |
| `VmemShared.SharedRuns` | kernel/mm/vmem.inc:154-194 | from bootstrap on, over every run of calls on any arenas: each arena is tiled with exact lists, no descriptor is in two places, what an arena hands out never overlaps, and all 64 are somewhere exactly if no span was added with one left |
| `Vmem.Arena.SegFree` | kernel/mm/vmem.inc:154-164 | the descriptor is pushed and counted |
| `Vmem.Arena.SegAlloc` | kernel/mm/vmem.inc:170-194 | the first descriptor is taken and counted, or none if there is none |
| `Vmem.Arena.Bootstrap` | kernel/mm/vmem.inc:909-932 | all 64 descriptors are in the pool, last one first, and the invariant holds |
| `Vmem.Arena.Add` | kernel/mm/vmem.inc:308-374 | the code's steps and its two early exits give the span addition the lemmas are about |
| `Vmem.Arena.Create` | kernel/mm/vmem.inc:398-475 | an arena without source and with a size starts with one span, any other one empty |
| `Vmem.Arena.Find` | kernel/mm/vmem.inc:581-687 | the two search loops end, by strategy and lists left, with the specified result |
| `Vmem.Arena.Carve` | kernel/mm/vmem.inc:695-787 | the splits done one after the other, in place, leave the state of the cut done at once |
| `Vmem.Arena.XAllocate` | kernel/mm/vmem.inc:533-813 | the method's new state and result are those of the allocation the lemmas are about, on every path |
| `Vmem.CarveIsFinish` | kernel/mm/vmem.inc:701-780 | left split, right split and marking, composed, equal the cut on values |
| `VmemCases.LargeSegmentMissed` | kernel/mm/vmem.inc:647-648 | with 2 GiB free in one piece, best fit reports a miss for 4 KiB |
| `VmemCases.LargeRestHandedOut` | kernel/mm/vmem.inc:738-749 | an arena and a call of instant fit for 4 KiB after which a block of 2 GiB and 4 KiB is out |
| `VmemCases.InstantMissSpins` | kernel/mm/vmem.inc:674-686 | an arena and a request on which the search as written does not end in any number of rounds, though the design finds a segment |
| `VmemCases.SplitListsBlock` | kernel/mm/vmem.inc:762-764 | an arena and a cut after which, as written, the free lists are wrong |
| `VmemCases.LeakReached` | kernel/mm/vmem.inc:308-374 | a run from bootstrap that ends with a descriptor lost |
| `VmemHash.HashBijective` | kernel/mm/vmem.inc:103-122 | the hash has a two-sided inverse on 32-bit words |
| `VmemHash.HashSample` | kernel/mm/vmem.inc:103-122 | the hash of 0x12345678 is 0xE37CD1BC, which fixes shifts and multipliers |
| `VmemHash.SlotInTable` | kernel/mm/vmem.inc:129-143 | the mask is the remainder modulo 16 and the slot read lies inside the table |
| `GrowBuffer.GrowBound` | bin/fas2sym/buffer.c:15-24 | the doubling loop ends at a capacity that is enough, and at less than twice the need unless it is the first 32 bytes or was enough before |
| `GrowBuffer.GrowDoubles` | bin/fas2sym/buffer.c:15-24 | the new capacity is the old one, or 32, doubled as often as needed and no oftener |
| `GrowBuffer.Buffer.Put` | bin/fas2sym/buffer.c:6-30 | the bytes are appended at the index returned and all earlier contents survive growth |
| `Bytes.CStrStable` | bin/fas2sym/elf.c:116-120 | a terminated string still reads the same after anything is appended |
| `FasSpec.ViewsStable` | bin/fas2sym/elf.c:116-120 | every symbol's name, read through its offset, survives later appends |
| `FasSpec.ExportMeans` | bin/fas2sym/fas.c:153-182 | the tables built, read as a consumer reads them, are the null symbol, the file symbol, then exactly the defined symbols that are not of assembly time, in order, each with its name, value modulo 2^32 and size |
| `FasSpec.ExportedIff` | bin/fas2sym/fas.c:169-173 | a symbol is exported exactly if bit 0 of its flags is set and bit 1 is not |
| `FasSpec.NameSpelt` | bin/fas2sym/fas.c:122-151 | a symbol's name is what its offset spells: nothing at 0, a NUL-terminated string of the string table with the top bit set, a counted string of the preprocessed source otherwise |
| `FasSpec.ExpectedAt` | bin/fas2sym/fas.c:153-182 | the list meant, position by position: null symbol, file symbol, and each exported symbol behind those before it with the name its offset spells, its value modulo 2^32 and its size |
| `FasSpec.ScanFinds` | bin/fas2sym/elf.c:179-194 | with each name on one symbol the first pass finds both values wherever they stand, zero or not |
| `FasSpec.ScanExact` | bin/fas2sym/elf.c:179-194 | whatever symbols share names, the first pass ends with the values of the last ones named so before both are first not 0 |
| `FasSpec.ResolveExact` | bin/fas2sym/elf.c:199-205 | resolution moves exactly the symbols with begin <= value <= end into .text, changes no name, value, size or kind, and is idempotent |
| `FasSpec.NullSymbolKeptIff` | bin/fas2sym/elf.c:199-205 | the null symbol and the file symbol survive resolution exactly if the begin value found is not 0 |
| `FasSpec.NullSymbolMeantIff` | bin/fas2sym/elf.c:158-205 | with the begin name on one symbol at most, the null symbol stays all zero exactly if a symbol of that name has a value other than 0 |
| `FasSpec.NullSymbolMoved` | bin/fas2sym/elf.c:158-205 | an input whose null symbol ends up in .text |
| `Fas2Sym.PStrToCStr` | bin/fas2sym/fas.c:15-28 | the counted string is copied and terminated, for every length a byte can hold |
| `Fas2Sym.Converter.AddSymbol` | bin/fas2sym/elf.c:95-114 | one entry is appended to the table's bytes and counted in sh_info |
| `Fas2Sym.Converter.AddStr` | bin/fas2sym/elf.c:116-120 | string and NUL are appended and the offset returned is where they begin |
| `Fas2Sym.Converter.ExportName` | bin/fas2sym/fas.c:122-151 | no name, a string-table name or a counted name is appended and its offset returned |
| `Fas2Sym.Converter.ExportSymbols` | bin/fas2sym/fas.c:153-182 | the loop over the buffers builds the tables the lemmas are about |
| `Fas2Sym.Converter.ScanBounds` | bin/fas2sym/elf.c:179-194 | reading names and values out of the buffers finds the bounds the scan on symbols finds |
| `Fas2Sym.StoreShndx` | bin/fas2sym/elf.c:199-205 | storing a section number into two bytes of the table changes that field of that entry and nothing else |
| `Fas2Sym.Converter.ResolveSymbols` | bin/fas2sym/elf.c:158-205 | in place, the entries and .text's header become what resolution on values says |
| `Fas2Sym.Converter.Write` | bin/fas2sym/elf.c:207-268 | the bytes written are the image of the tables, after resolution, with every symbol counted as local and .text from the begin value to the end value found |
| `ElfSpec.Layout` | bin/fas2sym/elf.c:207-268 | header, three tables and section headers lie one after the other, without overlap, and fill the file |
| `ElfSpec.OffsetsRecorded` | bin/fas2sym/elf.c:138-156 | the section headers, read back from the file, name just those places and lengths |
| `ElfSpec.TextRecorded` | bin/fas2sym/elf.c:196-197 | the second section header in the file carries the address and size of .text |
| `ElfSpec.HeaderMeans` | bin/fas2sym/elf.c:16-25 | the file identifies itself as little-endian ELF32 of type ET_DYN for EM_386, with five 40-byte section headers, their names in section 2 and no program header |
| `ElfSpec.ReadBack` | bin/fas2sym/elf.c:207-268 | a reader that follows the ELF rules finds in the image every symbol with name, value, size, kind and section, in order |
| `Fas2Sym.WrittenMeans` | bin/fas2sym/elf.c:207-268 | the bytes written, re-read by the ELF rules, yield exactly the symbols the FAS tables mean, sh_info is their number, and .text's header has begin and end - begin of the names given |
| `Fas2Sym.WrittenSections` | bin/fas2sym/elf.c:27-43 | each section, found by number and named through e_shstrndx, has its name, type, flags, link, alignment and entry size |
| `Fas2Sym.Convert` | bin/fas2sym/fas.c:153-182 | the whole conversion preserves meaning, symbols and .text alike, for every readable input below 4 GiB |
| `Fas2Sym.ConvertedSymbol` | bin/fas2sym/fas.c:153-182 | symbol by symbol, the file read by the ELF rules has the names the tables spell, with values modulo 2^32 and sizes, in order |
| `Disk.SameAddress` | boot/bootsect/floppy.asm:130-144 | the loaders' and the floppy driver's divisions give the same cylinder, head and sector for every geometry and sector number, in range, and are undone by (C * HPC + H) * SPT + (S - 1) |
| `Disk.FromParts` | boot/bootsect/floppy.asm:112-113 | every address in range comes back from its sector number, both ways |
| `Disk.FloppyChsIff` | kernel/dev/at/floppy.inc:173-197 | on its registers the driver's form is exact exactly below 256 * 36 |
| `Disk.InBytesIff` | boot/bootsect/floppy.asm:146-152 | the low bytes of cylinder, head and sector name every sector of the first 256 cylinders exactly if there are at most 256 heads and 255 sectors a track |
| `Disk.Machine.ReadSectors` | boot/bootsect/floppy.asm:124-162 | on any geometry the BIOS can address, n one-sector reads put sectors L to L+n-1 in memory back to back and change nothing else |
| `Fat12.DecodePacked` | boot/common/fat12.inc:131-149 | the n + n/2 decoding recovers every entry of a packed table |
| `Fat12.ChainNeverRepeats` | boot/common/fat12.inc:150-152 | a chain that ends visits no cluster twice |
| `Fat12.ChainUnique` | boot/common/fat12.inc:150-152 | from a first cluster there is at most one chain |
| `Fat12.RootPlaced` | boot/common/fat12.inc:59-76 | on a volume of reserved sectors, table copies, root directory and clusters, the root directory lies where its start is computed and the clusters right behind it |
| `Fat12.ClusterPlaced` | boot/common/fat12.inc:120-126 | on such a volume cluster number c is the sectors of its cluster c - 2 |
| `Fat12.LoadBinary` | boot/common/fat12.inc:119-153 | the loop ends, and memory changes by exactly the clusters' data in chain order: on a volume laid out as specified, its clusters the chain names, less 2 |
| `Fat12.NextCluster` | boot/common/fat12.inc:131-152 | the decoded word is the next cluster of the chain, or an end mark exactly at its end |
| `Fat12.LoadRoot` | boot/common/fat12.inc:54-82 | the directory's sectors go to the buffer, nothing else changes, and on a volume laid out as specified those are its root directory and the data area starts at its clusters |
| `Fat12.RootWholeIff` | boot/common/fat12.inc:66-72 | the sectors read hold every directory entry exactly if the entries fill their sectors |
| `Fat12.SearchRoot` | boot/common/fat12.inc:90-112 | the first entry with the name, with its cluster and size, or not found exactly if none has it; on the bytes of a list of entries, the lookup in that list |
| `Cga.ScrollPosition` | kernel/dev/at/cga.inc:140-165 | a scroll fires exactly when the position is 2000, so setting it to 1920 loses nothing |
| `Cga.PutShows` | kernel/dev/at/cga.inc:104-171 | one character keeps the screen a 25-row window of an endless canvas, which moves down a row exactly when the cursor leaves it |
| `Cga.PutAllShows` | kernel/dev/at/cga.inc:104-171 | so for every character sequence, with the window's position given by the canvas cursor |
| `Cga.AnyScreenShows` | kernel/dev/at/cga.inc:104-111 | every screen with a cursor below 2000 is the top of some canvas |
| `Cga.DrawOne` | kernel/dev/at/cga.inc:113-138 | on the canvas a line feed goes to the start of the next row of 80, a carriage return does nothing, any other byte is put at the cursor with the colour |
| `Cga.DrawText` | kernel/dev/at/cga.inc:104-171 | lines of text drawn from the start of a row stand one below the other, each from the left, and nothing above changes |
| `Cga.Console.ScrollUp` | kernel/dev/at/cga.inc:149-160 | the block copy moves every row up by one and blanks the last |
| `Cga.Console.Putc` | kernel/dev/at/cga.inc:104-171 | screen and cursor become what the specification says, and the cursor stays below 2000 |
| `Decimal.ParseNumeral` | kernel/klog.inc:83-110 | parsing a decimal numeral gives the number back |
| `Decimal.NoLeadingZero` | kernel/klog.inc:83-110 | only zero's numeral begins with a zero |
| `Klog.PrintUnsigned` | kernel/klog.inc:83-110 | the push and pop loops emit the numeral, for every 32-bit number |
| `Klog.Push` | kernel/klog.inc:87-93 | the division loop leaves on the stack the digits whose popping prints the numeral |
| `Hex.RolRotates` | kernel/klog.inc:133 | rotating the register by four bits rotates its eight hexadecimal digits by one |
| `Hex.FillDigits` | boot/loader/logger.inc:95-106 | eight rotations leave the number as it was and its digits, highest first, in the buffer |
| `Hex.PrintHex` | kernel/klog.inc:116-158 | prefix and eight digits, or a single zero |
| `Hex.ParseHexText` | kernel/klog.inc:116-158 | parsing what follows the prefix gives the number back |
| `Hex.SymbolTable` | kernel/klog.inc:328 | the digits are "0123456789ABCDEF" |
| `Archive.ReadStored` | bin/ar/archive.c:65-116 | of a stored member the reader finds offset, data size, position and name buffer exactly |
| `Archive.NameRightIff` | bin/ar/archive.c:97-113 | the name read is the stored one exactly if it was extended, shorter than 16 bytes, or the old buffer ended it |
| `Archive.LongNameMisread` | bin/ar/archive.c:97-113 | a stored 16-letter name that is read wrong |
| `Archive.SkipRightIff` | bin/ar/archive.c:118-129 | skipping lands on the next member exactly if it has no odd-length extended name |
| `Archive.OddNameMisread` | bin/ar/archive.c:97-129 | a stored member after which the walk stands one byte short |
| `Archive.TrimsTo` | bin/ar/archive.c:109-112 | trimming replaces exactly the spaces after the last byte that is none |
| `Archive.EntryAdvances` | bin/ar/archive.c:65-129 | on arbitrary bytes a header read advances by 60 at least, and so does the whole step when the size is not negative |
| `Archive.EntryOutcome` | bin/ar/archive.c:72-112 | on any bytes, exactly when a read answers the end, an error, or leaves the name buffer |
| `Archive.ExtendedFields` | bin/ar/archive.c:89-104 | of a member with an extended name: size less name length, position, and the name as far as there are bytes, closed by a NUL |
| `Archive.HeaderFields` | bin/ar/archive.c:89-113 | of any other member: size, position, and the 16 bytes with exactly the spaces at their end replaced |
| `Archive.ParseSigned` | bin/ar/archive.c:13-17 | a sign before a number is taken as such |
| `Archive.ParsePadded` | bin/ar/archive.c:13-17 | spaces before a number are passed over |
| `Archive.SkipEven` | bin/ar/archive.c:118-129 | of a size that is not negative the skip is the least even number that covers it |
| `Archive.WalkStored` | bin/ranlib/main.c:173-183 | walking a stored archive reports exactly its members, in order, with names, data sizes and offsets, whatever the name buffer held |
| `Archive.Reader.TrimName` | bin/ar/archive.c:109-112 | the loop ends and trims as specified |
| `Archive.Reader.GetEntryHdr` | bin/ar/archive.c:65-116 | outcome, position and name buffer are those of the specification on arbitrary bytes |
| `Archive.Reader.WalkAll` | bin/ranlib/main.c:173-183 | the loop ends on arbitrary bytes and reports what the specification walks, as far as the position moves on |
| `Lock.StepKeepsInv` | kernel/lock.inc:7-21 | every step of every CPU keeps: word 0 or 1, 0 exactly if nobody holds it, at most one holder, registers as last written |
| `Lock.MutualExclusion` | kernel/lock.inc:7-21 | for any number of CPUs and any interleaving at most one is between a completed acquire and its release, and the word is zero exactly if none holds it |
| `Lock.NothingLost` | kernel/lock.inc:7-21 | a stand-in for work under the lock, one read and one later write of shared data, loses nothing: the data holds the work of every finished request, in order |
| `Lock.ServedValid` | kernel/bio.inc:59-68 | only requests for existing devices reach a driver |
| `Lock.HolderReleases` | kernel/bio.inc:59-79 | on both paths of the client the holder, running on, gives the lock back in a known number of steps |
| `Lock.HolderServes` | kernel/bio.inc:59-79 | what a holder's work comes to: its request if that is for an existing device, nothing otherwise |
| `Lock.CanEnter` | kernel/lock.inc:7-12 | from every state that keeps the invariant, every CPU that wants the lock can still get it |
| `Lock.CanStarve` | kernel/lock.inc:7-12 | for any list of requests there is a run that serves them all on one CPU while another keeps trying |

## Left out

- Vmem.Arena.XAllocate: follows the design where the code departs from it (flag change stored, remainder listed); the departures themselves are `VmemAlloc.AsWrittenEndsIff` and `VmemRuns.AsWrittenListsIff`. It returns an option where the code returns a zero address and an error code.
- Vmem.Arena.Create: fields that are only copied (name, functions, flags) are not modelled, nor is `in_use`, into which the seven-word copy puts a stray word.
- VmemAlloc.RunDisjoint: spans added must not overlap each other nor wrap past 2^32, which the code leaves to its callers; sizes are not zero, for which `bsr` is undefined.
- PmmSpec.RunKeepsInv: client stores are aligned words; a store across the end of a page writes the next page too, which its owner may not be.
- Bootstrap.MmBootstrap: the kernel image is at most 4 MiB, as the single table written assumes.
- Fat12.LoadBinary: the file must not reach over the table in the buffer nor past 64 KiB of its segment, and the table must end below 64 KiB, as the loader assumes; a FAT12 table has 6 KiB at most.
- Fat12.LoadRoot: directories of fewer than 16 entries, for which the code would read 65536 sectors, are excluded.
- Disk.Machine.ReadSectors: the BIOS call is a copy from an array of sectors; its error path and the disk-packet branch of the loader are not modelled, and cylinders must fit the byte the BIOS takes.
- Fas2Sym.Convert: names must end inside their tables, which the C code does not check, and the meaning is proved for files whose section headers start below 4 GiB; memory exhaustion and file errors are not modelled.
- Archive.Reader.GetEntryHdr: a header name of spaces only and an extended name length outside the name buffer are reported as undefined, where the C code would leave the buffer; date, owner and mode fields are not parsed.
- Archive.Reader.WalkAll: stops where a negative size takes the position back to the header or before it, from where the C code goes on reading; a seek to before the file fails and is modelled.
- Hex.PrintHex: the kernel's loop counts in CL and indexes with ECX; the model takes the upper bits of ECX as zero, as they are when `klog` calls it.
- Lock.NothingLost: says nothing of the buffers of kernel/bio.inc, whose driver routines are not modelled; nor is a routine that takes the lock itself.
- The segment queue is the sequence that the empty `tailq_*` functions should maintain, and free lists and pool are sequences of descriptor numbers; their words in memory are the subject of `Queue` alone.
- vmem_free, vmem_xfree, _vmem_import, _vmem_refill, vmem_size and vmem_destroy: stubs or accessors. _vmem_hashtable_insert is empty.
- _vmem_segfit accepts every segment at its base; the left split, which it therefore never causes, is modelled for any start all the same.
- Page-table permissions, accessed and dirty bits, large pages and the 80386 flush by reloading CR3.
- The low-memory bitmap of the page allocator and its empty merge function.
- _klog_print_int, whose computed magnitude is not used, log time stamps and trace output.
- Loading of FAS files, option parsing and messages of the host tools; ranlib's unused COFF reader.
- Cursor and screen are a field and an array; port output is not modelled.
- lib/lzp, the ciphers and hashes, stpdfs, the scheduler, VFS, interrupt tables and the other device drivers: unfinished or plumbing.

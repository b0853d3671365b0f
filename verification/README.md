# phos kernel: a verified model

phos is a small 32-bit x86 kernel. This project models the parts of it whose correctness
depends on each other, bottom up, and proves what holds across them.

- **Memory.** Physical memory is an array of 2^30 words (`Memory`). The block heap
  (`BlockHeap`, `KernelHeap`, `Ownership`) is first-fit over a table of 4096-byte blocks and
  records the length of a run only in flag bits. Page directories (`Paging`, `Chunks`) live in
  that memory, in blocks of that heap; their abstract view is a flat map from 2^20 pages to
  entries (section 4.3 of the Intel SDM, Volume 3A). Masks and shifts are defined bit by bit in
  `Words`, and every div/mod form used elsewhere is proved equal to the mask of the C code.
- **Processes.** `ElfLoader`, `ProcessImage`, `ProcessLoader` and `TaskImage` take a list of
  program headers to a finished address space (the congruence rule is that of `p_align` in
  chapter 5, "Program Header", of the System V gABI). `ProcessMemory` is what a running program
  asks for and gives back. `CopyString` copies a user string through a page mapped temporarily
  into the task's directory. `TaskList` is the doubly linked list of tasks.
- **Isolation.** `AddressSpaces` puts any number of address spaces into one heap and one memory and
  proves that nothing done for one reaches another, over any run; `SpaceOperations` shows that the
  operations above are steps of such a run. The kernel's own directory therefore maps every page to
  itself in every state, which is why accesses under it are physical accesses elsewhere in the model.
- **Traps.** `Trap` is the state machine of boot, interrupts, system calls and exec over the
  active directory, the current task, the current process and the keyboard rings; `TrapHandlers`
  are the handlers in place over the linked list of tasks, each equal to its part of a step, and
  `TaskLink` ties that list to the task sequence of the state machine. `Keyboard` is the ring.
  `KernelRuns` runs the state machine on top of the address spaces, with the allocation records of
  every process (`AllocationRecords`) and the blocks the kernel holds.
- **Files.** `Streamer` reads bytes from a disk that delivers sectors, `Fat16` reads file data
  through it.
- **Text and tables.** `PathSpec` and `PathParser`, `Strtok`, `Itoa`, `Gdt`.

Each operation that changes state is a method over arrays or a class, proved equal to a function
of the old state; the properties are lemmas about those functions, over all inputs and all runs.
Names such as `StartBlock`, `FlatMapped`, `ProcessMap`, `StringAt`, `Tokens`, `Parts`, `Slice`
are those functions.

## Where the code departs from its evident intent

The model follows the code. Each departure below names the member that gives its exact extent.

- The has-next flag does not fit the 8-bit table entry, so a free returns one block
  (`BlockHeap.FreeInvertsMark`: exact inverse if and only if the entry is wider or the run is one
  block long; `BlockHeap.TwoBlockFreeLeaks`). Over any run the lost blocks are exactly the tails of
  the multi-block allocations released (`BlockHeap.RunKeepsInv` with its set of leaked blocks).
- The scan returns a trailing free run that is too short, exactly when no run is long enough and
  the last block is free (`BlockHeap.ScanExact`); the memory given then reaches past the pool, and the
  marks past the table, by a known number of blocks (`KernelHeap.OverrunReaches`, with
  `BlockHeap.TwoFromOne` as the witness). A request above 0x7ffff000 bytes goes through a
  negative `int` and asks for the wrong number of blocks (`KernelHeap.BlocksForExact`).
- kzalloc clears the result without a check for NULL, so a failed request clears the bytes from
  address 0 on. The heap's own table lies at 0x7E00 in that range: the table survives if and only if
  the entries reached were free already, always up to 0x7E00 bytes (`Memory.FailureKeepsTable`); above
  that the first block counts as free again whoever uses it (`Memory.FailureReleasesBlocks`), and the
  address spaces survive if and only if no entry of one of their blocks is reached
  (`AddressSpaces.FailureKeepsExactly`).
- An address up to 4095 bytes below the pool frees the pool's first block, because the division
  truncates (`KernelHeap.FreeReaches`).
- process_free unmaps as many pages as there are from address 0 to the end of the allocation,
  counted from its start (`ProcessMemory.FreeExactOnlyAtZero`, `ProcessMemory.FreedPage`). An empty
  allocation is recorded without marking a block, so a one-block allocation after it gets the same
  address if and only if no block before the free ones at the end of the table is free
  (`ProcessMemory.EmptySharesAddress`), and a free then uses the older record
  (`ProcessMemory.ProcessHeap.MallocThenFree`). Even so no program can free a block of a chunk
  (`KernelRuns.RunStaysGood`).
- A program segment not congruent to its place in the file is shifted
  (`ProcessImage.CongruenceNeeded`). The lower address bound of a program is right if and only if its
  last segment starts at address 0 or none does, because 0 also means "not set"
  (`ElfLoader.BoundsAreExtremes`, with `ElfLoader.ZeroStartIsForgotten` as the witness).
- Removing a task never repairs the successor's backward link, so the list stays well formed if
  and only if the tail is removed (`TaskList.Scheduler.ListRemove`).
- A 1025th waiting key overwrites the oldest (`Keyboard.PushRefines`,
  `Keyboard.PushWhenFullOverwrites`).
- The drive number of a path is assigned the result of a comparison: it is 0 for every accepted path,
  so right if and only if the path starts with the digit 0 (`PathParser.Parse`).
- exec copies the program name behind a prefix of three bytes with the size of the whole 108-byte buffer
  as limit, so the name fits if and only if it has at most 104 characters (`CopyString.ExecNameFits`).
- FAT16: the chain is followed one step only, so the cluster used is the right one if and only if it is
  one of the first two or the chain returns to its second (`Fat16.ChainFollowed`). A piece is not clipped
  at its cluster's end, so all pieces stay inside their clusters if and only if the read starts at a
  cluster's first byte or ends before the cluster does (`Fat16.PiecesInside`). The markers compared with
  are 12-bit values, so an entry is judged rightly if and only if it is below 0xFFF0 and none of the five
  values (`Fat16.MarkersJudged`), and the end of a file is read from (`Fat16.EndIsFollowed`). The halves of
  the first cluster are or-ed without a shift, right if and only if the upper one is 0
  (`Fat16.FirstClusterExact`). The table position is a product where it should be a sum; modulo 2^32 the
  two agree exactly as `Fat16.EntryPositionExact` says, and for no cluster below 256 of a volume with
  reserved sectors (`Fat16.FirstEntriesMissed`).
- GDT limits above 64 KiB whose low 12 bits are not all ones would not decode to themselves, and
  are exactly those the encoder refuses (`Gdt.DecodeInvertsEncode`).

## Model

| member | source | states |
|---|---|---|
| Words.MaskIsPageBase | phix/src/memory/paging/paging.c:81 | Masking a 32-bit word with 0xfffff000 rounds it down to a page boundary, with And defined bit by bit |
| Words.MaskIsPageOffset | phix/src/memory/paging/paging.c:156 | Masking with 0x00000fff leaves the remainder modulo the page size |
| Words.MaskIsAlignUp | phix/include/common.h:21-22 | The align-up macro, mask and 32-bit wrap-around included, is rounding up to a page |
| Words.OrIsFlags | phix/src/memory/paging/paging.c:26 | Or-ing flags below 4096 into an aligned address adds them, a second set of flags merges with the first, and neither reaches the address bits |
| BlockHeap.FlagMasks | phix/include/memory/heap/heap.h:6-14 | The type mask and the flag tests used in the proofs are the C masks, and the three flags are separate bits |
| BlockHeap.ScanExact | phix/src/memory/heap/heap.c:22-44 | The answer to a non-empty request is the lowest run of free blocks when one is long enough; a run too short is returned if and only if none is and the last block is free; -ENOMEM is returned if and only if none is and the last block is taken |
| BlockHeap.ScanNothing | phix/src/memory/heap/heap.c:22-44 | An empty request is answered with the start of the free blocks at the end of the table, and fails if and only if the last block is taken |
| BlockHeap.OverrunExtent | phix/src/memory/heap/heap.c:22-44 | A request that overruns is answered with the free blocks at the end of the table, none of them taken, and lacks at least one block and not all |
| BlockHeap.TwoFromOne | phix/src/memory/heap/heap.c:40-43 | The witness: two blocks asked of a table of one free block are granted, one of them missing |
| BlockHeap.ScanOne | phix/src/memory/heap/heap.c:22-44 | A one-block request never overruns the table, gets a free block, and fails exactly on a full table |
| BlockHeap.MarksAre | phix/src/memory/heap/heap.c:54-67 | The marks of a run in plain values: 0x81 on the first block and 0x01 on each other one, with bit 8 on all but the last where the entry has room for it; no other entry changes |
| BlockHeap.FreedExact | phix/src/memory/heap/heap.c:69-79 | For every table and index a free clears exactly the entries reached from it through entries whose bit 8 is set |
| BlockHeap.FreeInvertsMark | phix/src/memory/heap/heap.c:54-79 | For every run length, freeing restores the table if and only if the entry type keeps the has-next flag or the run is one block; with the 8-bit entry exactly the first block comes back and all others stay taken |
| BlockHeap.TwoBlockFreeLeaks | phix/include/memory/heap/heap.h:13-16 | A concrete run: two blocks allocated and freed under the declared entry type leave one taken |
| BlockHeap.MallocKeepsInv | phix/src/memory/heap/heap.c:101-111 | An allocation keeps live allocations disjoint, in bounds and marked with exactly their run's flags, and every taken block is either live or leaked, never both |
| BlockHeap.ReleaseKeepsInv | phix/src/memory/heap/heap.c:118-123 | Freeing a live allocation keeps the same invariant, with the leaked tail accounted for |
| BlockHeap.RunKeepsInv | phix/src/memory/heap/heap.c:101-123 | Over every run of satisfiable allocations and frees of live pointers the invariant holds: disjoint, in bounds, marked, conserved |
| BlockHeap.EveryRunSafe | phix/src/memory/heap/heap.c:81-123 | The same for every run from the heap as created |
| BlockHeap.WideRunsReturnEverything | phix/src/memory/heap/heap.c:54-79 | With an entry type that keeps the has-next flag, any run that ends with nothing live ends with the initial table |
| KernelHeap.BlocksForExact | phix/src/memory/heap/heap.c:113-116 | The number of blocks asked for is the size rounded up to blocks if and only if the size is at most 0x7ffff000, because of the signed intermediate; above that it is 0xfff00000 too many, and 0 for the sizes whose rounding wraps |
| KernelHeap.BlockAddressRoundTrip | phix/src/memory/heap/heap.c:46-52 | On a pool below 2 GB block-to-address gives an aligned non-null address inside the pool and address-to-block, signed truncation included, inverts it |
| KernelHeap.OverrunReaches | phix/src/memory/heap/heap.c:101-111 | The memory granted by an overrunning request starts inside the pool and ends past it by the missing blocks, and the marks end past the table by as many bytes |
| KernelHeap.Heap.GetStartBlock | phix/src/memory/heap/heap.c:22-44 | The loop with its two running counters returns what the scan function says, for every table and every count including 0 |
| KernelHeap.Heap.MarkBlocksTaken | phix/src/memory/heap/heap.c:54-67 | The loop leaves the run with the flags of its position (first, has a successor) as the entry type stores them, and every other entry as it was |
| KernelHeap.Heap.MarkBlocksFree | phix/src/memory/heap/heap.c:69-79 | The loop clears entries up to the first without the has-next flag |
| KernelHeap.Heap.MallocBlocks | phix/src/memory/heap/heap.c:101-111 | NULL and an unchanged table, or the address of the scanned run with exactly that run marked |
| KernelHeap.Heap.Malloc | phix/src/memory/heap/heap.c:113-116 | The same for a size in bytes |
| KernelHeap.FreeReaches | phix/src/memory/heap/heap.c:50-52 | For every address: NULL and addresses outside the pool free nothing, except that the 4095 addresses just below the pool free from its first block |
| KernelHeap.Heap.Free | phix/src/memory/heap/heap.c:118-123 | The table afterwards is the one the block index of the address, truncated toward zero, leads to |
| KernelHeap.HeapCreate | phix/src/memory/heap/heap.c:81-99 | For every pair of addresses: succeeds if and only if both are block-aligned and the table's blocks lead from one to the other modulo 2^32; then every block is free |
| KernelHeap.KheapInit | phix/src/memory/heap/kheap.c:10-20 | The configured pool of 25600 free blocks from 0x01000000 on is always accepted, so start-up never panics here |
| Ownership.GrabOne | phix/src/memory/heap/heap.c:101-111 | Taking one block on top of blocks already taken yields a block that was free and is new, and uses up exactly one free block |
| Ownership.FreedAllRestores | phix/src/memory/heap/heap.c:69-79 | Giving back single blocks taken earlier, in any order, restores the table exactly |
| Ownership.FreedAddressesAreBlocks | phix/src/memory/heap/heap.c:118-123 | Freeing a list of pool addresses frees the list of their blocks |
| Memory.ByteAtWithByte | phix/src/string/string.c:85-88 | A byte store into word-organised little-endian memory changes that byte alone |
| Memory.WordIsBytes | phix/src/string/string.c:85-88 | Every word of memory is the little-endian number of its four bytes |
| Memory.ZeroedBytes | phix/src/memory/memory.c:4-11 | Clearing size bytes from p reaches exactly the bytes p to p+size, also when size is not a multiple of a word |
| Memory.KZalloc | phix/src/memory/heap/kheap.c:24-28 | The allocation of Malloc, with its bytes cleared; on failure the bytes from address 0 on are cleared instead, the heap's table included |
| Memory.TableFollowsRam | phix/src/memory/memory.c:4-11 | The table kept apart as an array and the bytes of memory where it lies change alike when any range is cleared |
| Memory.FailureKeepsTable | phix/src/memory/heap/kheap.c:24-28 | After a failed request the table is as it was if and only if the entries cleared were free: always up to 0x7E00 bytes, never when the whole table is reached |
| Memory.FailureReleasesBlocks | phix/src/memory/heap/kheap.c:24-28 | After a failed request above 0x7E00 bytes the next request for a block is answered with the first block, whoever uses it |
| Paging.IndexBijection | phix/src/memory/paging/paging.c:56-65 | Splitting an aligned address into directory and table index is a bijection onto the 1024 by 1024 pairs |
| Paging.ViewIsWalk | phix/src/memory/paging/paging.c:67-85 | The flat map is the walk of the processor: directory entry by bits 31 to 22, the table in its top 20 bits, entry by bits 21 to 12 |
| Paging.GetIndexes | phix/src/memory/paging/paging.c:56-65 | An unaligned address is refused; otherwise the two indexes are in range and name the address's page |
| Paging.SetRefinesFlat | phix/src/memory/paging/paging.c:67-85 | With distinct tables, one entry written through both levels changes exactly one page of the flat map, keeps the tables distinct, and touches nothing outside them |
| Paging.MappedRefinesFlat | phix/src/memory/paging/paging.c:94-122 | Mapping n pages changes exactly pages v to v+n-1 of the flat map, to p to p+n-1 with the flags, wrap-around included |
| Paging.FlatMappedIs | phix/src/memory/paging/paging.c:94-122 | In plain numbers: the page k pages after v, round the address space, leads to p + 4096k modulo 2^32 with the flags if k is below the count, and is as before otherwise |
| Paging.AdvanceWraps | phix/src/memory/paging/paging.c:100-101 | Stepping page by page is adding k pages modulo 2^32 |
| Paging.UpdatesRefineFlat | phix/src/memory/paging/paging.c:67-122 | Any sequence of updates of one directory is the same sequence on its flat map, and changes no memory outside its tables |
| Paging.ChangesIsolated | phix/src/memory/paging/paging.c:67-122 | Changes confined to one directory's tables leave the whole address space of a directory with other tables as it was |
| Paging.Set | phix/src/memory/paging/paging.c:67-85 | Refuses an unaligned address without effect; otherwise writes the one entry its page has |
| Paging.Map | phix/src/memory/paging/paging.c:87-92 | Refuses unaligned addresses without effect; otherwise the page's entry becomes the address with the flags in its low bits |
| Paging.MapRange | phix/src/memory/paging/paging.c:94-105 | Always reports success; unaligned ranges change nothing, others map count pages one after another |
| Paging.MapTo | phix/src/memory/paging/paging.c:107-122 | Fails without effect exactly on an unaligned start, source or end, or an end below the source; otherwise maps every page up to the end |
| Paging.Get | phix/src/memory/paging/paging.c:124-135 | Reads the flat map's entry of an aligned address and refuses any other |
| Paging.GetPaddr | phix/src/memory/paging/paging.c:137-146 | The translation of any address through the flat map |
| Paging.GetFlags | phix/src/memory/paging/paging.c:148-157 | The low 12 bits of the flat map's entry for any address |
| Chunks.DirPackedIsOr | phix/src/memory/paging/paging.c:30 | A directory entry made by or-ing still has the table's address in its top 20 bits |
| Chunks.FillTable | phix/src/memory/paging/paging.c:25-27 | The loop fills exactly one frame with one table of the identity mapping |
| Chunks.BuildStep | phix/src/memory/paging/paging.c:20-31 | Adding a table in a fresh frame keeps every table built before and every word outside the frames taken |
| Chunks.BuiltIsIdentity | phix/src/memory/paging/paging.c:20-31 | After 1024 rounds the directory maps every one of the 2^20 pages to itself |
| Chunks.BuiltFlags | phix/src/memory/paging/paging.c:30 | Every entry of the finished directory carries the flags asked for and the writable bit, and no other bit |
| Chunks.ChunkWellFormed | phix/src/memory/paging/paging.c:12-39 | Because heap blocks are aligned and distinct, a new chunk's tables never alias one another, the directory, or the chunk record |
| Chunks.ViewElsewhere | phix/src/memory/paging/paging.c:12-39 | Writing frames that are none of a directory's leaves its tables and its whole flat map unchanged |
| Chunks.NewChunk | phix/src/memory/paging/paging.c:12-39 | Takes exactly 1026 free blocks, changes memory in those frames only, and leaves an identity directory in them, whose entries carry the flags and the writable bit |
| Chunks.FreeChunk | phix/src/memory/paging/paging.c:41-49 | Frees the 1024 masked directory entries, the directory and the record, in that order |
| Chunks.ChunkLifetime | phix/src/memory/paging/paging.c:12-122 | For any sequence of updates between creation and destruction, the addresses freed are those of the 1026 blocks taken, each once, and the heap table is restored exactly |
| Chunks.UseChunk | phix/src/memory/paging/paging.c:12-122 | The same on the operations themselves: create, update in any way, destroy, and the heap table equals the one before |
| ElfLoader.WritableIsMask | phix/src/task/process.c:94 | The writable test of a header is its mask |
| ElfLoader.ElfFile.ProcessPheaders | phix/src/loader/formats/elfloader.c:110-123 | Succeeds if and only if every header is loadable; stops at the first that is not, with the bounds of those before it |
| ElfLoader.BoundsAreExtremes | phix/src/loader/formats/elfloader.c:82-97 | For every list of headers: the upper bound is the highest 32-bit end, and really the highest if and only if no segment wraps; the lower bound is the lowest start if and only if the last header starts at 0 or none does; each comes with the physical address, p_offset from the file, of the last segment that starts or ends there |
| ElfLoader.LowestSinceZero | phix/src/loader/formats/elfloader.c:84-87 | In every other case the lower bound is the lowest start of the headers behind the last one that starts at 0 |
| ElfLoader.ZeroStartIsForgotten | phix/src/loader/formats/elfloader.c:84-87 | The witness: after a segment at 0 and another one the lower bound is above the first |
| ProcessImage.SegmentPages | phix/src/task/process.c:90-110 | Mapping one good segment changes exactly the pages it covers, to its source's pages with flags 7 for a writable segment and 5 for any other |
| ProcessImage.ImagePages | phix/src/task/process.c:86-113 | After mapping page-disjoint good segments every page of each leads to its source with flags 7 or 5, and every other page is as before |
| ProcessImage.SegmentBytes | phix/src/task/process.c:86-143 | After segments and stack are mapped every byte of every segment translates to its source byte; its page is present, accessible, and writable exactly when the segment is |
| ProcessImage.StackBytes | phix/src/task/process.c:138-142 | Every byte of the stack window translates, present, accessible and writable, to the stack block |
| ProcessImage.OtherPages | phix/src/task/process.c:86-143 | Every page outside segments and stack is still identity, present and accessible but not writable |
| ProcessImage.CongruenceNeeded | phix/src/task/process.c:105-107 | The first byte of a mapped segment reads its source byte if and only if address and source are congruent modulo 4096 |
| ProcessLoader.NewChunkIsHeld | phix/src/task/task.c:102-118 | The directory and tables of a task's new chunk all lie in blocks marked taken |
| ProcessLoader.AllocationMissesDir | phix/src/task/process.c:98-103 | A zeroing allocation made while a directory is in use leaves that directory's flat map unchanged |
| ProcessLoader.AllocationConfined | phix/src/task/process.c:98-103 | An allocation takes only free blocks and writes only their frames |
| ProcessLoader.BssAllocated | phix/src/task/process.c:98-103 | A BSS allocation, the empty one included, is aligned, zero, and in no frame of the directory being filled |
| ProcessLoader.MapElfSegment | phix/src/task/process.c:90-110 | One round: the segment's source is its file contents or a cleared block, and the flat map changes as the segment demands; fails with -ENOMEM if and only if it is a BSS the heap has no room for, and otherwise only on a segment whose end wraps; no other block is taken |
| ProcessLoader.MapElf | phix/src/task/process.c:86-113 | The loop maps every segment, its BSS blocks still zero and outside the page tables at the end; success and -ENOMEM tell whether the heap had room for every BSS in turn, and on success exactly those blocks were taken |
| ProcessLoader.GrantedStep | phix/src/task/process.c:97-103 | Whether the heap has room for every BSS of a program, and the table afterwards, are decided one request after the other |
| ProcessLoader.MapStack | phix/src/task/process.c:138-142 | The stack mapping of an aligned stack block always succeeds and changes the stack window only |
| ProcessLoader.MapMemory | phix/src/task/process.c:121-143 | The directory's flat map afterwards, for both file types; -ENOMEM only without room for every BSS; a flat binary takes no block and succeeds exactly at an aligned address whose end does not wrap; unless memory runs out, only free blocks were taken and only free frames and the directory's own tables written |
| ProcessLoader.BssReadsZero | phix/src/task/process.c:97-103 | Every byte of a BSS, read through the finished address space, is zero |
| ProcessLoader.BinaryBytes | phix/src/task/process.c:115-119 | Every byte of a flat binary is mapped, present, accessible and writable, at 0x400000 plus its offset |
| TaskImage.NeverUnmappable | phix/src/task/process.c:105-107 | A header at or above the program start that is congruent and ends inside memory is never refused by the range mapping |
| TaskImage.SourcesAreGood | phix/src/task/process.c:86-113 | Goodness of the headers alone carries over to the sources actually chosen, BSS blocks included |
| TaskImage.ImageIsLaidOut | phix/src/task/process.c:86-143 | From the headers alone: every file byte translates to elf_memory + p_offset plus its index, every BSS byte reads zero, each page is present, accessible and writable exactly when its segment is (flags 7 or 5), the stack leads with flags 7 to the stack block, and all other pages are untouched |
| TaskImage.ContentsAreRight | phix/src/task/process.c:86-113 | Every byte of a file segment reads, through the finished map, what the file's memory held before loading began |
| TaskImage.MapFreshTask | phix/src/task/process.c:121-143 | On a task's new directory in place, a good program is loaded if and only if the heap has room for every BSS, -ENOMEM otherwise; then it is laid out exactly so, with the file's contents, the directory entries as they were and exactly the BSS blocks taken |
| ProcessMemory.FreeUndoesMalloc | phix/src/task/process.c:249-253 | Returning an allocation restores the heap table if and only if it was at most one block |
| ProcessMemory.EmptySharesAddress | phix/src/task/process.c:245-249 | An empty allocation marks nothing, and a one-block allocation after it gets the same address if and only if no block before the free ones at the end is free |
| ProcessMemory.FreedPage | phix/src/task/process.c:272-273 | After a free, exactly as many pages as lie between address 0 and the allocation's end are not present, counted from its start |
| ProcessMemory.FreeExactOnlyAtZero | phix/src/task/process.c:272-273 | The pages a free takes away are the allocation's own if and only if it starts at address 0 |
| ProcessMemory.OwnPagesLost | phix/src/task/process.c:272-273 | A free takes away at least all pages of the allocation whose record it uses |
| ProcessMemory.ProcessHeap.Malloc | phix/src/task/process.c:232-267 | NULL exactly when heap or record table is full; otherwise the program sees its bytes cleared, present, accessible and writable at the address returned, no other page changes, and the first unused record holds the allocation; a full record table leaves every block of the run but the first marked; a full heap has memory and table cleared from address 0 on; otherwise only free blocks are taken and only free frames and the directory's tables written |
| ProcessMemory.ProcessHeap.Free | phix/src/task/process.c:269-282 | Only the first record of the address is blanked, its block freed and its count of pages unmapped; an unknown address changes nothing |
| ProcessMemory.ProcessHeap.MallocThenFree | phix/src/task/process.c:242-282 | The heap table is restored if and only if the allocation was at most one block; the records are restored unless an older record has the same address, which is then the one blanked; every page counted from the start by the record's size is left not present |
| CopyString.StringAtAgrees | phix/src/string/string.c:82-91 | Two memories and maps that show the same bytes as far as a string goes hold the same string |
| CopyString.StringIsString | phix/src/task/task.c:38 | The string of the model in plain terms: its bytes are those of memory where v, v+1, ... translate to, none is zero, and it ends at a zero byte or at the limit |
| CopyString.StoredBytes | phix/src/string/string.c:85-88 | Storing a byte string changes exactly its bytes |
| CopyString.TmpIsApart | phix/src/task/task.c:29-30 | The temporary page is in no frame of the task's directory |
| CopyString.StringSurvivesSetup | phix/src/task/task.c:29-38 | Clearing and mapping the temporary page does not change what the user string reads |
| CopyString.CopyIn | phix/src/task/task.c:38-39 | With the temporary page mapped to itself with flags 7, the copy under the task's directory puts the string, cut to max-1 characters and terminated, into that page and writes nothing else |
| CopyString.CopyOut | phix/src/task/task.c:40-45 | The copy under the kernel directory writes the terminated string at the destination and nothing else |
| CopyString.UnmapRestores | phix/src/task/task.c:42 | Putting the old entry back restores every word of memory outside the temporary page, and the whole flat map |
| CopyString.UnmapKeepsCopy | phix/src/task/task.c:42-45 | The copied bytes are still in the temporary page afterwards |
| CopyString.DeliveredBytes | phix/src/task/task.c:45 | The destination holds the string and its terminator, and every other byte outside the temporary page is as before the call |
| CopyString.BlockReturned | phix/src/task/task.c:29-48 | Taking and freeing the temporary block leaves the heap table as it was |
| CopyString.CopyStringFromTask | phix/src/task/task.c:21-51 | Delivers the NUL-terminated prefix of at most max-1 characters, byte for byte those memory holds where the task's addresses translate to; leaves every page mapping of the task and the heap table as found and the kernel directory active; a limit of a page or more, or a full heap, is refused |
| CopyString.ExecNameFits | phix/src/isr80h/process.c:10-15 | What the copy delivers behind the three-byte prefix stays inside the 108-byte buffer if and only if the name has at most 104 characters: then no byte outside it changes, otherwise the rest of the name and its terminator stand behind it |
| AddressSpaces.SpacesApart | phix/src/memory/paging/paging.c:12-39 | Two chunks in one heap have different directories, and no table of one is the directory, a table or the record of the other |
| AddressSpaces.UpdatesStayInside | phix/src/memory/paging/paging.c:67-122 | Any sequence of page updates of one chunk leaves the whole map of every other chunk as it was, with nothing assumed about where they lie |
| AddressSpaces.StepKeeps | phix/src/memory/paging/paging.c:12-122 | Creating or destroying a chunk, operating on one, allocating, and freeing or storing outside all chunks keep all of them apart and complete, and the map of every chunk the step is not about |
| AddressSpaces.NewDirectoryIsNew | phix/src/memory/paging/paging.c:12-39 | A new chunk's directory is different from that of every chunk there is |
| AddressSpaces.FailureKeepsExactly | phix/src/memory/heap/kheap.c:24-28 | The clearing after a failed request keeps the chunks complete if and only if it reaches no table entry of their blocks |
| AddressSpaces.RunIsolates | phix/src/memory/paging/paging.c:12-122 | Over every run of such steps a chunk that no step is about keeps its whole map |
| AddressSpaces.KernelSeesPhysical | phix/src/kernel.c:31-34 | In every state of every run that does not operate on the kernel's chunk, its directory maps every page to itself, so every address under it translates to itself |
| AllocationRecords.GiveKeeps | phix/src/task/process.c:242-267 | After process_malloc the records still name no block of any chunk, because the new one names a block that was free, whatever its size |
| AllocationRecords.ReturnKeeps | phix/src/task/process.c:269-282 | process_free of any address, by a program whose records name no block of any chunk, is an unmapping in its own space and the freeing of a block of none |
| SpaceOperations.Spaces.NewSpace | phix/src/memory/paging/paging.c:12-39 | Creating a chunk among others is a creation step |
| SpaceOperations.Spaces.FreeSpace | phix/src/memory/paging/paging.c:41-49 | Destroying a chunk among others is a destruction step |
| SpaceOperations.Spaces.UpdatePages | phix/src/memory/paging/paging.c:67-122 | Any page update changes the map of its own chunk as it does the flat map, and is a step about that chunk only |
| SpaceOperations.Spaces.LoadProgram | phix/src/task/process.c:121-143 | Loading a program, its allocations included, is a step about its own chunk only, unless memory runs out, which happens only when the heap has no room for every BSS |
| SpaceOperations.Spaces.GiveMemory | phix/src/task/process.c:242-267 | Giving a program memory is a step about its own chunk only, unless memory runs out, and keeps its records clear of all chunks |
| SpaceOperations.Spaces.ReturnMemory | phix/src/task/process.c:269-282 | Taking back any address is a step about its own chunk and the freeing of a block of none, by the records alone, which stay clear of all chunks |
| SpaceOperations.Spaces.CopyName | phix/src/task/task.c:21-51 | A string copy, delivered or refused for lack of a block, is a store outside every chunk, the copied task's included |
| SpaceOperations.Spaces.Allocate | phix/src/memory/heap/kheap.c:24-28 | An allocation for the kernel is a step about no chunk; so is a failed one of at most 0x7E00 bytes |
| Keyboard.CellOfAhead | phix/src/keyboard/keyboard.c:27-33 | The cell of the k-th waiting character is the k-th after the reader's, though the counters wrap |
| Keyboard.WrapKeepsIndex | phix/src/keyboard/keyboard.c:27-33 | Wrapping a counter at 2^32 does not change its index, because 1024 divides 2^32 |
| Keyboard.PushRefines | phix/src/keyboard/keyboard.c:41-51 | A push appends to the queue if and only if fewer than 1024 characters wait |
| Keyboard.PushWhenFullOverwrites | phix/src/keyboard/keyboard.c:49-50 | On a full ring the next pop returns the new character, not the oldest |
| Keyboard.PopRefines | phix/src/keyboard/keyboard.c:53-68 | A pop answers 0 exactly on the empty queue and otherwise removes the first character |
| Keyboard.RunRefinesQueue | phix/src/keyboard/keyboard.c:27-68 | Over every run with at most 1024 characters outstanding the ring's answers are those of an unbounded queue, and its cells outside the live window are zero |
| Keyboard.KeyboardBuffer.Push | phix/src/keyboard/keyboard.c:41-51 | The ring's new state is that of the specified push |
| Keyboard.KeyboardBuffer.Pop | phix/src/keyboard/keyboard.c:53-68 | The ring's new state and the result are those of the specified pop |
| TaskList.Scheduler.TaskNew | phix/src/task/task.c:120-143 | The task joins at the tail of one acyclic doubly linked list in creation order; the first becomes current |
| TaskList.Scheduler.SwitchToNext | phix/src/task/task.c:145-150 | From the task at any position of the list the next one is at the following position, and the first one after the last |
| TaskList.Scheduler.Unlink | phix/src/task/task.c:152-160 | Forward links skip the task and head and tail move, while every backward link is as before |
| TaskList.Scheduler.ListRemove | phix/src/task/task.c:152-164 | The others remain in order with their forward links; the list is well formed if and only if the task was the tail; a removed current task is followed by its successor or the head |
| TaskList.Scheduler.RemoveNewest | phix/src/task/process.c:190-195 | The loader's removal undoes the creation and keeps the list well formed |
| TaskList.Scheduler.Cycle | phix/src/task/task.c:53-57 | Switching to the next task until the first comes round again visits the tasks in order and ends where it began |
| TaskList.RoundVisitsAll | phix/src/task/task.c:145-150 | That round contains every task exactly once |
| TaskList.RemovedLinks | phix/src/task/task.c:152-164 | After the link updates only the successor's backward link is wrong, and it points to the removed task |
| Trap.StepKeepsUserMode | phix/src/idt/idt.c:30-83 | Any interrupt, system call or exec taken in user mode returns with the newest task current, its directory active, current_process its process, and tasks and processes naming each other |
| Trap.TrapEffect | phix/src/idt/idt.c:30-83 | What every trap but an exec leaves: a page fault halts; a key press and a read change the ring of the program in front and nothing else; every other trap changes nothing |
| Trap.HaltsAtFaults | phix/src/memory/paging/paging.c:159-161 | The machine halts at interrupt 14 and at nothing else, and then for good |
| Trap.RunStaysInUserMode | phix/src/idt/idt.c:30-83 | The same for every interleaving of any length; so once a program has started another it is never current again |
| Trap.BootReachesUserMode | phix/src/kernel.c:82-86 | Booting halts exactly when the shell cannot be loaded and otherwise reaches such a state with one task, that of process 0 |
| Trap.ExecSucceeds | phix/src/isr80h/process.c:19-24 | A successful exec appends the new task, makes its process current in the lowest free slot with an empty ring, and leaves all others alone |
| Trap.ExecFails | phix/src/isr80h/process.c:14-21 | An exec that fails on the name, the slot, the file or the mapping leaves the whole state as it was |
| Trap.LoadAnswers | phix/src/task/process.c:145-215 | A load is answered with the lowest unused slot, with -ENOMEM exactly when all 12 are used, and otherwise with the error of the step that failed |
| Trap.MapFailureUndone | phix/src/task/process.c:190-195 | Creating a task and freeing it after a failed mapping leaves task list and current task as they were |
| Trap.PushAndPopShareTheRing | phix/src/keyboard/keyboard.c:41-68 | In user mode a key goes to the ring the running program pops from, though push asks for the current process and pop for the current task; no other ring changes |
| Trap.RunServesEachProcess | phix/src/keyboard/keyboard.c:41-68 | Over any run what a process reads is what its own ring gives for the keys typed while it was in front, whatever happens in between |
| Trap.KeysArriveInOrder | phix/src/keyboard/keyboard.c:41-68 | From boot, with at most 1024 keys waiting, every process reads its keys in the order typed and 0 exactly when none waits |
| KernelRuns.CreatedIsFresh | phix/src/task/task.c:102-118 | The directory an exec creates is different from the kernel's and every task's, because its blocks were free |
| KernelRuns.BackedApart | phix/src/task/task.c:102-118 | As every task has a chunk of its own, all directories, the kernel's included, are different |
| KernelRuns.StartGood | phix/src/isr80h/process.c:19-24 | A successful exec gives the new task a chunk no other task has and blank records, and keeps user mode well formed |
| KernelRuns.FailStartGood | phix/src/task/process.c:182-198 | An exec that fails at the mapping has destroyed its chunk: the same chunks exist as before, and the kernel state is as it was |
| KernelRuns.KernelFreeGood | phix/src/memory/heap/kheap.c:30 | A free by the kernel, of a block it took since it was entered or of an empty allocation, is the freeing of a block of no chunk |
| KernelRuns.ReturnGood | phix/src/task/process.c:269-282 | process_free by the running program, whatever address it names and whatever it allocated before, leaves every chunk complete |
| KernelRuns.RunStaysGood | phix/src/idt/idt.c:30-83 | Over every run of traps, execs, kernel allocations and frees, and allocations and frees of programs, no chunk loses a block, all directories are different, the active one is the current task's, user mode is well formed and the kernel's directory still maps every page to itself |
| KernelRuns.RunIsolatesTasks | phix/src/memory/paging/paging.c:12-122 | Over every such run a chunk keeps its whole map unless the kernel operates on it or its program is the running one and asks for or returns memory |
| KernelRuns.BootIsGood | phix/src/kernel.c:65-86 | Booting reaches such a state from a memory that holds the kernel's chunk alone |
| TaskLink.AddTask | phix/src/task/task.c:120-143 | Adding to the linked list is the addition of the state machine's task sequence |
| TaskLink.RemoveTask | phix/src/task/process.c:190-195 | Removing the newest task from the linked list is the removal of the state machine |
| TaskLink.AddAndRemove | phix/src/task/process.c:174-195 | A load that fails at the mapping leaves the linked list describing the same state, links included |
| TaskLink.Enter | phix/src/task/task.c:53-57 | Making a task of the list current is the switch of the state machine |
| TrapHandlers.SeenInFront | phix/src/task/task.c:138-142 | A task that joins the list at the end, or leaves it there, moves no other task's position |
| TrapHandlers.Machine.InterruptHandler | phix/src/idt/idt.c:30-39 | The handler, switch by switch over the linked list, is the interrupt step, and leaves the list alone |
| TrapHandlers.Machine.KeyboardInterrupt | phix/src/keyboard/ps2.c:43-59 | The callback returns early with the kernel's directory active for a release; any key press leaves the task's directory active, and pushes its character if it has one |
| TrapHandlers.Machine.KeyboardPop | phix/src/keyboard/keyboard.c:53-68 | The key read is that of the current task's process, found through the list, and no other ring changes |
| TrapHandlers.Machine.Isr80hHandler | phix/src/idt/idt.c:75-83 | The handler is the system-call step, and reading a key returns what the current task's ring gives |
| TrapHandlers.Machine.HandleCommand | phix/src/idt/idt.c:63-73 | Each command changes the state as the state machine says, and only a successful exec does not return |
| TrapHandlers.Machine.SyscallExec | phix/src/isr80h/process.c:9-29 | The exec handler returns to its caller only on failure, without having switched |
| TrapHandlers.Machine.GetStackItem | phix/src/task/task.c:175-185 | The stack is read under the current task's directory and the kernel's is active afterwards |
| TrapHandlers.Machine.ProcessLoad | phix/src/task/process.c:145-215 | Slot search, load, task creation and the undo on failure are the load of the state machine, the list and its links included; the answer is the lowest unused slot, -ENOMEM when there is none, or the failing step's error |
| TrapHandlers.Machine.AddAndUndo | phix/src/task/process.c:174-195 | A load that fails at the mapping leaves the list of tasks as it was |
| TrapHandlers.Machine.AddProcess | phix/src/task/process.c:174-188 | A load that succeeds appends its task to the list and puts its process, naming that task, into the table |
| TrapHandlers.Machine.ProcessLoadSwitch | phix/src/task/process.c:223-230 | current_process changes only after a successful load |
| TrapHandlers.Machine.GetFreeSlot | phix/src/task/process.c:200-207 | The lowest unused slot, or the error when all are used |
| TrapHandlers.Machine.TaskFreeNewest | phix/src/task/task.c:166-173 | Freeing the newest task, which no process has yet, shortens the list and moves the current task only if it was that one |
| TrapHandlers.Machine.KernelMain | phix/src/kernel.c:82-86 | Loading the shell and entering the head of the list is the boot of the state machine |
| TrapHandlers.RunTraps | phix/src/idt/idt.c:30-83 | Taking traps one after another at their handlers follows the state machine over the list and ends in user mode |
| Streamer.ReadOutcomeExact | phix/src/disk/streamer.c:24-48 | A read succeeds if and only if every sector it touches is readable, and then delivers everything; otherwise it stops at the first unreadable sector having delivered exactly the bytes before it |
| Streamer.SucceedsExactly | phix/src/disk/streamer.c:24-48 | In bytes: a read succeeds if and only if the sector it stands in and the sector of every byte asked for can be read |
| Streamer.DeliveredBytes | phix/src/disk/streamer.c:29-45 | Byte k delivered is byte (pos + k) % 512 of sector (pos + k) / 512 |
| Streamer.SliceAppend | phix/src/disk/streamer.c:44-45 | Adjacent byte ranges of the flat disk join |
| Streamer.DiskStream.Read | phix/src/disk/streamer.c:24-48 | However many sector boundaries are crossed, the bytes delivered are those of the flat disk from the position on, nothing else in the buffer changes, the position advances by exactly the bytes delivered, also on failure, and the recursion ends |
| Streamer.DiskStream.CopySector | phix/src/disk/streamer.c:37-39 | The loop copies the flat disk's bytes from inside one sector |
| Fat16.PiecesTile | phix/src/fs/fat/fat16.c:323-351 | On success the pieces of the recursive read cover the output from start to end with no gap or overlap, each but the last a whole cluster long |
| Fat16.TilesPartition | phix/src/fs/fat/fat16.c:344-348 | Every output index lies in exactly one piece |
| Fat16.CopiedPieces | phix/src/fs/fat/fat16.c:341-348 | Every output byte ends up as the disk byte its piece names |
| Fat16.PlanUnfolds | phix/src/fs/fat/fat16.c:323-351 | One round in plain numbers: refused for one of the six table entries; failed at the disk; or one piece of at most a cluster at ((root end + (c-2) * sectors per cluster) * 512 + offset in the cluster), followed by the read of the rest |
| Fat16.FirstClusterIsFlat | phix/src/fs/fat/fat16.c:270-273 | A read inside the first cluster is one piece at (root end + (cluster-2) * sectors per cluster) * 512 plus the offset |
| Fat16.RecordsAreFlat | phix/src/fs/fat/fat16.c:533-548 | n successful records inside the first cluster are exactly the flat disk bytes from the descriptor's position on |
| Fat16.PiecesInside | phix/src/fs/fat/fat16.c:334-348 | In every read that copies something, all pieces stay inside their clusters if and only if the read starts at a cluster's first byte or ends before the cluster does |
| Fat16.PieceCrossesCluster | phix/src/fs/fat/fat16.c:337 | The witness: two bytes read from the last byte of the first cluster take the second from the neighbouring cluster, whatever the table says |
| Fat16.ChainFollowed | phix/src/fs/fat/fat16.c:296-321 | For every offset answered, the cluster used is the chain's if and only if it is one of the first two or the chain returns to its second |
| Fat16.ClusterAnswered | phix/src/fs/fat/fat16.c:296-321 | An offset inside the first cluster is answered with that cluster; any other with the table's entry, or -EIO if and only if the entry is 0, 0xFF0, 0xFF6, 0xFF7, 0xFF8 or 0xFFF |
| Fat16.PlanRefused | phix/src/fs/fat/fat16.c:304-332 | Such an entry ends a read with -EIO before it copies anything |
| Fat16.MarkersJudged | phix/src/fs/fat/fat16.c:304-314 | A 16-bit entry is judged as the format has it if and only if it is below 0xFFF0 and none of the five 12-bit markers |
| Fat16.EndIsFollowed | phix/src/fs/fat/fat16.c:304-316 | Every entry that ends a file is used as a cluster number |
| Fat16.FirstClusterExact | phix/src/fs/fat/fat16.c:266-268 | The halves of the first cluster give the number they stand for if and only if the upper one is 0 |
| Fat16.EntryPositionExact | phix/src/fs/fat/fat16.c:284-286 | The table position, with its 32-bit wrap, is the right one exactly under a divisibility condition on the cluster and the reserved sectors |
| Fat16.FirstEntriesMissed | phix/src/fs/fat/fat16.c:284-286 | So it is wrong for every cluster below 256 of a volume with reserved sectors |
| Fat16.GetClusterForOffset | phix/src/fs/fat/fat16.c:296-321 | The cluster used: the first, or its table entry; -EIO if and only if the offset lies beyond the first cluster and the entry is one of the six |
| Fat16.ReadInternal | phix/src/fs/fat/fat16.c:323-351 | Terminates for every total, succeeds exactly when the plan of pieces does, then holds those pieces, never writes outside its part of the buffer, and returns -EIO for the six entries |
| Fat16.Read | phix/src/fs/fat/fat16.c:533-548 | Succeeds exactly when every record's read does, returns the number of records, and leaves them one after another; otherwise returns the error of the first record that fails |
| PathSpec.SplitFirst | phix/src/fs/pparser.c:37-45 | Splitting at every slash peels off the text before the first one |
| PathSpec.AcceptedExactly | phix/src/fs/pparser.c:8-80 | A path is accepted if and only if it has at most 108 bytes and begins with a digit from 48 to 57, the byte 58 and the byte 47 |
| PathSpec.PartsAreSplit | phix/src/fs/pparser.c:84-92 | The components collected are those of the split before its first empty one |
| PathSpec.PartsFitBuffers | phix/src/fs/pparser.c:33-53 | Every component of an accepted path is non-empty, slash-free and at most 105 bytes, so its 108-byte buffer keeps its terminator |
| PathSpec.ParsePrinted | phix/src/fs/pparser.c:33-96 | Parsing a joined list from any position, with or without a trailing slash, gives the list back |
| PathSpec.ParseInvertsPrint | phix/src/fs/pparser.c:8-96 | For every list of good components whose printed path has at most 108 bytes, the path is accepted and parses to that list |
| PathParser.GetPathPart | phix/src/fs/pparser.c:33-53 | The cursor moves past the component and its slash; the component stands terminated in a fresh block; for an empty one the block taken is given straight back |
| PathParser.ParsePathPart | phix/src/fs/pparser.c:55-67 | Two blocks and a linked node for a component, or no change at all for an empty one |
| PathParser.Extend | phix/src/fs/pparser.c:55-67 | The list grows by the next component, its links and the blocks it owns kept in step |
| PathParser.GetDriveByPath | phix/src/fs/pparser.c:14-24 | The digit in front for exactly the paths that begin with a digit, a colon and a slash; -EBADPATH for every other |
| PathParser.Parse | phix/src/fs/pparser.c:69-96 | NULL, with nothing allocated, exactly for a path above 108 bytes or without a digit, a colon and a slash in front; otherwise the list holds exactly the components, the heap gave out exactly its blocks, and the drive number is 0, so right if and only if the path starts with the digit 0 |
| PathParser.Free | phix/src/fs/pparser.c:98-109 | Frees text and node of every component in order, then the root |
| PathParser.FreeRestores | phix/src/fs/pparser.c:98-109 | The blocks freed are exactly those taken, so the heap table is restored |
| PathParser.ParseThenFree | phix/src/fs/pparser.c:69-109 | Parsing and freeing leaves the heap table as it was, for every path |
| Strtok.TokensAreMaximal | stdlib/src/string.c:129-163 | A substring is a token if and only if it is a maximal delimiter-free one, and tokens come in order |
| Strtok.TokensSound | stdlib/src/string.c:129-163 | From any boundary every token found is maximal and delimiter-free |
| Strtok.TokensComplete | stdlib/src/string.c:129-163 | From any boundary every maximal delimiter-free substring ahead is found |
| Strtok.Tokenizer.Strtok | stdlib/src/string.c:118-164 | One call: the next token's start, its end cut by a terminator, the position saved after it; NULL and a null position at the end; a string is looked at only when no position is saved |
| Strtok.Tokenizer.Skip | stdlib/src/string.c:130-142 | The nested loop stops at the first character that is no delimiter |
| Strtok.Tokenizer.CutToken | stdlib/src/string.c:150-161 | One store, at the token's end, and the position after it |
| Strtok.Tokenizer.SplitAll | stdlib/src/string.c:118-164 | The usual calling sequence terminates, returns every token once, leaves each intact and terminated in the buffer, and ends with a null position |
| Itoa.DigitsValue | phix/src/string/string.c:225-228 | The digits produced have the number's value and no leading zero |
| Itoa.TextRoundTrip | phix/src/string/string.c:216-237 | The text is a decimal numeral without leading zeros whose value is the integer, the least one included |
| Itoa.WriteDigits | phix/src/string/string.c:225-228 | The backward loop writes exactly the digits and never leaves the buffer |
| Itoa.Itoa | phix/src/string/string.c:216-237 | For every 32-bit integer the terminated text of it stands in the 12-byte buffer |
| Gdt.AcceptedIsMask | phix/src/boot/gdt/gdt.c:6-7 | The refusal test is the mask test of the code |
| Gdt.StoredBytes | phix/src/boot/gdt/gdt.c:9-28 | The masked and shifted values stored are the bytes of the encoding |
| Gdt.DecodeInvertsEncode | phix/src/boot/gdt/gdt.c:5-29 | Decoding by section 3.4.5 of the Intel SDM, Volume 3A, returns base, limit and type if and only if the segment is accepted, at both granularities; the 32-bit flag is always set and the two unused ones are clear |
| Gdt.EncodeEntry | phix/src/boot/gdt/gdt.c:5-29 | Exactly the eight bytes of the entry are written, or nothing for a refused segment |
| Gdt.StructuredToGdt | phix/src/boot/gdt/gdt.c:31-36 | Succeeds if and only if every segment is accepted; then every entry holds its encoding and nothing past the table changes |
| Gdt.TableDecodes | phix/src/boot/gdt/gdt.c:31-36 | Every entry of the table decodes to its segment |

## Left out

Weaker or narrower than the code in a stated way:

- KernelHeap.Heap.Malloc: a request answered with a run that is too short makes the marking loop write past the table; the contract excludes exactly that case (`Overruns`), which `BlockHeap.ScanExact` and `KernelHeap.OverrunReaches` characterise; what stands behind the table is not modelled.
- KernelHeap.Heap.MallocBlocks: the same.
- Memory.KZalloc: sizes above 0x7ffff000 are excluded, where the block count is wrong, and so are overrunning requests. The table is the one of the kernel's heap, at 0x7E00 and below the pool.
- Memory.ByteAtWithByte: states the byte organisation of memory that every store relies on, not a function of the source.
- Paging.ChangesIsolated: the separateness of the two directories is a premise here; `AddressSpaces.SpacesApart` proves it for any two chunks of one heap, and `AddressSpaces.UpdatesStayInside` is the statement without it.
- Chunks.NewChunk: assumes 1026 free blocks; the code panics without them. The chunk record's remaining bytes are not described.
- Chunks.UseChunk: the same.
- ProcessImage.SegmentBytes: a segment's source may not end in the last page below 4 GB, where rounding up wraps. A segment longer in memory than in the file, but not empty in it, is mapped to what follows it in the file, as in the code.
- ProcessLoader.MapElf: which of several failing headers comes first is not stated.
- ProcessLoader.MapMemory: the stack block is taken as given, aligned and below the last page; BSS requests may not overrun the heap table (`BssFits`).
- TaskImage.MapFreshTask: the same premises. Contents are followed for the bytes whose block was taken before the task's directory was created, as a loaded file's are.
- TaskImage.ImageIsLaidOut: says where file bytes translate to; `TaskImage.ContentsAreRight` says what is read there.
- AddressSpaces.StepKeeps: a free and a store are taken to miss all chunks here; `KernelRuns.RunStaysGood` proves it of every free, and `AddressSpaces.FailureKeepsExactly` says when the clearing after a failed request does.
- AddressSpaces.RunIsolates: the same; `KernelRuns.RunIsolatesTasks` is the statement without the premise on frees.
- SpaceOperations.Spaces.NewSpace: assumes 1026 free blocks, as `Chunks.NewChunk` does.
- SpaceOperations.Spaces.LoadProgram: the premises of `ProcessLoader.MapMemory`; the memory afterwards is not described when it runs out during loading.
- SpaceOperations.Spaces.GiveMemory: the premises of `ProcessMemory.ProcessHeap.Malloc`, and records clear of all chunks, which `KernelRuns.RunStaysGood` proves of every state; nothing is said when memory runs out.
- SpaceOperations.Spaces.CopyName: the premises of `CopyString.CopyStringFromTask`, with the destination in no chunk.
- SpaceOperations.Spaces.Allocate: nothing is said for an empty request or for a failure above 0x7E00 bytes, which `AddressSpaces.FailureKeepsExactly` characterises.
- ProcessMemory.ProcessHeap.Malloc: no overrunning request, as above.
- ProcessMemory.ProcessHeap.MallocThenFree: the same.
- CopyString.CopyStringFromTask: assumes 1 <= max, a string whose bytes and page-table entries lie outside the temporary page, and a destination in no page-table frame. Accesses under the kernel directory are physical, by `AddressSpaces.KernelSeesPhysical`.
- CopyString.ExecNameFits: the name is what `CopyString.CopyStringFromTask` delivers at the third byte of the buffer; lower-casing it is left out.
- CopyString.StringSurvivesSetup: the same premise on the string.
- TaskList.Scheduler.TaskNew: allocation and directory creation are taken to succeed.
- TaskList.Scheduler.ListRemove: removal from the middle is described exactly, not repaired.
- Trap.StepKeepsUserMode: the outcomes of copying the name, of reading the file and of mapping are part of the event.
- KernelRuns.RunStaysGood: stores of the kernel outside the page tables are taken to miss all chunks, and stores of programs, which reach what their maps allow, are not followed. What the kernel keeps beyond one entry (process and task records, stacks, loaded programs) it never frees in the code, so it drops out of the set of blocks it may still free. Memory that runs out in a load, and so the clearing it causes, is not among the steps.
- KernelRuns.RunIsolatesTasks: the same.
- TrapHandlers.Machine.SyscallExec: copying the name is an outcome of the event; `CopyString.CopyStringFromTask` is the copy itself.
- TrapHandlers.Machine.GetStackItem: which directory the stack is read under is stated, not the value read.
- TrapHandlers.Machine.ProcessLoad: reading the file and mapping are outcomes of the event; `TaskImage.MapFreshTask` is the mapping itself.
- TrapHandlers.Machine.KernelMain: the start-up calls before the first process are not part of it.
- TrapHandlers.Machine.TaskFreeNewest: the chunk's destruction is that of `SpaceOperations.Spaces.FreeSpace`.
- Streamer.DiskStream.Read: positions are unbounded integers, so a position past 2 GB does not overflow; sector reads are an abstract function of the sector.
- Fat16.Read: sizes, offsets and positions are unbounded; the disk's sector size is 512.
- Fat16.ReadInternal: clusters are taken to be non-empty, and clusters 0 and 1, which a table entry may name, not to start below sector 0; the table lookup is an abstract function.
- Fat16.GetClusterForOffset: the table lookup is an abstract function of the cluster, so its own read errors are not modelled; negative clusters are not either.
- PathParser.Parse: assumes two free blocks per component and two more. The unused working-directory argument is omitted.
- Strtok.Tokenizer.Strtok: the saved position and the string passed are in one buffer.
- Itoa.Itoa: the static buffer is a parameter, and the text's position in it is returned instead of a pointer.

Not modelled:

- ATA port access, interrupt acknowledgement, scan-code decoding, terminal output, assembly and register save and restore.
- The shell and other user programs, the formatted printers, the remaining string functions.
- File opening and reading in the process loader, the ELF header checks (`elf_validate_load`), and the file descriptor table with its dispatch to the file system.
- FAT16 directory counting, name rendering and lookup, which rest on on-disk layouts.
- `keyboard_backspace`, interrupt callbacks other than the keyboard's, and registration of callbacks and system calls, which happens once at boot.
- The heap's table as part of physical memory, except under clearing (`Memory.TableFollowsRam`): it is an array of its own, and other stores are taken to miss it.
- Termination of processes, which the kernel does not have: a process keeps its slot.

# Verified models of SmplOSV2

SmplOSV2 is a 32-bit hobby kernel with its own C library. These Dafny modules model the parts of it that
keep state with intricate invariants, do what that code does step by step, and prove what it is for.

* **Paging** (`Words`, `Mmu`, `PageTables`, `AddressSpaces`, `Paging`, `PagingRuns`, `PagingExamples`): the kernel
  edits page tables through a window at 0xFFC00000, so every directory has two copies of where its tables are.
  Physical memory is a sequence of frames of 1024 words; the processor walks it as in section 4.3 of Intel SDM
  Volume 3A and may cache any current translation at any access, and drops them as in section 4.10.4. `Paging`
  is paging.c, statement by statement, over that processor; `PagingRuns` drives it through whole runs.
* **Frames** (`Pmm`, `FrameAccounting`, `SharedFrames`): the frame stack, where every frame of the pool is, and when
  a frame that several spaces map can be given back.
* **User heap** (`Bytes`, `HeapModel`, `UserHeap`): malloc and its relatives, on the bytes of the process.
* **Processes** (`Pipe`, `Fswait`, `Scheduler`, `Wakeups`): pipe rings, blocking on pipes, two-level round robin.
* **Modules** (`Modules`): dependency loading with retries.
* **Smaller cores**: `Division` (64 by 32 bits), `Digits` and `Reading` (strtoul and vsprintf), `Line` (integer line),
  `Fat` (cluster chains and file reads), `AcpiMethods` (serialization of control methods), `ResultStack`;
  `Arithmetic` holds the facts about products and quotients they share.

An operation that changes state is a method on a class with the source's fields; its postcondition gives the
new state as a function of the old one, and the lemmas prove the laws of that function. Panics are results.

Where a natural law is false of the code, the model keeps the code and states exactly when the law holds:
`MapRefinesUpdate` (tables are not cleared), `UnmapKeepsSystem` and `FreeKeepsSystem` (shared tables),
`AllocNeedsUnmapped` (remapping loses a frame), `Machine.Map` and `MapKeepsGood` (the directory's own page),
`FreeKeepsUnmapped` and `CopiedNotAlone` (frames of copied pages),
`ReadBack` (eight against twelve flag bits), `Calloc` (the product wraps),
`BlockBare` (dependency lists without outer commas), `StandardExceptBarePrefix` (`0x` without digits),
`LineShape` (steep lines end early), `StartRight` with `AcrossReadsElsewhere` (reads past the first cluster),
`Results.Push` (null at a frame boundary). `PagingExamples` has states in which the laws of paging fail.

## Model

| member | source | states |
|---|---|---|
| PagingRuns.WalksAgree | os/kernel/arch/i386/mem/paging.c:60-261 | After any run of map, knpalloc, kpfree, kpfree_virtual, set_page_directory, copy_page_directory and accesses by the processor, which set accessed and dirty flags, over any number of spaces, in every space slot 1023 maps its own table, both copies of every slot name the same frame, and a walk through the 0xFFC00000 window reads what the processor's walk reads |
| PagingRuns.RunKeepsGood | os/kernel/arch/i386/mem/paging.c:60-261 | Every such run keeps all spaces self-mapped, every free frame page aligned, listed once, and outside all directories and tables, and the pointer to the directory in force leading to it |
| PagingRuns.Run | os/kernel/arch/i386/mem/paging.c:60-261 | The same run on the processor: it panics exactly if the model does, else memory, free frames, CR3 and the directory pointer are the model's, the kernel can go on editing through its pointers, and no cached translation is stale |
| PagingRuns.Perform | os/kernel/arch/i386/mem/paging.c:60-261 | One call of a run on the processor does what the model says |
| PagingRuns.Start | os/kernel/arch/i386/mem/paging.c:263-287 | init_paging ends in a state from which such a run can start |
| PagingRuns.MapKeepsGood | os/kernel/arch/i386/mem/paging.c:60-89 | map keeps the invariant of a run if and only if the page the directory pointer goes through stays on the directory: otherwise later calls edit another frame |
| PagingRuns.FreeKeepsGood | os/kernel/arch/i386/mem/paging.c:166-226 | kpfree and kpfree_virtual keep it if and only if the page is not the directory's own, no table is emptied that another space reaches and, for kpfree, the frame is the page's own |
| PagingRuns.CopyThenEnter | os/kernel/arch/i386/mem/paging.c:109-141 | After a copy the new directory can be entered through the pointer that is returned, and what was mapped alike in every space still is, the new one included, so that a copy can follow |
| PagingRuns.NextKeepsGood | os/kernel/arch/i386/mem/paging.c:60-261 | The same for one call, whatever it is |
| PageTables.WalkedKeepsSystem | os/kernel/arch/i386/mem/paging.c:98-106 | The flags the processor sets in either copy of a slot, or in a leaf, keep the invariant and every translation of every space |
| Mmu.WindowShowsTables | os/kernel/arch/i386/mem/paging.c:96-106 | Under the self-map the window page of slot i is there exactly if the slot is present, and shows exactly that slot's table |
| PageTables.MapKeepsSystem | os/kernel/arch/i386/mem/paging.c:60-89 | map keeps both copies of every slot naming the same table, and the free frames apart from all tables |
| PageTables.MapTranslates | os/kernel/arch/i386/mem/paging.c:60-89 | What every page of the space translates to after a map, including what a new table held before |
| PageTables.MapWrites | os/kernel/arch/i386/mem/paging.c:71-85 | Every bit of the page's entry is that of the address or of the flags; a new table's frame is entered in both copies of its slot with the same flags, and without one the directory is untouched |
| PageTables.MapRefinesUpdate | os/kernel/arch/i386/mem/paging.c:69-88 | map is the update of one entry of the page-to-frame map if and only if no other word of the frame it takes for a table has its present bit set: the code does not clear the frame |
| PageTables.UnmapKeepsSystem | os/kernel/arch/i386/mem/paging.c:198-226 | kpfree_virtual keeps the invariant if and only if it does not clear the last word of a table that another space reaches |
| PageTables.ReleaseNeedsUnshared | os/kernel/arch/i386/mem/paging.c:186-191 | Releasing an emptied table keeps the invariant if and only if no other space reaches it |
| PageTables.FreeKeepsSystem | os/kernel/arch/i386/mem/paging.c:166-196 | kpfree keeps the invariant if and only if the page was not mapped, or its frame is aligned, free nowhere and no table, and no table is emptied that another space reaches |
| PageTables.UnmapStructural | os/kernel/arch/i386/mem/paging.c:198-226 | kpfree_virtual makes no frame a directory or table that was none |
| PageTables.UnmapRefinesRemoval | os/kernel/arch/i386/mem/paging.c:166-226 | kpfree and kpfree_virtual are the removal of one entry of the page-to-frame map, whatever happens to the table |
| PageTables.DropTableTranslates | os/kernel/arch/i386/mem/paging.c:186-189 | Releasing an emptied table changes no translation |
| PageTables.LostByLeaf | os/kernel/arch/i386/mem/paging.c:85-88 | Writing a leaf entry can make only that page's cached translation stale |
| PageTables.LostBySlot | os/kernel/arch/i386/mem/paging.c:70-78 | Writing a directory slot whose pages are all unmapped makes no cached translation stale |
| Words.PtEntry | os/kernel/arch/i386/mem/paging.c:29-53 | An entry is the address with the flag byte or-ed in: all bits above the low byte are the address's, and bit 0 is set exactly if either has it |
| Words.EntryBits | os/kernel/arch/i386/mem/paging.c:29-53 | Every bit of an entry is set exactly if the address or the flags have it |
| Words.ReadBack | os/kernel/arch/i386/mem/paging.c:33-39 | The kernel masks eight flag bits where the processor masks twelve: an entry reads back as its frame's base if and only if bits 8 to 11 of the mapped address are clear |
| Words.PageSplit | os/kernel/arch/i386/mem/paging.c:41-49 | v_addr_to_pde and v_addr_to_pte split an address into exactly the two indices the processor uses |
| Words.WindowAddress | os/kernel/arch/i386/mem/paging.c:80 | KERNEL_PT_MAP + pde * 4096 + 4 * j is word j of the page that slot pde of the window maps |
| Paging.Machine.Resolve | os/kernel/arch/i386/mem/paging.c:55-58 | An access through a cached translation reaches the frame the tables say, as long as that translation is not stale |
| Paging.Machine.FlushTlb | os/kernel/arch/i386/mem/paging.c:55-58 | invlpg leaves no cached translation of that page |
| Paging.Machine.NewTable | os/kernel/arch/i386/mem/paging.c:69-78 | A table from the free frames is entered in table_mappings first and then in the directory, through pointers that stay valid; no stale translation arises, also not of the window page that is flushed |
| Paging.Machine.SetLeaf | os/kernel/arch/i386/mem/paging.c:79-88 | One word of the table is written, through the window, and no stale translation is left; the pointers still lead where they should if and only if the directory's own page stays on the directory |
| Paging.Machine.Map | os/kernel/arch/i386/mem/paging.c:60-89 | The whole effect on memory and frames; it fails exactly by the two panics; afterwards no cached translation is stale, and the machine stays usable if and only if the page that holds the directory in force is not mapped elsewhere |
| Paging.Machine.TableIsEmpty | os/kernel/arch/i386/mem/paging.c:179-185 | The scan through the window finds exactly whether the table has a non-zero word |
| Paging.Machine.DropIfEmpty | os/kernel/arch/i386/mem/paging.c:179-190 | An emptied table leaves both copies of the directory, the second by the recursive call, and its frame is free |
| Paging.Machine.Kpfree | os/kernel/arch/i386/mem/paging.c:166-196 | The whole effect, recursion included; afterwards no translation is stale, the released table's window page included, and the machine stays usable if and only if the page was not the directory's own |
| Paging.Machine.KpfreeVirtual | os/kernel/arch/i386/mem/paging.c:198-226 | The mapping goes, the frame stays taken, an emptied table is released; no translation is stale afterwards, and the machine stays usable if and only if the page was not the directory's own |
| Paging.Machine.Virtual2Physical | os/kernel/arch/i386/mem/paging.c:91-107 | The software walk gives the address in the page's entry, 0 if it is not mapped, and so agrees with the processor's walk |
| Paging.Machine.SetPageDirectory | os/kernel/arch/i386/mem/paging.c:253-261 | CR3 is the frame behind the pointer as the old space sees it, 0 if that directory has no table for the pointer, or the pointer itself; all cached translations go; null is refused |
| Paging.Machine.CopyFrame | os/kernel/arch/i386/mem/paging.c:111-121 | memcpy of a page into a frame outside the space in force copies its 1024 words and changes nothing else |
| Paging.Machine.CopyRoots | os/kernel/arch/i386/mem/paging.c:109-124 | Directory and window table of the new space are copies of the kernel's, each with its own slot 1023; the source space is in force |
| Paging.Machine.CopyOne | os/kernel/arch/i386/mem/paging.c:125-139 | One turn of the loop, with its two changes of directory, and the source in force again |
| Paging.Machine.CopyPageDirectory | os/kernel/arch/i386/mem/paging.c:109-141 | It computes exactly AddressSpaces.CopySpace, and fails exactly when that runs out of frames; afterwards the source is in force, the new space is one of all, and what was mapped alike in all spaces still is. From clear free frames the new space has the source's pages from 0x80000000 to 0xF0000000 and the kernel's elsewhere |
| AddressSpaces.CopySpaceCorrect | os/kernel/arch/i386/mem/paging.c:109-141 | The new directory satisfies the self-map invariant with all others. Below slot 1023 it translates like the source wherever the source has a page at an address from 0x80000000 to 0xF0000000, both included, whose own address reads back other than 0, and the entry is that address, present, writable and for users; elsewhere it translates like the kernel's directory. Another space sees the source's page there if and only if it has the kernel's table in that slot, and is unchanged elsewhere |
| AddressSpaces.NewSpaceKeepsSystem | os/kernel/arch/i386/mem/paging.c:109-122 | The two roots, as copied, are a self-mapped space beside all others |
| AddressSpaces.NewSpaceTranslates | os/kernel/arch/i386/mem/paging.c:109-122 | Before the loop the new space translates like the kernel's |
| AddressSpaces.CopyKeepsSystem | os/kernel/arch/i386/mem/paging.c:125-139 | Every turn of the loop keeps the invariant of all spaces, and free frames clear |
| AddressSpaces.CopyTranslates | os/kernel/arch/i386/mem/paging.c:125-139 | What the new space translates after any number of turns |
| AddressSpaces.CopyLeavesOthers | os/kernel/arch/i386/mem/paging.c:125-139 | The loop leaves the source's translations alone, and every other space's outside the copied range |
| AddressSpaces.CopyWrites | os/kernel/arch/i386/mem/paging.c:125-139 | The entry of every page copied so far is the source's address with the present, write and user bits |
| AddressSpaces.CopySeen | os/kernel/arch/i386/mem/paging.c:125-139 | After any number of turns another space has the source's page where it shares the new space's table of that slot, and what it had elsewhere |
| AddressSpaces.MapInOther | os/kernel/arch/i386/mem/paging.c:60-89 | map in one space shows in another only in the same page, and exactly if they share the table of its slot |
| AddressSpaces.MapReadBack | os/kernel/arch/i386/mem/paging.c:60-107 | virtual2physical after map: the mapped address with its low byte cleared for that page, what it was for every other |
| AddressSpaces.UnmapReadBack | os/kernel/arch/i386/mem/paging.c:91-226 | virtual2physical after kpfree_virtual: 0 for that page, what it was for every other |
| AddressSpaces.WriteSpare | os/kernel/arch/i386/mem/paging.c:111-122 | Writing a frame that holds no directory and no table leaves every space as it was |
| Paging.Machine.Knpalloc | os/kernel/arch/i386/mem/paging.c:149-154 | knpalloc takes one frame for the page and one more for its table if there was none, and fails exactly when they run out; the machine stays usable on the condition of map |
| Paging.Machine.InitPaging | os/kernel/arch/i386/mem/paging.c:263-287 | It succeeds if and only if the pool has three frames, or four if the directory is not in the first four megabytes, and the directory is not in the window's own slot. Then, from clear frames: paging is on, the pointers work, the first four megabytes and the directory's page are mapped to themselves, present, writable and for users, and nothing else is mapped |
| Paging.BootedPartition | os/kernel/arch/i386/mem/paging.c:263-287 | init_paging leaves the pool split between free frames and tables |
| FrameAccounting.AllocKeepsPartition | os/kernel/arch/i386/mem/paging.c:149-154 | knpalloc of an unmapped page keeps the pool split into free frames, frames behind pages, and tables |
| FrameAccounting.AllocNeedsUnmapped | os/kernel/arch/i386/mem/paging.c:149-154 | knpalloc keeps the split if and only if the page was unmapped: otherwise the frame it had is lost |
| FrameAccounting.AllocWrites | os/kernel/arch/i386/mem/paging.c:145-154 | knpalloc enters the first free frame, present, writable and for users |
| PagingExamples.DirtyTable | os/kernel/arch/i386/mem/paging.c:69-78 | A state in which map maps a second page, by an entry left in the frame it takes for a table |
| PagingExamples.SharedTable | os/kernel/arch/i386/mem/paging.c:179-191 | A state in which kpfree_virtual of one page frees a table that a second space still uses |
| PagingExamples.AllocTwice | os/kernel/arch/i386/mem/paging.c:149-154 | A state in which a second knpalloc of a page loses the page's first frame |
| PagingExamples.MovedDirectory | os/kernel/arch/i386/mem/paging.c:60-89 | A state in which one map of the directory's own page ends the invariant of a run |
| FrameAccounting.FreeKeepsPartition | os/kernel/arch/i386/mem/paging.c:166-196 | kpfree keeps the split: the page's frame, and its table's with the table's last page, become free again |
| FrameAccounting.StoreKeepsPartition | os/kernel/arch/i386/mem/paging.c:149-196 | A program's stores to its pages keep the split |
| FrameAccounting.RunKeepsPartition | os/kernel/arch/i386/mem/paging.c:149-196 | So does any run of knpalloc, kpfree and stores of one space: no frame is lost or handed out twice |
| FrameAccounting.FramesInUse | os/kernel/arch/i386/mem/pmm.c:37-61 | The stack index equals the number of frames in use, so no kpfree of a run pushes below index 0 |
| FrameAccounting.CountPartition | os/kernel/arch/i386/mem/pmm.c:37-61 | Pool size less free frames is the number of frames behind pages plus the number of tables |
| FrameAccounting.FreeReturns | os/kernel/arch/i386/mem/paging.c:175-191 | kpfree of a mapped page gives back two frames if it was the last page of its table, else one |
| SharedFrames.FreeKeepsUnmapped | os/kernel/arch/i386/mem/paging.c:166-196 | With several spaces: kpfree leaves no free frame mapped anywhere if and only if no page that stays mapped, in whatever space, has a frame that is given back |
| SharedFrames.CopyKeepsUnmapped | os/kernel/arch/i386/mem/paging.c:109-141 | copy_page_directory leaves no free frame mapped |
| SharedFrames.CopiedNotAlone | os/kernel/arch/i386/mem/paging.c:125-196 | But kpfree, in the source, of a copied page whose table the source does not share with the kernel's directory always leaves a free frame mapped in the new space |
| SharedFrames.UnmapInOther | os/kernel/arch/i386/mem/paging.c:198-226 | An unmap takes the page from exactly the spaces that reach its table, and nothing else from any |
| Pmm.FrameStack.Pop | os/kernel/arch/i386/mem/pmm.c:37-51 | The next free frame, or the out-of-memory panic exactly when there is none |
| Pmm.FrameStack.Push | os/kernel/arch/i386/mem/pmm.c:53-61 | The frame is the next to be handed out; before init_pmm nothing happens |
| Pmm.FrameStack.Init | os/kernel/arch/i386/mem/pmm.c:72-93 | The stack holds, in order, exactly the usable frames of the memory map |
| Pmm.UsableMember | os/kernel/arch/i386/mem/pmm.c:63-91 | A frame is stacked if and only if it starts a page of a region of kind 1 and is below the start or above the end of every protected region, the end itself being protected |
| Pmm.UsableDistinct | os/kernel/arch/i386/mem/pmm.c:78-91 | Regions that do not overlap give every frame once |
| Pmm.UsableInOrder | os/kernel/arch/i386/mem/pmm.c:72-93 | Frames are stacked region by region, in the order of the memory map |
| Pmm.UsableUpwards | os/kernel/arch/i386/mem/pmm.c:80-86 | ... and upwards within a region |
| HeapModel.MallocKeeps | libc/stdlib/alloc.c:178-215 | malloc keeps the blocks tiling [USER_HEAP, heap_start) without overlap and the free list strictly sorted; it makes one block live that was not, of exactly the size asked for, and leaves every live block where it is |
| HeapModel.TakeKeeps | libc/stdlib/alloc.c:124-149 | Taking a free block, whole or split, keeps the tiling and the sorted list, and no other block becomes live |
| HeapModel.FreeKeeps | libc/stdlib/alloc.c:84-106 | free moves exactly one block from live to the free list, in address order |
| HeapModel.MallocChooses | libc/stdlib/alloc.c:124-215 | malloc takes the lowest free block that has exactly the size, or more than the size and a header of 13 bytes, cuts it to the size and makes the rest a free block; if there is none it takes a new block at heap_start |
| HeapModel.FirstFit | libc/stdlib/alloc.c:132-147 | The walk stops at the first block of the list that fits |
| HeapModel.FreeThenMalloc | libc/stdlib/alloc.c:124-262 | Freed memory is reused: a request that a block just freed can serve, whole or split, does not move heap_start |
| HeapModel.BlocksDisjoint | libc/stdlib/alloc.c:178-215 | No two blocks overlap, headers included |
| HeapModel.Covered | libc/stdlib/alloc.c:32-63 | Every address below heap_start belongs to a block, the walk by sizes misses none |
| HeapModel.RunKeeps | libc/stdlib/alloc.c:178-262 | In every run of malloc, calloc, realloc, free and a client's own stores the heap stays well formed, and a block that is not given back keeps its place and its size |
| UserHeap.Heap.FreeInsert | libc/stdlib/alloc.c:84-106 | On the bytes: the block is linked in at its place by address, prev links match, and of all headers only links have changed |
| UserHeap.Heap.FreeRemove | libc/stdlib/alloc.c:108-122 | On the bytes: the block is linked out, its neighbours linked to each other |
| UserHeap.Heap.Split | libc/stdlib/alloc.c:65-82 | A header for the rest is written behind the first size bytes, exactly if something would be left; otherwise nothing changes |
| UserHeap.Heap.FirstFitting | libc/stdlib/alloc.c:128-147 | The walk over the links ends at the first fitting block of the list, or at its end |
| UserHeap.Heap.FreeBlock | libc/stdlib/alloc.c:124-149 | A fitting free block is off the list, cut to the size, its rest back on the list in order; without one nothing changes |
| UserHeap.Heap.Malloc | libc/stdlib/alloc.c:178-215 | It refines HeapModel.Malloc, returns the lowest free block that fits or a new one, keeps every invariant of the bytes, and changes no byte of any live payload |
| UserHeap.Heap.Free | libc/stdlib/alloc.c:240-262 | A live block goes to the free list and nothing else changes in the model; freeing a block that is free already, or null, changes nothing; no payload byte changes |
| UserHeap.Heap.Calloc | libc/stdlib/alloc.c:226-230 | The block has num * size bytes modulo 2^32, which is num * size if and only if that is below 2^32, all of them zero; other payloads are untouched |
| UserHeap.Heap.Realloc | libc/stdlib/alloc.c:216-225 | Every byte of the old block that the new size reaches is at the same place of the new block; the old one is free, and every other live payload is untouched |
| UserHeap.Heap.Memmove | libc/string/memmove.c:11-22 | The bytes arrive as they were before the move, also when the ranges overlap |
| UserHeap.Heap.Clear | libc/string/memset.c:11-16 | Exactly the named bytes are zero |
| UserHeap.Heap.MemCheck | libc/stdlib/alloc.c:32-63 | mem_check counts an error if and only if some block fails its tests, whatever the guards and links are |
| UserHeap.SoundPasses | libc/stdlib/alloc.c:32-63 | In every state the operations reach no block fails the tests of mem_check |
| UserHeap.StampTells | libc/stdlib/alloc.c:250 | The links bear the live stamp exactly for live blocks, which is what free tests |
| UserHeap.PayloadStore | libc/stdlib/alloc.c:178-262 | A program that stays inside its blocks changes no header |
| UserHeap.Heap.Session | libc/stdlib/alloc.c:178-262 | After any run of malloc, calloc, realloc, free and a client's own stores the heap is the one the model computes, and every byte of every block is where resizing has carried it, with the value the client stored there last. The run may ask for any amount in all: only a step that finds no free block needs 32-bit room above heap_start |
| HeapModel.HeldThroughout | libc/stdlib/alloc.c:178-262 | In particular a block that is not given back keeps its place and its bytes |
| Bytes.LoadStored | libc/stdlib/alloc.c:193-212 | A little-endian word reads back as stored |
| Bytes.HeaderBytes | os/kernel/include/kernel/memory/memory.h:100-107 | Guard, size, prev and next are at bytes 0, 1, 5 and 9 of a header, the words least significant byte first |
| Pipe.Ring.Unread | os/kernel/fs/pipe.c:30-39 | The number of bytes in the queue, in all three positions of the cursors |
| Pipe.Ring.Available | os/kernel/fs/pipe.c:41-51 | Capacity size - 1 less the bytes in the queue |
| Pipe.Ring.Read | os/kernel/fs/pipe.c:92-110 | The first min(n, unread) bytes come out in order and leave the queue |
| Pipe.Ring.Write | os/kernel/fs/pipe.c:146-158 | The first min(n, available) bytes are appended in order |
| Pipe.Ring.ReadAndRestore | os/kernel/arch/i386/proc/proc.c:565-572 | What was read ends up behind what was not, so the contents are unchanged when the node's size covers the unread bytes |
| Fswait.Blocking.Fswait | os/kernel/arch/i386/proc/proc.c:731-748 | A ready process blocks, with the nodes it waits on; a waiting one is left alone |
| Fswait.Blocking.Block | os/kernel/arch/i386/proc/proc.c:734-747 | It leaves its ready queue and is registered on all its pipes, and the invariant of all processes is kept |
| Fswait.Blocking.Register | os/kernel/fs/pipe.c:166-191 | Each node in order is registered in the pipe's first empty slot, or in a new one |
| Fswait.Blocking.Unregister | os/kernel/fs/pipe.c:193-210 | Each node in order clears one slot of its pipe, so that none of the process's is left |
| Fswait.Blocking.Awake | os/kernel/arch/i386/proc/proc.c:750-757 | The process is in its ready queue, waits for nothing and is registered nowhere |
| Fswait.Blocking.Notify | os/kernel/arch/i386/proc/proc.c:759-772 | A process that waits on the pipe wakes with the lowest matching index in eax; any other is left alone |
| Fswait.Blocking.NotifyWaiters | os/kernel/fs/pipe.c:112-120 | Every process registered on the pipe wakes, exactly once, and nobody waits on the pipe afterwards, though the array changes under the loop |
| Fswait.Blocking.PipeWrite | os/kernel/fs/pipe.c:122-164 | A write that stores at least one byte wakes exactly the processes registered on that pipe; one that stores none changes no process |
| Fswait.Blocking.ReadyInsert | os/kernel/arch/i386/proc/proc.c:108-124 | The process takes the first hole of its group's queue or a new slot, knows its index, and ready_count grows by one |
| Fswait.Blocking.ReadyRemove | os/kernel/arch/i386/proc/proc.c:153-156 | Exactly its slot becomes a hole |
| Fswait.Blocking.WaitPid | os/kernel/arch/i386/proc/proc.c:774-788 | The caller blocks and the child is marked, if it is the caller's child |
| Fswait.Blocking.WakeParent | os/kernel/arch/i386/proc/proc.c:549-554 | The parent of an ended child is ready again exactly if it waited for that child |
| Fswait.BlockedOrReady | os/kernel/arch/i386/proc/proc.c:108-156 | In every reachable state a process blocked in fswait is in no queue and registered on each of its pipes as often as it names it; a ready one is registered on none and in exactly one slot; every ready_count is the number of occupied slots |
| Fswait.InsertedFirstHole | os/kernel/arch/i386/proc/proc.c:108-124 | A process becomes ready in the first hole of its group's queue, or in a new slot if there is none, and knows its slot |
| Fswait.WokenLowest | os/kernel/arch/i386/proc/proc.c:759-772 | A process that a write wakes is ready, waits on nothing, and has in eax the lowest index at which it had named the pipe |
| Fswait.WaiterWaits | os/kernel/fs/pipe.c:112-120 | A pipe lists a process if and only if the process waits on it |
| Scheduler.RoundRobin.GetGroup | os/kernel/arch/i386/proc/proc.c:53-73 | The nearest group of that priority with something ready, from the cursor on; a failed search leaves the cursor where it was |
| Scheduler.RoundRobin.NextSlot | os/kernel/arch/i386/proc/proc.c:85-103 | The nearest occupied slot from the group's cursor on |
| Scheduler.RoundRobin.GetReady | os/kernel/arch/i386/proc/proc.c:75-106 | One step of the two-level round robin |
| Scheduler.TurnNearest | os/kernel/arch/i386/proc/proc.c:53-82 | The group served has something ready and is of priority 1, or of priority 0 if none of priority 1 has; of its priority it is the nearest from the cursor on; nobody is served only if nothing is ready at either |
| Scheduler.StepRank | os/kernel/arch/i386/proc/proc.c:75-106 | Every call that does not serve a given ready process brings its turn nearer |
| Scheduler.Fair | os/kernel/arch/i386/proc/proc.c:53-106 | With a fixed ready set every ready process of the highest level is returned within groups_size * queue_size calls |
| Wakeups.SoundTable | os/kernel/arch/i386/proc/proc.c:53-124 | In every state the blocking protocol reaches, the scheduler's table has right counts and cursors |
| Wakeups.WokenServed | os/kernel/arch/i386/proc/proc.c:53-124 | After a write to a pipe get_ready returns every process that waited on it within groups_size * queue_size calls, if its group is of the highest level with anything ready and nothing else changes |
| Modules.DepsBlock | os/kernel/module/module.c:53-76 | The text between commas k and k + 1, or the whole text if there are not so many |
| Modules.BlockRoundTrip | os/kernel/module/module.c:53-76 | Names written with a leading and a trailing comma are read back one by one |
| Modules.BlockBare | os/kernel/module/module.c:53-76 | Without the outer commas only a single name is read back: with several a block is the next name or the whole text |
| Modules.Loader.IsLoaded | os/kernel/module/module.c:148-157 | True exactly if a loaded module has that name |
| Modules.Loader.CheckDependencies | os/kernel/module/module.c:159-167 | True exactly if every named dependency is loaded |
| Modules.Loader.TryDelayed | os/kernel/module/module.c:170-186 | A pass that loads nothing leaves no delayed module with all its dependencies loaded; one that loads something leaves fewer delayed |
| Modules.Loader.TryReload | os/kernel/module/module.c:169-190 | The recursion ends, by the number of delayed modules, and no delayed module is left that could be loaded |
| Modules.Loader.ModuleLoad | os/kernel/module/module.c:109-134 | It returns 1 exactly if the module can be loaded at once, and leaves nothing that could be loaded |
| Modules.Loader.LoadAll | os/kernel/module/ramdisk.c:25-36 | The same for a whole sequence of modules |
| Modules.LoadedIsLeast | os/kernel/module/module.c:109-190 | The loaded modules are the least set closed under: load succeeds and every dependency is the name of a member |
| Modules.OrderIndependent | os/kernel/module/module.c:109-190 | Which modules get loaded depends only on the set presented, not on the order |
| Modules.OrderedInClosed | os/kernel/module/module.c:109-190 | The modules in the order in which they were loaded, each after all it names, lie in every closed set |
| Division.Div64By32 | os/kernel/dev/acpica/smplos_osl.c:15-46 | Quotient and remainder of every 64-bit number by every non-zero 32-bit one; no intermediate value leaves its type |
| Division.Scale | os/kernel/dev/acpica/smplos_osl.c:30-33 | The scaled divisor is base times a power of two, and the dividend is below twice it |
| Division.Subtract | os/kernel/dev/acpica/smplos_osl.c:35-42 | The shift-and-subtract loop keeps n = res * base + rem and ends with rem below base |
| Division.ReduceHigh | os/kernel/dev/acpica/smplos_osl.c:24-28 | Taking out the high word loses nothing and leaves a quotient below 2^32 |
| Digits.PrintDigits | libc/stdio/vsprintf.c:146-324 | The digit loops of %u, %x, %p and %b write the number's digits, most significant first, and leave the rest of the buffer alone; ds is never overrun |
| Digits.WrittenValue | libc/stdio/vsprintf.c:146-324 | What is written are digits of the base, and their value is the number |
| Digits.WrittenShape | libc/stdio/vsprintf.c:11-32 | They are 0 to 9 and capitals, without leading zeros |
| Digits.WrittenLength | libc/stdio/vsprintf.c:150-155 | A number below base^k takes at most k digits |
| Digits.DtocDigit | libc/stdio/vsprintf.c:11-32 | strtoul reads back every digit that dtoc writes |
| Digits.Strtoul | libc/stdlib/strtoul.c:10-61 | Value and end of the number in any string and base, 1 and bases above 36 included: the value of the digits, ULONG_MAX if they exceed it, negated modulo 2^32 after a minus; the end is 0 without digits |
| Reading.StrtoulReads | libc/stdlib/strtoul.c:10-61 | By the parts of a text: white space, a sign, 0x where the base allows it, digits, 0 to 9 and letters of either case, and a rest. The value is the sum of the digits weighted by powers of the base, 16 after the prefix, 8 after a leading 0 if the base is open, 2^32 - 1 if it exceeds that, negated modulo 2^32 after a minus; the end is behind the digits, or 0 without any |
| Digits.Accumulate | libc/stdlib/strtoul.c:34-60 | The loop computes the value of the maximal run of digits, saturated |
| Digits.Overflow | libc/stdlib/strtoul.c:45 | The test with cutoff and cutlim is exactly the test for exceeding ULONG_MAX |
| Digits.StandardExceptBarePrefix | libc/stdlib/strtoul.c:26-31 | It agrees with section 7.20.1.4 of ISO C99 exactly except on an 0x that no hexadecimal digit follows |
| Digits.PlainRoundTrip | libc/stdlib/strtoul.c:10-61 | strtoul after %u, %x or %b is the identity on 32-bit numbers |
| Digits.PointerRoundTrip | libc/stdio/vsprintf.c:293-310 | strtoul after %p is the identity, in base 16 or with the base left open |
| Digits.PrintAndParse | libc/stdio/vsprintf.c:146-324 | The composition for %u, %x and %b, through a zeroed buffer |
| Digits.PrintPointerAndParse | libc/stdio/vsprintf.c:293-310 | The same for %p, whose digits follow 0x in the buffer |
| Line.Canvas.Line | libs/fb/fb.c:106-135 | The pixels drawn, in order, are those of the closed formula; nothing is drawn if x0 > x1; no int overflows as long as the largest error term and the last row are ints |
| Line.Canvas.Slope | libs/fb/fb.c:127-134 | One pixel per column, at floor(k * (dy + 1) / (dx + 1)) rows, or at k rows on a steep line |
| Line.Canvas.Column | libs/fb/fb.c:107-114 | The vertical line from y0 up to y1 |
| Line.LineShape | libs/fb/fb.c:106-135 | One pixel per column; it starts at (x0, y0), never moves more than a row at a time, and ends at (x1, y1) if and only if it is no taller than wide |
| Line.LineClose | libs/fb/fb.c:127-134 | A line no taller than wide is drawn less than one row off the exact line in every column |
| Line.LineRow | libs/fb/fb.c:116-134 | The row of column k is floor(k * (dy + 1) / (dx + 1)) rows towards y1, or k rows on a steep line |
| Line.ColumnShape | libs/fb/fb.c:107-114 | A vertical line has one pixel in every row from y0 up to y1, none if y1 is above; from right to left nothing is drawn |
| Fat.ReadCluster | os/modules/ramdisk_modules/fat/main.c:159-169 | Byte k of the buffer is byte k mod n of sector reserved + FATs * FAT size + the root directory's sectors + (cluster - 2) * sectors per cluster + k / n, modulo 2^32, for n bytes to a sector |
| Fat.DataByte | os/modules/ramdisk_modules/fat/main.c:160-165 | The same by sector and byte, where the root directory's sectors are the fewest that hold its entries of 32 bytes |
| Fat.NextCluster | os/modules/ramdisk_modules/fat/main.c:170-180 | The number that the table has for the cluster, in the low 28 bits of the four bytes from byte 4 * cluster behind the reserved sectors on, least significant first and with any top four bits, is the result, but 0 for the bad-cluster mark and the end marks; a result other than 0 is what the table has |
| Fat.Seek | os/modules/ramdisk_modules/fat/main.c:324-328 | The cluster that the offset falls in; the loop ends on cyclic chains too |
| Fat.FatRead | os/modules/ramdisk_modules/fat/main.c:318-356 | On a file whose chain covers it, a request in the first cluster or inside one cluster gets exactly the file's bytes at its offset, from the sectors of the chain's clusters, which are written out. In general the buffer keeps what it had if the request is refused or the chain does not reach the offset, and the result is 0; otherwise it gets the file's bytes from Start on, all of them or, if offset + size wraps in 64 bits and so passes the size check, those of the clusters that lie in the file; and the result is the size, or for a request that spans clusters what of it lies in its last cluster |
| Fat.ReadAcross | os/modules/ramdisk_modules/fat/main.c:338-351 | A request that spans clusters fills the buffer from the reduced offset on, cluster by cluster as far as the inner reads are let through; what is left for the last one is returned |
| Fat.RefusedExactly | os/modules/ramdisk_modules/fat/main.c:322-330 | A request is refused exactly for a directory, if offset + size modulo 2^64 exceeds the file's size, or if the chain ends before the offset |
| Fat.AllDelivered | os/modules/ramdisk_modules/fat/main.c:322 | All of a request is delivered if it passes the size check and offset + size does not wrap |
| Fat.FilledIsSlice | os/modules/ramdisk_modules/fat/main.c:318-356 | A buffer filled from the offset asked for holds exactly the file's bytes there, if the chain covers the file |
| Fat.StartRight | os/modules/ramdisk_modules/fat/main.c:324-341 | The bytes come from the offset asked for if and only if it is in the first cluster or the request stays in one cluster |
| Fat.AcrossReadsElsewhere | os/modules/ramdisk_modules/fat/main.c:338-341 | A disk on which a spanning request past the first cluster reads other bytes than the file has there |
| AcpiMethods.Interpreter.Begin | os/kernel/dev/acpica/dispatcher/dsmethod.c:459-621 | Outcome and whole new state of a begin step, in any interleaving; the invariant is kept |
| AcpiMethods.Interpreter.Check | os/kernel/dev/acpica/dispatcher/dsmethod.c:480-550 | Limit, sync level order and wait are decided as the code does, the mutex is created on first use |
| AcpiMethods.Interpreter.Terminate | os/kernel/dev/acpica/dispatcher/dsmethod.c:886-1042 | Outcome and whole new state of a terminate step; the thread state is left at the sync level the execution started from; the invariant is kept |
| AcpiMethods.Interpreter.MarkPending | os/kernel/dev/acpica/parser/psparse.c:695-707 | Marking a method to be serialized later keeps the invariant |
| AcpiMethods.OneOwner | os/kernel/dev/acpica/dispatcher/dsmethod.c:531-587 | All active executions of a serialized method belong to one thread; AcquisitionDepth and ThreadCount both count them; the OS mutex is held exactly while there are any |
| AcpiMethods.BeginOutcome | os/kernel/dev/acpica/dispatcher/dsmethod.c:480-587 | What a call gets, by who executes the method: the limit exactly at 255 executions; an order error exactly if it is serialized, called from another method and of a lower sync level, which it does not ignore; otherwise it blocks exactly if it is serialized and another thread executes it |
| AcpiMethods.RecursionNeverWaits | os/kernel/dev/acpica/dispatcher/dsmethod.c:531-537 | A thread that executes a serialized method is not blocked when it calls it again |
| AcpiMethods.BeginEffect | os/kernel/dev/acpica/dispatcher/dsmethod.c:531-610 | The first execution takes the mutex, remembers the level it came from and gets the owner id; the others only count |
| AcpiMethods.EndEffect | os/kernel/dev/acpica/dispatcher/dsmethod.c:946-1036 | The last execution frees mutex and owner id, and makes a pending method serialized at level 0, which is ignored; the others only count |
| AcpiMethods.LevelRestored | os/kernel/dev/acpica/dispatcher/dsmethod.c:946-960 | Every return puts CurrentSyncLevel back to its value before the call, as long as no AML mutex is acquired in between; after a top-level one that is the level the thread state was created with |
| AcpiMethods.HeldBelowLevel | os/kernel/dev/acpica/dispatcher/dsmethod.c:517-529 | A thread's sync level is no lower than that of any method it executes under its mutex, methods made serialized at run time apart, whose level the code ignores |
| AcpiMethods.DeadlockNeedsEqualLevels | os/kernel/dev/acpica/dispatcher/dsmethod.c:506-529 | The sync level rule leaves only one kind of deadlock: in a circle of threads waiting for each other's methods, none of them made serialized at run time, all sync levels are equal |
| AcpiMethods.BeginSound | os/kernel/dev/acpica/dispatcher/dsmethod.c:531-610 | A successful begin keeps the invariant of all methods and threads |
| AcpiMethods.EndSound | os/kernel/dev/acpica/dispatcher/dsmethod.c:946-1036 | So does a terminate, the change to serialized included |
| ResultStack.Results.Push | os/kernel/dev/acpica/dispatcher/dswstate.c:267-329 | A non-null object is appended; null keeps the objects but leaves an empty frame exactly when the last frame was full; overflow exactly at 248 objects |
| ResultStack.Results.Pop | os/kernel/dev/acpica/dispatcher/dswstate.c:185-251 | The last object comes off, and its frame with its last object; on an empty frame an object is lost instead |
| ResultStack.Results.PushPop | os/kernel/dev/acpica/dispatcher/dswstate.c:185-329 | A pop after a push gives the object back and restores every field, across frame boundaries |
| ResultStack.LayoutPush | os/kernel/dev/acpica/dispatcher/dswstate.c:313-317 | One more object fills the next cell of the last frame or the first of a new one: frames = ceil(count / 8) |
| ResultStack.LayoutPop | os/kernel/dev/acpica/dispatcher/dswstate.c:220-243 | Clearing the last object's cell, and dropping its frame if it was the first, is the inverse |

## Left out

- Page-table assumption: a frame taken for a directory or a table is zero-filled. The code does not clear it; `PageTables.MapRefinesUpdate` says exactly when that matters.
- Paging.Machine: accessed and dirty flags set in the middle of a call; between calls they are steps of their own (Paging.Machine.Touch).
- Large pages, permission bits and page faults; the two pages kvalloc hands out in copy_page_directory are arguments, and memcpy is word by word.
- Paging.Machine.Kpfree: requires room on the frame stack for what it gives back; and the case that the page is the directory's own and the last of its table, where the code faults when it clears the slot through the pointer it has just cut.
- Paging.Machine.KpfreeVirtual: the same room and the same fault.
- Paging.Machine.SetPageDirectory: pointers that the space in force does not map: reading the entry through them faults.
- Paging.Machine.Virtual2Physical: tables that are there in the space the pointer leads to but not in the one in force, where the second read faults.
- PagingRuns.RunKeepsGood: calls on pages of slot 1023, the window itself, and mappings that are not present.
- Pmm.FrameStack.Push: at index 0 the decrement wraps and the store goes outside the stack; `FrameAccounting.FramesInUse` shows that no run of the callers gets there.
- Pmm.FrameStack.Init: regions of the memory map that reach above 4 GiB, whose frame numbers the code would truncate, and regions longer than 2 GiB, for which its loop counter, an int, is too short.
- copy_region, kralloc, process_open_shmem, sys_sbrk, the DMA stack and the statistics counters.
- UserHeap.Heap.Malloc: requires that the addresses of a new block, if one is needed, do not wrap 32 bits; sbrk itself, which maps the pages, is left out, and so is the lock around the calls.
- UserHeap.Heap.MemCheck: heaps whose stored sizes are corrupt, where the walk by sizes need not stay on blocks, nor end.
- UserHeap.Heap.Free: only for null and pointers malloc has returned; UserHeap.Heap.Realloc only for live ones.
- kheap.c: the same splitting code, but kfree returns at once, so that only its bump allocation runs.
- PIPE_IOCTL_RESIZE and PIPE_IOCTL_CLEAR, pipe creation with size 0, spinlocks: reads and writes of a pipe are atomic steps.
- Signals: waking a process that is blocked in fswait by a signal leaves its registrations in place and breaks the invariant, so signal steps are excluded.
- The sleep queue, process exit and killing, group removal (a group table that only grows), child counts in waitpid, and the context switch.
- Fswait.Blocking.Fswait: nodes that validate refuses are skipped as in the code, but pipes must exist.
- Modules.Loader.ModuleLoad: ELF loading, names longer than 31 bytes and load functions that load modules themselves; at most 128 modules, since neither the array nor the 8-bit counters reach further.
- Digits.Strtoul: negative bases; errno.
- The %d, %c, %s and %e conversions of vsprintf and its format scan.
- Line.Canvas.Line: lines on which an int overflows, which C leaves undefined; clipping and colours in fb_pixel.
- FAT names, directories and mounting; devices whose reads fail.
- AcpiMethods.Interpreter.Begin: allocation failures and error paths, module-level methods, thread id 0, and a top-level evaluation started by a thread inside another one; the OS mutex is abstract.
- AcpiMethods.LevelRestored: AML Acquire and Release (exmutex.c:411-412 and :612), which also move CurrentSyncLevel, are no steps of the model.
- AcpiMethods.DeadlockNeedsEqualLevels: circles through methods made serialized at run time, for which the code ignores the level.
- ResultStack.Results.Push: failing allocation of a frame; reference counts of the objects.
- Other ACPICA code, other drivers, the compositor, the shell and libc wrappers.

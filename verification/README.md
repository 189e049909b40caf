# Machine-checked models of the kernel's core

This directory holds Dafny 4.11 models of the parts of the kernel where a mistake corrupts
memory, loses a task or draws the wrong picture, and proofs about them. `dafny verify
dfyconfig.toml` checks everything. Nothing here is executed; each model follows the C code's
branches, constants and error returns.

How the files fit together:

- **Frames and page tables.** `Frames` is the physical frame pool (`pmm.c`): bitmap, free stack
  and reference counts as arrays changed in place, tied to a pair (free list, counts) and to its
  safety over every sequence of calls. `PageTables` is the four-level tree (`vmm.c`) and its
  refinement of a flat map from pages to (frame, flags); `RangeMapping` is the 2 MiB/4 KiB range
  loop and `RangeFrames` the number of frames it needs; `TableRace` is the optimistic table
  installation under every interleaving of CPUs.
- **Copy-on-write fork.** `FrameGraph` is the bookkeeping the C code keeps only implicitly: which
  table or leaf names which frame. `CopyOnWrite` holds clone, destroy, the write-fault handler and
  stores. `CowSteps`, `CloneProof`, `DestroyProof`, `FaultProof` and `FreshPage` prove each operation,
  and `PageFlags` says which flag bits of which pages a fork and a write fault change.
  `ForkRefinement` proves the main theorem: every run of spawn, grow, fork, write, read and exit
  that does not run out of frames produces exactly the outputs of a kernel that copies every page at
  fork, with counts equal to names in every state; and it marks the edge of that isolation, top-level
  slot 0, which all spaces share. `Mmu` is the same code as loops over memory changed in place.
- **Heap.** `HeapBlocks` is the block list (`kmalloc.c`) with its canonical form; `Heap` is the linked
  list of headers changed in place.
- **Scheduler.** `Scheduling` is the run-queue state machine (`task.c`) with conservation and bounded
  waiting; `Scheduler` is the linked queues changed in place.
- **Archive and files.** `Archive` is the ustar layout and its scans (`tar.c`); `BlockVfs` is the
  descriptor table, the sector loops and the sector cache (`vfs.c`, `tar.c`).
- **Windows.** `Painting` and `DeskRules` say what the desktop should look like and how each operation
  changes it; `Screen`, `WindowDrawing` and `Desktop` are the drawing loops, the dirty list and the
  mouse (`graphics.c`, `window.c`), where the incremental repaint equals a full one: after every turn
  of the main loop from window_init on, and between the two locked sections of a repaint as well.
  `WindowLifetime` and `WindowHolds` are reference counts under interleaved snapshots and destruction.
- **ELF and checksums.** `ElfImage` and `ElfLoader` are both loaders (`elf.c`, `core/elf.c`) against
  the image the program headers describe, and `ElfTables` loads it over the page tables of the fork
  model, so that a loaded process is one the main theorem speaks about; `Checksums` is the Internet
  checksum and its uses (`net.c`).

Operations that change state in the C code are methods on classes; each `ensures` equates the new
state with a function of the old one, and the theorems are proved about those functions.

Where the code does not do what it or its headers promise, the model keeps the code's behaviour, and a
lemma says exactly when the promise holds:

- `vmm_get_phys` returns the page offset, not 0, for an unmapped address whose page table exists and
  which is not page-aligned (`PageTables.UnmappedPhys`, with an instance in `PageTables.UnmappedExample`).
- A 4 KiB `vmm_map` that meets a 2 MiB page maps nothing and writes its entry into the big page's memory
  (`PageTables.MapIntoHuge`); `PageTables.MapTakesEffect` is the exact condition.
- A free frame keeps count 0 along a run exactly when `pmm_ref_inc` is never applied to a free frame
  (`Frames.FreeFramesStayZero`, with an instance in `Frames.CountedWhileFree`).
- One free frame is not enough to create one table: of the CPUs racing for a missing table one can fail
  exactly when there are fewer free frames than CPUs (`TableRace.NoFailures`).
- Rounding a heap request wraps to 0 within seven bytes of the 64-bit limit, and the request succeeds with
  an empty block (`HeapBlocks.RequestHonoured`, with an instance in `HeapBlocks.RequestExample`).
- Eleven octal digits hold more than a 32-bit size (`Archive.OctalRoundTrip`).
- `vfs_write` cuts a write off at the end of the file exactly when offset plus count does not wrap
  (`BlockVfs.ClampIsExact`, with an instance in `BlockVfs.ClampExample`).
- A full dirty list keeps one merged rectangle and forgets the rest, which loses pixels exactly when a
  queued rectangle sticks out of the merged one (`Painting.OverflowForgets`, `Painting.OverflowLoses`, with
  an instance in `Painting.OverflowExample`).
- The rectangle queued for a window is too small for windows lower than twenty pixels
  (`Painting.OuterRectSuffices`).
- A seventeenth window silently pushes the sixteenth off the screen (`DeskRules.SeventeenthWindow`, with an
  instance in `DeskRules.SeventeenthExample`).
- An arrow drawn before the first mouse report stays behind exactly where one of its pixels is on the
  screen, not queued and over something not white (`DeskRules.ArrowLeftBehind`, with an instance in
  `DeskRules.FirstReportLeavesArrow`). The main loop takes a report before it draws, and so never leaves
  one (`WindowManager.Desktop.Turn`, `WindowManager.MainLoop`).
- The calls that take a window's address do not count as holders: such an address goes bad exactly when the
  window is unlinked and held by nobody (`WindowLifetime.StaleAddress`, with an instance in
  `WindowLifetime.StaleExample`).
- The built ELF loader loses bytes when segments share a page (`ElfImage.SharingLosesBytes`, with an
  instance in `ElfImage.SharingExample`), and both loaders let a file size above the memory size spill
  over (`ElfImage.TailCondition`).
- Fork isolation ends at top-level slot 0, where every process reads what any other writes
  (`ForkRefinement.SlotZeroIsShared`, against `ForkRefinement.UserStoreIsPrivate`).
- The 32-bit checksum accumulator is exact up to 131074 bytes (`Checksums.ThirtyTwoBitsSuffice`).

## Model

| member | source | states |
|---|---|---|
| Frames.PoolSafety | src/kernel/pmm.c:103-147 | after any sequence of alloc, free and ref_inc, however ill-matched, every free frame is on the stack once, and the stack never exceeds MAX_FRAMES |
| Frames.HandedOutOnce | src/kernel/pmm.c:103-138 | a frame in use is not handed out again by any sequence of calls that never frees it |
| Frames.FreeFramesStayZero | src/kernel/pmm.c:103-147 | along a run free frames keep count 0 if and only if no ref_inc is applied to a frame that is free at the time |
| Frames.CountedWhileFree | src/kernel/pmm.c:140-147 | a ref_inc of frame 7 alone on the stack leaves it there with count 1 |
| Frames.ReservedStayOut | src/kernel/pmm.c:103-147 | a reserved frame (not free, count 0) never enters the pool, even if freed by mistake, unless someone counts it first |
| Frames.LastFreedFirst | src/kernel/pmm.c:103-138 | the frame freed last is handed out first, and handing out and freeing restores the stack; allocation fails exactly on an empty stack |
| Frames.FramePool.BuildStack | src/kernel/pmm.c:84-90 | a frame is on the stack exactly when its bitmap bit is clear, in ascending order, for any bitmap |
| Frames.FramePool.AllocFrame | src/kernel/pmm.c:103-115 | pops one frame, sets its bit and its count to 1; fails exactly on an empty stack |
| Frames.FramePool.FreeFrame | src/kernel/pmm.c:117-138 | counts down, and pushes the frame and clears its bit exactly when the last name goes |
| Frames.FramePool.IncRef | src/kernel/pmm.c:140-147 | counts one more name of a frame in range |
| Frames.FramePool.GetRef | src/kernel/pmm.c:149-155 | reads the count, 0 outside the range |
| PageTables.PathSpellsPage | src/kernel/vmm.c:7-10 | the four index fields spell the page number of a 48-bit address |
| PageTables.PageDeterminesPath | src/kernel/vmm.c:7-10 | two index paths are equal exactly when they spell the same page |
| PageTables.MapUpdates | src/kernel/vmm.c:171-191 | vmm_map updates exactly the pages its entry covers, 4 KiB or 2 MiB, in exactly the given space, and nothing else; it does nothing visible exactly when frames run out (a 4 KiB map into a 2 MiB slot: see the next two) |
| PageTables.MapIntoHuge | src/kernel/vmm.c:171-191 | a 4 KiB vmm_map into a slot holding a 2 MiB page writes its entry into that page's frame and changes no mapping of any space |
| PageTables.MapTakesEffect | src/kernel/vmm.c:171-191 | a 4 KiB vmm_map takes effect if and only if no 2 MiB page is in the way and there is a frame for every missing table |
| PageTables.UnmapRemoves | src/kernel/vmm.c:206-226 | vmm_unmap removes exactly the page, or the whole 2 MiB page, and no other mapping of any space |
| PageTables.LookupsReadFlatMap | src/kernel/vmm.c:244-276 | vmm_get_flags and vmm_get_phys agree with the flat map for every address, both page sizes |
| PageTables.UnmappedPhys | src/kernel/vmm.c:244-259 | for an unmapped address 0 is returned if and only if the page table is missing or the address is page-aligned |
| PageTables.UnmappedExample | src/kernel/vmm.c:258 | address 5 with an empty page table: 5 is returned |
| PageTables.EnsureNextKeeps | src/kernel/vmm.c:57-79 | installing a missing table keeps the tree well formed and every lookup the same, under an entry that is present, writable and user with no other bit set |
| PageTables.RightsAreFlags | src/kernel/vmm.c:57-79 | where the links grant writing and user access, what the processor grants at a page (every level of the walk granting it) is what the flags of its mapping say |
| PageTables.MapRights | src/kernel/vmm.c:171-191 | vmm_map gives exactly the pages its entry covers the rights of its flags and changes the rights of no other page of any space; the links it makes grant both |
| RangeFrames.RangeIsExact | src/kernel/vmm.c:193-204 | with a free frame for every table missing before the call, every byte of the range translates to the physical base plus its offset with the given flags, however page sizes are mixed, and no other page of any space changes |
| RangeFrames.FramesDecide | src/kernel/vmm.c:193-204 | the loop finds every frame it needs if and only if the tables missing before it starts are no more than the free frames |
| RangeMapping.RangeUpdates | src/kernel/vmm.c:193-204 | whatever frames there are: a page of the range gets its entry if and only if the step that covers it finds its frames, and keeps its old mapping otherwise; no other page of any space changes |
| TableRace.RaceSafe | src/kernel/vmm.c:57-79 | in every interleaving all successful callers return the one installed table, which is the one that was there, or a cleared frame of the pool under an entry that is present, writable and user; from the state in which it is installed it is never replaced; and all frames but that table's return to the pool |
| TableRace.NoFailures | src/kernel/vmm.c:57-79 | no caller fails in any interleaving if and only if the table was there already or there is a free frame for every CPU |
| TableRace.FailsOnEmptyPool | src/kernel/vmm.c:43-50 | a step makes a call fail exactly when it asks an empty pool |
| TableRace.FourTurns | src/kernel/vmm.c:57-79 | every caller returns after four of its own steps, whatever the others do |
| CloneProof.CloneCorrect | src/kernel/vmm.c:81-141 | clone succeeds if and only if there is one free frame for the root and one for each table of the source; then the child sees exactly the parent's pages, every space keeps what it saw, and the invariant holds |
| DestroyProof.DestroyCorrect | src/kernel/vmm.c:143-169 | destroying a space drops exactly its own tables and names, keeps every other space, writes no memory, and keeps counts equal to names |
| FaultProof.FaultCorrect | src/kernel/idt.c:136-162 | a write fault is resolved exactly when the page is copy-on-write and a frame is there if one is needed; afterwards the leaf is writable and no longer copy-on-write, every page of every space reads the same with the same access, and counts equal names |
| FaultProof.StoreCorrect | src/kernel/idt.c:136-162 | a user store, allowed by the rights of every level of the walk, faults included, changes exactly one byte of one page of one space; it kills exactly on pages user code may not write, and then nobody sees a change |
| PageFlags.CloneFlags | src/kernel/vmm.c:81-141 | after a fork every user page of the source has, in source and clone, lost PAGE_WRITABLE, gained PAGE_COW if it was writable, and kept every other bit; the flags of every other space are as before |
| PageFlags.FaultFlags | src/kernel/idt.c:136-162 | a resolved write fault changes PAGE_COW and PAGE_WRITABLE of its page and no other flag bit of any page of any space |
| FreshPage.FreshCorrect | src/kernel/elf.c:35-38 | mapping a fresh zeroed frame adds exactly that page to that space, on a frame with no other name |
| FrameGraph.CountFits | src/kernel/pmm.c:140-147 | the number of names of a frame always fits the 32-bit counter |
| ForkRefinement.CopyOnWriteRefinesEagerCopy | src/kernel/vmm.c:81-169 | over every run, on any number of processes, that does not run out of frames, the outputs (loads and stores checked against the rights of every level of the walk) equal those of a kernel whose fork copies every page privately with its access; the invariant (counts equal names, writable leaves have one owner, table links grant user access and writing, all spaces share slot 0) holds at the end |
| ForkRefinement.RightsAreTheFlags | src/kernel/vmm.c:57-79 | after any run, what the processor grants a process at a user address is what the flags of its page say, and nothing where it has no page |
| ForkRefinement.StepAgrees | src/kernel/idt.c:136-162 | the same for one operation from any state in agreement |
| ForkRefinement.BootAgrees | src/kernel/pmm.c:84-97 | the state after boot is in agreement |
| ForkRefinement.CloneThenDestroy | src/kernel/vmm.c:81-169 | clone then destroy of the clone restores every reference count and the set of free frames, and every page |
| ForkRefinement.NothingLeaks | src/kernel/vmm.c:143-169 | when the last process is gone every managed frame is free again |
| ForkRefinement.SlotZeroIsShared | src/kernel/vmm.c:23-37 | after any run all processes have the same pages in slot 0, and each loads what any other stores there through a writable page |
| ForkRefinement.UserStoreIsPrivate | src/kernel/idt.c:136-162 | a store in slots 1 to 511, faults included, changes nothing any other process loads from them |
| MemoryManager.Mmu.EnsureNextTable | src/kernel/vmm.c:57-79 | the method computes the function of the proofs, and a new entry is the frame with PAGE_PRESENT, PAGE_WRITABLE and PAGE_USER and nothing else |
| MemoryManager.Mmu.AllocTable | src/kernel/vmm.c:43-50 | a fresh frame holds 512 zero entries |
| MemoryManager.Mmu.MapPage | src/kernel/vmm.c:171-191 | the new state is the map operation of the proofs, early returns included |
| MemoryManager.Mmu.MapRangeOf | src/kernel/vmm.c:193-204 | the loop reaches the state of the range operation |
| MemoryManager.Mmu.UnmapPage | src/kernel/vmm.c:206-226 | the new state is the unmap operation |
| MemoryManager.Mmu.GetPhysOf | src/kernel/vmm.c:244-259 | reads the address as the lookup function does |
| MemoryManager.Mmu.GetFlagsOf | src/kernel/vmm.c:261-276 | reads the flags as the lookup function does |
| MemoryManager.Mmu.CloneAddressSpace | src/kernel/vmm.c:81-141 | the nested loops reach the state of the clone operation |
| MemoryManager.Mmu.DestroyAddressSpace | src/kernel/vmm.c:143-169 | the nested loops reach the state of the destroy operation |
| MemoryManager.Mmu.HandleWriteFault | src/kernel/idt.c:136-162 | handled exactly when the fault operation resolves; the new state is its result |
| HeapBlocks.AllocEffect | src/kernel/kmalloc.c:41-76 | allocation fails exactly when no free block fits, changing nothing; otherwise exactly one live block is added, inside a free block: of the size asked for with a free block of at least 8 bytes left, or the whole free block, then less than 32 bytes larger |
| HeapBlocks.AllocAt | src/kernel/kmalloc.c:46-71 | the block taken is the first free one that is large enough |
| HeapBlocks.AllocKeeps | src/kernel/kmalloc.c:41-76 | the blocks still tile the region, 8-aligned, with no two free neighbours |
| HeapBlocks.FreeKeeps | src/kernel/kmalloc.c:78-110 | freeing removes exactly that live block, others do not move, and the canonical form is kept |
| HeapBlocks.LiveDetermines | src/kernel/kmalloc.c:96-109 | the block list is determined by the live blocks alone |
| HeapBlocks.AllocThenFree | src/kernel/kmalloc.c:41-110 | kmalloc then kfree restores the list exactly |
| HeapBlocks.FreesCommute | src/kernel/kmalloc.c:78-110 | two frees give the same list in either order |
| HeapBlocks.AllFreedIsInitial | src/kernel/kmalloc.c:29-39 | with no live block the list is the single initial block |
| HeapBlocks.HeapRun | src/kernel/kmalloc.c:41-110 | over every run the heap stays tiled and canonical, and a block not freed stays where it is |
| HeapBlocks.BlocksDisjoint | src/kernel/kmalloc.c:41-76 | payloads and headers of different blocks never overlap |
| HeapBlocks.BytesAddUp | src/kernel/kmalloc.c:112-135 | bytes used, bytes free and 24 per block add up to the region |
| HeapBlocks.RequestHonoured | src/kernel/kmalloc.c:41-44 | the block a successful kmalloc returns has at least the bytes asked for if and only if the request is not within seven bytes of the 64-bit limit |
| HeapBlocks.RequestExample | src/kernel/kmalloc.c:41-44 | on the fresh heap a request for 2^64 - 1 bytes succeeds with a block of none |
| KernelHeap.Heap.Kmalloc | src/kernel/kmalloc.c:41-76 | the list walk and split reach the allocation's block list, pointer and statistics |
| KernelHeap.Heap.Kfree | src/kernel/kmalloc.c:78-110 | marking and full coalescing reach the free operation's block list; a second free changes nothing |
| KernelHeap.Heap.GetStats | src/kernel/kmalloc.c:112-135 | free bytes and largest free block are exact, and used plus free plus headers is the heap size, so the saturating branch of kfree is dead |
| KernelHeap.Heap.constructor | src/kernel/kmalloc.c:21-39 | one free block over 16 MiB |
| Scheduling.OnePlace | src/kernel/task.c:28-55 | a live non-idle task is in exactly one queue or on exactly one CPU, the one its cpu_id names |
| Scheduling.RunInv | src/kernel/task.c:319-388 | the invariant holds over every run of schedule, create, fork, steal, exit and tick |
| Scheduling.FirstPickIsReady | src/kernel/task.c:337-388 | the first dequeued task is ready, so the pick loop ends at once and its reap branch is never taken |
| Scheduling.ExitedForGood | src/kernel/task.c:337-388 | an exited task never runs or becomes ready again |
| Scheduling.BoundedWaiting | src/kernel/task.c:319-388 | a task at position k runs within k+1 schedule calls on its CPU, whatever is created, forked or stolen |
| Scheduling.BoundedWaitingInTicks | src/kernel/task.c:441-478 | and within 4(k+1) timer ticks of that CPU |
| Scheduling.LeastLoaded | src/kernel/task.c:57-79 | a CPU with the least load, the first of them |
| Scheduling.CreatePlaces | src/kernel/task.c:112-153 | a created task is READY with a full slice at the tail of the queue of the first CPU with the fewest tasks, and nothing else changes |
| Scheduling.ForkPlaces | src/kernel/task.c:255-291 | a forked task is READY with a full slice at the tail of the forking CPU's queue |
| Scheduling.ScheduleDecides | src/kernel/task.c:319-388 | the first in line on its own CPU runs next; with nobody in line the head of the lowest-numbered other queue that is not empty does, and leaves that queue; only with all queues empty the idle task; no other queue and no other CPU's task changes |
| Scheduling.IdlesExactlyWhen | src/kernel/task.c:319-388 | a CPU idles exactly when no task is in line anywhere |
| Scheduling.ScheduleSetsTasks | src/kernel/task.c:337-388 | the next task belongs to the CPU and starts a slice of 4, the outgoing one is READY if it was running, no other task changes |
| Scheduling.SliceLasts | src/kernel/task.c:441-478 | a task keeps its CPU until the last tick of its slice, whatever happens elsewhere, unless it exits or gives way |
| Scheduling.IdleTick | src/kernel/task.c:441-478 | a tick on an idle CPU whose own queue is empty, with no reschedule asked for, changes nothing; with a task in its queue it dispatches the first |
| Scheduling.ExitAndRequest | src/kernel/task.c:337-388 | exiting marks the current task alone and the next schedule takes it off the CPU; a requested reschedule happens at the next tick |
| Scheduling.BootInv | src/kernel/task.c:81-110 | the state after per-CPU initialisation satisfies the invariant |
| SmpScheduler.Scheduler.EnqueueTask | src/kernel/task.c:28-40 | appends to the linked queue in place |
| SmpScheduler.Scheduler.DequeueTask | src/kernel/task.c:42-55 | removes the first of the linked queue in place |
| SmpScheduler.Scheduler.PickLeastLoaded | src/kernel/task.c:57-79 | the loop computes the least-loaded CPU |
| SmpScheduler.Scheduler.TaskCreate | src/kernel/task.c:112-153 | the new state is the spawn operation's |
| SmpScheduler.Scheduler.TaskFork | src/kernel/task.c:255-291 | the new state is the spawn operation's |
| SmpScheduler.Scheduler.TaskSteal | src/kernel/task.c:319-335 | takes the first task of the first non-empty queue of another CPU |
| SmpScheduler.Scheduler.TaskSchedule | src/kernel/task.c:337-388 | requeue, pick, steal and switch reach the schedule operation's state |
| SmpScheduler.Scheduler.TaskTimerTick | src/kernel/task.c:441-478 | slices count down and request a reschedule as the tick operation says |
| SmpScheduler.Scheduler.TimerInterrupt | src/kernel/idt.c:240-244 | a tick followed by a schedule when one is requested |
| Archive.OctalRoundTrip | src/kernel/tar.c:37-45 | eleven octal digits read back modulo 2^32, so exactly for 32-bit sizes |
| Archive.OctalStops | src/kernel/tar.c:37-45 | a shorter number ended by any other byte is read up to that byte |
| Archive.FindsFirst | src/kernel/tar.c:53-77 | lookup returns the first entry of the name, and fails exactly when there is none or its header lies more than 20000 sectors in |
| Archive.EnumeratesAll | src/kernel/tar.c:79-103 | index enumeration lists exactly the entries whose headers lie at most 20000 sectors in, in order |
| Archive.EncodedIsLaidOut | src/kernel/tar.c:53-103 | every list of files written as ustar entries is a well-formed archive wherever it is put |
| Archive.HeaderReadsBack | src/kernel/tar.c:37-77 | name and size of an encoded header read back |
| Archive.WriteOneFile | src/kernel/vfs.c:87-122 | writing inside one file's data changes that file and no other file or header |
| BlockVfs.ClampIsExact | src/kernel/vfs.c:97 | the write is cut at the end of the file if and only if offset plus count does not wrap |
| BlockVfs.ClampExample | src/kernel/vfs.c:97 | at offset 16 of a 20-byte file 2^32 - 8 bytes are not cut off |
| BlockVfs.Vfs.CachedRead | src/kernel/tar.c:17-27 | returns the disk's sector; the cache always agrees with the disk |
| BlockVfs.Vfs.CachedWrite | src/kernel/tar.c:29-35 | changes exactly one sector, and the cache agrees |
| BlockVfs.Vfs.OctalToInt | src/kernel/tar.c:37-45 | the loop computes the 32-bit octal value |
| BlockVfs.Vfs.TarFindFile | src/kernel/tar.c:53-77 | the scan terminates and computes the lookup |
| BlockVfs.Vfs.TarGetFileByIndex | src/kernel/tar.c:79-103 | returns the name of the indexed file exactly when there is one |
| BlockVfs.Vfs.Open | src/kernel/vfs.c:22-43 | opens the first file of the name at offset 0 in the lowest free descriptor; fails exactly when there is no such file or no free descriptor |
| BlockVfs.Vfs.Read | src/kernel/vfs.c:45-85 | returns exactly the clamped range of its file and advances |
| BlockVfs.Vfs.Write | src/kernel/vfs.c:87-122 | replaces exactly the clamped range of its file; every other file, header and descriptor is unchanged |
| BlockVfs.Vfs.Close | src/kernel/vfs.c:131-137 | frees one descriptor only |
| BlockVfs.Vfs.LoadFile | src/kernel/vfs.c:22-85 | open, size and read give exactly the file's bytes |
| Painting.Intersect | src/kernel/window.c:57-70 | exactly the common pixels, and none exactly when there are none |
| Painting.Union | src/kernel/window.c:49-55 | covers both rectangles |
| Painting.UnionIsSmallest | src/kernel/window.c:49-55 | no smaller rectangle covers both |
| Painting.WindowIsItsLayers | src/kernel/window.c:226-239 | the pixel of a window is what filling its seven rectangles in drawing order leaves there |
| Painting.BodyShowsRows | src/kernel/window.c:197-224 | the body shows the buffer row by row, width pixels to a row |
| Painting.ArrowShape | src/kernel/graphics.c:182-190 | the arrow has fifteen rows of 1, 1, 2, 2, .. 7, 7, 8 pixels |
| Painting.QueueCovers | src/kernel/window.c:164-183 | without overflow, every queued pixel stays covered and the new rectangle's on-screen part is covered |
| Painting.OverflowForgets | src/kernel/window.c:181-182 | on overflow one rectangle remains, and the pixels forgotten are exactly the covered ones outside it |
| Painting.OverflowLoses | src/kernel/window.c:181-182 | an overflow loses a queued pixel if and only if a queued rectangle that is not empty does not lie inside the union of the first with the new one |
| Painting.OverflowExample | src/kernel/window.c:181-182 | 32 separate dots and one more: a pixel is forgotten |
| Painting.OuterRectSuffices | src/kernel/window.c:72-77 | the queued rectangle covers all a window paints if and only if it is at least 1 wide and 20 high, or empty |
| DeskRules.RoomEnough | src/kernel/window.c:164-183 | no overflow while there is room for every new rectangle |
| DeskRules.UpdateFits | src/kernel/window.c:424-550 | one mouse update never overflows a list of at most 27 |
| DeskRules.SeventeenthWindow | src/kernel/window.c:572 | what one window more than sixteen makes stale, exactly |
| DeskRules.SeventeenthExample | src/kernel/window.c:572 | fifteen windows at the origin, one at (100, 100) and a new one: the pixel at (100, 100) changes outside the new window |
| DeskRules.DestroyConfined | src/kernel/window.c:394-422 | outside the rectangles queued for destroyed windows the scene is unchanged |
| DeskRules.MouseConfined | src/kernel/window.c:481-523 | outside the rectangles queued for a press or drag the scene is unchanged |
| DeskRules.MouseKeepsDesk | src/kernel/window.c:481-523 | the dragged window is always in the list, ids stay distinct, no window is lost |
| DeskRules.MouseOnlyMoves | src/kernel/window.c:481-523 | the mouse changes windows only in position and order |
| DeskRules.DragFollows | src/kernel/window.c:481-518 | press on the title strip of the front-most window under the mouse and any held moves: the window comes to the front and follows the mouse exactly, others keep their order |
| DeskRules.GestureEnds | src/kernel/window.c:481-523 | press, held moves, release and any reports with the button up: the window stays where the last held report put it, nothing is held, and a later press on no title strip changes nothing |
| DeskRules.UpMovesNothing | src/kernel/window.c:521-523 | over any reports with the button up no window moves and nothing is held |
| DeskRules.PressElsewhere | src/kernel/window.c:481-505 | a press that is not on the title strip of the front-most window under the mouse changes nothing |
| DeskRules.WriteRegionChangesInside | src/kernel/window.c:302-312 | a change of some columns and rows of the buffer changes the window only inside the rectangle marked for them |
| DeskRules.UpdateExplained | src/kernel/window.c:424-550 | every pixel a mouse update changes is dirty afterwards, unless the list overflows or the first report finds an arrow pixel on the screen, not queued and not over white |
| DeskRules.ArrowLeftBehind | src/kernel/window.c:447-479 | for any windows and any dirty list that covers the new arrow, an arrow drawn before is left behind if and only if one of its pixels is on the screen, not dirty and not over white |
| DeskRules.FirstUpdateEscapes | src/kernel/window.c:424-550 | without overflow, the first report leaves some pixel of the screen wrong and not dirty if and only if that condition holds |
| DeskRules.UpdateNeverEscapes | src/kernel/window.c:424-550 | with at most 27 rectangles waiting, and the first arrow still waiting to be drawn, an update loses nothing |
| DeskRules.FirstReportLeavesArrow | src/kernel/window.c:447-479 | an instance: on a painted empty desktop the first report leaves an arrow pixel exposed if and only if the mouse is not in the corner |
| GraphicsScreen.Screen.ClipRect | src/kernel/graphics.c:14-27 | exactly the on-screen part, and failure exactly when there is none |
| GraphicsScreen.Screen.PutPixel | src/kernel/graphics.c:176-180 | exactly one pixel, none off the screen |
| GraphicsScreen.Screen.ClearRect | src/kernel/graphics.c:200-213 | exactly the pixels of the rectangle |
| GraphicsScreen.Screen.DrawRect | src/kernel/graphics.c:215-223 | exactly the pixels of the rectangle |
| GraphicsScreen.Screen.DrawCursor | src/kernel/graphics.c:182-190 | exactly the pixels of the arrow |
| GraphicsScreen.Screen.SwapRects | src/kernel/graphics.c:160-174 | exactly the pixels of the rectangles become visible |
| WindowDrawing.DrawRectClipped | src/kernel/window.c:185-195 | exactly the common pixels of clip and target |
| WindowDrawing.DrawBufferClipped | src/kernel/window.c:197-224 | each body pixel inside the clip gets its buffer pixel, or the background |
| WindowDrawing.DrawWindowClipped | src/kernel/window.c:226-239 | each pixel of the window inside the clip: border over title over body over shadow |
| WindowDrawing.RedrawRect | src/kernel/window.c:577-583 | a dirty rectangle shows the back-to-front repaint of all windows, and nothing outside it changes |
| WindowDrawing.Repaint | src/kernel/window.c:577-591 | every dirty pixel shows the full scene with the arrow; others change only to the arrow's white |
| WindowManager.Desktop.QueueDirty | src/kernel/window.c:164-183 | the loop computes the queue operation, and records an overflow exactly |
| WindowManager.Desktop.CreateWindow | src/kernel/window.c:269-292 | the window is first in the list and its frame dirty; every pixel not dirty still shows the scene |
| WindowManager.Desktop.SetOwner | src/kernel/window.c:342-350 | only the owner changes |
| WindowManager.Desktop.SetBuffer | src/kernel/window.c:352-362 | only that window's buffer changes and its frame is dirty |
| WindowManager.Desktop.WriteRegion | src/kernel/window.c:302-312 | a client drawing inside a region it marks dirty keeps the screen explained |
| WindowManager.Desktop.DestroyByPid | src/kernel/window.c:394-422 | exactly the process's windows go, their frames are dirty, and a drag of one of them ends |
| WindowManager.Desktop.FindWindowHit | src/kernel/window.c:132-162 | the front-most window under the mouse |
| WindowManager.Desktop.WindowUpdate | src/kernel/window.c:424-550 | windows, drag and cursor change as the mouse rules say, exactly those rectangles are queued, nothing happens only when position and all buttons are as before with no drag, and a pixel not dirty still shows the scene |
| WindowManager.Desktop.DrawAll | src/kernel/window.c:552-597 | every dirty pixel shows the scene on both buffers, no other becomes visible, and unless a loss is on record the whole screen equals a full repaint |
| WindowManager.Desktop.BeginDraw | src/kernel/window.c:552-575 | the first locked section takes the dirty list, the windows and the cursor |
| WindowManager.Desktop.FinishDraw | src/kernel/window.c:576-597 | whatever other sections ran meanwhile, what was taken then shows the snapshot on both buffers, nothing else becomes visible, and unless a loss is on record every pixel not dirty again shows the scene of now |
| WindowManager.Desktop.Turn | src/kernel/main.c:137-141 | a report and a repaint, from any desk where nothing was lost, at most 27 rectangles wait and, before the first report, the place of the arrow is still dirty: nothing is lost and the screen equals a full repaint |
| WindowManager.MainLoop | src/kernel/main.c:115-141 | from window_init and the shell's window on, after every number of turns nothing was lost and the screen equals a full repaint |
| WindowManager.OpenShell | src/kernel/main.c:118-122 | the shell's window with its buffer, while the whole screen still waits to be drawn |
| WindowLifetime.LifetimeIsSafe | src/kernel/window.c:87-130 | over every interleaving a window is freed exactly when it is unlinked and held by nobody, and stays freed |
| WindowLifetime.FreedExactlyWhen | src/kernel/window.c:98-105 | freed once, exactly when unlinked and unheld |
| WindowLifetime.NoUseAfterFree | src/kernel/window.c:107-130 | whatever is held, listed or dragged is in memory, and the last two are not destroyed |
| WindowLifetime.NothingLeaks | src/kernel/window.c:87-105 | with no snapshot outstanding, memory holds exactly the listed windows, all with count 0 |
| WindowLifetime.StaleAddress | src/kernel/window.c:325-362 | over every interleaving, an address taken while the window is listed goes bad exactly when the window is then unlinked and held by nobody, which takes a destroy in between |
| WindowLifetime.StaleExample | src/kernel/window.c:342-350 | a window created, owned and destroyed with its process: its address is bad |
| WindowLifetime.StepKeeps | src/kernel/window.c:394-549 | every locked section keeps counts equal to holders and the drag on the list |
| WindowLifetime.DestroyKeeps | src/kernel/window.c:394-422 | exactly the process's windows leave the list, snapshots keep theirs |
| WindowLifetime.CreateAndOwn | src/kernel/window.c:269-350 | a new window is first on the list under an unused id, unheld and nobody's; setting its owner changes that alone |
| WindowLifetime.ButtonKeeps | src/kernel/window.c:481-523 | press, drag and release only permute the list |
| WindowLifetime.ButtonDecides | src/kernel/window.c:481-523 | a release ends the drag, a press on a listed window's title starts one and brings it to the front, and nothing else changes anything |
| WindowLifetime.DropIsIdle | src/kernel/window.c:546-548 | the last check of window_update never fires |
| WindowHolds.WindowList.SnapshotWindowList | src/kernel/window.c:107-124 | retains the first sixteen windows, each once |
| WindowHolds.WindowList.ReleaseWindowRefs | src/kernel/window.c:98-130 | lets each go, freeing those destroyed meanwhile |
| WindowHolds.WindowList.WindowDestroyByPid | src/kernel/window.c:394-422 | the unlinking loop reaches the destroy operation's state |
| WindowHolds.WindowList.GrabWindow | src/kernel/window.c:483-500 | the splice to the front reaches the raised list |
| WindowHolds.WindowList.FinishWindowUpdate | src/kernel/window.c:475-549 | the second locked section is the step of the state machine |
| ElfImage.FreshLoadIsLast | src/kernel/elf.c:19-61 | for any headers a page is mapped exactly when a segment touches it, and shows the last such segment alone |
| ElfImage.PageDisjointLoadsExactly | src/kernel/elf.c:19-61 | page-disjoint segments, either loader: every byte is the file byte or zero, writable exactly by PF_W |
| ElfImage.SharedLoadAddsUp | src/kernel/core/elf.c:18-79 | for any headers a byte is the last file byte written there or zero; a page is writable exactly when some segment on it is |
| ElfImage.ByteDisjointLoadsExactly | src/kernel/core/elf.c:18-79 | byte-disjoint segments sharing pages: every byte of a segment is its file byte or zero, the rest of each page is zero |
| ElfImage.SharingLosesBytes | src/kernel/elf.c:33-38 | for byte-disjoint segments the built loader keeps a byte if and only if no later segment touches its page or the byte is zero |
| ElfImage.SharingExample | src/kernel/elf.c:33-38 | code and data in one page: the built loader zeroes the code's byte, the sharing loader keeps it |
| ElfImage.TailCondition | src/kernel/elf.c:52-57 | for either loader and any segment of a page-disjoint program, memory past the memory size is zero for every file if and only if the file size fits or the segment ends with its page |
| ElfLoader.Loader.CopyFileBytes | src/kernel/elf.c:41-58 | the offset and size arithmetic puts exactly the segment's file bytes of the page in place |
| ElfLoader.Loader.MapFresh | src/kernel/elf.c:34-58 | one page on a frame from the pool changes only itself |
| ElfLoader.Loader.MapShared | src/kernel/core/elf.c:32-74 | one page, reused if mapped and made writable if need be, changes only itself |
| ElfLoader.Loader.ElfLoad | src/kernel/elf.c:7-64 | the loops build the image; a wrong magic builds and takes nothing; exactly the stated number of frames is taken, one for each page of each segment, or with sharing one for each page |
| ElfLoader.Loader.LoadSegment | src/kernel/elf.c:22-59 | the page loop of one header builds its pages and takes exactly their frames |
| ElfTables.LoadShowsImage | src/kernel/elf.c:19-61 | over the page tables themselves: whenever the frames suffice, the space shows exactly the image of the program headers, every other space sees what it saw, and counts equal names |
| ElfTables.ExecAgrees | src/kernel/elf.c:7-64 | a loaded process agrees with an eager process that has the image as its pages, so every later run of forks, stores, loads and exits treats the image as private |
| Checksums.ThirtyTwoBitsSuffice | src/kernel/net.c:73-77 | the 32-bit sum of every buffer of a length is exact if and only if the length is at most 131074 |
| Checksums.Fold | src/kernel/net.c:78 | folding terminates with the one's-complement value of the sum |
| Checksums.AddWords | src/kernel/net.c:74-77 | the loop computes the 32-bit word sum |
| Checksums.NetChecksum | src/kernel/net.c:73-80 | the checksum of every buffer up to 131074 bytes |
| Checksums.ChecksExactly | src/kernel/net.c:158-161 | with the field filled in the buffer checks to zero if and only if the value is its checksum (or the other zero) |
| Checksums.ByteOrderIndependent | src/kernel/net.c:73-80 | section 2(B) of RFC 1071: the little-endian sum swapped is the network-order sum |
| Checksums.BuildIpv4 | src/kernel/net.c:148-165 | every byte of the header is as stated, the header checks to zero, and the data follows it |
| Checksums.EchoReply | src/kernel/net.c:167-179 | a reply exactly for echo requests of at least 8 bytes, equal to the request but for type and checksum, checking to zero |
| Checksums.FillTcpChecksum | src/kernel/net.c:294-318 | section 3.1 of RFC 9293: the stored word is the complement of the one's-complement sum of both addresses, the protocol 6, the length and the segment, no other byte changes, and a receiver finds zero |
| Checksums.PseudoHeaderLayout | src/kernel/net.c:295-307 | the twelve bytes of the pseudo-header by position, and what they add to the sum |

## Left out

- Frames.FramePool.BuildStack: the bitmap is an array of booleans, not bits packed into 32-bit words; parsing the multiboot memory map before it is not modelled, the bitmap is arbitrary.
- MemoryManager.Mmu.CloneAddressSpace: called with enough free frames, as the C code assumes by not checking its allocations; `CloneProof.CloneCorrect` says exactly how many are enough. Its four nested loops are one method per level.
- MemoryManager.Mmu.HandleWriteFault: called with a frame to spare, because the C code does not check for one; only the write-fault branch is modelled, not the messages or the halt.
- ForkRefinement.CopyOnWriteRefinesEagerCopy: runs end where a frame is missing, because the C code does not check its allocations there; operations on slot 0 and a fresh page over a mapped one are refused, which the C code does not do (`SlotZeroIsShared` says what slot 0 does instead, and programs linked below 512 GiB, as the shell is, live there). 2 MiB leaves are outside the invariant, because destroy has no case for them.
- ForkRefinement.StepAgrees: the same exclusions for one operation.
- CloneProof.CloneCorrect: no 2 MiB leaves in the user slots of the source.
- DestroyProof.DestroyCorrect: no 2 MiB leaves in the user slots of the space.
- FaultProof.FaultCorrect: addresses in slots 1 to 511, and no 2 MiB leaves.
- FaultProof.StoreCorrect: addresses in slots 1 to 511, and no 2 MiB leaves.
- FreshPage.FreshCorrect: the page is not mapped yet; the C code would map over it and lose the old frame.
- PageTables.MapUpdates: a 4 KiB map into a slot that holds a 2 MiB page is `MapIntoHuge` instead; what the write does to data kept in that page is not modelled byte by byte.
- PageTables.EnsureNextKeeps: the slot does not hold a 2 MiB page.
- RangeMapping.RangeUpdates: no 4 KiB step of the range meets a 2 MiB page mapped before.
- RangeFrames.RangeIsExact: no 4 KiB step of the range meets a 2 MiB page mapped before.
- Scheduling.BoundedWaiting: each locked section is one step; spin locks, interrupt flags, stack frames, register layout and the total tick counters are not modelled. Exited tasks are dropped by the scheduler and their memory is not claimed to be reclaimed.
- BlockVfs.Vfs.Write: requires that offset plus count does not wrap 32 bits; the disk never fails.
- WindowManager.Desktop.DrawAll: with nothing in between; `BeginDraw` and `FinishDraw` are its two locked sections, between which others may run, but the drawing itself is one step. Coordinates are unbounded integers, the framebuffer is indexed by row and column rather than by pitch, and both buffers are present.
- WindowManager.MainLoop: nothing but mouse reports between the turns; for windows made, drawn in or destroyed between them `WindowManager.Desktop.Turn` holds from any state in which nothing was lost and at most 27 rectangles wait.
- WindowManager.Desktop.WriteRegion: the client's own drawing into the shared buffer is one step with the call that marks it dirty, and the buffer covers the body of its window.
- WindowManager.Desktop.WindowUpdate: one atomic step; `WindowLifetime` is where its two locked sections interleave with others. Mouse events queued for clients are not modelled, nor is the branch for a dragged window already destroyed, which the invariant rules out.
- WindowHolds.WindowList.FinishWindowUpdate: windows are named by id rather than by address; positions and pixels are in the desktop model instead.
- ElfLoader.Loader.ElfLoad: program headers are given decoded, addresses do not wrap, the file ranges of mapped headers lie inside the file, and there are frames for every page taken. The page map is flat; `ElfTables` is the same loop over the page tables. Supervisor writes to read-only pages in the core loader are taken to succeed.
- Checksums.BuildIpv4: data longer than the 16-bit length field allows is excluded; Ethernet framing, ARP and the network card are not modelled.
- vmm_unmap_range: it chooses its stride from the current address space rather than from its argument, so there is no consistent behaviour to prove.
- KernelHeap.Heap.constructor: that the frames it pops are those under the heap address is not claimed, because the code does not ensure it, and popping them is left to the pool.
- ElfTables.LoadShowsImage: segments on pages of their own in slots 1 to 511, in an empty space; running out of frames, which the C code does not check for, ends the load.
- WindowLifetime.StaleAddress: what a call does with a bad address is not modelled, only when the address is bad.
- TLB flushes, CR3 loads and memory ordering on the hardware: each step sees memory as the last step left it.
- TCP and DHCP state, ext2, shell, drivers, boot code, the chatbot and the documentation site: few states or hardware effects only.

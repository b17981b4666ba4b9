# Tianole kernel: a verified model

Tianole is a small single-CPU x86_64 kernel. This project models its memory layers, its
scheduler and the queues built on it, its framebuffer console, its path walker and its terminal
in Dafny, and proves what every run of them keeps. `dafny verify dfyconfig.toml` checks all of
it.

Most components come twice: a value-level specification with theorems over all inputs, runs or
reachable states, and a class that follows the C code (same links, same loops, same error
returns) and is proved to do what the specification does.

**Memory tower.** Physical memory is an explicit map from page addresses to 512 words. `PageTree`
holds the four-level radix tree (Intel SDM Vol. 3A, section 4.5) and why writing one slot changes
one translation. `VirtualMemory.Machine` adds the free list threaded through the free pages, the
table pages, the heap's leaf pages and the pages held by callers, keeps the pool partitioned among
the four, and counts to the page what a growth of the heap takes. `HeapBlocks` and `HeapRuns` are
the heap as a list of blocks and all runs of `kmalloc` and `kfree`; `HeapLinks` ties block headers
in memory words to the list; `KernelHeap.Heap` is the C code on top of `Machine`, so every header
access goes through the page tables. `StaleHeap` reaches a growth that fails half-way. `BootPages`
is the construction of the free list from the firmware's map, and `BootHandover` shows that what
boot leaves is what `Machine` starts from.

**Concurrency core.** `Scheduler` defines each step of the scheduler as a function on a state with
run queue, wait queues, clock and thread states; a panic is a halting outcome. `SchedulerRuns`
proves the invariant over every run, `SchedulerProgress` what holds once the idle thread is up,
`ExpiredWaiters` and `UnsettledCalls` the two ways to halt, `SchedulerFairness` bounded waiting.
`KernelScheduler.Kernel` is the code with its `next` and `wait_next` links (`Links`,
`ThreadQueues`). `BlockingReaders` and `DeferredWork` are the wakeup protocols under every
interleaving; `WaitRefinement` ties them to the scheduler's wait queues, and `WaitRuns` runs them
together with it. `InterruptLocks` has the spinlocks and interrupt nesting; `Ring`,
`KernelWorkqueue`, `InputQueue` and `Ps2Keyboard` are the code on top.

**Refinements.** `TextScreen` and `Fbcon`; `PathWalk`, `Vfs` and `Ramfs`; `LineDiscipline`, `Tty`
and `Utf8`.

Results where the code and its promises part:

- `kmalloc` computes in 64-bit arithmetic. Rounding is right exactly for sizes up to 2^64 - 4128
  (`HeapBlocks.RoundingExact`). Above that and up to 2^64 - 32 the heap grows by nothing, which
  reports success (`HeapRuns.GrownByNothing`); up to 2^64 - 16 it grows by one page and the request
  is refused all the same (`HeapRuns.GrownAndRefused`), so null does not mean that growth failed
  (`HeapRuns.NullExactly`). A larger request rounds to 0 and is served by a block of fewer than 48
  bytes (`HeapRuns.HugeRequestBreaks`).
- A request that rounds exactly and needs a growth to the top of the address space is lost:
  `map_heap_range` wraps, maps nothing and reports success, and the new header is not mapped. One
  terabyte is such a request (`HeapRuns.TerabyteIsLost`). Growth backs what it adds, and keeps the
  heap's invariant, exactly when it is not empty and heap_end + bytes < 2^64
  (`KernelHeap.Heap.HeapExtend`, `HeapRuns.GrowthKeepsExactly`).
- A failed heap growth does not roll back. It is reachable (`StaleHeap.HalfFailedGrowth`), and from
  then on every growth that is not lost fails, with -EEXIST or, when no page is free, -ENOMEM
  (`KernelHeap.Heap.HeapExtend`), in every run (`HeapRuns.StaleForGood`). Otherwise growth succeeds
  exactly when the free pages suffice for the new pages and the tables missing on the way to them
  (`VirtualMemory.Machine.MapHeapRange`).
- Adding physical page 0 to the free list loses every page added before it while the count goes on
  (`BootPages.BootAllocator.AddFreePage`); the list holds all eligible pages exactly when page 0 is
  not eligible (`BootPages.BootAllocator.InitFreePages`).
- A wakeup on a queue with timed waiters can meet one that the timer has already made READY, and
  the code then panics (`ExpiredWaiters.ExpiredWaiterPanics`); it does so exactly when someone on
  the queue is no longer blocked (`ExpiredWaiters.WakeAllPanicsExactly`), which cannot happen on a
  queue without timed waiters (`SchedulerRuns.UntimedMembership`).
- A sleep, wait or exit by a current thread that is not RUNNING panics on an invalid transition
  (exactly when: `SchedulerRuns.CallPanicsExactly`). Before the idle thread is up, a thread that
  sleeps with nothing else to run gets there (`UnsettledCalls.UnsettledWaitPanics`); afterwards none
  does (`SchedulerProgress.SettledRun`).
- include/tianole/input.h documents the shift, control and alt modifiers as "either key is
  active". The code keeps one bit for both keys; the two agree exactly unless the last stroke
  released one key while the other was down (`Ps2Keyboard.ActiveExactly`,
  `Ps2Keyboard.ShiftLostWhileHeld`).
- Backspace undoes a printed character exactly when printing it did not wrap, except on one column
  that shows nothing else (`TextScreen.BackspaceUndoes`), and an edited character exactly when the
  line was not full (`LineDiscipline.BackspaceUndoes`).
- The release of a key with set-1 code 0x60 or 0x61 would read as a prefix byte and is not seen
  (`Ps2Keyboard.PrefixSwallows`); all other strokes are (`Ps2Keyboard.DecodesStrokes`).
- `tty_keysym_to_utf8` encodes surrogates, which section 3 of RFC 3629 forbids; the round trip
  holds exactly for the other code points (`Utf8.DecodeEncode`).

How the model reads the code: each locked region is one step, and so are "mark blocked, unlock,
`sched_yield`" and the selection inside `sched_yield`. Words are split at bits 0, 12 and 52, so
masks and shifts become field accesses. Memory outside the modelled map reads as zero. Integers
are unbounded except where 64-bit wrap-around is part of a result.

## Model

| member | source | states |
|---|---|---|
| PageTree.WordRoundTrip | arch/x86/mm/page_table.c:23-31 | splitting a 64-bit word into address, flags and present bit loses nothing |
| PageTree.NumRoundTrip | arch/x86/mm/page_table.c:23-31 | putting the parts together and splitting again gives the parts |
| PageTree.LeafEntryCarries | arch/x86/mm/page_table.c:145-145 | the number of a leaf entry is the page below 2^52 plus the flags plus PAGE_PRESENT |
| PageTree.PathsArePageNumbers | arch/x86/mm/page_table.c:8-11 | two addresses take the same four indices iff they have the same 36-bit page number |
| PageTree.LeafTablePrefix | arch/x86/mm/page_table.c:70-116 | a leaf table belongs to exactly one prefix of three indices |
| PageTree.LeafWrite | arch/x86/mm/page_table.c:127-173 | writing one leaf slot changes the walk of one path and no other |
| PageTree.LeafWriteTranslates | arch/x86/mm/page_table.c:127-173 | writing the leaf slot of a path keeps the tree and changes that translation alone |
| PageTree.LinkKeepsTranslations | arch/x86/mm/page_table.c:41-59 | linking a fresh cleared table changes no translation |
| PageTree.LinkKeepsTree | arch/x86/mm/page_table.c:41-59 | linking a fresh cleared table keeps the tree a tree, with the new table labelled |
| PageTree.LinkLinked | arch/x86/mm/page_table.c:41-59 | linking a fresh table links it and unlinks no other: every table is some entry's target |
| PageTree.LinkOpens | arch/x86/mm/page_table.c:41-59 | exactly the paths through the fresh table miss one table fewer |
| PageTree.MissingFrom | arch/x86/mm/page_table.c:70-116 | what is missing below a linked table is what is missing on the whole path |
| PageTree.NonTableWrite | arch/x86/mm/page_table.c:70-116 | writes outside table pages keep the tree and every translation |
| PageTree.AbsentWalk | arch/x86/mm/page_table.c:70-116 | a walk that misses a table translates to nothing |
| VirtualMemory.PushFree | mm/page_alloc.c:70-77 | storing a page's link in the page itself gives the list with that page in front, acyclic |
| VirtualMemory.PopFree | mm/page_alloc.c:126-138 | the link read from the first page is the list without it |
| VirtualMemory.Machine.constructor | mm/page_alloc.c:164-182 | after boot the pool is the free list, nothing is mapped for the heap, no page is held |
| VirtualMemory.Machine.AllocPage | mm/page_alloc.c:126-138 | returns 0 iff the list is empty, else its first page, which moves to the caller |
| VirtualMemory.Machine.FreePage | mm/page_alloc.c:140-147 | the page goes back to the front, one word is written, no translation changes |
| VirtualMemory.Machine.ClearPage | arch/x86/mm/page_table.c:13-21 | all 512 words of the page become zero and nothing else changes |
| VirtualMemory.Machine.NewTable | arch/x86/mm/page_table.c:41-59 | allocate, clear and link: fails iff no page is free, and then changes nothing; the number of the new entry is the page plus PAGE_PRESENT and PAGE_WRITABLE |
| VirtualMemory.Machine.EnsureNextTable | arch/x86/mm/page_table.c:41-59 | fails iff the entry is absent and no page is free; no translation changes either way |
| VirtualMemory.Machine.FindTable | arch/x86/mm/page_table.c:70-116 | the lookup half: -ENOENT iff a table is missing, else the leaf table |
| VirtualMemory.Machine.CreateTables | arch/x86/mm/page_table.c:70-116 | the creating half: -ENOMEM iff more tables are missing than pages are free, and no translation changes |
| VirtualMemory.Machine.MapPage | arch/x86/mm/page_table.c:127-148 | exact error code for every case; success changes one translation, whose number is the page, the flags and PAGE_PRESENT, takes exactly the missing tables and opens exactly that path; every error changes no translation, even half-way down |
| VirtualMemory.Machine.UnmapPage | arch/x86/mm/page_table.c:156-173 | exact error code; success removes one translation, an error changes no word |
| VirtualMemory.Machine.VirtToPhys | arch/x86/mm/page_table.c:183-199 | mapped base plus offset, or -ENOENT iff unmapped |
| VirtualMemory.Machine.MapAndTranslate | arch/x86/mm/page_table.c:127-199 | after a page below 2^52 was mapped, every address in it translates to that page plus its offset |
| VirtualMemory.ViewStore | mm/heap.c:34-81 | a word stored through a leaf page changes the heap region at one address |
| VirtualMemory.HeapWalk | mm/heap.c:83-104 | walking the tables for a heap address finds the leaf page behind it |
| VirtualMemory.SpreadNext | mm/heap.c:88-101 | the tables missing for a heap page once its predecessors are mapped, in terms of the memory before |
| VirtualMemory.Machine.MapHeapPage | mm/heap.c:88-101 | one round: exact error code, exactly one page and the missing tables taken on success, the page returned on failure |
| VirtualMemory.Machine.MapHeapRange | mm/heap.c:83-104 | an empty range and one that reaches 2^64 map nothing and report success; else exact error codes, success iff the range is fresh and the free pages suffice for its leaves and missing tables, and otherwise as many pages stay mapped as they allow |
| VirtualMemory.Machine.MapCallerPage | arch/x86/mm/page_table.c:127-148 | mapping a caller's page outside the heap region: exact error code, one translation with the number of page and flags, no heap word changes and the page stays the caller's |
| VirtualMemory.Machine.UnmapCallerPage | arch/x86/mm/page_table.c:156-173 | unmapping outside the heap region: exact error code, one translation removed, no heap word changes and no page changes hands |
| VirtualMemory.Machine.MapAndUnmap | kernel/selftest/page_table.c:36-59 | mapping succeeds iff the address is aligned and free and the pages suffice for its tables; unmapping then succeeds and restores every translation |
| VirtualMemory.Machine.NextMissesNothing | arch/x86/mm/page_table.c:70-116 | a heap page that shares its tables with the last mapped one needs no table |
| VirtualMemory.Machine.TakePage | mm/page_alloc.c:126-138 | a caller's page comes off the list and no heap word changes |
| VirtualMemory.Machine.ReturnPage | mm/page_alloc.c:140-147 | panics iff the page is unaligned or NULL, else it goes back and no heap word changes |
| VirtualMemory.Machine.PagesAddUp | mm/heap.c:83-138 | page conservation in every valid state: pool = free + tables that some entry links + heap leaves that the tables map writable and not executable + held, disjoint and counted |
| HeapBlocks.TakeKeeps | mm/heap.c:67-81 | splitting and taking a block keeps the tiling and the coalescing |
| HeapBlocks.GrowKeeps | mm/heap.c:106-138 | growing and merging backwards keeps the tiling and the coalescing |
| HeapBlocks.ReleaseKeeps | mm/heap.c:181-196 | freeing a block and merging both ways keeps the tiling and the coalescing |
| HeapBlocks.TakeUses | mm/heap.c:153-179 | taking adds one block to those in use and changes none |
| HeapBlocks.ReleaseUses | mm/heap.c:181-196 | freeing removes one block from those in use and changes none |
| HeapBlocks.RoundUpIs | mm/heap.c:24-27 | rounding up is exact without wrap-around and falls below the value with it |
| HeapBlocks.RoundingExact | mm/heap.c:24-27 | sizes round without wrapping iff they are at most 2^64 - 4128 |
| HeapBlocks.RequestRounds | mm/heap.c:24-27 | up to 2^64 - 16 a request rounds to a size that holds it, and its growth is empty iff above 2^64 - 4128 and up to 2^64 - 32 |
| HeapBlocks.OversizeRounds | mm/heap.c:24-27 | above that limit the growth is empty, or one page, or the request itself rounds to 0 |
| HeapRuns.RunKeeps | mm/heap.c:153-196 | over every legal run the blocks tile the heap, no two free ones are neighbours, and live pointers match blocks in use |
| HeapRuns.LivePayloads | mm/heap.c:153-196 | every live payload is aligned, in the heap, large enough, with less than 48 bytes to spare over the rounded request, and disjoint from all other blocks |
| HeapRuns.AllFreed | mm/heap.c:181-196 | once everything is freed the heap is a single free block |
| HeapRuns.NullExactly | mm/heap.c:153-179 | null iff the size is 0, or nothing fits and either growth failed or the size is above 2^64 - 32 |
| HeapRuns.GrownAndRefused | mm/heap.c:153-179 | a request above 2^64 - 32 and up to 2^64 - 16 adds one page, keeps the invariant and gets null |
| HeapRuns.GrownByNothing | mm/heap.c:106-138 | a request above 2^64 - 4128 and up to 2^64 - 32 maps nothing; it gets null if the last block is free, else a block that reaches past the top |
| HeapRuns.FreeUndoesMalloc | mm/heap.c:153-196 | freeing the pointer just allocated restores the heap exactly |
| HeapRuns.FreeTakesOne | mm/heap.c:181-196 | freeing any live pointer takes exactly that pointer and its block out of use and keeps the end |
| HeapRuns.LiveIsOutstanding | mm/heap.c:153-196 | in every run the live pointers, with their sizes, are those that callers got and have not freed |
| HeapRuns.GrowthKeepsExactly | mm/heap.c:106-138 | a growth that reports success keeps the invariant iff heap_end + bytes < 2^64 |
| HeapRuns.TerabyteIsLost | mm/heap.c:83-104 | a request of 2^40 bytes rounds exactly, wraps the range and breaks the invariant |
| HeapRuns.HugeRequestBreaks | mm/heap.c:153-179 | a request above 2^64 - 16 bytes gets fewer than 48 and breaks the invariant |
| HeapRuns.HugeRequestServed | mm/heap.c:153-179 | such a request is refused only without any free block and with growth failing |
| HeapRuns.StaleForGood | mm/heap.c:106-138 | every run with half-failed growths keeps the invariant; once pages are mapped past its end the heap never grows again |
| HeapLinks.OkMerge | mm/heap.c:49-65 | the stores of a merge give the merged list: links mutual, ends right, other payloads untouched |
| HeapLinks.OkSplit | mm/heap.c:34-81 | the stores of a split give the split list, other payloads untouched |
| HeapLinks.OkAppend | mm/heap.c:106-138 | the stores for a new last block give the longer list |
| HeapLinks.OkSetFree | mm/heap.c:153-196 | storing the flag changes that block alone |
| KernelHeap.Heap.BlockInsertAfter | mm/heap.c:34-47 | the four link stores, and heap_last when the block was last |
| KernelHeap.Heap.BlockMergeNext | mm/heap.c:49-65 | the list becomes the merged list when the next block is free, and is unchanged otherwise |
| KernelHeap.Heap.BlockSplit | mm/heap.c:67-81 | the list becomes the split list, or is unchanged when too small |
| KernelHeap.Heap.FindFreeBlock | mm/heap.c:140-151 | the first block that fits, or NULL |
| KernelHeap.Heap.HeapExtend | mm/heap.c:106-138 | for every size: what it adds is backed iff the growth is not empty and heap_end + bytes < 2^64, and else nothing is mapped and heap_end wraps; then exact error code, success iff the heap is not stale and the free pages suffice, and exactly those pages and the grown list |
| KernelHeap.Heap.MapMore | mm/heap.c:83-104 | map_heap_range() from the end of the heap: exact error code by staleness and free pages, and no word changes |
| KernelHeap.Heap.Kmalloc | mm/heap.c:153-179 | does the run step and writes into no live payload; null iff the size is 0 or nothing fits and the heap cannot grow or the size is above 2^64 - 32; a stale heap stays stale; lost iff it needs a growth that is empty or past 2^64 |
| KernelHeap.Heap.Kfree | mm/heap.c:181-196 | does the run step: exactly that pointer and its block go out of use, and no other live payload is written |
| StaleHeap.FirstPage | mm/heap.c:83-104 | with no tables the first heap page takes four pages |
| StaleHeap.NextPages | mm/heap.c:83-104 | with its tables there the next takes one, and two more at least two |
| StaleHeap.BootedHeap | mm/heap.c:229-243 | from five free pages heap_init() leaves one free block in one page and one free page |
| StaleHeap.HalfFailedGrowth | mm/heap.c:83-138 | the next growth, by two pages, gives -ENOMEM and leaves one page mapped past the end |
| StaleHeap.NothingServed | mm/heap.c:153-179 | after that no request above the one free block is served |
| BootPages.BootAllocator.AddReservedTablePage | arch/x86/mm/page_table_boot.c:32-47 | records a page once, or reports a full array |
| BootPages.BootAllocator.CollectActivePageTables | arch/x86/mm/page_table_boot.c:55-101 | records exactly the reachable table pages, or there are more than fit |
| BootPages.BootAllocator.ArchPageTableUsesPage | arch/x86/mm/page_table_boot.c:109-129 | whether a page is a table page, with the cache filled on first use; no for an unaligned address |
| BootPages.BootAllocator.PageIsReserved | mm/page_alloc.c:36-68 | whether a page meets the kernel, boot_info, the map buffer or a table |
| BootPages.BootAllocator.AddFreePage | mm/page_alloc.c:70-77 | the page goes in front of the list that can be read back; page 0 empties it; the count goes up either way |
| BootPages.BootAllocator.AddConventionalRange | mm/page_alloc.c:79-102 | adds exactly the unreserved whole pages of the range |
| BootPages.BootAllocator.InitFreePages | mm/page_alloc.c:104-124 | exactly the eligible pages are added, once each, and counted, none with a byte of the kernel, boot_info or the map, or the tables did not fit; the list read back holds them all, as many as counted, iff page 0 is not eligible |
| BootPages.DescriptorUnchanged | mm/page_alloc.c:104-124 | linking pages never alters the descriptors still to be read |
| BootPages.DescriptorReadsBack | include/tianole/boot_info.h:26-33 | a descriptor stored in the layout of boot_info.h is read as it was |
| BootPages.WordAtIs | mm/page_alloc.c:104-124 | words are eight bytes apart, 512 to a page |
| BootPages.DescriptorIndex | mm/page_alloc.c:104-124 | the scan visits every whole descriptor, one descriptor size after the other |
| BootPages.CoversExactly | mm/page_alloc.c:79-102 | a range covers a page iff it is conventional and holds every byte of the aligned page |
| BootPages.OverlapsExactly | mm/page_alloc.c:28-34 | a page overlaps a range iff it holds one of its bytes |
| BootPages.ReservedExactly | mm/page_alloc.c:36-68 | a page is reserved iff it holds a byte of the kernel, boot_info or the map |
| BootPages.LargeIsBit7 | arch/x86/mm/page_table.h:10-10 | a large page is marked by bit 7 of its entry |
| BootPages.PushAny | mm/page_alloc.c:70-77 | what the two writes do to the list read from its head, page 0 included |
| BootPages.OneList | mm/page_alloc.c:126-138 | following the links from the head gives one list |
| BootHandover.TablesAreReserved | arch/x86/mm/page_table_boot.c:55-101 | every table of a tree without large pages is among the pages the walk records |
| BootHandover.Handover | arch/x86/mm/page_table_boot.c:138-155 | after the copy of the top table, list, tree and heap region are what the machine starts from |
| BootHandover.Boot | mm/page_alloc.c:164-182 | with page 0 not eligible boot ends in a valid machine whose pool is exactly the eligible pages, or the tables did not fit |
| Scheduler.KeptMembers | kernel/sched/thread.c:170-210 | the reaped queue holds exactly the threads that are not non-current zombies |
| Scheduler.ReapKeeps | kernel/sched/thread.c:135-210 | reaping never panics and keeps the invariant |
| Scheduler.YieldKeeps | kernel/sched/core.c:79-111 | sched_yield() never panics and keeps the invariant |
| SchedulerRuns.CallPanicsExactly | kernel/sched/sched.h:67-152 | a sleep or blocking timed round panics iff its caller is neither RUNNING nor SLEEPING, a wait iff neither RUNNING nor WAITING, an exit iff READY |
| SchedulerRuns.StepKeeps | kernel/sched/sched.h:67-152 | every step keeps the invariant, and which panics a step can meet |
| SchedulerRuns.RunKeeps | kernel/sched/wait.c:18-103 | no run meets the "already queued", "membership is inconsistent", release or second-exit panics; "non-waiting thread" needs timed waiters |
| SchedulerRuns.UntimedMembership | kernel/sched/wait.c:123-204 | an untimed queue is exactly the threads WAITING on it, in arrival order, each once |
| SchedulerRuns.OneRunning | kernel/sched/sched.h:111-152 | at most one thread is RUNNING and it is current; current is on the run queue; deadlines exist only while SLEEPING |
| SchedulerRuns.ReapReleases | kernel/sched/thread.c:135-210 | released are exactly the non-current zombies, on no queue, never released before; the others stay in order |
| SchedulerRuns.ReleasedForGood | kernel/sched/thread.c:83-125 | a released identity never belongs to a thread again, in any run |
| SchedulerRuns.TimedReturn | kernel/sched/wait.c:206-255 | a timed wait returns off every queue; -ETIMEDOUT means the condition was false after the deadline |
| SchedulerRuns.ReturnLeavesQueue | kernel/sched/wait.c:252-254 | a thread that runs again in a wait is then on no queue, the others in their order and every other thread as it was |
| SchedulerRuns.InitialInv | kernel/sched/core.c:180-193 | the empty scheduler satisfies the invariant |
| ExpiredWaiters.WakeAllPanicsExactly | kernel/sched/wait.c:92-147 | waking everyone panics iff someone on the queue is no longer blocked |
| ExpiredWaiters.ExpiredWaiterPanics | kernel/sched/wait.c:92-103 | a run in which a wakeup meets an expired timed waiter and halts |
| UnsettledCalls.UnsettledWaitPanics | kernel/sched/core.c:165-178 | a run in which a lone thread sleeps, stays current, is made READY and panics at its next wait |
| SchedulerProgress.YieldSettles | kernel/sched/core.c:79-111 | with the idle thread up, a yield ends with a RUNNING current thread |
| SchedulerProgress.SettledRun | kernel/sched/core.c:36-66 | from then on no run panics unless some queue has timed waiters, and current is always RUNNING |
| SchedulerProgress.SleepLasts | kernel/sched/core.c:68-77 | in every run a sleeper is SLEEPING below its deadline and READY right after the tick that reaches it |
| SchedulerProgress.SleeperRun | kernel/sched/core.c:113-120 | the same for any sleeping thread, as long as nobody wakes its queue |
| SchedulerProgress.TimedWaitLasts | kernel/sched/wait.c:206-255 | a timed waiter joins the end of its queue and, unless woken, sleeps until its deadline and is READY right after that tick |
| SchedulerProgress.ExitedForGood | kernel/sched/thread.c:213-234 | an identity that has exited stays a zombie or goes, and never runs, in every run |
| SchedulerProgress.ExitIsFinal | kernel/sched/thread.c:213-234 | an exit does not panic and its caller never runs again |
| SchedulerFairness.YieldAdvances | kernel/sched/core.c:36-66 | while a thread is READY every yield switches, never to idle, and brings that thread strictly nearer or dispatches it |
| SchedulerFairness.IdleOnlyWhenAlone | kernel/sched/core.c:61-63 | idle is dispatched only when no other thread is READY |
| SchedulerFairness.OrderKept | kernel/sched/thread.c:170-210 | reaping does not disturb the round-robin order of the others |
| SchedulerFairness.StepAdvances | kernel/sched/core.c:79-111 | distance plus switches never grows, except by one for a created thread |
| SchedulerFairness.BoundedWaiting | kernel/sched/core.c:23-66 | in every run a READY thread is dispatched within n - 1 switches plus the threads created meanwhile |
| SchedulerFairness.CreatedRuns | kernel/sched/core.c:36-66 | a thread just created gets its turn within the same bound |
| SchedulerFairness.PreemptedRunsAgain | kernel/sched/core.c:79-111 | so does a thread that a yield took the processor from |
| SchedulerFairness.WokenRuns | kernel/sched/wait.c:123-133 | so does the thread that a wakeup took off a queue |
| ThreadQueues.EnqueueLists | kernel/sched/wait.c:18-35 | the link writes of an enqueue append to one queue and leave the others alone |
| ThreadQueues.RemoveLists | kernel/sched/wait.c:55-90 | the link writes of a removal take out one thread and leave the other queues alone |
| ThreadQueues.ReapStep | kernel/sched/thread.c:178-200 | one round of the reaping loop keeps the queue's links and tail and collects exactly the zombies seen |
| KernelScheduler.Kernel.constructor | kernel/sched/core.c:180-193 | empty queues and no thread |
| KernelScheduler.Kernel.EnqueueThread | kernel/sched/core.c:23-34 | the run queue gets the thread at its end |
| KernelScheduler.Kernel.NextRunnableThread | kernel/sched/core.c:36-66 | the two scans find the first runnable thread of the round-robin order, else idle, else none |
| KernelScheduler.Kernel.WakeSleepingThreads | kernel/sched/core.c:68-77 | exactly the expired sleepers become READY |
| KernelScheduler.Kernel.TimerTick | kernel/time/timer.c:9-18 | does the Tick step |
| KernelScheduler.Kernel.SchedYield | kernel/sched/core.c:79-111 | does the Yield step |
| KernelScheduler.Kernel.SchedSleep | kernel/sched/core.c:165-178 | nothing without a thread or ticks, else the sleep step |
| KernelScheduler.Kernel.ReleaseThread | kernel/sched/thread.c:135-160 | panics iff one of its checks fails, else frees the object |
| KernelScheduler.Kernel.ReapDeadThreads | kernel/sched/thread.c:170-210 | does the Reap step on links, tail and objects |
| KernelScheduler.Kernel.ThreadExit | kernel/sched/thread.c:218-234 | panics without a current thread, else does the Exit step |
| KernelScheduler.Kernel.CreateThread | kernel/sched/thread.c:107-124 | does the Create step: fresh identity, READY, at the end of the queue |
| KernelScheduler.Kernel.SetState | kernel/sched/sched.h:92-152 | panics iff the transition is not in the table, else sets state and deadline |
| KernelScheduler.Kernel.WaitQueueEnqueue | kernel/sched/wait.c:18-35 | panics iff the thread is queued already, else appends it |
| KernelScheduler.Kernel.WaitQueueRemoveHead | kernel/sched/wait.c:37-53 | takes out the longest waiting thread, if any |
| KernelScheduler.Kernel.WaitQueueSearchRemove | kernel/sched/wait.c:55-90 | takes out the caller wherever it stands; panics iff it is not on the list |
| KernelScheduler.Kernel.MarkReady | kernel/sched/wait.c:92-103 | panics iff the thread is not blocked, else makes it READY |
| KernelScheduler.Kernel.WakeOneLocked | kernel/sched/wait.c:123-133 | does the WakeOne step |
| KernelScheduler.Kernel.WakeAllLocked | kernel/sched/wait.c:135-147 | does the WakeAll step |
| KernelScheduler.Kernel.BlockOn | kernel/sched/wait.c:149-204 | does the Wait step |
| KernelScheduler.Kernel.WaitTimeoutRound | kernel/sched/wait.c:229-249 | does one timed round and returns its verdict |
| KernelScheduler.Kernel.ResumeThread | kernel/sched/wait.c:164-202 | does the Finish step of a thread that runs again |
| BlockingReaders.RunKeeps | kernel/sched/wait.c:176-204 | the wakeup invariant holds at every unlocked point of every run |
| BlockingReaders.NoLostWakeup | drivers/input/input.c:125-183 | with any readers: if one sleeps, the queued items are at most the readers heading for a pop; with none heading, items and sleepers never coexist; items are taken in order |
| BlockingReaders.NothingDroppedEarly | drivers/input/input.c:125-148 | in every run with no more reports than the queue holds, all are accepted in order |
| DeferredWork.RunKeeps | kernel/workqueue.c:43-91 | the work queue and ring invariant holds over every run |
| DeferredWork.NoStuckScancode | drivers/input/keyboard/ps2.c:207-298 | a byte in the ring has its decoder pending, running or about to be queued; a sleeping worker means none is left; kept bytes are decoded in order |
| DeferredWork.ExactlyOnce | kernel/workqueue.c:147-173 | accepted = started, then queued, in order; pending exactly for queued items |
| DeferredWork.NothingDroppedEarly | drivers/input/keyboard/ps2.c:270-297 | in every run with no more bytes than the ring holds, all are kept in order |
| WaitRefinement.TestBlocks | kernel/sched/wait.c:187-196 | a reader that finds nothing joins the wait queue's list, as in the protocol |
| WaitRefinement.ReportWakes | kernel/sched/wait.c:123-133 | a report's wakeup takes the head off the list and makes it a woken reader, as in the protocol |
| WaitRefinement.WokenContinues | kernel/sched/wait.c:198-202 | a woken reader that runs again is back at its test, as in the protocol |
| WaitRefinement.ReaderAlone | drivers/input/input.c:125-183 | the readers' other steps leave the agreement alone |
| WaitRefinement.SchedulerAlone | kernel/sched/core.c:79-111 | every scheduler step that does not concern the queue leaves the agreement alone |
| WaitRefinement.WorkerBlocks | kernel/workqueue.c:77-81 | a worker that finds nothing is alone on the wait queue's list |
| WaitRefinement.WorkWakes | kernel/workqueue.c:155-170 | queued work wakes the worker exactly when it sleeps |
| WaitRefinement.WorkerContinues | kernel/workqueue.c:77-81 | a woken worker is back at its test |
| WaitRuns.MoveKeeps | drivers/input/input.c:125-183 | every move of readers and scheduler together keeps both invariants and their agreement |
| WaitRuns.RunKeeps | kernel/sched/wait.c:176-205 | the same over every run, which panics only through a queue with timed waiters |
| WaitRuns.NobodyLeftWaiting | kernel/sched/wait.c:123-133 | in every run a thread on the queue's list is WAITING, and then there are no more items than readers on their way to a pop |
| WaitRuns.WorkMoveKeeps | kernel/workqueue.c:64-97 | every move of worker, interrupts and scheduler together keeps both invariants and their agreement |
| WaitRuns.WorkRunKeeps | kernel/workqueue.c:64-97 | the same over every run |
| WaitRuns.NoWorkLeftWaiting | kernel/workqueue.c:155-170 | in every run a worker on the queue's list means no work queued and, outside interrupts, no byte in the ring |
| KernelWorkqueue.Workqueue.QueueWork | kernel/workqueue.c:147-173 | -EINVAL and -EBUSY exactly when due and without effect, else append and wake one |
| KernelWorkqueue.Workqueue.Pop | kernel/workqueue.c:43-61 | the oldest item, no longer pending, or none |
| InterruptLocks.StepKeeps | kernel/locking/spinlock.c:21-52 | depth is the number of held locks; a held lock means interrupts off and owner current; interrupts never nest |
| InterruptLocks.RunKeeps | kernel/locking/spinlock.c:21-52 | the same over every run, and which panics a run can meet |
| InterruptLocks.PanicsExactly | kernel/sched/sched.h:22-35 | an acquire of NULL and contention exactly, contention iff the caller itself holds the lock; a switch panics iff a lock is held or an interrupt is active; releases and interrupt exits never panic |
| InterruptLocks.ReleasePanicsExactly | kernel/locking/spinlock.c:39-52 | a release panics iff the caller does not hold the lock, and the depth never underflows |
| InterruptLocks.InterruptFindsNoLock | arch/x86/kernel/irq.c:127-144 | an interrupt never meets a held lock |
| InterruptLocks.SwitchesAreClear | kernel/sched/core.c:129-163 | current changes only with nothing held and no interrupt active |
| InterruptLocks.ExitSwitches | kernel/sched/core.c:144-163 | with a request an interrupt exit runs the chosen thread, clears the request and suspends the old thread iff it differs; without one the interrupted context goes on with interrupts on |
| InterruptLocks.YieldSwitches | kernel/sched/core.c:79-111 | a yield runs the chosen thread and changes nothing else |
| InterruptLocks.InterruptIsTransparent | kernel/sched/core.c:122-163 | an interrupt that finds and makes no request leaves everything as it was |
| InterruptLocks.Preempts | kernel/sched/core.c:122-163 | a request made inside an interrupt preempts the interrupted thread when it ends |
| InterruptLocks.PreemptedComesBack | kernel/sched/core.c:122-163 | the preempted thread, chosen again, returns from its interrupt and everything but the request is as it was |
| InterruptLocks.NestingRestores | kernel/locking/spinlock.c:21-52 | taking distinct locks and releasing them in reverse restores everything, the interrupt flag included |
| InterruptLocks.Processor.SpinLockIrqsave | kernel/locking/spinlock.c:21-37 | does the Lock step and saves the flag |
| InterruptLocks.Processor.SpinUnlockIrqrestore | kernel/locking/spinlock.c:39-52 | does the Unlock step, with its panics |
| InterruptLocks.Processor.SchedIrqExit | kernel/sched/core.c:144-163 | does the Exit step |
| Ring.Queue.Push | drivers/input/keyboard/ps2.c:285-295 | a bounded queue: appended, or dropped and counted iff full |
| Ring.Queue.Pop | drivers/input/keyboard/ps2.c:207-222 | the oldest item, or nothing iff empty |
| InputQueue.Input.ReportEvent | drivers/input/input.c:125-148 | full: dropped and nobody woken; else queued, remembered and one reader woken |
| InputQueue.Input.HasEvent | drivers/input/input.c:46-51 | the readers' condition is that the queue is not empty |
| InputQueue.Input.TryReadEvent | drivers/input/input.c:170-183 | the oldest event, or -EAGAIN iff there is none |
| Ps2Keyboard.DecodeSplits | drivers/input/keyboard/ps2.c:224-268 | how the byte stream is cut into callback runs does not change the events |
| Ps2Keyboard.DecodesStrokes | drivers/input/keyboard/ps2.c:224-268 | for every sequence of key movements and pauses, the bytes sent decode to exactly the strokes of known keys, in order, each with its modifiers |
| Ps2Keyboard.PrefixSwallows | drivers/input/keyboard/ps2.c:241-249 | the release of codes 0x60 and 0x61 reads as a prefix and is not seen |
| Ps2Keyboard.ModifierKeys | drivers/input/keyboard/ps2.c:175-205 | which keys each modifier belongs to |
| Ps2Keyboard.FollowsLastStroke | drivers/input/keyboard/ps2.c:175-205 | a held modifier tells whether the last stroke of its keys was a press |
| Ps2Keyboard.ActiveExactly | drivers/input/keyboard/ps2.c:175-205 | it means "a key of the group is down" iff the last stroke did not release one key with the other down |
| Ps2Keyboard.ShiftLostWhileHeld | drivers/input/keyboard/ps2.c:175-205 | a stroke sequence where shift is held and the modifier is clear |
| Ps2Keyboard.LockParity | drivers/input/keyboard/ps2.c:185-193 | a lock modifier tells whether its key was pressed an odd number of times |
| Ps2Keyboard.Driver.Update | drivers/input/keyboard/ps2.c:175-205 | sets, clears or toggles the modifiers of one stroke |
| Ps2Keyboard.Driver.Work | drivers/input/keyboard/ps2.c:224-268 | decodes all bytes of the ring in order and empties it |
| TextScreen.BackspaceUndoes | drivers/video/fbdev/core/fbcon.c:147-155 | backspace takes a printed character back iff printing it did not wrap, or the screen is one column that shows nothing else |
| TextScreen.LineFeedsClear | drivers/video/fbdev/core/fbcon.c:117-145 | each line feed on the last line blanks one more line; a screenful clears the screen |
| TextScreen.CursorAfter | drivers/video/fbdev/core/fbcon.c:179-204 | after n printed characters the cursor is n cells on, wrapped, and on the last line at the bottom |
| TextScreen.WriteDisplays | drivers/video/fbdev/core/fbcon.c:179-217 | whatever is written, controls included, the screen shows the last lines of a roll that never scrolls, from column 0 with blanks after, and the cursor at its end |
| TextScreen.LinesAreRoll | drivers/video/fbdev/core/fbcon.c:179-217 | for text without backspaces the roll is the text cut at line feeds and after every line of characters |
| TextScreen.WriteShowsLines | drivers/video/fbdev/core/fbcon.c:179-217 | the screen shows the last lines of the text |
| TextScreen.NoEffect | drivers/video/fbdev/core/fbcon.c:147-191 | a carriage return changes nothing, nor does a backspace in column 0 |
| TextScreen.Put | drivers/video/fbdev/core/fbcon.c:179-204 | one character keeps the grid's size and the cursor inside it |
| Fbcon.GreysAgree | drivers/video/fbdev/core/fbcon.c:23-30 | both pixel formats give the same black and grey |
| Fbcon.Console.DrawPixel | drivers/video/fbdev/core/fbcon.c:32-39 | one visible pixel changes and no other |
| Fbcon.Console.ClearCell | drivers/video/fbdev/core/fbcon.c:41-54 | the pixels of one cell become background and no other changes |
| Fbcon.Console.DrawChar | drivers/video/fbdev/core/fbcon.c:56-93 | the pixels of one cell become the glyph and no other changes |
| Fbcon.Console.ClearScreen | drivers/video/fbdev/core/fbcon.c:95-106 | an empty grid is shown and line padding is untouched |
| Fbcon.Console.ClearTextRow | drivers/video/fbdev/core/fbcon.c:108-115 | the pixels of one text line become background and no other changes |
| Fbcon.Console.ScrollUp | drivers/video/fbdev/core/fbcon.c:117-133 | the grid shown is scrolled by one line; pixels outside the text area are untouched |
| Fbcon.Console.Newline | drivers/video/fbdev/core/fbcon.c:135-145 | does the screen's new line; pixels outside the text area are untouched |
| Fbcon.Console.Backspace | drivers/video/fbdev/core/fbcon.c:147-155 | does the screen's backspace; pixels outside the text area are untouched |
| Fbcon.Console.Init | drivers/video/fbdev/core/fbcon.c:157-177 | succeeds iff the mode has room for a cell, and then shows the empty grid; an empty mode or a bad format changes nothing |
| Fbcon.Console.Putc | drivers/video/fbdev/core/fbcon.c:179-204 | the pixels show the screen after the character; pixels outside the text area are untouched; nothing before init |
| Fbcon.Console.Write | drivers/video/fbdev/core/fbcon.c:206-217 | the same for any text, before init too |
| Fbcon.Console.ShowsGlyph | drivers/video/fbdev/core/fbcon.c:56-93 | every pixel of a cell shown, as the font says |
| Fbcon.Console.PixelsAreText | drivers/video/fbdev/core/fbcon.c:179-217 | after text was written to a cleared screen, every pixel of the text area is that of the last lines of the text |
| PathWalk.ComponentsJoin | fs/vfs.c:153-206 | the components of `a/b` are those of a, then those of b |
| PathWalk.SlashesDoNotMatter | fs/vfs.c:161-167 | repeated and trailing slashes change nothing |
| PathWalk.WalkJoin | fs/vfs.c:153-206 | a walk is the walk of its first part continued, with the first error kept |
| PathWalk.DotDotStaysAtRoot | fs/vfs.c:86-103 | any number of `..` from the root stays at the root |
| PathWalk.DownAndUp | fs/vfs.c:136-213 | with consistent parents `path/d/..` opens what `path` opens, for every child directory d within the length limits |
| PathWalk.OpenEnds | fs/vfs.c:149-151 | `/` is the root; relative paths and paths of 256 characters or more are refused |
| PathWalk.OpenOneMore | fs/vfs.c:153-206 | opening a path with one more name is one more step from what the path opens |
| Vfs.Mount.MountRoot | fs/vfs.c:120-128 | succeeds iff the root is a directory and the layer is ready |
| Vfs.Mount.Resolve | fs/vfs.c:153-206 | the loop computes the fold over the non-empty components, with first-error semantics |
| Vfs.Mount.Open | fs/vfs.c:136-213 | fills the file as the fold says; every failure after the argument check leaves it closed |
| Ramfs.LookupFinds | fs/ramfs/ramfs.c:208-230 | with unique names every entry is found under its name |
| Ramfs.RamfsParentsAgree | fs/ramfs/ramfs.c:138-149 | in a consistent tree `..` undoes every descent |
| Ramfs.WalkStaysInTree | fs/ramfs/ramfs.c:138-230 | no walk leaves the tree |
| Ramfs.OpenDownAndUp | fs/ramfs/ramfs.c:138-230 | in every consistent tree opening `path/d/..` is opening `path` |
| Ramfs.OpenEntry | fs/ramfs/ramfs.c:208-230 | for every entry of the directory that a path opens, `path/name` opens that entry |
| Ramfs.OpenDots | fs/vfs.c:175-192 | `path/.` opens the same directory and `path/..` its parent |
| Ramfs.OpenFails | fs/vfs.c:171-201 | exact errors for a name too long, a path through a file and a name that is not there |
| Ramfs.NameEqual | fs/ramfs/ramfs.c:170-186 | the comparison loop decides equality |
| Ramfs.LookupEntry | fs/ramfs/ramfs.c:208-230 | the first entry with the name, or -ENOENT |
| Ramfs.Read | fs/ramfs/ramfs.c:238-266 | copies the bytes at the offset, as many as wanted and left, advances, and leaves the rest of the buffer alone |
| Ramfs.ReadsPutTogether | fs/ramfs/ramfs.c:238-266 | any series of reads delivers the file's bytes in order, none missing or repeated |
| Ramfs.Readdir | fs/ramfs/ramfs.c:271-290 | the entry at the offset with its name cut to the buffer, or -ENOENT at the end |
| LineDiscipline.RunKeeps | drivers/tty/tty.c:110-208 | the line queue invariant holds over every run of characters and reads |
| LineDiscipline.LinesAccounted | drivers/tty/tty.c:110-208 | lines read, then queued, are the editing fold's lines in order less the dropped; newlines = read + queued + dropped |
| LineDiscipline.BackspaceUndoes | drivers/tty/tty.c:160-168 | backspace takes a typed character back iff the line was not full |
| LineDiscipline.TypedLines | drivers/tty/tty.c:185-208 | without backspaces the lines completed are the lines typed, each up to 127 characters |
| LineDiscipline.NothingDroppedEarly | drivers/tty/tty.c:134-158 | in every run nothing is dropped before more than eight lines were completed |
| LineDiscipline.TypedIsRead | drivers/tty/tty.c:110-208 | in every such run without backspaces the lines read, then queued, are the lines typed |
| LineDiscipline.Cut | drivers/tty/tty.c:110-132 | a reader gets as much of the line as fits before a NUL |
| Tty.Terminal.SubmitEditLine | drivers/tty/tty.c:134-158 | queued and one reader woken, or dropped and counted; the edit buffer is empty afterwards |
| Tty.Terminal.ReceiveChar | drivers/tty/tty.c:185-208 | buffers and counters become those of the line discipline |
| Tty.Terminal.PopLine | drivers/tty/tty.c:110-132 | the oldest line cut to size - 1 bytes and NUL-terminated, or -EAGAIN |
| Tty.Terminal.TryReadLine | drivers/tty/tty.c:336-353 | the same behind the argument check |
| Utf8.DecodeEncode | drivers/tty/tty.c:210-259 | an encoded code point decodes to itself, whatever follows, iff it is not a surrogate |
| Utf8.EncodeDecode | drivers/tty/tty.c:210-259 | whatever decodes is what the encoder writes |
| Utf8.StreamRoundTrip | drivers/tty/tty.c:291-310 | a stream of encoded characters decodes to the characters |
| Utf8.KeysymToUtf8 | drivers/tty/tty.c:210-259 | all bytes of the encoding, or none when they do not fit or the key is not Unicode; the rest of the buffer is untouched |

## Left out

- UEFI boot code, ELF loading, descriptor tables, trap entry, PIC and PIT programming: firmware and hardware I/O.
- Register and stack contents of a context switch: a switch changes the current thread. It does not touch the interrupt flag, as in arch/x86/kernel/switch.S.
- Preemption inside `sched_yield` or between unlock and yield: those regions are single steps.
- SchedulerRuns.UntimedMembership: queues with timed waiters are excluded, because an expired waiter stays linked until it runs.
- Translations through large pages, TLB flushes and non-canonical addresses: the theorems are about slots of the top table without large pages and flags outside the address mask.
- Allocation of thread objects and stacks inside `kernel_thread_create`: `CreateThread` takes a fresh address, and stack checks of `release_thread` are not modelled.
- 64-bit wrap-around of tick counts and identities, and 32-bit wrap-around of pixel indices.
- printk, kdb commands, the early log, console registration and echo: output plumbing.
- Keymaps, the font and function-key strings: finite data, taken as arbitrary functions.
- Device registration in drivers/input/input.c, and NULL pointers passed by callers.
- Boot selftests, demo threads and build scripts.
- VirtualMemory.Machine.VirtToPhys: the check for a NULL output pointer is not modelled.
- VirtualMemory.Machine.MapPage: flags inside the address mask are excluded, because the source mixes them into the address.
- HeapLinks.OkSetFree: the free flag is a whole word; the source reads and writes one byte and leaves the padding after it alone.
- KernelHeap.Heap.Kmalloc: sizes above 2^64 - 16 are excluded; what becomes of them is in HeapRuns.HugeRequestBreaks and HeapRuns.HugeRequestServed.
- KernelHeap.Heap.HeapExtend: after a growth that was empty or wrapped, the model stops where the source stores the new header, which faults unless pages were left mapped there.
- KernelScheduler.Kernel.SchedYield: sched_assert_can_switch() is modelled in InterruptLocks, where the choice of the next thread is a parameter.
- KernelScheduler.Kernel.SchedSleep: sched_assert_can_switch() is modelled in InterruptLocks.
- KernelScheduler.Kernel.TimerTick: setting `need_resched` is modelled in InterruptLocks as a step of its own.
- KernelScheduler.Kernel.ReleaseThread: the checks for a missing stack are not modelled.
- KernelScheduler.Kernel.CreateThread: failed allocations and a NULL entry function are not modelled.
- KernelScheduler.Kernel.ThreadExit: an exit of the idle thread is excluded, because its loop never exits.
- KernelScheduler.Kernel.SetState: making the idle thread a zombie is excluded, because its loop never exits.
- KernelScheduler.Kernel.BlockOn: the condition test before blocking and the loop around it are not part of the member; BlockingReaders and DeferredWork model them with their conditions.
- InterruptLocks.Processor.SpinLockIrqsave: a NULL place for the flags is not modelled.
- InterruptLocks.Processor.SchedIrqExit: `schedule_locked` is never set between steps and is not modelled.
- Ps2Keyboard.Driver.Work: events are returned; that a full input queue drops them is in InputQueue.Input.ReportEvent.
- Tty.Terminal.ReceiveChar: the echo and the initialization on first use are not modelled.
- Tty.Terminal.TryReadLine: the initialization on first use is not modelled.
- Fbcon.Console.Init: a NULL mode or framebuffer is not modelled, and lines are at least as long as the visible width.

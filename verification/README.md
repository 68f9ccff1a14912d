# A model of the OS/161 kernel with demand paging

This project models the core of an OS/161 kernel whose virtual memory system pages on demand, and
proves what that core keeps. `dfyconfig.toml` takes in all of its files. The parts are:

- **Threads.** `Scheduler` is a machine of any number of CPUs that take small steps in any order:
  interrupt levels, spinlocks, the context switch with its hand-over of the run queue lock, wait
  channels, fork, migration and the burial of zombies. `SchedulerSafety` proves its invariant, that
  no assertion fails, and what lists, states, locks and interrupt counts say to each other in every
  run. `ThreadList` is the doubly linked list in place; `Migration` is the load balancer with other
  CPUs running between its lock sections; `Semaphore` is P and V; `WaitsFor` and `Hangman` are the
  deadlock detector over its waits-for graph.
- **Paging.** `VmState` and `VmFault` are page table, TLB, swap file and fault handler on values;
  `VmInvariant` and `VmSafety` prove what every operation keeps; `VmRun` proves that paging refines
  a flat memory over every run; `VmLoad` starts it from boot and program loading; `VmHistory`,
  `VmFifo` and `VmWrap` are about statistics and the age of victims; `VmMachine` is the code in place.
- **The kernel heap.** `Kheap` is the allocator on values. `KheapSafety`, `KheapWide` and `KheapRuns`
  prove when allocations stay apart, that freeing undoes allocating and what becomes of every page;
  `KheapReached` has the runs that end badly. `KheapMachine` with `PageRefs` is the code in place: free lists threaded through the blocks, lists
  threaded through the records, and bitmaps of records.
- **The file system.** `SfsDisk` is the layout, `SfsState`, `SfsOwnership` and `SfsTruncate` are the
  block map with one owner to every block, `SfsIo` the reads and writes as of a flat file, `SfsDir`
  the directory, `SfsCache` the vnode table, `SfsNames` and `SfsOps` the operations on names,
  `SfsTable` the tie between the two views of vnodes, and `SfsRuns` and `SfsReached` whole runs from
  a formatted volume. `SfsMachine`, `SfsIoMachine`, `SfsReadMachine`, `SfsInodeMachine` and `SfsDirMachine` are
  the code in place, over `Bitmap` and `Uio`.

Code that changes things step by step is modelled twice: as functions on values, about which the
properties are proved, and as classes and methods with loops whose contracts equate the state they
leave with those functions.

## What the code does

Where the code and its comments or intentions part, the model follows the code, and a lemma says
exactly when:

- A program whose data segment has more than 100 pages, but fewer than 136 less the code pages
  loaded, gets its stack page mapped twice, and no other program does (`VmLoad.MappedTwiceExactly`,
  `VmLoad.OvershootExample`).
- The duplicate test of `addTLB` does not look at slot 0; no duplicate arises all the same
  (`VmInvariant.AddTlbKeeps`). Replacing an entry always sets the write permission.
- The count of zeroed pages is never raised, and the third identity printed at shutdown is short by
  the number of failed faults (`VmHistory.ShutdownIdentities`).
- The 16-bit allocation stamp wraps, and then the newest page can be evicted first
  (`VmHistory.OldestExactlyWithinOneEpoch`, `VmWrap.NewestEvictedFromBoot`).
- An address on the last data page past the end of the data segment faults for good unless the page
  is resident (`VmSafety.ServiceElsewhere`).
- A CPU's first thread is ready by its state, and on no list, until its first switch
  (`SchedulerSafety.ListsMatchStates`).
- `allocpageref` marks a record for good when the last frame is in hand and the record's page is
  missing, and once a whole root is lost that way, and not before, a later `kfree` can fail an
  assertion (`KheapSafety.SubpageAllocKeeps`, `KheapRuns.StuckNeedsLeaks`, `KheapReached.StuckRun`).
- `check_free_frame` never moves on, so that `kmalloc` of several pages can run off the frame list
  (`KheapSafety.KmallocKeeps`), and `kfree` returns the first page alone (`KheapRuns.WideNotUndone`).
- The pages that `kmalloc` takes for a larger block need not be neighbours: the block overlaps another
  one exactly if a page it covers is occupied. In a run none overlap as long as every larger block fits,
  and after one that does not, one-page calls lead to an overlap (`KheapWide.WideApartExactly`,
  `KheapRuns.RunApart`, `KheapReached.UnfitOverlaps`, `KheapReached.WideRunOverlaps`).
- `sfs_itrunc` keeps the block at the new length in the indirect range, and does not clear the rest
  of the last block (`SfsTruncate.ItruncKeeps`).
- File block numbers are 32-bit: from offset 2^41 on a write lands modulo that span and the size is
  cut to 32 bits (`SfsIo.FlatExactly`, `SfsIo.SpanOverwritesStart`).
- A write of no bytes inside a block allocates that block and can fail for want of it
  (`SfsIo.WriteNothingFails`, `SfsReached.WritingNothingFails`).

## Model

| member | source | states |
|---|---|---|
| WaitsFor.NewEdgeClosesCycle | thread/hangman.c:50-94 | In a graph where every node has one successor at most, adding the edge a to b keeps it acyclic if and only if b does not already reach a. |
| WaitsFor.EdgesIntoSinkAcyclic | thread/hangman.c:131-157 | Any number of new edges into one node without a successor close no cycle: what makes recording a holder safe, however many actors wait for the lock. |
| WaitsFor.SubgraphAcyclic | thread/hangman.c:159-182 | Taking edges away keeps the graph acyclic: what makes releasing a lock safe. |
| Hangman.Detector.constructor | thread/hangman.c:40-48 | A new detector has no actors and no locks, and its own lock is held by nobody. |
| Hangman.Detector.Register | include/hangman.h:42-66 | A new actor that waits for nothing and a new lock held by nobody may join at any time and keep the waits-for graph acyclic. |
| Hangman.Detector.Check | thread/hangman.c:50-94 | The walk from the holder of the wanted lock ends, and finds the waiting actor if and only if some walk in the waits-for graph leads to it. |
| Hangman.Detector.Report | thread/hangman.c:69-93 | The actors printed before the panic form a path of the waits-for graph from the holder of the wanted lock to the waiting actor. |
| Hangman.Detector.HangmanWait | thread/hangman.c:96-129 | A deadlock is reported if and only if the new wait edge would close a cycle, with the cycle; otherwise the edge is recorded and the graph stays acyclic; the detector never watches its own lock, and a second wait is refused. |
| Hangman.Detector.HangmanAcquire | thread/hangman.c:131-157 | The lock gets its holder and the wait edge goes, if and only if the actor was waiting for exactly this lock and nobody held it; the graph stays acyclic. |
| Hangman.Detector.HangmanRelease | thread/hangman.c:159-182 | The lock loses its holder, if and only if the actor holds it and waits for nothing; the graph stays acyclic. |
| Hangman.Detector.Run | thread/hangman.c:96-182 | Over any sequence of wait, acquire and release calls the graph stays acyclic; the run ends early exactly at the first call that panics, and the panic is that call's: misuse for the reason the code asserts, or a deadlock that the new edge would close, with its cycle. |
| ThreadList.List.constructor | thread/threadlist.c:60-72 | A new list is its two bookends, linked to each other, with nothing between. |
| ThreadList.List.IsEmpty | thread/threadlist.c:91-97 | Says whether there is a thread on the list. |
| ThreadList.List.InsertAfterNode | thread/threadlist.c:106-120 | The node is linked in right behind the given one and all links stay mutual. |
| ThreadList.List.InsertBeforeNode | thread/threadlist.c:126-140 | The node is linked in right before the given one and all links stay mutual. |
| ThreadList.List.RemoveNode | thread/threadlist.c:146-157 | The node is unlinked, its own links are cleared, and the others stay in order. |
| ThreadList.List.AddHead | thread/threadlist.c:162-170 | The contents are the thread followed by the old contents. |
| ThreadList.List.AddTail | thread/threadlist.c:172-180 | The contents are the old contents followed by the thread. |
| ThreadList.List.RemHead | thread/threadlist.c:182-198 | Takes the first thread and leaves the rest, or says that there is none. |
| ThreadList.List.RemTail | thread/threadlist.c:200-216 | Takes the last thread and leaves the rest, or says that there is none. |
| ThreadList.List.InsertAfter | thread/threadlist.c:218-224 | The contents have the new thread right behind the given one. |
| ThreadList.List.InsertBefore | thread/threadlist.c:226-232 | The contents have the new thread right before the given one. |
| ThreadList.List.Remove | thread/threadlist.c:234-240 | The contents lack exactly the given thread, whose links are cleared. |
| ThreadList.OnOneListOnly | thread/threadlist.c:99-157 | A node whose links are in order is on one list at most: two lists with different bookends share no node. |
| ThreadList.OffEveryList | thread/threadlist.c:110-115 | A node with clear links is on no list, which is what the assertions before an insertion stand for. |
| SchedulerSafety.InitInv | thread/thread.c:371-421 | The state after start-up, each CPU on its first thread with interrupts off, satisfies the invariant. |
| SchedulerSafety.SplStep | thread/spl.c:86-160 | Raising and lowering the interrupt level keeps the invariant that a CPU accepts interrupts exactly when its current thread has count zero. |
| SchedulerSafety.SpinBeginStep | thread/spinlock.c:75-111 | Going for a spinlock raises the level first, and keeps the invariant. |
| SchedulerSafety.SpinGrabStep | thread/spinlock.c:92-122 | A spinlock is taken only when no CPU holds it: mutual exclusion and the count of held locks are kept. |
| SchedulerSafety.SpinEndStep | thread/spinlock.c:127-142 | Releasing a held spinlock lowers the count once and keeps the invariant. |
| SchedulerSafety.WokenIsAsleep | thread/thread.c:1018-1042 | The thread that a waker moves to a run queue has its sleep recorded and is off every CPU, although joining the channel and recording the sleep are two steps. |
| SchedulerSafety.WakeTakeStep | thread/thread.c:1018-1075 | Taking a sleeper off its channel keeps the invariant. |
| SchedulerSafety.MakeRunnableStep | thread/thread.c:450-482 | Putting a woken thread on the run queue of its own CPU, under that queue's lock, keeps the invariant. |
| SchedulerSafety.ForkStep | thread/thread.c:494-548 | A new thread, with the one lock count it starts with, joins a run queue and keeps the invariant. |
| SchedulerSafety.MigTakeStep | thread/thread.c:873-880 | Taking a thread off the tail of the own run queue for migration keeps the invariant. |
| SchedulerSafety.MigGiveStep | thread/thread.c:882-933 | Giving a migrating thread to the run queue of another CPU, whose lock is held, keeps the invariant. |
| SchedulerSafety.SwitchQueueStep | thread/thread.c:597-616 | The current thread joins the list of its new state; for a sleeper the channel's lock goes here, while the run queue lock is still held; the invariant is kept. |
| SchedulerSafety.SwitchPickStep | thread/thread.c:641-664 | Leaving the old thread for the first of the run queue hands the run queue lock over with its count, and keeps the invariant. |
| SchedulerSafety.SwitchFinishStep | thread/thread.c:713-721 | The thread switched to becomes the running one and releases the lock it was handed. |
| SchedulerSafety.ExorciseStep | thread/thread.c:297-307 | A zombie that is destroyed is the current thread of no CPU, and nothing else refers to it. |
| SchedulerSafety.StepKeeps | thread/thread.c:297-1075 | Every step that any CPU can take, from spl and spinlocks to context switch, wakeup, fork and migration, keeps the invariant on lists, states, locks and interrupt counts, and every assertion on its way holds. |
| SchedulerSafety.RunInv | thread/thread.c:297-1075 | The invariant holds in every state of every run of any number of CPUs from start-up. |
| SchedulerSafety.RunNeverPanics | thread/thread.c:297-1075 | In no run, of callers that keep to the rules for spinlocks and for going to sleep, does an assertion of the scheduler's own fail. |
| SchedulerSafety.ListsMatchStates | thread/thread.c:560-728 | In every state of every run a thread is on one list at most; a ready, sleeping or zombie thread is on exactly the list of its state and a running one on none, but for a thread inside its own switch and a CPU's first thread before its first switch. |
| SchedulerSafety.InterruptsOnMeansClean | thread/spl.c:86-160 | In every state of every run, the idle loop's window apart, interrupts are on exactly when the current thread's count is zero, and then it holds no spinlock and wants none; the count is the locks held and wanted, and one for a raised level. |
| SchedulerSafety.LockCarriedThroughSwitch | thread/thread.c:586-728 | In every state of every run a CPU between queueing its thread and finishing in the next holds its own run queue lock and no other, and a thread off every CPU counts exactly one handed-over lock. |
| SchedulerSafety.OnlyOwnerTakes | thread/thread.c:597-946 | In every run a step of one CPU takes nothing off another's run queue, and puts a thread that is running on no list: the rule the migration model rests on. |
| Semaphore.Semaphore.constructor | thread/synch.c:47-74 | A new semaphore has the count asked for and no sleepers. |
| Semaphore.Semaphore.TestAndTake | thread/synch.c:103-120 | P takes one if and only if the count is positive, and else sleeps behind the other sleepers; it never panics. |
| Semaphore.Semaphore.RecheckP | thread/synch.c:103-120 | A woken thread tests again: it takes one if there is one left, or goes back to sleep. |
| Semaphore.Semaphore.CallV | thread/synch.c:123-135 | V adds one and wakes the first sleeper if there is one; it panics if and only if the 32-bit count would overflow. |
| Semaphore.UnitsConserved | thread/synch.c:88-135 | After any sections that can be taken, the count with the completed Ps is the count before with the Vs. |
| Semaphore.Semaphore.Section | thread/synch.c:88-135 | Each section of P and V in place is the section on values, and a section that cannot be taken, or V at the top of the count, changes nothing. |
| Semaphore.Semaphore.Run | thread/synch.c:88-135 | Any order of sections of P and V, up to the first that cannot be taken, leaves the count, sleepers and woken threads that the sections one by one lead to, with the Vs and the completed Ps counted; there are never more units than woken threads while somebody sleeps, and with nobody on the way nobody sleeps on a positive count. |
| Migration.Cpus.CountQueues | thread/thread.c:856-868 | Counting the queues one lock section at a time: the own queue can only have grown since, and undisturbed the counts are exact. |
| Migration.Cpus.TakeVictims | thread/thread.c:873-880 | Exactly the last n threads of the own queue are taken, in order. |
| Migration.Cpus.Give | thread/thread.c:887-932 | The queue of another CPU is filled up to one share and not over it, the current thread is never given, and the threads given are those that left the hand. |
| Migration.Cpus.ReturnVictims | thread/thread.c:935-946 | What is left in hand goes back to the own queue. |
| Migration.Cpus.ConsiderMigration | thread/thread.c:847-950 | Under any interference of other CPUs between lock sections no thread is lost or doubled, the threads that left the own queue are exactly those reported as moved, none is the current thread, and no receiving queue exceeds one share; undisturbed, the own queue ends at one share or below. |
| VmLoad.BootInv | vm/vm.c:36-116 | After start-up the paging invariant holds and no page of the process is anywhere. |
| VmInvariant.AllocKeeps | vm/kmalloc.c:1227-1296 | A frame from the free list becomes the kernel's, zeroed; nothing of the process changes. |
| VmInvariant.FreeUserFrame | vm/kmalloc.c:1301-1331 | Freeing a frame of the process forgets its page and no other, and removes its translation. |
| VmInvariant.AddPtKeeps | vm/pt.c:80-121 | A kernel frame takes a page of the process that is nowhere yet, with the contents of the frame. |
| VmInvariant.AddTlbKeeps | vm/vm_tlb.c:30-121 | Adding a resident page that has missed never panics and never makes a second entry, although the test for duplicates does not look at slot 0. |
| VmInvariant.RemoveTlbKeeps | vm/vm_tlb.c:180-201 | After removal no entry translates the page, and nothing else has changed. |
| VmInvariant.SwapOutKeeps | vm/swapfile.c:169-222 | Swapping a data page out frees its frame and every page of the process reads as before; the only panic is a full swap file. |
| VmInvariant.SwapInKeeps | vm/swapfile.c:108-167 | Swapping a page in puts it in the first free frame and in the TLB with its contents, and every page reads as before. |
| VmSafety.PageSearchMeaning | vm/pt.c:46-78 | The search by page number alone finds exactly the resident page, except for page 0, for which it finds a kernel frame. |
| VmSafety.EvictDataKeeps | vm/vm.c:263-272 | Evicting the data victim fails exactly when the swap file is full, and else changes the contents of no page. |
| VmSafety.ServiceElsewhere | vm/vm.c:320-402 | A fault outside both segments fails and changes nothing, even on the last data page past the segment's end. |
| VmSafety.ZeroPageFault | vm/vm.c:190-334 | A read fault on page 0 fails; a write fault on it panics. |
| VmSafety.FaultKeeps | vm/vm.c:118-434 | For every fault kind, address and outcome of reading the executable: exactly when the handler panics, fails, ends the process or services the fault, and that it keeps the invariant and the contents of every data page and loads what it should. |
| VmRun.StepSound | vm/vm.c:118-434 | Every step of a process, fault, load, store or context switch, keeps the invariant. |
| VmRun.RunSound | vm/vm.c:118-434 | The invariant holds in every state of every run. |
| VmRun.FramesAndTlb | vm/vm_tlb.c:30-226 | In every reachable state a frame is free or in use and not both, a translation agrees with the page table, a page has one TLB entry at most, and the count of free entries is right. |
| VmRun.OnePlace | vm/swapfile.c:61-222 | In every reachable state a touched data page is in exactly one place, a frame or a swap slot. |
| VmRun.PagesPersist | vm/vm.c:118-434 | Whatever faults do, failed ones included, a touched data page keeps its contents until the process stores into it. |
| VmRun.FlatMemory | vm/vm.c:118-434 | Paging refines a flat memory: after any run of serviced steps every page holds what a memory started as the executable's image and changed only by the stores holds. |
| VmRun.LoadsSeeFlatMemory | vm/vm.c:118-434 | A load returns the last value stored at its address, or the image's. |
| VmLoad.MapRangePanics | vm/addrspace.c:146-254 | Mapping a region panics when there are fewer free frames than pages. |
| VmLoad.LoadEstablishes | vm/addrspace.c:146-290 | Where no region overshoots, loading succeeds if and only if there are frames for it, and then establishes the invariant with a data page resident. |
| VmLoad.OvershootMapsTwice | vm/addrspace.c:205-290 | A program whose data region overshoots into the stack page, with frames enough and below the kernel, is loaded with that page mapped twice, and the invariant is broken. |
| VmLoad.MappedTwiceExactly | vm/addrspace.c:146-290 | With frames enough and below the kernel, loading maps the stack page twice, and breaks the invariant, if and only if the data region overshoots. |
| VmLoad.OvershootExample | vm/addrspace.c:205-290 | A program of 10 code and 110 data pages on a machine of 256 frames gets its stack page mapped twice. |
| VmLoad.FlatFromBoot | vm/vm.c:36-434 | From boot through loading, every run of serviced steps sees the executable's image as a flat memory. |
| VmHistory.StepStats | vm/vmstats.c:44-82 | A step leaves the statistics balanced, but for a fault that fails, which is one short. |
| VmHistory.ShutdownIdentities | vm/vmstats.c:55-69 | Over every run: faults with free and with replacement add up to all faults, ELF and swap reads to all disk reads; and the third identity printed at shutdown is short by exactly the number of failed faults, so that it holds if and only if none failed. |
| VmHistory.VictimIsOldest | vm/pt.c:124-171 | The victim is a valid frame of the process, and the one allocated longest ago while fewer than 2^16 frames have been handed out. |
| VmHistory.OldestExactlyWithinOneEpoch | vm/pt.c:124-171 | When all candidates are among the last 2^16 allocations, the victim is the oldest if and only if no wrap of the 16-bit stamp lies between them. |
| VmWrap.NewestEvictedAfterWrap | vm/pt.c:124-171 | From every state with a free frame, a data page still to be touched and fewer than 2^16 allocations so far there is a run, with its log of allocations, to a state in which the next victim is the frame handed out last of all, though there are other candidates. |
| VmFifo.OldestFromBoot | vm/pt.c:124-171 | In every run from boot, while fewer than 2^16 frames have been handed out, the victim of either kind is the page allocated longest ago, by a log of allocations kept along the run. |
| VmWrap.NewestEvictedFromBoot | vm/pt.c:124-171 | Boot a machine with a frame to spare, load any program with more data pages than are loaded, and such a run of it exists. |
| VmMachine.Memory.FindPage | vm/pt.c:54-78 | The loop finds what the search function says. |
| VmMachine.Memory.FindVictim | vm/pt.c:124-171 | The one-pass loop that keeps the least stamp finds the victim. |
| VmMachine.Memory.AddPageTable | vm/pt.c:88-121 | The entry is set in place as the model says, or the call panics when the model does. |
| VmMachine.Memory.AddTranslation | vm/vm_tlb.c:30-121 | The TLB after the two loops is the model's, and the call panics when the model does. |
| VmMachine.Memory.RemoveTranslation | vm/vm_tlb.c:180-201 | The TLB after removal is the model's. |
| VmMachine.Memory.Invalidate | vm/vm_tlb.c:212-226 | The loop makes every entry invalid and all of them free. |
| VmMachine.Memory.AllocKpage | vm/kmalloc.c:1227-1296 | The first frame of the list becomes the kernel's, or there is none. |
| VmMachine.Memory.FreeKpage | vm/kmalloc.c:1301-1331 | The frame goes back to the top of the list, with its translation removed for a user page. |
| VmMachine.Memory.SwapPageOut | vm/swapfile.c:169-222 | The page is in the first free slot and its frame is free, as the model says. |
| VmMachine.Memory.SwapPageIn | vm/swapfile.c:108-167 | The page is in the first free frame and its slot is free, as the model says. |
| VmMachine.Memory.LoadSegment | syscall/loadelf.c:83-150 | Loading one page, with the fault that the copy may take on the page itself, does what the model says. |
| VmMachine.Memory.HandleFault | vm/vm.c:118-434 | The fault handler in place ends with the outcome and the state that the model gives, for every fault. |
| VmMachine.Memory.DefineRegion | vm/addrspace.c:146-254 | The loading loop maps what the model maps. |
| VmMachine.Memory.Load | vm/addrspace.c:146-290 | Loading both segments and the stack page in place is loading in the model. |
| Bitmap.Bitmap.constructor | lib/bitmap.c:56-90 | A new bitmap is clear, with the bits past its length in use. |
| Bitmap.Bitmap.Alloc | lib/bitmap.c:98-121 | The least clear bit is set and returned; it fails if and only if there is none. |
| Bitmap.Bitmap.Mark | lib/bitmap.c:134-145 | Exactly the given bit is set. |
| Bitmap.Bitmap.Unmark | lib/bitmap.c:147-158 | Exactly the given bit is cleared. |
| Bitmap.Bitmap.IsSet | lib/bitmap.c:161-169 | Says whether the bit is set. |
| PageRefs.FirstClear | vm/kmalloc.c:273-287 | Going through the masks by shifting, the loop finds the least clear bit of a word that is not all ones. |
| PageRefs.ClearUndoesSet | vm/kmalloc.c:275-327 | Freeing the record that was just allocated gives back the very same words. |
| PageRefs.Roots.constructor | vm/kmalloc.c:189-210 | The pool starts with no record in use and no pages. |
| PageRefs.Roots.SearchRoot | vm/kmalloc.c:264-291 | In a root that is not full the two loops find its first free record, and the assertion after them is not reached. |
| PageRefs.Roots.AllocRef | vm/kmalloc.c:253-295 | The first free record of the whole pool is marked; it is returned exactly if its root has or gets a page, and else stays marked. |
| PageRefs.Roots.FreeRef | vm/kmalloc.c:300-334 | Exactly the given record is unmarked; the assertion fails, and nothing is unmarked, if and only if an earlier root without a page has a record in use. |
| Kheap.SizeTable | include/vm.h:55-59 | Each block size divides the page into a whole number of blocks. |
| Kheap.TypeFor | vm/kmalloc.c:848-864 | The smallest block size that fits. |
| KheapWide.LiveApart | vm/kmalloc.c:1160-1203 | Where blocks of several pages lie on pages of their own, two live allocations never overlap, from the first byte to the last. |
| KheapWide.FreeApart | vm/kmalloc.c:866-1015 | There no live allocation overlaps a block on a free list. |
| KheapSafety.LiveUnique | vm/kmalloc.c:1160-1203 | A live address has one size and is a positive multiple of 16. |
| KheapSafety.SubpageAllocKeeps | vm/kmalloc.c:866-1015 | A block of the size that was not live is given and the invariant kept; or nothing, exactly when no block and no page or record is left; or a record is lost, exactly when the last frame is in hand and the record's page would be needed too. |
| KheapSafety.KmallocKeeps | vm/kmalloc.c:1160-1203 | For every size: a block that was not live, as large as was asked for, with everything else as live as before; nothing, a lost record, or a halt, each under its exact condition. |
| KheapWide.CoveredExactly | vm/kmalloc.c:1244-1285 | A block of several pages lies on the pages taken for it if and only if the first frames of the list lie within that many pages of the first. |
| KheapWide.WideApartExactly | vm/kmalloc.c:1244-1285 | A block of whole pages is apart from every other live allocation, to its last byte, if and only if no page from its first frame on is occupied. |
| KheapWide.WideOverlaps | vm/kmalloc.c:1244-1285 | Whenever the page after the first frame has been given out, a block of two pages overlaps it. |
| KheapWide.OrderKeptExactly | vm/kmalloc.c:1244-1285 | Taking n frames leaves every block of several pages on pages of its own if and only if no page it covers behind the first is occupied, or still free afterwards. |
| KheapWide.RunFits | vm/kmalloc.c:1244-1285 | Frames within n pages of the first one are all taken along, so that such a block fits. |
| KheapSafety.KfreeKeeps | vm/kmalloc.c:1206-1220 | Freeing a live allocation ends it alone and keeps the invariant; it is stopped if and only if it would give up a record behind a root that has lost records and no page. |
| KheapRuns.PageReturnedExactly | vm/kmalloc.c:1134-1148 | A heap page goes back to the frames if and only if its last live block is freed. |
| KheapRuns.FreeUndoesAlloc | vm/kmalloc.c:1160-1220 | For up to a page, freeing what was just allocated gives the very same pool, but for a page that has become one for records. |
| KheapRuns.WideNotUndone | vm/kmalloc.c:1206-1331 | Freeing a block of n pages gives back its first page alone: exactly n - 1 pages are lost. |
| KheapRuns.KmallocConserves | vm/kmalloc.c:1160-1203 | Allocating keeps the set of pages, but for those behind the first of a larger block. |
| KheapRuns.KfreeConserves | vm/kmalloc.c:1206-1220 | Freeing keeps the set of pages. |
| KheapRuns.StuckNeedsLeaks | vm/kmalloc.c:300-334 | No free is stopped before at least 256 records have been lost. |
| KheapRuns.StepKeeps | vm/kmalloc.c:1160-1220 | Every call of a client that frees only what is live keeps the invariant and the account of pages, a call that loses a record included. |
| KheapRuns.RunPages | vm/kmalloc.c:1160-1331 | In every state of every run, without any condition: every page is free, in use, or lost behind a larger block, and exactly one of these; live allocations are aligned; and each can be freed unless 256 records are lost. |
| KheapRuns.RunTogether | vm/kmalloc.c:1160-1296 | In a run in which every block of several pages is given frames that lie within that many pages of the first one, all blocks fit. |
| KheapRuns.RunApart | vm/kmalloc.c:1160-1220 | In every state of every run whose blocks of several pages fitted when they were given out, two live allocations are apart in their whole lengths. |
| KheapReached.WideRunOverlaps | vm/kmalloc.c:1160-1331 | On a machine of three frames, two of them neighbours: two pages taken, the first freed, and a block of two pages then lies over the second, which is live. |
| KheapReached.UnfitOverlaps | vm/kmalloc.c:1160-1296 | Whatever the run so far: after a block that does not fit, some number of calls for one page each leads to two live allocations that overlap, so that fitting is the exact condition. |
| KheapReached.StuckRun | vm/kmalloc.c:253-334 | On a machine of two frames: a page taken, 256 blocks of 16 bytes asked for in vain, the page freed, and a block of 16 bytes that is then given cannot be freed: the assertion fails. |
| KheapMachine.Unlink | vm/kmalloc.c:820-842 | The loop unlinks exactly the given record from a list threaded through the records. |
| KheapMachine.FindPage | vm/kmalloc.c:911-917 | The loop finds the first record of the size with a free block. |
| KheapMachine.FindRecord | vm/kmalloc.c:1069-1087 | The loop finds the record whose page the address is on. |
| KheapMachine.Heap.constructor | vm/kmalloc.c:183-210 | An empty heap over a memory that holds the free frames. |
| KheapMachine.Heap.TakeFirst | vm/kmalloc.c:919-939 | The first block of the list threaded through the page is taken, by the link stored in the block itself. |
| KheapMachine.Heap.ThreadPage | vm/kmalloc.c:995-1005 | The loop threads all blocks of a new page from the last to the first, and writes nowhere else. |
| KheapMachine.Heap.SubpageKmalloc | vm/kmalloc.c:866-1015 | The allocation in place, in memory, lists and bitmaps, is that of the model. |
| KheapMachine.Heap.CheckFreeFrame | vm/coremap.c:13-29 | The loop that never moves on counts what the model counts. |
| KheapMachine.Heap.AllocPages | vm/kmalloc.c:1227-1296 | The loop takes the frames that the model takes, and halts if and only if the model does: at the assertion, at the panic, or where the frame list ends. |
| KheapMachine.Heap.Malloc | vm/kmalloc.c:1160-1203 | kmalloc in place is kmalloc of the model, for every size, and halts if and only if the model does. |
| KheapMachine.Heap.RemoveLists | vm/kmalloc.c:814-842 | The record is taken off the list of its size and off the list of all. |
| KheapMachine.Heap.FreeBlock | vm/kmalloc.c:1018-1157 | The block is cleared and put in front of its page's list, or the page and its record go, as in the model; the assertion in freepageref stops it if and only if the model is stopped. |
| KheapMachine.Heap.Free | vm/kmalloc.c:1206-1220 | kfree in place is kfree of the model, for nothing, for every live address and for every address that the assertions refuse; it halts if and only if the model does. |
| KheapMachine.Heap.ClientStore | vm/kmalloc.c:866-1015 | A client that writes anywhere in its own allocation, which may be of several pages, cannot disturb the heap, whose lists live in the same memory. |
| Uio.StoreLoads | lib/uio.c:41-119 | What is stored at distinct addresses is what is loaded from them, and nothing else changes. |
| Uio.Uio.MoveSome | lib/uio.c:60-116 | One round moves bytes of the first buffer in the direction of the request and advances both. |
| Uio.Uio.Move | lib/uio.c:41-119 | uiomove moves exactly n bytes, or what the request has left, to or from its buffers in order; offset, residue and buffers advance by as much. The residue is set up as the interface asks, or n is within it. |
| Uio.Uio.MoveZeros | lib/uio.c:121-145 | uiomovezeros, sixteen bytes at a time, fills n bytes of the buffers with zeros. |
| SfsDisk.InodeRoundTrip | include/kern/sfs.h:80-90 | An inode written to a block reads back as the same inode. |
| SfsDisk.WordsRoundTrip | fs/sfs/sfs_bmap.c:48-198 | The words written to an indirect block are the words read from it. |
| SfsDisk.ZeroInode | fs/sfs/sfs_balloc.c:42-52 | A cleared block reads as an inode of invalid type with nothing in it. |
| SfsOwnership.BmapKeeps | fs/sfs/sfs_bmap.c:39-198 | For every file, block number and request sfs_bmap keeps one owner to every block in use, never panics, leaves all files as they read, and fails with EFBIG or ENOSPC exactly when it must. |
| SfsOwnership.WriteKeeps | fs/sfs/sfs_io.c:119-132 | Writing a mapped block changes that block of that file and nothing else. |
| SfsOwnership.DataBlockAlone | fs/sfs/sfs_bmap.c:39-198 | A data block is no inode and no indirect block, and belongs to one block of one file. |
| SfsTruncate.DiscardMeaning | fs/sfs/sfs_bmap.c:218-240 | Each discarded block is freed once and its pointer cleared; the others stay. |
| SfsTruncate.ItruncKeeps | fs/sfs/sfs_bmap.c:200-302 | sfs_itrunc never panics; every block is freed exactly if the code's bounds discard it, which spares one block past the end in the indirect range, and every other block, file and owner stays. |
| SfsIo.BmapFailsExactly | fs/sfs/sfs_bmap.c:39-198 | Mapping a block for a write fails if and only if the file cannot be that big or the blocks it takes are not there. |
| SfsIo.WriteAnywhere | fs/sfs/sfs_io.c:148-389 | At every offset a write goes to the offset modulo 2^41, the span of 32-bit block numbers: exactly the bytes done change, a prefix is done, and the error is the right one. |
| SfsIo.WriteIsFlat | fs/sfs/sfs_io.c:148-389 | Below 2^41 a write is a write to a flat file: exactly a prefix is done, all of it unless a block could not be had, the size is the larger of the old one and the end, and other files keep their bytes. |
| SfsIo.FlatExactly | fs/sfs/sfs_io.c:148-389 | A write acts as on a flat file if and only if its offset is below 2^41 or lands past the largest block. |
| SfsIo.SpanOverwritesStart | fs/sfs/sfs_io.c:148-389 | At offset 2^41 the start of the file is overwritten, and the size is cut to the bytes written. |
| SfsIo.WriteNothingFails | fs/sfs/sfs_io.c:326-339 | A write of no bytes fails if and only if it starts inside a block that cannot be had. |
| SfsIo.ReadIsFlat | fs/sfs/sfs_io.c:292-389 | A read gives the bytes of the flat file up to the size, and fails only past the largest block. |
| SfsIo.ReadBack | fs/sfs/sfs_io.c:148-389 | A read of the place gets what a completed write put there, if and only if the offset is below 2^41. |
| SfsMachine.LeastIsFirst | fs/sfs/sfs_balloc.c:54-79 | The least clear bit of the freemap is the first free block of the model. |
| SfsMachine.Volume.Balloc | fs/sfs/sfs_balloc.c:54-79 | The first free block is marked and cleared on disk; it fails if and only if the volume is full. |
| SfsMachine.Volume.Bfree | fs/sfs/sfs_balloc.c:81-89 | Exactly the block is unmarked. |
| SfsMachine.Volume.Bused | fs/sfs/sfs_balloc.c:91-102 | Says whether the block is marked. |
| SfsMachine.Volume.Bmap | fs/sfs/sfs_bmap.c:39-198 | sfs_bmap in place is that of the model. |
| SfsMachine.Volume.Itrunc | fs/sfs/sfs_bmap.c:200-302 | The loops of sfs_itrunc in place are the truncation of the model. |
| SfsIoMachine.WritePartial | fs/sfs/sfs_io.c:134-221 | The block is read, changed by the bytes of the request, and written back, as in the model. |
| SfsIoMachine.WriteWhole | fs/sfs/sfs_io.c:223-286 | A whole block goes from the request's buffers to the disk, as in the model. |
| SfsIoMachine.Write | fs/sfs/sfs_io.c:288-389 | sfs_io for a write, from an iovec request to disk, bitmap and inode, is the write of the model, and the request advances by what was done. |
| SfsReadMachine.ReadPartial | fs/sfs/sfs_io.c:134-221 | The part of the block, or zeros for a hole, arrives in the request's buffers. |
| SfsReadMachine.ReadWhole | fs/sfs/sfs_io.c:223-286 | A whole block, or zeros for a hole, arrives in the request's buffers. |
| SfsReadMachine.ReadIo | fs/sfs/sfs_io.c:288-389 | sfs_io for a read puts what the model reads into the buffers of the request, and changes no file. |
| SfsCache.LoadKeeps | fs/sfs/sfs_inode.c:145-256 | Loading an inode in use never panics, changes no file, and gives its one vnode with its current contents. |
| SfsCache.SyncKeeps | fs/sfs/sfs_inode.c:46-61 | After a sync the disk block decodes to the vnode, and no file has changed. |
| SfsCache.ReclaimLinked | fs/sfs/sfs_inode.c:63-143 | Reclaiming a file with links only drops a reference if someone else holds it, and else writes it back and drops the vnode; no file changes. |
| SfsCache.ReclaimUnlinked | fs/sfs/sfs_inode.c:63-143 | Reclaiming the last reference to a file without links returns all its blocks, the one of its inode included, and leaves every other file as it was. |
| SfsCache.ReloadSameInode | fs/sfs/sfs_inode.c:63-256 | Reclaim, then load: the inode is the one that was reclaimed. |
| SfsCache.MakeKeeps | fs/sfs/sfs_inode.c:258-286 | A new file is empty, of the type asked for, without links and with one reference; it fails if and only if the volume is full. |
| SfsTable.LoadMirrors | fs/sfs/sfs_inode.c:145-256 | Loading on the table is one more reference in the reference-count model of the operations on names. |
| SfsTable.SyncMirrors | fs/sfs/sfs_inode.c:46-61 | Syncing on the table is syncing in that model. |
| SfsTable.DecrefMirrors | vfs/vnode.c:89-123 | Letting go on the table, with all that follows from it, is letting go in that model. |
| SfsTable.MakeMirrors | fs/sfs/sfs_inode.c:258-286 | Making an object on the table makes the new file of that model. |
| SfsTable.TouchMirrors | fs/sfs/sfs_bmap.c:39-302 | An operation on a loaded file changes its vnode, and marks it dirty, as in that model. |
| SfsInodeMachine.Table.Search | fs/sfs/sfs_inode.c:159-187 | The search finds the vnode of the inode if there is one, and passes only vnodes in marked blocks. |
| SfsInodeMachine.Table.LoadVnode | fs/sfs/sfs_inode.c:145-256 | sfs_loadvnode in place is loading of the model. |
| SfsInodeMachine.Table.SyncInode | fs/sfs/sfs_inode.c:46-61 | sfs_sync_inode in place is syncing of the model. |
| SfsInodeMachine.Table.ReclaimVnode | fs/sfs/sfs_inode.c:63-143 | sfs_reclaim in place, with truncation, write-back, freeing and removal from the table, is reclaiming of the model. |
| SfsInodeMachine.Table.DecrefVnode | vfs/vnode.c:89-123 | vnode_decref in place is that of the model. |
| SfsDir.EntryRoundTrip | fs/sfs/sfs_dir.c:45-73 | An entry written reads back; a cleared one reads as free. |
| SfsDir.MetaReadIsFlat | fs/sfs/sfs_io.c:391-480 | Within one block a metadata read gives the bytes of the flat file. |
| SfsDir.MetaWriteIsWrite | fs/sfs/sfs_io.c:391-480 | Within one block a metadata write is a write to the flat file. |
| SfsDir.SlotFits | fs/sfs/sfs_dir.c:45-96 | No directory slot crosses a block. |
| SfsDir.FindNameAnswers | fs/sfs/sfs_dir.c:98-147 | A search finds a name if and only if it is there, at its slot, and otherwise a free slot if there is one; it neither fails nor panics. |
| SfsDir.DirLinkKeeps | fs/sfs/sfs_dir.c:149-190 | A new name takes a free or a new slot and every other slot stays; each error under its exact condition. |
| SfsDir.SlotWritesExactly | fs/sfs/sfs_dir.c:58-73 | A directory slot can be written if and only if its block can be mapped: it is there, or the blocks it needs are free. |
| SfsDir.UsedSlotWrites | fs/sfs/sfs_dir.c:192-206 | A slot in use can always be written: no space is needed. |
| SfsDir.DirUnlinkKeeps | fs/sfs/sfs_dir.c:192-206 | Unlinking a slot in use clears that slot alone, takes no block and cannot fail. |
| SfsNames.CountStep | fs/sfs/sfs_vnops.c:349-422 | The link count catches up with the number of names, and cannot overflow its 16 bits. |
| SfsNames.ReleaseStep | vfs/vnode.c:89-123 | Letting go keeps the volume in order; the last reference to a file without links erases it and returns exactly its blocks. |
| SfsOps.NamesLinked | fs/sfs/sfs_dir.c:149-190 | A name entered in a free slot is a name added to the map from names to inodes. |
| SfsOps.NamesUnlinked | fs/sfs/sfs_dir.c:192-206 | A slot cleared is a name taken from that map. |
| SfsOps.LookKeeps | fs/sfs/sfs_dir.c:208-238 | A lookup finds exactly the names in the map and takes a reference; the assertion on the link count holds. |
| SfsOps.LinkKeeps | fs/sfs/sfs_vnops.c:349-385 | sfs_link adds the name to the map and one to the link count, or fails with the right error and changes neither; no file's contents change. |
| SfsOps.CreateKeeps | fs/sfs/sfs_vnops.c:277-347 | sfs_creat opens or refuses a name that is there; a new name gets a new empty file with one link; a failure leaves neither a file, nor a reference, nor a name behind. |
| SfsOps.RemoveKeeps | fs/sfs/sfs_vnops.c:387-422 | sfs_remove takes the name from the map and one from the link count; the last link of a file nobody holds takes the file along and returns exactly its blocks; all other files stay. |
| SfsOps.RenameKeeps | fs/sfs/sfs_vnops.c:424-512 | sfs_rename moves the file to the new name, or leaves the map and all link counts as they were; the recovery path, and the panic in it, are never reached. |
| SfsOps.LinksBounded | fs/sfs/sfs_vnops.c:349-422 | No link count exceeds the number of directory slots, so that no 16-bit count ever wraps. |
| SfsDirMachine.ReadMeta | fs/sfs/sfs_io.c:391-480 | sfs_metaio for a read is that of the model. |
| SfsDirMachine.WriteMeta | fs/sfs/sfs_io.c:391-480 | sfs_metaio for a write is that of the model. |
| SfsDirMachine.FindNameIn | fs/sfs/sfs_dir.c:98-147 | The loop over the slots finds what the search of the model finds. |
| SfsDirMachine.LinkIn | fs/sfs/sfs_dir.c:149-190 | sfs_dir_link in place is that of the model. |
| SfsDirMachine.Mounted.Decref | vfs/vnode.c:89-123 | Letting go in place, down to erasing the file, is letting go in the model. |
| SfsDirMachine.Mounted.LinkName | fs/sfs/sfs_vnops.c:349-385 | sfs_link in place ends as the model says. |
| SfsDirMachine.Mounted.LookUp | fs/sfs/sfs_dir.c:208-238 | sfs_lookonce in place ends as the model says. |
| SfsDirMachine.Mounted.Creat | fs/sfs/sfs_vnops.c:277-347 | sfs_creat in place ends as the model says, with the new file undone where it cannot be entered. |
| SfsDirMachine.Mounted.RemoveName | fs/sfs/sfs_vnops.c:387-422 | sfs_remove in place ends as the model says. |
| SfsDirMachine.Mounted.RenameTo | fs/sfs/sfs_vnops.c:424-512 | sfs_rename in place ends as the model says. |
| SfsRuns.FormattedInv | include/kern/sfs.h:39-98 | A freshly formatted volume of any size is in order: one owner to every block in use, an empty root directory, nothing loaded. |
| SfsReached.WritingNothingFails | fs/sfs/sfs_io.c:326-339 | On every formatted volume of five blocks: get the root, create a file of any name, and a write of no bytes to it at offset 1 fails with ENOSPC; the three calls are a run. |
| SfsRuns.WriteStep | fs/sfs/sfs_vnops.c:112-129 | A write to a held file keeps the whole volume in order and all other files as they are. |
| SfsRuns.TruncateStep | fs/sfs/sfs_vnops.c:245-255 | A truncation of a held file keeps the whole volume in order and all other files as they are. |
| SfsRuns.StepKeeps | fs/sfs/sfs_vnops.c:93-579 | Create, link, look up, remove, rename, read, write, truncate, release and sync each keep the volume in order, and none panics. |
| SfsRuns.RunInv | fs/sfs/sfs_vnops.c:93-579 | The volume is in order in every state of every run of operations on a formatted volume. |
| SfsRuns.RunNeverPanics | fs/sfs/sfs_vnops.c:93-579 | In no such run does an operation panic. |
| SfsRuns.RunOneOwner | fs/sfs/sfs_balloc.c:54-102 | In every state of every run a block is marked in use if and only if there is a use for it, and then there is exactly one. |
| SfsRuns.RunBlocksApart | fs/sfs/sfs_bmap.c:39-198 | In every state of every run no two blocks of files are the same disk block. |
| SfsRuns.RunLinks | fs/sfs/sfs_vnops.c:277-512 | In every state of every run link counts are numbers of names, no name occurs twice, an inode not marked dirty is as on disk, and a file without links is held. |

## Left out

- Uio.Uio.Move: asks that n is within the residue, or that the residue is what the buffers hold, as include/uio.h:93-94 has callers set it up; with a smaller residue and more asked for than it, the code can take more than the residue, which then underflows.
- Uio.Uio.MoveZeros: asks the same of the request as Uio.Uio.Move.
- KheapMachine.Heap.Free: covers no address, live addresses and those the assertions refuse; freeing any other address, which the code does not notice, is left to the client.
- KheapMachine.Heap.ClientStore: asks that the blocks of several pages have fitted, without which a client may write to a page of the heap, and that the word is in memory, which the last pages of such a block need not be.
- VmLoad.MappedTwiceExactly: asks that the pages mapped for the data lie below the kernel; above, mapping can run into the invalid entries of the TLB and panic.
- SchedulerSafety.RunNeverPanics: what the code asserts of its callers is a condition for their steps, not proved of them: no spinlock taken twice by one CPU or released unheld, the channel's lock held at a wakeup, and no other lock held at a switch.
- SchedulerSafety.InterruptsOnMeansClean: the window in which the idle loop turns interrupts on, inside the switch, is not modelled.
- Migration.Cpus.ConsiderMigration: other CPUs act between its lock sections by a fixed set of actions, whose rule, that only a CPU itself takes from its queue, is proved of the scheduler in SchedulerSafety.OnlyOwnerTakes; the two models are not one.
- SfsDirMachine.Mounted.Creat: inodes are marked dirty once per operation if it has changed them, where the code marks at each assignment; likewise for the other operations on names.
- SfsInodeMachine.Table.LoadVnode: kmalloc failure and device errors while loading are not modelled; a vnode is known by its inode number rather than by its address.
- More than one user process, process creation and exit, and the system calls.
- Device errors and the retry loop of block input and output.
- Reading the ELF file: its first pass is taken as writing the image, and its later reads as succeeding, failing or coming up short.
- The frame list is a sequence, and the kmalloc of its own nodes inside alloc_kpages and free_kpages is not modelled.
- The packing of page address and block type into one word of a heap record, and the clearing of pages on allocation as seen by the heap.
- Heap debugging (guard bands, labels, consistency walks) is off in the source and not modelled.
- copyin and copyout faults inside uiomove.
- Locks and condition variables, which are stubs in the source; wait channel names; interprocessor interrupts.
- Path parsing, the VFS layer above a file system, and mounting beyond reading freemap and inodes.
- Reading and writing a directory as a file; only the root directory exists in this file system.

# Dionysus: a model in Dafny

Dionysus is a small x86-64 kernel in C++. This project models the parts of it where the most state meets the
most branching, and proves what they promise for every input, every history or every interleaving.

- **Physical memory.** The buddy allocator (`Bits`, `BuddyBlocks`, `BuddyProvider`, `BuddyClient`), the slab caches
  on top of it (`SlabCache`, `SlabMachine`), the page tables that take their frames from a cache (`PageTables`,
  `AddressSpaces`), and the reference counts of mapped pages (`PageRefs`).
- **Threads and messages.** The semaphore (`Semaphore`, `SemaphoreRuns`), message passing between threads as a
  step system down to single register copies (`Ipc`, `IpcDelivery`, `IpcReceive`, `IpcReply`, `IpcFinish`,
  `IpcGuards`, `Messages`), and the scheduler with its run queues, wait queues and load balancing (`Scheduler`,
  `SchedulerSteps`, `SchedulerRuns`, `SchedulerMachine`).
- **Files.** ext2 file data and growth (`Ext2Layout`, `Ext2Files`, `Ext2Growth`, `Ext2Volume`) and directory
  blocks (`Ext2Directory`, `Ext2DirectoryFile`, `Ext2DirectoryVolume`).
- **Containers and user library.** The AVL tree, on values and on linked cells (`Avl`, `AvlTree`, `AvlNodes`),
  the intrusive rings and their sorted merge (`Rings`, `RingMerge`), and the first-fit heap of user programs
  (`HeapList`, `UserHeap`).
- **Build tool.** The order of ramdisk items (`Dependency`) and the image between the tool that writes it and
  the kernel that reads it (`Ramdisk`).

Each part has a state as a value, functions for its operations and lemmas about them. Where the source updates
things in place, a class does so too and its methods are proved equal to those functions. Some states carry
a record of the past as an ordinary field: where a thread is, which slots are live, who holds a delivery token.
The code never reads such a field.

Where a promise is false of the code, the code is kept and the exact condition is proved: `LoadGuardExact`,
`SendGuardExact`, `InsertExact`, `DuplicateExact`, `InsertRight` of `PageRefs`, `RemoveDataExact`,
`SortByDependency`, `OrderLimit`, `FreeRun`, `UnitsSuffice`, `RangeCovered`, `SwapExact`, `DoMerge`, and `Insert` and `Remove` of
`Ext2DirectoryFile`.

A failed kernel assertion is an outcome of its own (`Panic`, `Stopped`, `Halted`, or a false result) and not a
precondition, except for assertions that are proved never to fail.

## Model

| member | source | states |
|---|---|---|
| `BuddyProvider.OrderCovers` | kern/memory/pmm/buddy_provider.cc:31-35 | rounding up and taking the logarithm as written give two more than its floor, so the order asked for holds more than twice the pages requested and at most four times as many |
| `BuddyProvider.OrderLimit` | kern/memory/pmm/buddy_provider.cc:31-35 | the order exceeds MAX_ORDER, so that allocation stops the kernel, exactly for requests of 2048 pages or more |
| `BuddyBlocks.AddCanonical` | kern/memory/pmm/buddy_provider.cc:171-212 | adding a block with no free buddy keeps the free blocks aligned, in one zone each, disjoint and without a buddy pair |
| `BuddyBlocks.RemoveCanonical` | kern/memory/pmm/buddy_provider.cc:197-200 | taking a block off its list keeps that form |
| `BuddyBlocks.MergeGood` | kern/memory/pmm/buddy_provider.cc:187-204 | the page found by exclusive or is the other half, and the two halves make an aligned block of the next order in the same zone |
| `BuddyBlocks.SplitGood` | kern/memory/pmm/buddy_provider.cc:232-245 | both halves of a split block are aligned blocks of one zone, each the other's only buddy |
| `BuddyBlocks.RunInOneBlock` | kern/memory/pmm/buddy_provider.cc:214-253 | a free aligned run lies inside one free block, so an allocation fails only if there is no such run |
| `BuddyBlocks.BlocksDetermined` | kern/memory/pmm/buddy_provider.cc:171-253 | free blocks in canonical form are determined by the set of free pages alone |
| `BuddyBlocks.CountIsFreePages` | kern/memory/pmm/buddy_provider.cc:136-144 | the counters weighted by block size add up to the number of free pages |
| `BuddyProvider.Provider.DoFree` | kern/memory/pmm/buddy_provider.cc:171-212 | releasing a block adds exactly its pages to the free ones, keeps canonical form, list membership, head marks and counters, and clears the reference counts of exactly those pages |
| `BuddyProvider.Provider.Coalesce` | kern/memory/pmm/buddy_provider.cc:186-211 | the coalescing loop ends in canonical form with the pages it set out to free |
| `BuddyProvider.Provider.DoAllocate` | kern/memory/pmm/buddy_provider.cc:214-253 | the block given is the front one of the list of the smallest sufficient order, was free, and exactly its pages stop being free; nothing is given exactly if no free aligned run of that order exists |
| `BuddyProvider.Provider.Split` | kern/memory/pmm/buddy_provider.cc:232-245 | splitting gives back everything but the block of the order asked for |
| `BuddyProvider.LargestFit` | kern/memory/pmm/buddy_provider.cc:123-127 | the inner loop finds the largest power of two that fits |
| `BuddyProvider.Provider.FreeRun` | kern/memory/pmm/buddy_provider.cc:98-134 | freeing a range frees exactly its pages, in canonical form; its order assertion fails exactly if the range holds an aligned block of 8192 pages |
| `BuddyProvider.Provider.ReleaseUp` | kern/memory/pmm/buddy_provider.cc:109-120 | the first loop releases aligned blocks of growing size and leaves less than one block of the order reached |
| `BuddyProvider.Provider.ReleaseDown` | kern/memory/pmm/buddy_provider.cc:122-132 | the second loop releases all that is left, in aligned blocks of falling size |
| `BuddyProvider.Provider.Allocate` | kern/memory/pmm/buddy_provider.cc:81-96 | the result is n contiguous pages that were free, and exactly those stop being free; it is null exactly if no run of the rounded order is free, and the kernel stops exactly from 2048 pages on |
| `BuddyProvider.Provider.FreeCount` | kern/memory/pmm/buddy_provider.cc:136-144 | the count equals the number of free pages |
| `BuddyProvider.HistoryConserves` | kern/memory/pmm/buddy_provider.cc:81-134 | over every history of allocate and free no page is both free and held, and free pages plus held pages stay the same |
| `BuddyProvider.HistoryForgotten` | kern/memory/pmm/buddy_provider.cc:171-253 | two histories that leave the same pages held leave the same free blocks |
| `BuddyClient.Serve` | kern/memory/pmm/buddy_provider.cc:81-134 | whatever a client asks of the provider and gives back, its pages and the free ones are apart and together those free at the start, and once all is given back the free blocks are exactly those of the start |
| `Semaphore.KernelSemaphore.WaitLocked` | kern/libs/kbl/lock/semaphore.cc:13-25 | a permit is taken if there is one, else the caller joins the queue at the back; an expired deadline changes nothing |
| `Semaphore.KernelSemaphore.SignalLocked` | kern/libs/kbl/lock/semaphore.cc:27-41 | the first waiter is woken, or the count goes up if nobody waits |
| `Semaphore.KernelSemaphore.TryWaitLocked` | kern/libs/kbl/lock/semaphore.cc:66-76 | a permit is taken exactly if there is one, and nobody joins the queue |
| `Semaphore.KernelSemaphore.TimeoutWaiter` | kern/task/thread/wait_queue.cc:201-210 | a waiter that times out leaves the queue and takes no permit |
| `SemaphoreRuns.SemaphoreLaw` | kern/libs/kbl/lock/semaphore.cc:13-76 | after every run: initial count plus signals equals current count plus grants, a positive count means no waiter, and the k-th grant went to the k-th caller that did not give up |
| `Ipc.TokenStep` | kern/task/thread/ipc_state.cc:193-283 | no step of any thread, down to single register copies, makes or loses a delivery token, and the wait queues hold exactly the waiting threads; what a receive accepts is stated by `IpcReceive.CheckExact` |
| `IpcDelivery.TokenLaw` | kern/task/thread/ipc_state.cc:193-264 | in every state of every interleaving e + f + senders in their copy + receiver before its store is one, unless a message was rejected and the token lost |
| `IpcDelivery.ExclusiveCopy` | kern/task/thread/ipc_state.cc:193-216 | a sender inside its copy is the only writer of the registers, and their owner is not reading |
| `IpcDelivery.DeliveryLaw` | kern/task/thread/ipc_state.cc:193-264 | in every run that keeps to the guards below on loads and on sends, messages are stored once each, unchanged, in the order senders got room |
| `IpcDelivery.OneWayDelivers` | kern/task/thread/ipc_state.cc:193-264 | rules on calls alone suffice for that, in every interleaving: no thread that loads or sends is ever sent to, and each send has a load of that thread before it |
| `IpcReply.RepliesDelivered` | kern/task/thread/ipc_state.cc:193-264 | so do turns: one client that loads, sends and receives and one server that receives, loads and sends, over and over, store every request and every reply as it was loaded, in every interleaving |
| `IpcDelivery.UnreadIntact` | kern/task/thread/ipc_state.cc:193-264 | in every run that keeps to the guards, a delivered message not yet stored stands in the registers as its sender loaded it |
| `IpcReceive.CheckExact` | kern/task/thread/ipc_state.cc:218-240 | receiving takes the message exactly if its tag announces an item and it comes from the thread asked for, if one was; else the kernel stops, and registers and semaphores stay as they are |
| `IpcReceive.StoredFromAsked` | kern/task/thread/ipc_state.cc:218-264 | in every run, what a thread stores after receiving from a given thread came from that thread |
| `IpcReceive.QueuedLast` | kern/task/thread/ipc_state.cc:193-198 | a sender that finds no room waits behind those that wait already, and changes nothing else |
| `IpcReceive.TimeOutStops` | kern/task/thread/ipc_state.cc:193-223 | a wait that times out stops the kernel, and no permit, token or register changes hands |
| `IpcGuards.LoadGuardExact` | kern/task/thread/ipc_state.cc:242-251 | however deliveries are finished after a load, receivers store only what was let in to them: this holds for every message loaded exactly if no delivery to the loading thread has a register copied or is unread |
| `IpcGuards.LoadStoresWrong` | kern/task/thread/ipc_state.cc:242-251 | where that guard fails, in every good state, a message and a continuation are given after which the thread has stored what was never let in to it |
| `IpcGuards.SendGuardExact` | kern/task/thread/ipc_state.cc:193-216 | loading a message and sending it destroys no message, unread or still to be sent, however deliveries are finished: this holds for every message exactly if the room of the sender is free and the send lets nobody in to a thread whose own message is still to be copied |
| `IpcGuards.SendKeepsExact` | kern/task/thread/ipc_state.cc:193-216 | one send keeps the delivery invariant exactly if the loaded message still stands in the registers of the sender with its room free, and the send lets nobody in to a thread whose own message is still to be copied |
| `IpcGuards.SendStoresWrong` | kern/task/thread/ipc_state.cc:193-264 | where a delivery is let in to a thread still waiting or copying, and the receiver of that thread can take what is due before, some message makes that receiver store what was never loaded |
| `IpcGuards.SendUnderStoresWrong` | kern/task/thread/ipc_state.cc:193-264 | where a thread loads and sends while somebody is let in to it, its receiver stores a message it never loaded |
| `IpcFinish.Serve` | kern/task/thread/ipc_state.cc:193-264 | a waiting sender can be let in, once those before it are served in their order, from every state in which their messages can be taken |
| `IpcGuards.DeliveryToSenderCorrupts` | kern/task/thread/ipc_state.cc:193-264 | the law fails from the start without the guard on sends: three threads, of which one is let in to another that is sending, and the third stores a message nobody loaded |
| `Messages.Message.AppendUntyped` | include/task/ipc/public/messages.hpp:474-487 | an untyped item goes to the end of the untyped items, and the typed ones keep their order behind them |
| `Messages.Message.AppendSingle` | include/task/ipc/public/messages.hpp:489-493 | a typed item of one register goes to the end of the typed items |
| `Messages.Message.AppendDouble` | include/task/ipc/public/messages.hpp:495-504 | a typed item of two registers goes to the end of the typed items |
| `Messages.Build` | include/task/ipc/public/messages.hpp:474-504 | any mix of appends that fits 63 registers leaves all untyped items in order, then all typed ones in order |
| `Messages.Load` | kern/task/thread/ipc_state.cc:242-251 | a loaded message reads the same from the thread's registers |
| `Messages.Store` | kern/task/thread/ipc_state.cc:253-264 | a stored message reads as the registers did |
| `Messages.Deliver` | kern/task/thread/ipc_state.cc:193-264 | load, copy and store give the receiver the same tag and items |
| `UserHeap.UnitsSuffice` | libs/user/memory/heap.cc:69 | the units asked for hold the bytes exactly if the rounding does not wrap around 64 bits, and are then the fewest that do |
| `HeapList.StopsAt` | libs/user/memory/heap.cc:43-46 | on a well-formed list the walk stops at exactly one entry, the one before the block |
| `HeapList.CoalesceKeeps` | libs/user/memory/heap.cc:48-61 | all four coalescing cases keep one circular list in address order through the base, with no two free blocks adjacent |
| `HeapList.CoalesceCells` | libs/user/memory/heap.cc:48-61 | they free exactly the cells of the block |
| `HeapList.ReleaseAll` | libs/user/memory/heap.cc:40-63 | releasing a block keeps list and live blocks in order, frees exactly its cells, and leaves a block that fits its size |
| `HeapList.TakeWhole` | libs/user/memory/heap.cc:82-83 | unlinking a block of the exact size keeps the list well formed |
| `HeapList.TakeTail` | libs/user/memory/heap.cc:84-89 | taking the tail of a larger block keeps the list well formed |
| `HeapList.ListDetermined` | libs/user/memory/heap.cc:40-63 | two well-formed free lists over the same free cells are the same list with the same sizes |
| `UserHeap.Heap.Walk` | libs/user/memory/heap.cc:43-46 | the walk ends, at the entry before the block, from wherever it starts |
| `UserHeap.Heap.HeapFree` | libs/user/memory/heap.cc:40-63 | exactly the cells of the block become free, it stops being live, the next search starts at the entry before it, the list stays well formed and disjoint from live blocks, and the cells supplied stay exactly the free and the live ones |
| `UserHeap.Heap.Take` | libs/user/memory/heap.cc:80-92 | the block taken is the tail of the block found, its cells were free, and exactly they stop being free |
| `UserHeap.Heap.Expand` | libs/user/memory/heap.cc:35-37 | the units granted join the free cells, and a block of the size asked for is then there |
| `UserHeap.Heap.Round` | libs/user/memory/heap.cc:78-98 | once round the list the loop finds the first block that is large enough, counted from the entry after the last one used, and none exactly if no free block fits |
| `UserHeap.Heap.Search` | libs/user/memory/heap.cc:78-100 | the loop ends; it takes the tail of the first block that fits, if one fits before any growth, its cells were free or just granted, and it finds nothing exactly if no free block fits and no memory is granted |
| `UserHeap.Heap.HeapAlloc` | libs/user/memory/heap.cc:65-101 | first fit: if a free block fits, the tail of the first one after the place of the last call is given; the block is new, its cells were free or granted, no other cell changes, null comes back exactly if nothing fits and nothing is granted, and over every history the cells supplied are exactly the free and the live ones |
| `UserHeap.Heap.Forgotten` | libs/user/memory/heap.cc:40-101 | two heaps with the same cells supplied and the same live blocks have the same free list, whatever calls led there |
| `Scheduler.PickNextFacts` | kern/task/scheduler/scheduler.cc:388-404 | there is always a thread to fetch, the one fetched is ready as switching asserts, and only the idle thread can be fetched while current |
| `Scheduler.RescheduleKeeps` | kern/task/scheduler/scheduler.cc:188-202 | rescheduling keeps every thread in the place its state says |
| `Scheduler.StealRight` | kern/task/scheduler/fcfs/fcfs.cc:84-142 | stealing finds nothing exactly if no queued thread is eligible; else it takes one bound to the thief if there is one, else a softly bound one if there is one |
| `Scheduler.InsertExact` | kern/task/scheduler/scheduler.cc:321-330 | inserting a new thread keeps the queues in order exactly if it is bound to no CPU: one bound to this CPU breaks the links of the queue, and one bound to another stops the kernel |
| `Scheduler.BoundThreadBreaks` | kern/task/scheduler/scheduler.cc:321-330 | for every run queue kept as an intrusive ring: inserting a thread bound to this CPU links it twice and leaves no ring of whatever threads, while an unbound one gives the ring of the next state |
| `Rings.AddTwice` | kern/libs/kbl/include/kbl/data/list.hpp:566-580 | an item added at the tail a second time points back to itself, and under the head there is no ring any more |
| `Rings.TwiceNeverLeaves` | kern/libs/kbl/include/kbl/data/list.hpp:587-609 | from an empty list an item added twice never goes: taking out the front leaves the head on it, and again changes nothing |
| `Rings.HookedFront` | kern/libs/kbl/include/kbl/data/list.hpp:587-609 | where items stand before an item added twice, taking them out from the front leaves the ring broken until the last of them goes, and then there is a ring of that item |
| `Scheduler.StepKeeps` | kern/task/scheduler/scheduler.cc:132-406 | every step, from starting a thread to balancing, keeps the placement invariant; what each step does is stated by the lemmas of `SchedulerSteps` |
| `SchedulerRuns.OneSlot` | kern/task/scheduler/scheduler.cc:188-406 | in a good state a thread is in one slot at most, of the kind its state says, and in one exactly if it is started and not gone |
| `SchedulerSteps.RescheduleServes` | kern/task/scheduler/scheduler.cc:188-202 | the current thread, if it can run on, goes ready behind the queue, a dying one goes nowhere, the front of that line runs, and no other thread, queue or CPU changes |
| `SchedulerSteps.YieldSteps` | kern/task/scheduler/scheduler.cc:188-202 | a reschedule as a step of a run does just that |
| `SchedulerSteps.BlockSteps` | kern/task/thread/wait_queue.cc:60-121 | a thread that blocks goes behind those that wait already, with what it waits for and no code, and the front of the run queue runs |
| `SchedulerSteps.WakeOneSteps` | kern/task/thread/wait_queue.cc:134-157 | nothing happens if nobody waits; else the longest waiter goes behind the run queue with the code, and the CPU is rescheduled exactly if asked for and the thread is bound to it; the kernel stops exactly if it is bound to another CPU |
| `SchedulerSteps.WakeAllSteps` | kern/task/thread/wait_queue.cc:159-182 | all waiters go behind the run queue in their order, each with the code, and the CPU is rescheduled if asked for; the kernel stops exactly if one is bound to another CPU |
| `SchedulerSteps.TimeOutSteps` | kern/task/thread/wait_queue.cc:26-49 | a blocked reader stays; any other thread leaves its wait queue, whose others keep their order, and goes behind the run queue with the code, no other thread changing before the reschedule; that comes exactly if it is bound to this CPU, and the kernel stops exactly if it is bound to another |
| `SchedulerSteps.ExitSteps` | kern/task/thread/thread.cc:589-619 | the current thread is dying and all who joined it are woken in order with its code; the kernel stops exactly if one of them is bound to another CPU |
| `SchedulerSteps.StartSteps` | kern/task/scheduler/scheduler.cc:321-330 | a new thread bound to no CPU goes to the back of the run queue and nothing else changes |
| `SchedulerSteps.StealPrefers` | kern/task/scheduler/fcfs/fcfs.cc:84-142 | in a good state stealing finds nothing exactly if the queue holds only idle and initial threads; else it takes the last one bound to the thief, else the last softly bound, else the last |
| `SchedulerSteps.BalanceSteps` | kern/task/scheduler/scheduler.cc:246-289 | if the queue of the victim holds none to take, the CPU is only rescheduled; else exactly the preferred thread leaves that queue, whose others keep their order, and stands last in the line that the reschedule then serves |
| `SchedulerSteps.TickSteps` | kern/task/scheduler/scheduler.cc:132-173 | the preferred thread moves exactly if the longest queue exceeds the shortest by two and holds one to take; the kernel stops exactly if it would go to another CPU |
| `SchedulerRuns.StepLosesNone` | kern/task/scheduler/scheduler.cc:132-406 | no step loses a started thread or changes its kind or binding |
| `SchedulerRuns.PlacementLaw` | kern/task/scheduler/scheduler.cc:188-406 | in every state of every run each started thread that is not dying is in exactly one slot, current, run queue or the wait queue it blocks on, and its state matches |
| `SchedulerMachine.WakeAllIsEach` | kern/task/thread/wait_queue.cc:159-182 | waking all waiters equals waking them one after the other, and stops the kernel if one of them would |
| `SchedulerMachine.Machine.Reschedule` | kern/task/scheduler/scheduler.cc:368-406 | the code serves the line: the current thread, if it can run on, goes behind the queue, and its front runs; no other thread, queue or CPU changes |
| `SchedulerMachine.Machine.Dispatch` | kern/task/scheduler/scheduler.cc:388-404 | fetching and switching keep the invariant, and the assertion in the switch holds |
| `SchedulerMachine.Machine.Block` | kern/task/thread/wait_queue.cc:60-121 | the current thread joins the wait queue and the next one runs, invariant kept |
| `SchedulerMachine.Machine.WakeAll` | kern/task/thread/wait_queue.cc:159-182 | the two loops wake every waiter in order, or fail exactly if one is bound to another CPU |
| `SchedulerMachine.Machine.Steal` | kern/task/scheduler/fcfs/fcfs.cc:84-142 | the three scans from the back find the choice stated, and only that thread leaves the queue |
| `SchedulerMachine.Machine.Busiest` | kern/task/scheduler/scheduler.cc:264-273 | the loop finds the first CPU of the longest queue among CPU 0 and the others |
| `SchedulerMachine.Machine.Idle` | kern/task/scheduler/scheduler.cc:246-289 | one turn of the idle loop takes the preferred thread of the first longest queue, if there is one to take, into the line of this CPU, reschedules, changes nothing else and keeps the invariant |
| `PageTables.SamePageIff` | include/system/mmu.h:20-38 | three indices agree exactly if the page numbers agree modulo the 2^27 pages of a 48-bit space |
| `PageTables.WordSplit` | kern/memory/vmm/paging.cc:63-67 | removing the flags of an entry gives back the base it was made of |
| `PageTables.DirUnique` | kern/memory/vmm/paging.cc:109-205 | a last-level table is reached at one pair of upper indices, and in the user half under one root |
| `PageTables.WalkKeeps` | kern/memory/vmm/paging.cc:109-205 | a creating walk keeps the tables a tree and stops the kernel exactly if the pool lacks the missing tables |
| `PageTables.WalkLookup` | kern/memory/vmm/paging.cc:109-205 | it changes no translation under any root |
| `PageTables.WalkWrites` | kern/memory/vmm/paging.cc:109-205 | the only entries it writes are the absent ones on its way, each with a frame of the pool and the flags present, user and those given; a present entry is never changed |
| `PageTables.MapPageCode` | kern/memory/vmm/paging.cc:208-227 | a mapped page is never overwritten: the rewrite error comes exactly then; the kernel stops exactly if tables are missing and the pool is short |
| `PageTables.MapPageLookup` | kern/memory/vmm/paging.cc:208-227 | for every root and address: on success the address goes to exactly the physical address given, with the flags large page, present, user and those given, under the roots that share the table, and nothing else changes |
| `PageTables.MapPagesLookup` | kern/memory/vmm/paging.cc:229-251 | mapping a range changes a root's translations exactly for the pages done: page k goes to the physical start plus k page sizes with the flags of a mapped page, for ranges up to 2^48 bytes |
| `PageTables.MapPagesCode` | kern/memory/vmm/paging.cc:229-251 | success means the whole range was unmapped and is mapped; else the page reached was mapped before, or the kernel stops there for want of a table |
| `PageTables.MapPagesApart` | kern/memory/vmm/paging.cc:229-251 | under another root no user-half translation changes |
| `AddressSpaces.MapPagesShared` | kern/memory/vmm/paging.cc:229-251 | under every root: those that share the table of page k of the pages done translate it to the physical start plus k page sizes with the flags of a mapped page, and no other translation changes |
| `AddressSpaces.DuplicateExact` | kern/memory/vmm/paging.cc:323-331 | copying a root keeps the tables in order exactly if its user half is empty |
| `AddressSpaces.DuplicateSharesUser` | kern/memory/vmm/paging.cc:323-331 | the failing input: after copying a root with one user table both roots lead to that table |
| `AddressSpaces.DuplicateLeaksExact` | kern/memory/vmm/paging.cc:323-331 | what a caller sees: a page mapped later under the copy is translated under the original exactly if that had a table for this part of the address space |
| `AddressSpaces.DuplicateLookup` | kern/memory/vmm/paging.cc:323-331 | the copy translates as the kernel root does, and every other root as before |
| `AddressSpaces.CopyDoes` | kern/memory/vmm/paging.cc:323-331 | a copy as a step of a history is a new root that translates as the kernel's |
| `AddressSpaces.MapDoes` | kern/memory/vmm/paging.cc:229-251 | a mapping as a step of a history sends page k to the physical start plus k page sizes, as far as it gets, and leaves the rest of that root alone |
| `AddressSpaces.Isolation` | kern/memory/vmm/paging.cc:109-331 | over any history of copies and mappings, the user half of an address space nobody maps under translates as it did |
| `AddressSpaces.RangeCovered` | kern/memory/vmm/paging.cc:310-316 | the range mapped reaches the end of the one given exactly if the offset of its start fits in what rounding the length adds |
| `AddressSpaces.Paging.WalkPgdir` | kern/memory/vmm/paging.cc:109-205 | the code walks as stated, stops of the kernel included; without creation it only reads and finds a table exactly if there is one |
| `AddressSpaces.Paging.MapOne` | kern/memory/vmm/paging.cc:208-227 | the code leaves the tables and returns the code for which `MapPageLookup`, `MapPageCode` and `WalkWrites` state the translations, the outcome and the entries written, stops of the kernel included |
| `AddressSpaces.Paging.MapMany` | kern/memory/vmm/paging.cc:229-251 | the loop leaves the tables and returns the code for which `MapPagesLookup`, `MapPagesShared` and `MapPagesCode` state the translations and the outcome, stops of the kernel included |
| `PageRefs.DetachRight` | kern/memory/pmm/pmm.cc:202-215 | clearing an entry keeps every count right and frees its page exactly if that was the last entry naming it |
| `PageRefs.InsertRight` | kern/memory/pmm/pmm.cc:157-192 | insertion keeps every count equal to the number of entries naming the page exactly if it is not refused, and a refusal leaves that of the page one too high; it is refused exactly if another page stands there and rewriting is not allowed; success frees the page replaced exactly if that was its last entry; the kernel stops exactly if tables are missing and the pool is short |
| `PageRefs.InsertLookup` | kern/memory/pmm/pmm.cc:157-192 | for every root and address: on success the address goes to the page, with the flags large page, present and those given, under the roots that share the table, and in every outcome no other translation changes |
| `PageRefs.RefusedCountsWrong` | kern/memory/pmm/pmm.cc:169-176 | the failing input: a page refused where another is mapped has its count raised all the same |
| `PageRefs.RemoveRight` | kern/memory/pmm/pmm.cc:217-224 | removal keeps every count right, frees exactly at the last entry, and leaves the address unmapped |
| `PageRefs.RemoveLookup` | kern/memory/pmm/pmm.cc:217-224 | for every root and address: the address is unmapped under the roots that share the table, and no other translation changes |
| `PageRefs.RefLaw` | kern/memory/pmm/pmm.cc:157-224 | with rewriting allowed, over any history in any number of directories, counts are right and each step frees a page exactly if its number of entries falls to zero |
| `PageRefs.PageManager.Insert` | kern/memory/pmm/pmm.cc:157-192 | the code leaves the tables, counts and result for which `InsertRight` and `InsertLookup` state counts, outcome and translations, stops of the kernel included |
| `PageRefs.PageManager.Remove` | kern/memory/pmm/pmm.cc:217-224 | the code leaves the tables, counts and result for which `RemoveRight` and `RemoveLookup` state counts and translations |
| `SlabCache.AllocRight` | kern/memory/pmm/kmem.cc:249-294 | the object given was not live and only it becomes live; the kernel stops exactly if every slab is full and no page is to be had |
| `SlabCache.AllocFrom` | kern/memory/pmm/kmem.cc:249-294 | the object is the next free slot of the first partly used slab, else of the first unused one, else slot zero of a new slab, made exactly if no slab has room; no other slab changes |
| `SlabCache.AllocLists` | kern/memory/pmm/kmem.cc:249-294 | the slab taken from goes to the front of the list its new count asks for, and the others keep their order |
| `SlabCache.FreeRight` | kern/memory/pmm/kmem.cc:317-343 | exactly the object freed stops being live, and its slab is on a list that the search covers |
| `SlabCache.FreeInto` | kern/memory/pmm/kmem.cc:317-343 | the slot freed is the next one its slab gives, the slab goes to the front of its list, and no other slab changes |
| `SlabCache.AllocFree` | kern/memory/pmm/kmem.cc:249-343 | freeing what was just allocated gives its slab back as it was, chain and array included |
| `SlabCache.ShrinkRight` | kern/memory/pmm/kmem.cc:345-362 | shrinking gives back exactly the slabs with no live object and leaves the others as they are |
| `SlabCache.WalkVisitsFree` | kern/memory/pmm/kmem.cc:274-277 | the walk from next_free visits exactly the slots that are not live, each once, and ends |
| `SlabMachine.CacheLaw` | kern/memory/pmm/kmem.cc:249-362 | over any history chains and lists stay right, cache and callers agree on what is live, and no object is handed out while held |
| `SlabMachine.KmemCache.GrowBy` | kern/memory/pmm/kmem.cc:72-119 | a new slab has all its slots chained |
| `SlabMachine.KmemCache.AllocObject` | kern/memory/pmm/kmem.cc:249-294 | the code allocates as stated, stops of the kernel included |
| `SlabMachine.KmemCache.Find` | kern/memory/pmm/kmem.cc:147-169 | a slab is found exactly if it is not on the free list |
| `SlabMachine.KmemCache.FreeObject` | kern/memory/pmm/kmem.cc:317-343 | the code frees as stated, and the slab is found |
| `SlabMachine.KmemCache.ShrinkAll` | kern/memory/pmm/kmem.cc:345-362 | the loop shrinks as stated and counts the slabs |
| `Ext2Layout.PutAddressAt` | kern/fs/ext2/inode/index.cc:112-121 | storing an address in an indirect block changes that address only |
| `Ext2Layout.SetBitAt` | kern/fs/ext2/block/block.cc:95-100 | setting a bit of a bitmap changes that bit only |
| `Ext2Files.PutDataByte` | kern/fs/ext2/inode/inode.cc:282-294 | writing a data block changes that block of that file and no other byte of any file |
| `Ext2Growth.ClaimKeeps` | kern/fs/ext2/block/block.cc:92-124 | claiming a clear block changes no file; the block was in use nowhere, and exactly it stops being available |
| `Ext2Growth.EnterKeeps` | kern/fs/ext2/inode/index.cc:90-129 | entering a block past the end changes no file and no other entry |
| `Ext2Growth.AdoptKeeps` | kern/fs/ext2/inode/index.cc:98-110 | taking an indirect block over changes no file |
| `Ext2Volume.SplicedRead` | kern/fs/ext2/vnode.cc:661-835 | what is written is read back, other bytes are as before, and a write at the end appends |
| `Ext2Volume.Ext2.BlockAlloc` | kern/fs/ext2/block/block.cc:61-132 | the block given is the first clear one of the first group with free blocks; none exactly if none is available |
| `Ext2Volume.Ext2.SetIndex` | kern/fs/ext2/inode/index.cc:75-149 | the entry is set, with an indirect block claimed if needed; it fails exactly if the index is out of range or that block cannot be had |
| `Ext2Volume.Ext2.Resize` | kern/fs/ext2/inode/resize.cc:84-110 | growing succeeds exactly if the size is in range and enough blocks are available; no byte of any file changes |
| `Ext2Volume.Ext2.Read` | kern/fs/ext2/vnode.cc:661-733 | the bytes at the position come back, as many as asked for and there; end of file exactly past the end |
| `Ext2Volume.Ext2.WriteRun` | kern/fs/ext2/vnode.cc:784-818 | one turn of the loop changes exactly the bytes of its run |
| `Ext2Volume.Ext2.Write` | kern/fs/ext2/vnode.cc:735-835 | a successful write replaces exactly the bytes from pos to pos + len, grows the file if needed and changes no other file; each error comes exactly in its case and changes no byte |
| `Ext2Directory.SplitTiles` | kern/fs/ext2/directory/directory.cc:64-83 | an insertion keeps the entries tiling the block, each with room for its name and all other bytes as they were |
| `Ext2Directory.SplitLive` | kern/fs/ext2/directory/directory.cc:64-83 | it adds exactly the one live entry |
| `Ext2Directory.JoinTiles` | kern/fs/ext2/directory/directory.cc:203-216 | a removal that joins an entry to the one before keeps the entries tiling the block |
| `Ext2Directory.JoinLive` | kern/fs/ext2/directory/directory.cc:203-216 | it takes away exactly the one live entry |
| `Ext2DirectoryFile.Directory.FindSpace` | kern/fs/ext2/directory/directory.cc:50-85 | the scan of a block ends and finds the first entry with room |
| `Ext2DirectoryFile.Directory.Insert` | kern/fs/ext2/directory/directory.cc:29-160 | the directory gains exactly the one entry, with its inode, name and type, in the first block with room or in a new one if there is none, and no other block changes; a failed growth passes its code on, a type above 7 is refused on typed volumes, and the directory stays well formed exactly if it did not grow before such a refusal or the block claimed happens to be tiled |
| `Ext2DirectoryVolume.InsertEntry` | kern/fs/ext2/directory/directory.cc:29-160 | on a directory in a file of the volume the outcome follows from the room in the directory and on the volume; file and directory agree after it in every outcome, and no other file changes |
| `Ext2DirectoryFile.ZeroBlockBroken` | kern/fs/ext2/directory/directory.cc:93-140 | the failing input: a claimed block of zeros is not tiled, so a refusal after growing leaves a directory that cannot be read to its end |
| `Ext2DirectoryFile.Directory.Remove` | kern/fs/ext2/directory/directory.cc:163-242 | the directory loses exactly the first entry with the inode number, and no other block changes; it fails exactly if there is none, its name does not match, or it is the first of several in its block |
| `Ext2DirectoryFile.FirstOfTwoStays` | kern/fs/ext2/directory/directory.cc:217-223 | the failing input: of two entries in a block the first cannot be removed |
| `Avl.FindRight` | kern/libs/kbl/include/kbl/data/avl_tree.hpp:234-254 | search agrees with the items in key order |
| `Avl.RotateItems` | kern/libs/kbl/include/kbl/data/avl_tree.hpp:47-73 | rotations keep the items and their order |
| `Avl.InsertItems` | kern/libs/kbl/include/kbl/data/avl_tree.hpp:94-152 | insertion adds the item in its place, or nothing if the key is there |
| `Avl.InsertShape` | kern/libs/kbl/include/kbl/data/avl_tree.hpp:94-152 | insertion keeps heights exact and siblings within one, and grows the height by one at most |
| `Avl.RemoveItems` | kern/libs/kbl/include/kbl/data/avl_tree.hpp:154-232 | removal deletes the key; where the node has two children the next key is left with its data |
| `Avl.RemoveShape` | kern/libs/kbl/include/kbl/data/avl_tree.hpp:154-232 | removal keeps heights exact and siblings within one, and lowers the height by one at most |
| `AvlTree.InsertRight` | kern/libs/kbl/include/kbl/data/avl_tree.hpp:94-152 | order, heights and balance hold, the key set gains exactly the key, the size follows, and every search result is as stated |
| `AvlTree.RemoveRight` | kern/libs/kbl/include/kbl/data/avl_tree.hpp:154-232 | order, heights and balance hold, the key set loses exactly the key, and the size follows |
| `AvlTree.RemoveDataExact` | kern/libs/kbl/include/kbl/data/avl_tree.hpp:187-193 | other keys keep their data exactly if the removed node has fewer than two children or the next key has the same data |
| `AvlTree.RemoveShiftsData` | kern/libs/kbl/include/kbl/data/avl_tree.hpp:187-193 | the failing input: keys 2, 1 and 3 put in, key 2 removed, and key 3 has the data of key 2 |
| `AvlTree.HeightLogarithmic` | kern/libs/kbl/include/kbl/data/avl_tree.hpp:94-232 | two to half the height is at most the size plus one |
| `AvlNodes.AvlMap.RightRotate` | kern/libs/kbl/include/kbl/data/avl_tree.hpp:47-59 | on linked cells the rotation builds the rotated tree from the same cells and touches no other |
| `AvlNodes.AvlMap.LeftRotate` | kern/libs/kbl/include/kbl/data/avl_tree.hpp:61-73 | on linked cells the rotation builds the rotated tree from the same cells and touches no other |
| `AvlNodes.AvlMap.InsertAt` | kern/libs/kbl/include/kbl/data/avl_tree.hpp:94-152 | on linked cells insertion builds the tree stated, with one new cell at most |
| `AvlNodes.AvlMap.MinNode` | kern/libs/kbl/include/kbl/data/avl_tree.hpp:85-92 | the loop ends at the cell of the least key |
| `AvlNodes.AvlMap.RemoveAt` | kern/libs/kbl/include/kbl/data/avl_tree.hpp:154-232 | on linked cells removal builds the tree stated, and never follows a null link |
| `AvlNodes.AvlMap.Insert` | kern/libs/kbl/include/kbl/data/avl_tree.hpp:288-291 | the map keeps its invariant, size included, and becomes the tree after insertion |
| `AvlNodes.AvlMap.Remove` | kern/libs/kbl/include/kbl/data/avl_tree.hpp:300-303 | the map keeps its invariant, size included, and becomes the tree after removal |
| `AvlNodes.AvlMap.Find` | kern/libs/kbl/include/kbl/data/avl_tree.hpp:234-254 | the search loop ends with the data of the key, or nothing if it is not there |
| `Rings.RemoveFirst` | kern/libs/kbl/include/kbl/data/list.hpp:980-1002 | taking the first item out leaves the ring of the others and the item alone |
| `Rings.AddLast` | kern/libs/kbl/include/kbl/data/list.hpp:940-955 | adding at the tail gives the ring with the item at its end |
| `Rings.SwapIn` | kern/libs/kbl/include/kbl/data/list.hpp:1041-1072 | swapping an empty head with the head of a ring gives it the ring |
| `Rings.SwapExact` | kern/libs/kbl/include/kbl/data/list.hpp:650-671 | swapping two lists exchanges their items exactly if the second is not empty |
| `Rings.SwapNeighbours` | kern/libs/kbl/include/kbl/data/list.hpp:1041-1072 | swapping two neighbours of one ring makes them change places |
| `Rings.SwapBothEmpty` | kern/libs/kbl/include/kbl/data/list.hpp:1041-1072 | with both rings empty the swap leaves the other head in the ring |
| `RingMerge.MergePermutes` | kern/libs/kbl/include/kbl/data/list.hpp:815-862 | the merge is a permutation of both lists |
| `RingMerge.MergeSorted` | kern/libs/kbl/include/kbl/data/list.hpp:815-862 | the merge of sorted lists is sorted, and of equal keys the one from the second list comes first |
| `RingMerge.MergeStable` | kern/libs/kbl/include/kbl/data/list.hpp:815-862 | items of the first list keep their order |
| `RingMerge.MergeStableSecond` | kern/libs/kbl/include/kbl/data/list.hpp:815-862 | items of the second list keep their order |
| `RingMerge.Lists.DoMerge` | kern/libs/kbl/include/kbl/data/list.hpp:815-862 | the first head ends with the well-formed ring of the merge, the second is empty and sizes are right, exactly if not both lists were empty; a list merged with itself is left alone |
| `Ramdisk.RamdiskTrip` | kern/init/ramdisk.cc:102-112 | what the kernel reads at header plus offset is the file written, with its name, and its boot flag set exactly if the name contains ap_boot; offsets are multiples of eight and ranges are disjoint |
| `Ramdisk.CreateRecords` | tools/mkramdisk/create.cc:49-75 | the loop writes the records and sums the offsets as the image needs them |
| `Ramdisk.CopyItems` | tools/mkramdisk/copy.cc:51-102 | the loop appends every file with its padding, in order |
| `Ramdisk.WriteTarget` | kern/init/ramdisk.cc:62-71 | the target is one byte and then the image, so that skipping one byte finds the header |
| `Dependency.Build` | tools/mkramdisk/dependency.cc:48-61 | the first loops reverse the dependencies and count them |
| `Dependency.SortByDependency` | tools/mkramdisk/dependency.cc:41-100 | a list comes back exactly if the items can be ordered and none is named as a dependency twice; it then holds every item once, each after all it depends on |
| `Dependency.SharedDependencyRefused` | tools/mkramdisk/dependency.cc:82-97 | three items that can be ordered but get no list, since two depend on the same one |

## Left out

- Drivers, boot code, context switch, TLB flushes, time stamps and console output: foreign effects.
- Buddy `setup_for_base`: histories start from any state in canonical form.
- Reference counts and flags of buddy pages beyond those the allocator itself reads and writes.
- Ipc: messages with more typed items than untyped ones plus one, for which the loop of `send_extended_items` has something to do; acceptors, signals and `copy_string_locked`.
- Ipc: a thread stores once after each receive and loads or sends only outside of that; other orders of its calls, and sends to oneself, which stop the kernel.
- Scheduler timers and the ULE class: a time-out is an event that may come whenever a thread waits.
- Early returns of `block_etc` for signals and past deadlines in `Scheduler`: they change no queue.
- `unblock_thread` for a thread that is not blocked: callers pass waiting threads.
- Zombie queues in `Scheduler`: a dying thread is never enqueued, so they stay empty.
- Blocking and exiting of idle threads: the source stops the kernel there, and the steps of `Scheduler` do not include it.
- Push balancing onto another CPU: modelled as the panic its assertion raises.
- heap_expand: the two system calls are one grant of fresh units, given as a parameter; no block ends exactly at the base.
- Slab byte layout: slots are numbers, since `cache_obj_count` ignores the slab header; constructors and destructors.
- kmem_cache_destroy and kmem_cache_reap: they only repeat what shrinking does.
- `unmap_range`, `free_range` and `copy_range`: they follow null results and include the end address.
- Permissions outside the low eight bits of a table entry, and addresses of 2^48 bytes and more in one range.
- The allocation of page-table frames: the pool is a list of distinct frames not in use, as `CacheLaw` justifies.
- ext2: free counters, freeing, shrinking, inode allocation and the inode table; inodes are kept in memory.
- ext2: device errors; reads and writes of blocks on the disk succeed. Block size is 1024 as the write buffer fixes it.
- ext2_inode_get_index reads its buffer after releasing it; the model takes the value read before.
- Ext2DirectoryFile.Directory.Insert: names are shorter than 256 bytes, as the format has it; what growing returns is a parameter here, and comes from the volume in `Ext2DirectoryVolume.InsertEntry`.
- Ext2Volume.Ext2.BlockAlloc: the writes of the group descriptors and the superblock, which hold what they held: the code lowers its counters in copies only.
- Ext2Files: sizes beyond the direct and single-indirect range, and the 64-bit wrap of pos + len.
- AVL `operator[]`, which inserts a default, and `clear`.
- Ring `splice`, the sizes that `swap` exchanges, and locks inside links.
- Ramdisk checksum and header fields, and names of sixteen characters or more.
- Dependency: items are numbered from zero and dependencies are in range; paths and logging.
- Handle tables, jobs, processes, VFS path walking and address-space segments: they would need other models or add easy members.

Nothing was executed: every statement above is about the model.

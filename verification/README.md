# Verification of a teaching kernel's core subsystems

A Dafny 4.11 model of the parts of a small x86-64 teaching kernel whose correctness rests on
mutable, hand-rolled data structures: two heap managers, the priority scheduler, semaphores,
pipes, the BareMetal File System (BMFS) utility, the image packer with the kernel's module loader,
the dining-philosophers program that runs on top of the semaphores, and the user library's
conversion of numbers to text and back.

`dafny verify dfyconfig.toml` checks everything.

## How it is organised

Each subsystem has a specification on values, theorems about it, and a file that works in place
the way the source does and is proved equal to the specification.

| subsystem | specification | theorems | in place |
|---|---|---|---|
| buddy allocator | `BuddyTree`, `BuddySpec` | `BuddyTheorems`, `BuddyRefinement` | `BuddyHeap` |
| free-list allocator | `FreeListSpec` | `FreeListSpec` | `FreeListHeap` |
| allocator contract | `AllocatorSpec` | `BuddyRefinement`, `FreeListSpec` | |
| scheduler | `SchedulerSpec` | `SchedulerTheorems`, `SchedulerAging`, `SchedulerWaiting` | `Scheduler` |
| process list | `ProcessList` | `ProcessList`, `ProcessTable`, `Foreground` | `Scheduler` |
| semaphores | `SemaphoreSpec` | `SemaphoreTheorems`, `SemaphoreInterleaving`, `SemaphoreKills` | `Semaphore` |
| philosophers | `PhilosophersSpec` | `Philosophers`, `TableProgress`, `SeatRemoval`, `TableRuns` | `DiningTable` |
| pipes | `PipeSpec` | `PipeSpec`, `PipeInterleaving` | `Pipe` |
| BMFS | `BmfsSpec`, `BmfsDirectory`, `BmfsFiles` | the same, `BmfsStore` | `BmfsImage` |
| packer and loader | `ModuleImage` | `ModuleImage` | `ModuleLoader` |
| numbers as text | `Radix` | `Radix` | `RadixCode` |

`Arithmetic` (division), `Options` and `PidQueue` (queues of distinct ids) are shared helpers.

* **Buddy allocator.** Memory is a map from addresses to headers (`free`, `history`, `blockSize`,
  `next`) with a list linked through the headers between two sentinels. The specification is a
  binary tree of blocks together with the free list in link order; a block is named by its path
  from the root, and its address is a function of that path. `BuddyHeap.Represents` ties the two.
* **Linked lists.** The free list of the other allocator runs through headers in a memory of the same
  kind, and the process list through node objects with `next` pointers; the current-process pointer
  may point at a node that has just been unlinked.
* **Protocols** (semaphores, philosophers, pipes, process events) are state machines. A system call
  runs with interrupts off until it calls the scheduler, so one step is one call up to its grant or
  block. What a woken call does next is one step too, although the scheduler call turns interrupts
  on (Kernel/asm/libasm.asm:72-74) and the code from there on can be pre-empted. The runs of these
  models are therefore those on which no continuation after a wakeup is interrupted.
  `SemaphoreInterleaving` and `PipeInterleaving` split it. For semaphores exclusion and wakeups both
  fail at the finer steps; for pipes order and completeness hold byte by byte, and the bounds of the
  ring fail. Each has the exact condition, and `WholeCallsAreARun` places the coarse runs among the
  fine ones. Everything about the philosophers rests on the coarse runs of the mutex and of the
  private semaphores.
* **Integers.** Request sizes of both allocators and the byte counter of the buddy allocator are
  32-bit and wrap; gap arithmetic in BMFS is unsigned 64-bit and wraps; packed counts and sizes are
  truncated to 32 bits.

## Where the code does not do what is claimed for it

Each of these is stated with the exact condition under which the code does meet the property.

* `freeMem` of the buddy allocator credits the size *after* merging
  (Kernel/utils/MemManBuddy.c:173-174). The counter drifts by exactly the merged surplus
  (`CounterDriftsByMergedSurplus`); one free is accounted for correctly if and only if it merges
  nothing (`FreeKeepsCounterExactly`); an alloc/free pair if and only if the alloc did not split
  (`AllocThenFreeCounter`).
* Adding the header to a huge request wraps around 32 bits. The buddy allocator then grants a
  minimum block (`BuddyTheorems.WrappedRequestExample`, `PayloadHoldsRequestExactly`). The free-list
  allocator cuts a block at its own address and hands it out while it is listed with size 0
  (`FreeListSpec.WrappedRequestExample`); a grant is sound and holds its payload exactly when the
  request is at most 0xFFFF_FFE8 (`GrantSoundExactly`, `StepSoundExactly`).
* The scheduler's scan of the nodes before the current one tests the readiness of the incumbent
  instead of the candidate (Kernel/utils/scheduler.c:233 against 213), so a blocked process can hide
  a ready one (`BlockedProcessHidesReadyOne`). `IncumbentScanExactly`, `IncumbentEndsReadyExactly`
  and `WrittenChoiceOptimalExactly` say when the scan and the whole choice are still right.
* The foreground flag shuts the shell out, and is meant to be up exactly while a process of priority
  1 exists besides it. `killPid` and nice do not look at it: killing or renicing the last such process
  leaves it up (`StuckFlagExample`, `StuckByNiceExample`), and from then on every switch passes the
  shell over until another process of priority 1 is created (`ShellShutOut`). Exit lowers it although
  another such process is there (`EarlyDropExample`). These are the only ways (`FlagExactly`).
* When in addition the shell is left alone under the flag, the scan runs off the list: a switch reads
  through a null pointer (`KilledForegroundExample`, `NicedExitExample`, `AloneReadsNull`). On a run
  whose kills and exits never leave it alone no switch does that (`PrudentRunsNeverReadNull`).
* `sem_wait` on a full queue returns with the spin lock held (`LockLeaksExactly`); eleven waits on a
  semaphore opened at 0 get there, and then nothing can step (`EveryoneWaitsExample`).
* After a wakeup `sem_wait` tests and decrements without the lock and with interrupts on. A process
  that slips in between leaves two holders of a mutex (`TwoHoldersExample`), or one that sleeps
  although the mutex is free (`LostWakeupExample`). Exclusion survives when no grant falls between a
  passed test and its decrement, and wakeups when no post falls between a failed test and the
  queueing (`UndisturbedExclusion`, `UndisturbedWakeups`; exactly: `ExclusionExactly`, `WakeupsExactly`).
* Killing a process that waits on a semaphore takes the front of the queue out instead of the killed
  one (Kernel/utils/semaphore.c:136-138). Unless the killed one stood in front, a living process is
  never woken again and a post goes to the dead one (`ForgottenWaiterExample`, `ForgottenForGood`).
  Killing a process that has just been woken loses the post that woke it (`DeadWakeupExample`).
  `ForgottenExactly`, `AttendedExactly` and `KillsHarmNobodyExactly` give the conditions over whole runs.
* Adding a seat parts the first and the last philosopher: a HUNGRY one can be left without an EATING
  neighbour (`AddedSeatStarvesExample`, `AddSeatKeepsServedExactly`). When the new seat's semaphore
  cannot be opened, the mutex is never given back and nobody gets inside it again
  (`FailedOpenExample`, `FailedOpenIsForGood`).
* Removing a seat looks at the two who become neighbours only when the one who leaves was EATING
  (Userland/SampleCodeModule/philo.c:145-148). Otherwise both of them may be eating
  (`RemovedSeatExample`, `RemovalApartExactly`).
* The philosophers' private semaphores start at 1 (Userland/SampleCodeModule/philo.c:56). Passing one
  then does not mean EATING: it does on every run exactly when they start at 0 (`PrivateStartExactly`).
* A pipe has one waiting slot. A write, or the continuation of one, with more than 512 bytes to go
  while the reader waits takes the slot from it, and both ends wait for ever (`LongWriteStrands`,
  `LongResumptionStrands`). A run ends in that deadlock exactly when such a step occurs in it
  (`StrandedExactly`).
* A reader that closes while the writer is blocked sends the writer on into a full ring, and all the
  rest overruns it (`ClosedReaderOverrunsExample`, `CloseReaderSafeExactly`); while continuations are
  not interrupted that is the only way (`PipeSpec.RingSafeExactly`). When they are, a reader can wake a
  writer that filled the ring behind its back, and an open pipe overruns (`LateWakeExample`,
  `PipeInterleaving.RingSafeExactly`).
* BMFS `create` goes on past deleted records, using their stale ends
  (Bootloader/BMFS/bmfs.c:683-684). It then reports a file that lies on top of a live one, where
  "Bootloader/BMFS/BareMetal File System.md" promises contiguous, separate reservations
  (`CreateExactly`, `StaleEndExample`; from a formatted disk: `OverlappingRunExample`). Without an end mark in the directory it always uses the first
  data block (`NoMarkOverlapExample`), and when the first record is the free one every file that was
  there is lost from sight (`NoMarkLostExample`, `CreateWithoutEndMark`). `DirectorySoundExactly` says
  over whole runs when the directory stays sound. A file created under the empty name, or one that
  starts with the unused mark, is reported as created and cannot be found (`CreatedIsFoundExactly`);
  the empty name also hides every file behind its record (`UnstorableKeeps`).

## Model

| member | source | states |
|---|---|---|
| BuddyTree.OffsetIsHistoryTimesSize | Kernel/utils/MemManBuddy.c:143-151 | every block's address is its history times its size |
| BuddyTree.LeavesTile | Kernel/utils/MemManBuddy.c:30-48 | the blocks cover every heap address and no two of them share one |
| BuddyTree.AllFreeIsOneBlock | Kernel/utils/MemManBuddy.c:72-95 | a fully merged heap with nothing live is a single free block |
| BuddySpec.MergeKeeps | Kernel/utils/MemManBuddy.c:72-94 | folding a block into its free buddy keeps the heap sound and changes only those two blocks |
| BuddySpec.HalveKeeps | Kernel/utils/MemManBuddy.c:143-151 | one round of the split loop keeps the heap sound; the upper half becomes free, the lower stays in hand |
| BuddySpec.ReleaseKeeps | Kernel/utils/MemManBuddy.c:61-107 | giving a live block back, with all its merges, keeps the heap sound and ends exactly that block's life |
| BuddySpec.TakeKeeps | Kernel/utils/MemManBuddy.c:128-141 | unlinking a free block keeps the heap sound and makes exactly that block live |
| BuddySpec.SplitKeeps | Kernel/utils/MemManBuddy.c:143-151 | splitting ends in a block that still holds the request and cannot be split further, other live blocks untouched |
| BuddySpec.AllocKeeps | Kernel/utils/MemManBuddy.c:109-159 | a grant keeps the heap sound and adds exactly one live block, new to the heap |
| BuddyTheorems.SplitThenRelease | Kernel/utils/MemManBuddy.c:72-106 | carving a piece off and giving it back equals giving the whole block back |
| BuddyTheorems.TakeThenRelease | Kernel/utils/MemManBuddy.c:97-106 | a block taken by first fit and given back goes to its old place in the list |
| BuddyTheorems.AllocThenFreeIsIdentity | Kernel/utils/MemManBuddy.c:109-177 | freeing what was just allocated restores tiling and free list, order included |
| BuddyTheorems.NothingLiveIsOneBlock | Kernel/utils/MemManBuddy.c:61-107 | with nothing live the heap is the initial one again |
| BuddyTheorems.AdjustedFacts | Kernel/utils/MemManBuddy.c:118-122 | the adjusted request is the next multiple of 8 from the request plus 24 on; when the 32-bit addition wraps it is 0, or what is left of that |
| BuddyTheorems.GrantedFits | Kernel/utils/MemManBuddy.c:118-151 | a grant for n bytes has the smallest power of two that is at least 512 and n + 24, or 512 when the addition wraps; it is the beginning of a smallest free block that is large enough |
| BuddyTheorems.RefusedExactly | Kernel/utils/MemManBuddy.c:113-137 | NULL if and only if n is 0, n + 24 is more than 128 MiB, or every free block is smaller than n + 24; a request that wraps is refused if and only if nothing is free |
| BuddyTheorems.PayloadHoldsRequestExactly | Kernel/utils/MemManBuddy.c:118-122 | the space after the header holds the request if and only if adding header and alignment does not wrap |
| BuddyTheorems.WrappedRequestExample | Kernel/utils/MemManBuddy.c:118-122 | a request that wraps is granted a block too small for it |
| BuddyTheorems.HeapShapeAfterAnyRun | Kernel/utils/MemManBuddy.c:30-177 | after any legal run: tiling, power-of-two sizes within bounds, address equal to history times size, sorted duplicate-free list of exactly the free blocks, no two free buddies |
| BuddyTheorems.EverythingFreedRestoresTheHeap | Kernel/utils/MemManBuddy.c:161-177 | a run that frees all it allocated ends in the initial heap |
| BuddyTheorems.CounterDriftsByMergedSurplus | Kernel/utils/MemManBuddy.c:153-174 | on every run the counter is the sum of free sizes plus, modulo 2^32, the sum over frees of merged minus freed size |
| BuddyTheorems.FreeKeepsCounterExactly | Kernel/utils/MemManBuddy.c:173-174 | a free leaves an exact counter exact if and only if it merges nothing |
| BuddyTheorems.IntendedCounterIsExact | Kernel/utils/MemManBuddy.c:153-174 | crediting the freed block's own size keeps the counter equal to the free bytes on every run |
| BuddyRefinement.BuddyAllocates | Kernel/utils/MemManBuddy.c:109-159 | a grant adds one address range, apart from all ranges callers own |
| BuddyRefinement.BuddyFrees | Kernel/utils/MemManBuddy.c:161-177 | a free removes exactly that range from what callers own |
| BuddyRefinement.OwnedIsHeld | Kernel/utils/MemManBuddy.c:109-177 | after any legal run the ranges the heap treats as taken are exactly those granted and not given back since, inside the heap and apart |
| BuddyRefinement.AllocThenFreeCounter | Kernel/utils/MemManBuddy.c:153-174 | alloc then free restores the counter if and only if the block was granted whole |
| BuddyHeap.BuddyTest | Kernel/utils/MemManBuddy.c:73-87 | what is read at the buddy's address says free and same size exactly when the buddy is a free block |
| BuddyHeap.BuddyManager.constructor | Kernel/utils/MemManBuddy.c:30-48 | the fresh memory represents the one-block heap |
| BuddyHeap.BuddyManager.RemoveBlockFromFreeList | Kernel/utils/MemManBuddy.c:50-59 | unlinks exactly the given block from the linked list |
| BuddyHeap.BuddyManager.WidenOverBuddy | Kernel/utils/MemManBuddy.c:69-92 | merges headers exactly when the buddy's header is free and of the same size |
| BuddyHeap.BuddyManager.InsertBlockIntoFreeList | Kernel/utils/MemManBuddy.c:61-107 | the recursive insertion in memory is the abstract release, and returns the merged size |
| BuddyHeap.BuddyManager.UnlinkFirstFit | Kernel/utils/MemManBuddy.c:128-141 | the walk finds and unlinks the first listed block that fits, or none |
| BuddyHeap.BuddyManager.SplitToSize | Kernel/utils/MemManBuddy.c:143-151 | the split loop on headers is the abstract split |
| BuddyHeap.BuddyManager.AddHeader | Kernel/utils/MemManBuddy.c:118-122 | the request with its header of 24 bytes is rounded up to 8, in 32 bits |
| BuddyHeap.BuddyManager.AllocMem | Kernel/utils/MemManBuddy.c:109-159 | allocMem on memory is one abstract step and returns the address 24 bytes into the granted block, or NULL |
| BuddyHeap.BuddyManager.FreeMem | Kernel/utils/MemManBuddy.c:161-177 | freeMem on memory is one abstract step; NULL changes nothing |
| FreeListSpec.BlocksTile | Kernel/utils/MemoryManagerADT.c:27-43 | every heap address lies in exactly one block |
| FreeListSpec.AllocKeeps | Kernel/utils/MemoryManagerADT.c:56-99 | a grant that cuts off no block too small for its header keeps the heap sound, adds one live block, leaves live blocks alone and only refines boundaries |
| FreeListSpec.FreeKeeps | Kernel/utils/MemoryManagerADT.c:101-114 | a free keeps the heap sound, moves no boundary and ends exactly that block's life |
| FreeListSpec.AdjustedFacts | Kernel/utils/MemoryManagerADT.c:64-68 | the adjusted request is the next multiple of 8 from the request plus 16 on; when the 32-bit addition wraps it is 0, or what is left of that |
| FreeListSpec.GrantCutsExactly | Kernel/utils/MemoryManagerADT.c:82-95 | a block with at most 32 bytes to spare is granted whole; otherwise it keeps the adjusted request and the rest is a new listed block right behind it; no other block changes or enters or leaves the list |
| FreeListSpec.GrantedFits | Kernel/utils/MemoryManagerADT.c:70-95 | for every 32-bit request: a grant exceeds the adjusted request by at most 32 bytes, is a best fit, and holds the payload if and only if the addition did not wrap |
| FreeListSpec.RefusedExactly | Kernel/utils/MemoryManagerADT.c:61-80 | for every 32-bit request: NULL if and only if the request is zero, needs the whole heap after the addition, or is larger than every free block |
| FreeListSpec.GrantSoundExactly | Kernel/utils/MemoryManagerADT.c:64-95 | a grant keeps the heap sound if and only if what it cuts off has room for its header or nothing is cut; sound and large enough if and only if the request is at most 0xFFFF_FFE8 |
| FreeListSpec.WrappedRequestExample | Kernel/utils/MemoryManagerADT.c:64-95 | on a fresh heap 0xFFFF_FFF0 bytes are granted, the block is at once listed with size 0, and the next such request gets it too |
| FreeListSpec.StepSoundExactly | Kernel/utils/MemoryManagerADT.c:56-114 | any one call keeps heap and counter sound if and only if it is not a grant that cuts off a block too small for its header |
| FreeListSpec.RunKeeps | Kernel/utils/MemoryManagerADT.c:45-114 | along any run without such a grant the heap stays sound, the counter exact, and boundaries are only added |
| FreeListSpec.HeapAfterAnyRun | Kernel/utils/MemoryManagerADT.c:27-114 | after any such run from the start: tiling, sorted duplicate-free list, counter equal to the free bytes |
| FreeListSpec.HeapSoundExactly | Kernel/utils/MemoryManagerADT.c:56-114 | on any run of 32-bit requests and frees of live blocks heap and counter are sound throughout if and only if there is no such grant |
| FreeListSpec.LiveIsHeld | Kernel/utils/MemoryManagerADT.c:56-114 | after any run without such a grant the live blocks are exactly those granted and not given back since, each of its granted size, and the counter is 128 MiB less their bytes |
| FreeListSpec.FreeListAllocates | Kernel/utils/MemoryManagerADT.c:56-99 | meets the same allocator contract as the buddy allocator |
| FreeListSpec.FreeListFrees | Kernel/utils/MemoryManagerADT.c:101-114 | meets the same release contract |
| FreeListHeap.FreeListManager.InsertBlockIntoFreeList | Kernel/utils/MemoryManagerADT.c:45-54 | the walk and the two pointer writes put the block before the first one that is not smaller |
| FreeListHeap.FreeListManager.AddHeader | Kernel/utils/MemoryManagerADT.c:64-68 | the request with its header is the next multiple of 8, or at most one header when the 32-bit addition wraps |
| FreeListHeap.FreeListManager.FirstFit | Kernel/utils/MemoryManagerADT.c:70-80 | the walk by pointers ends at the first listed block that is large enough, or at the end |
| FreeListHeap.FreeListManager.SplitBlock | Kernel/utils/MemoryManagerADT.c:86-93 | the two header writes and the insertion are the abstract cut |
| FreeListHeap.FreeListManager.AllocMem | Kernel/utils/MemoryManagerADT.c:56-99 | on every 32-bit request walk, unlinking, header writes and counter in memory are one abstract step, and the address is 16 bytes into the granted block; the heap stays sound if and only if nothing is granted or the grant is safe |
| FreeListHeap.FreeListManager.FreeMem | Kernel/utils/MemoryManagerADT.c:101-114 | freeing in memory is one abstract step and keeps the heap sound; NULL changes nothing |
| SchedulerTheorems.CandidateScan | Kernel/utils/scheduler.c:208-216 | testing the candidate finds the first ready process of least auxPriority whenever one is ready |
| SchedulerTheorems.IncumbentScanExactly | Kernel/utils/scheduler.c:218-236 | the scan as written finds a best ready process if and only if some best one is followed in its range by none of lower auxPriority |
| SchedulerTheorems.IncumbentEndsReadyExactly | Kernel/utils/scheduler.c:218-236 | the scan as written ends on a ready process if and only if some ready one is followed in its range by none of strictly lower auxPriority |
| SchedulerTheorems.ChoiceIsRunnable | Kernel/utils/scheduler.c:238-257 | what runs is ready and never the shell while a foreground process exists, or is the dummy |
| SchedulerTheorems.IntendedChoiceIsOptimal | Kernel/utils/scheduler.c:208-258 | with the test of line 213 in both scans no eligible other process is strictly more urgent than the choice, and the dummy runs only when nothing is eligible |
| SchedulerTheorems.WrittenChoiceIsOptimal | Kernel/utils/scheduler.c:208-258 | the written choice is optimal when no process of the prefix hides a best one, in particular when all of them are ready |
| SchedulerTheorems.WrittenChoiceOptimalExactly | Kernel/utils/scheduler.c:178-259 | the written choice is optimal if and only if some best process of the prefix is hidden by none, or a later process is as urgent, or the current one is and every ready process of the prefix is hidden |
| SchedulerTheorems.BlockedProcessHidesReadyOne | Kernel/utils/scheduler.c:228-234 | a list on which the written scan idles although a process is ready |
| SchedulerAging.FirstSwitch | Kernel/utils/scheduler.c:180-185 | the first call runs the shell and touches nothing else |
| SchedulerAging.SwitchRewards | Kernel/utils/scheduler.c:192-258 | any other call gives the process it runs its own priority back; every other process keeps its auxPriority, except that one that is ready, above 1 and not the one that was running loses 1 in every sixth call |
| SchedulerAging.AuxWhileWaiting | Kernel/utils/scheduler.c:192-203 | a ready process passed over in n calls has lost one for every sixth of them, down to 1, whatever the others do |
| SchedulerAging.AuxSinceItRan | Kernel/utils/scheduler.c:192-258 | the same counted from the priority of a process that has just run, which its first call does not age |
| SchedulerWaiting.RankFalls | Kernel/utils/scheduler.c:192-258 | every call dispatches the waiting process or strictly lowers its rank |
| SchedulerWaiting.BoundedWaiting | Kernel/utils/scheduler.c:178-259 | a process that stays ready and selectable runs within 6 * (priority - 1) + N + 1 calls, whatever the others and the foreground flag do |
| ProcessList.LoadIsInsert | Kernel/utils/scheduler.c:105-150 | the recursive load puts the process behind all that are at least as urgent, never before the head |
| ProcessList.DeleteIsRemove | Kernel/utils/scheduler.c:261-277 | the recursive delete removes exactly the first node with the pid, if any |
| ProcessList.InsertSortedExactly | Kernel/utils/scheduler.c:125-133 | loading keeps the list sorted if and only if the new process is not more urgent than the head |
| ProcessList.ChangePriorityPermutes | Kernel/utils/scheduler.c:324-355 | nice keeps the list sound and permutes the nodes with one process's priorities replaced |
| ProcessList.EventKeeps | Kernel/utils/scheduler.c:152-371 | create, nice, kill (also of oneself), exit, state changes and switches keep the process list sound |
| ProcessList.ProcessListAfterAnyRun | Kernel/utils/scheduler.c:105-371 | after any run from boot the shell heads the list with priority 1, pids are distinct, priorities sorted, 1 <= auxPriority <= priority |
| ProcessTable.EventShows | Kernel/utils/scheduler.c:105-371 | each event does one thing to the table of processes by pid: create adds one, kill and exit remove one, nice sets the two priorities within 2 to 10, a state change one state, a switch the auxPriorities; a running process that leaves still points at what followed it |
| ProcessTable.ListIsATable | Kernel/utils/scheduler.c:105-371 | after any run from boot the list holds exactly the processes of that table, each once, by priority |
| ProcessList.OtherEventsKeepCompany | Kernel/utils/scheduler.c:152-158 | every event but kill and exit keeps a second process listed while the flag is up |
| ProcessList.KillKeepsCompanyExactly | Kernel/utils/scheduler.c:286-289 | kill leaves the shell alone under the flag if and only if the flag is up and the only other process is killed |
| ProcessList.ExitKeepsCompanyExactly | Kernel/utils/scheduler.c:279-284 | exit leaves the shell alone under the flag if and only if the flag is up and the only other process exits with a priority other than 1 |
| ProcessList.AloneReadsNull | Kernel/utils/scheduler.c:218-242 | with the shell alone under the flag one of the next two switches reads through a null pointer |
| ProcessList.PrudentRunsNeverReadNull | Kernel/utils/scheduler.c:152-371 | on any run from boot whose kills and exits meet the two conditions no switch reads through a null pointer and the list stays sound |
| ProcessList.NicedExitExample | Kernel/utils/scheduler.c:279-284 | a run from boot in which a foreground process is niced and exits, after which the next switch reads through a null pointer |
| ProcessList.KilledForegroundExample | Kernel/utils/scheduler.c:286-289 | a run from boot in which the foreground process is killed, after which the second switch reads through a null pointer |
| Foreground.EventForeground | Kernel/utils/scheduler.c:152-355 | what every event does to the set of foreground processes and to the flag |
| Foreground.BackedStepExactly | Kernel/utils/scheduler.c:286-355 | an event leaves the flag up without a foreground process if and only if it kills or renices the last one |
| Foreground.RaisedStepExactly | Kernel/utils/scheduler.c:279-284 | an event leaves a foreground process without the flag if and only if another one exits beside it |
| Foreground.FlagExactly | Kernel/utils/scheduler.c:105-371 | on any run from boot the flag is up only beside a foreground process throughout if and only if no event is of the first kind, and up beside every one if and only if none is of the second |
| Foreground.ShellShutOut | Kernel/utils/scheduler.c:218-258 | once the flag is up without a foreground process, every switch of every run that creates no other passes the shell over |
| Foreground.StuckFlagExample | Kernel/utils/scheduler.c:286-289 | a run from boot in which the foreground process is killed beside a background one |
| Foreground.StuckByNiceExample | Kernel/utils/scheduler.c:324-355 | a run from boot in which the foreground process is made less urgent |
| Foreground.EarlyDropExample | Kernel/utils/scheduler.c:279-284 | a run from boot in which one of two foreground processes exits |
| SchedulerCode.Scheduler.constructor | Kernel/utils/scheduler.c:51-61 | the system the scheduler starts from is sound and is the one every run starts from |
| SchedulerCode.Scheduler.AgeOthers | Kernel/utils/scheduler.c:193-199 | the aging loop lowers exactly the ready, non-current processes above 1 |
| SchedulerCode.Scheduler.ScanAfter | Kernel/utils/scheduler.c:208-216 | the loop over the nodes after the current one is the scan that tests the candidate |
| SchedulerCode.Scheduler.ScanBefore | Kernel/utils/scheduler.c:218-236 | the loop over the nodes from the head is the scan that tests the incumbent |
| SchedulerCode.Scheduler.SwitchProcess | Kernel/utils/scheduler.c:178-259 | one call in place is one abstract switch: list, current pointer, aging counter; the current node stays meaningful |
| SchedulerCode.Scheduler.TimerTick | Kernel/utils/scheduler.c:178-259 | a switch is the tick event on the whole system, which it keeps sound |
| SchedulerCode.Scheduler.ChangeProcessPriority | Kernel/utils/scheduler.c:324-355 | the walks and pointer writes that unlink and relink the node are the nice event and keep the whole system sound |
| SchedulerCode.Scheduler.UnlinkAfter | Kernel/utils/scheduler.c:341-346 | one pointer write takes exactly the node at that position out of the list |
| SchedulerCode.Scheduler.LinkAfter | Kernel/utils/scheduler.c:348-354 | two pointer writes put the node in at that position |
| SchedulerCode.Scheduler.CreateProcess | Kernel/utils/scheduler.c:152-158 | is the create event on the whole system, which it keeps sound; the pid handed out was nobody's and is listed afterwards |
| SchedulerCode.Scheduler.LoadProcess | Kernel/utils/scheduler.c:105-150 | the recursion on the nodes links one new node in behind all that are at least as urgent |
| SchedulerCode.Scheduler.DeleteProcess | Kernel/utils/scheduler.c:261-277 | the recursion on the nodes unlinks the first with the pid, marks it deleted and leaves its next pointer; or changes nothing |
| SchedulerCode.Scheduler.KillPid | Kernel/utils/scheduler.c:286-289 | is the kill event on the whole system, which it keeps sound, also when the caller kills itself; a pid above 1 is listed no more |
| SchedulerCode.Scheduler.ExitCurrentProcess | Kernel/utils/scheduler.c:279-284 | is the exit event on the whole system, which it keeps sound: the node left over still points into the list |
| SchedulerCode.Scheduler.ChangeProcessState | Kernel/utils/scheduler.c:357-371 | toggles ready and blocked: the state event on the whole system, which it keeps sound; the shell and unlisted pids are left alone |
| SemaphoreTheorems.NextKeeps | Kernel/utils/semaphore.c:72-106 | every wait, uninterrupted resume and post keeps conservation, queue order and the wakeup bound |
| SemaphoreTheorems.NoLostWakeup | Kernel/utils/semaphore.c:72-106 | on every run of uninterrupted calls: value plus grants equals start plus posts; a queued waiter implies at least `value` woken processes still to re-check; wakeups follow queue order |
| SemaphoreTheorems.MutualExclusion | Kernel/utils/semaphore.c:72-106 | on every run of uninterrupted calls by clients that post only after their own wait: never more than the start value between wait and post, and nobody queued with no one to move on |
| SemaphoreTheorems.WaitsExactly | Kernel/utils/semaphore.c:72-88 | a wait, fresh or going on, is granted if and only if the value is above 0; at 0 it queues last, or is refused when ten wait: a fresh one with the lock held, one that goes on with nothing changed |
| SemaphoreTheorems.PostsExactly | Kernel/utils/semaphore.c:90-106 | a post raises the value and wakes exactly the front of the queue |
| SemaphoreTheorems.LockLeaksExactly | Kernel/utils/semaphore.c:75-77 | a wait leaves the lock held if and only if the value is 0 and the queue is full |
| SemaphoreTheorems.LeakedLockIsForGood | Kernel/utils/semaphore.c:72-92 | with the lock held and nobody woken no step on the semaphore is possible any more |
| SemaphoreTheorems.EveryoneWaitsExample | Kernel/utils/semaphore.c:72-92 | a semaphore opened at 0 gets there by eleven waits, after which no step is possible |
| SemaphoreTheorems.FewClientsNeverLeak | Kernel/utils/semaphore.c:72-106 | with at most ten clients the lock never leaks on any run |
| SemaphoreInterleaving.LedgerKept | Kernel/utils/semaphore.c:72-106 | with test and decrement as separate steps everybody is still in one place and the value is the start value less the holders |
| SemaphoreInterleaving.ExclusionExactly | Kernel/utils/semaphore.c:75-87 | on any run of these steps there are never more holders than the start value if and only if every decrement after a wakeup finds the value above 0 |
| SemaphoreInterleaving.UndisturbedExclusion | Kernel/utils/semaphore.c:75-87 | in particular when no grant to another process falls between a passed test and its decrement |
| SemaphoreInterleaving.TwoHoldersExample | Kernel/utils/semaphore.c:75-87 | a run with start value 1 that ends with two holders and the value -1 |
| SemaphoreInterleaving.WakeupsExactly | Kernel/utils/semaphore.c:75-106 | on any run no wakeup is lost if and only if nobody queues again while the value exceeds those on their way to it; no other step can lose one |
| SemaphoreInterleaving.UndisturbedWakeups | Kernel/utils/semaphore.c:75-106 | in particular when no post falls between a failed test and the queueing after it |
| SemaphoreInterleaving.LostWakeupExample | Kernel/utils/semaphore.c:75-106 | a run that ends with a process asleep although the value is 1 and nobody holds |
| SemaphoreInterleaving.WholeCallsAreARun | Kernel/utils/semaphore.c:72-106 | every run of uninterrupted calls is a run of these steps |
| SemaphoreKills.KillRemovesExactly | Kernel/utils/semaphore.c:132-142 | a kill leaves the queue without the killed process and otherwise as it was if and only if that one was not queued or stood first; otherwise the first one is gone and the killed one stays |
| SemaphoreKills.ForgottenExactly | Kernel/utils/semaphore.c:72-142 | on any run of calls and kills the queue is exactly the sleeping processes throughout if and only if every kill hits somebody who does not wait here or waits in front |
| SemaphoreKills.ForgottenForGood | Kernel/utils/semaphore.c:72-142 | a sleeper the queue has lost sleeps on whatever calls and kills of others follow |
| SemaphoreKills.ForgottenWaiterExample | Kernel/utils/semaphore.c:132-142 | a run after which one process sleeps outside an empty queue and the post went to a dead one |
| SemaphoreKills.AttendedExactly | Kernel/utils/semaphore.c:72-142 | on any run of calls and kills, while anyone sleeps at least `value` living processes are on their way, throughout, if and only if no step loses a wakeup: no kill of one of them and no post to a dead front with nobody to spare |
| SemaphoreKills.KillsHarmNobodyExactly | Kernel/utils/semaphore.c:72-142 | queue and wakeups are both right throughout if and only if every kill takes no waiter's place and nobody the sleepers count on |
| SemaphoreKills.DeadWakeupExample | Kernel/utils/semaphore.c:90-142 | a run on which a woken process is killed and the other sleeps on although the value is 1 |
| SemaphoreCode.Semaphore.Wait | Kernel/utils/semaphore.c:72-88 | sem_wait in place up to its grant, block or refusal is the abstract wait |
| SemaphoreCode.Semaphore.Resume | Kernel/utils/semaphore.c:75-87 | the loop after a wakeup, uninterrupted and without retaking the lock, is the abstract resume |
| SemaphoreCode.Semaphore.Post | Kernel/utils/semaphore.c:90-106 | sem_post with its shift loop wakes the queue head and is the abstract post |
| SemaphoreCode.Semaphore.DeleteProcess | Kernel/utils/semaphore.c:134-141 | search and shift in place are the abstract kill, and say whether the process was found |
| PhilosophersSpec.NeighboursAreRound | Userland/SampleCodeModule/philo.c:119-126 | the neighbours of a seat are the seats one before and one after it, round the table |
| PhilosophersSpec.CheckExactly | Userland/SampleCodeModule/philo.c:109-117 | a check makes EATING, and posts, exactly a HUNGRY seat with nobody EATING beside it, and changes no other mark |
| PhilosophersSpec.MutexKept | Userland/SampleCodeModule/philo.c:48-107 | every step keeps at most one process inside the mutex and nobody refused for a full queue, continuations being uninterrupted |
| Philosophers.ExclusionKept | Userland/SampleCodeModule/philo.c:109-125 | no step, adding a seat included, makes two distinct neighbours EATING |
| Philosophers.ProgressKept | Userland/SampleCodeModule/philo.c:86-117 | every step that adds no seat keeps each hungry philosopher served or about to be checked |
| Philosophers.TableExclusion | Userland/SampleCodeModule/philo.c:48-125 | on any run, seats being added: one process in the mutex, no two neighbours EATING |
| Philosophers.HungryHaveEatingNeighbour | Userland/SampleCodeModule/philo.c:86-117 | at a fixed table, whenever the mutex is free every HUNGRY philosopher has an EATING neighbour |
| TableProgress.EntersExactly | Userland/SampleCodeModule/philo.c:86-99 | a philosopher, fresh or woken, gets into a free mutex and otherwise queues last |
| TableProgress.AdderEntersExactly | Userland/SampleCodeModule/philo.c:48-58 | and so does the process that adds seats |
| TableProgress.ReleaseWakes | Userland/SampleCodeModule/philo.c:92-105 | giving the mutex back wakes exactly the front of its queue |
| TableProgress.PassesExactly | Userland/SampleCodeModule/philo.c:93 | a philosopher passes its own semaphore when there is a value to take, and otherwise sleeps in its queue |
| TableProgress.NobodyIsForgotten | Userland/SampleCodeModule/philo.c:86-117 | on any run over a fixed table who waits for the mutex is queued or woken, while it is free somebody has been woken, and who is marked EATING or has a value to take does not sleep |
| TableProgress.NeverDeadlocked | Userland/SampleCodeModule/philo.c:86-117 | on any run over a fixed table, whatever the private semaphores start with, some step is possible |
| Philosophers.AddSeatKeepsServedExactly | Userland/SampleCodeModule/philo.c:48-71 | adding a seat keeps everyone served unless an end of the row was HUNGRY with only the other end EATING |
| SeatRemoval.RemovalApartExactly | Userland/SampleCodeModule/philo.c:128-151 | removing the last seat keeps distinct neighbours from eating together if and only if the two who become neighbours were not both EATING, in particular when the one who leaves was |
| SeatRemoval.RemovalExactly | Userland/SampleCodeModule/philo.c:128-151 | only when the one who leaves is EATING are the new last and the first seat checked, in this order; otherwise no mark changes and nothing is posted |
| SeatRemoval.RemovalServes | Userland/SampleCodeModule/philo.c:128-151 | a removal leaves nobody HUNGRY without an EATING neighbour |
| TableRuns.RemovedSeatExample | Userland/SampleCodeModule/philo.c:145-148 | a run after which a table of four, the mutex free and no neighbours eating, has two eaters for neighbours once the fourth seat is removed |
| TableRuns.RemovalOnRuns | Userland/SampleCodeModule/philo.c:48-151 | on any run over a fixed table, whenever the mutex is free: removing the last seat leaves nobody HUNGRY without an EATING neighbour, and no neighbours eating if and only if the two ends were not both EATING |
| TableRuns.AddedSeatStarvesExample | Userland/SampleCodeModule/philo.c:48-71 | a run of three seats after which a fourth leaves the first HUNGRY without an EATING neighbour, the mutex being free |
| TableRuns.FailedOpenIsForGood | Userland/SampleCodeModule/philo.c:48-71 | after a failed open no run brings anybody inside the mutex or changes a mark |
| TableRuns.FailedOpenExample | Userland/SampleCodeModule/philo.c:48-71 | any table with room gets there by two steps |
| Philosophers.DiningIsExclusive | Userland/SampleCodeModule/philo.c:86-107 | with private semaphores opened at 0 two neighbours are never both past line 93 |
| Philosophers.BothNeighboursDine | Userland/SampleCodeModule/philo.c:56-93 | opened at 1 or more there is a run after which both neighbours are past line 93, one marked EATING and the other HUNGRY |
| Philosophers.PrivateStartExactly | Userland/SampleCodeModule/philo.c:56-93 | passing the private semaphore means EATING on every run if and only if it is opened at 0 |
| DiningTable.Philosophers.CheckAvailability | Userland/SampleCodeModule/philo.c:109-125 | the check in place grants EATING and posts exactly when hungry with no eating neighbour |
| DiningTable.Philosophers.AddPh | Userland/SampleCodeModule/philo.c:48-71 | with the mutex held the table becomes what the protocol's step makes it, a failed open included |
| DiningTable.Philosophers.DeletePh | Userland/SampleCodeModule/philo.c:128-151 | with the mutex held the table becomes what RemoveLast makes it, with both posts reported; a failed close or an empty table changes nothing; seat -1 is looked at if and only if the only seat was EATING |
| DiningTable.Philosophers.TakeChopsticks | Userland/SampleCodeModule/philo.c:89-90 | the critical section marks HUNGRY and checks |
| DiningTable.Philosophers.PutChopsticks | Userland/SampleCodeModule/philo.c:101-104 | the critical section marks THINKING and checks left, then right |
| DiningTable.AskExactly | Userland/SampleCodeModule/philo.c:86-91 | asking marks the seat HUNGRY, and EATING and posted exactly when nobody beside it is EATING |
| DiningTable.LeaveExactly | Userland/SampleCodeModule/philo.c:98-105 | leaving marks the seat THINKING and grants first the seat before it, then the one after it, each exactly when it is HUNGRY with nobody EATING beside it by then |
| DiningTable.TakeIsTwoSteps | Userland/SampleCodeModule/philo.c:86-92 | that section is two steps of the protocol: same marks, same post, same process woken |
| DiningTable.PutIsThreeSteps | Userland/SampleCodeModule/philo.c:98-106 | that section is three steps of the protocol: same marks, same posts, same processes woken |
| PipeSpec.NextKeeps | Kernel/utils/pipes.c:101-182 | every step, a reader closing on a blocked writer included, keeps order and completeness, and the ring bounds while the reader is open |
| PipeSpec.PipeIsFifo | Kernel/utils/pipes.c:129-182 | over every interleaving the bytes read are a prefix of the bytes written, ring and blocked writer hold exactly the rest, at most 512 in the ring while the reader is open |
| PipeSpec.ReadExactly | Kernel/utils/pipes.c:152-182 | a read takes the first byte or everything and wakes a blocked writer; on an empty pipe it waits while the write end is open and otherwise reports the end |
| PipeSpec.WriteExactly | Kernel/utils/pipes.c:129-150 | a write to a closed reader is refused if and only if the ring is full; any other stores what fits in 512 bytes and waits with the rest, or stores all and wakes a waiting reader |
| PipeSpec.WriteResumesExactly | Kernel/utils/pipes.c:133-150 | a woken writer does the same with what it still has, but a ring that is exactly full does not stop it |
| PipeSpec.ReadResumesExactly | Kernel/utils/pipes.c:158-182 | a woken reader takes what is there, which may be nothing, and wakes a blocked writer |
| PipeSpec.ClosesExactly | Kernel/utils/pipes.c:101-123 | closing an end shuts it and wakes whoever waits for it |
| PipeSpec.EndOfFile | Kernel/utils/pipes.c:101-182 | on any run, once the write end is closed no reader waits, one read gets all that was ever written, and an empty pipe means that it has been read |
| PipeSpec.CloseReaderSafeExactly | Kernel/utils/pipes.c:106-114 | closing the reader is safe for the ring if and only if no writer is blocked; otherwise all the writer still has overruns the full ring |
| PipeSpec.ClosedReaderOverrunsExample | Kernel/utils/pipes.c:101-150 | for every write longer than the ring, a run on which the reader closes and the whole write ends up in the ring |
| PipeSpec.RingSafeExactly | Kernel/utils/pipes.c:101-160 | on any run the ring stays within its bounds throughout if and only if no reader closes on a blocked writer |
| PipeSpec.StepStrandsExactly | Kernel/utils/pipes.c:135-160 | a step strands the waiting reader if and only if it is a write or the continuation of one with more than 512 bytes to go |
| PipeSpec.StrandedExactly | Kernel/utils/pipes.c:129-182 | a run ends with the reader stranded, and then no step of either end possible, if and only if such a step occurs in it |
| PipeSpec.LongWriteStrands | Kernel/utils/pipes.c:135-160 | the reader waits, then any write longer than the ring starts: stranded |
| PipeSpec.LongResumptionStrands | Kernel/utils/pipes.c:135-160 | a write of more than two rings starts, the reader drains the ring and waits: stranded when the write goes on |
| PipeSpec.StrandedMeansDeadlock | Kernel/utils/pipes.c:135-160 | after that no step of either end is possible |
| PipeSpec.ShortWritesNeverStrand | Kernel/utils/pipes.c:129-182 | with writes of at most 512 bytes a blocked end is always the recorded waiter and the ends never block together |
| PipeInterleaving.FifoByteByByte | Kernel/utils/pipes.c:129-182 | with continuations interrupted after any byte: the bytes read are a prefix of the bytes written, ring and writer hold exactly the rest |
| PipeInterleaving.RingSafeExactly | Kernel/utils/pipes.c:129-182 | at these steps the ring stays within its bounds throughout if and only if no sleeping writer is woken while the ring is full |
| PipeInterleaving.UndisturbedRingSafe | Kernel/utils/pipes.c:164-180 | in particular when no writer falls asleep between a reader's last look and its wake, and no reader closes on a sleeping writer |
| PipeInterleaving.LateWakeExample | Kernel/utils/pipes.c:164-180 | a run on which an open pipe holds one byte more than fits |
| PipeInterleaving.StrandedExactly | Kernel/utils/pipes.c:129-182 | at these steps a run ends with both ends waiting for each other if and only if the writer falls asleep in it while the reader is the one recorded as waiting |
| PipeInterleaving.WholeCallsAreARun | Kernel/utils/pipes.c:129-182 | every run of whole continuations is a run of these steps |
| PipeCode.RingPut | Kernel/utils/pipes.c:140-143 | storing at the write index appends to the ring's contents |
| PipeCode.RingGet | Kernel/utils/pipes.c:166-174 | reading with the lazy wrap removes the first byte of the contents |
| PipeCode.Pipe.WriteLoop | Kernel/utils/pipes.c:133-148 | the loop in place shows the abstract fill: bytes stored, block exactly on a full ring, waiter woken when done, from a fresh or a woken start and past a full ring too |
| PipeCode.Pipe.ReadLoop | Kernel/utils/pipes.c:164-180 | the loop in place shows the abstract drain: the first byte or everything in order, then the waiter woken |
| PipeCode.Pipe.Write | Kernel/utils/pipes.c:129-150 | pipeWrite in place is the protocol's write step, and says how far it got |
| PipeCode.Pipe.Read | Kernel/utils/pipes.c:152-182 | pipeRead in place is the protocol's read step, and delivers what that adds to the bytes read |
| PipeCode.Pipe.ResumeWrite | Kernel/utils/pipes.c:133-150 | the write loop after its block is the protocol's continuation |
| PipeCode.Pipe.ResumeRead | Kernel/utils/pipes.c:158-182 | the read loop after its block is the protocol's continuation |
| PipeCode.Pipe.CloseFd | Kernel/utils/pipes.c:101-123 | closing one end while the other is open is the protocol's close step |
| BmfsSpec.IntendedPlaceIsFirstFit | Bootloader/BMFS/bmfs.c:663-685 | the scan that stops at the first deleted record returns the lowest range that fits, or fails when none does |
| BmfsSpec.WrittenScanIs | Bootloader/BMFS/bmfs.c:663-685 | the scan as written is that scan, then a search over stale ends |
| BmfsSpec.WrittenPlaceFreeExactly | Bootloader/BMFS/bmfs.c:663-685 | the place it picks is free if and only if the intended scan finds one or no stale end leaves room |
| BmfsDirectory.PlacingKeepsExactly | Bootloader/BMFS/bmfs.c:693-706 | entering a file keeps live extents disjoint and names unique if and only if its blocks were free |
| BmfsDirectory.CreateExactly | Bootloader/BMFS/bmfs.c:610-719 | with an end mark: success if and only if a free range or a stale end has room; the new record has the name and the length, other files stay as they were; sound if and only if a range was free, then the lowest one |
| BmfsDirectory.RefusalsExactly | Bootloader/BMFS/bmfs.c:618-657 | create finds the name taken if and only if a live file has it, and no entry if and only if none has and 64 files are live |
| BmfsDirectory.CreatedRoom | Bootloader/BMFS/bmfs.c:615-620 | a file created for n MiB is empty and has n MiB rounded up to whole blocks of 2 MiB |
| BmfsDirectory.StaleEndExample | Bootloader/BMFS/bmfs.c:672-684 | a directory on which create puts a file on top of a live one |
| BmfsDirectory.OverlappingRunExample | Bootloader/BMFS/bmfs.c:663-685 | a run of creates and deletes from a formatted disk that ends with two live files on the same blocks |
| BmfsDirectory.CreateWithoutEndMark | Bootloader/BMFS/bmfs.c:633-685 | without an end mark the first data block is used; in a later record the directory stays sound if and only if it was free; in the first record it stays sound but no other file can be found any more |
| BmfsDirectory.NoMarkOverlapExample | Bootloader/BMFS/bmfs.c:633-685 | a sound directory without an end mark on which create overlaps a live file |
| BmfsDirectory.NoMarkLostExample | Bootloader/BMFS/bmfs.c:633-706 | one on which a file can no longer be found afterwards |
| BmfsDirectory.CreatedIsFoundExactly | Bootloader/BMFS/bmfs.c:205-231 | what create reports as created can be found under its name if and only if the name is not empty and does not start with the unused mark |
| BmfsDirectory.UnstorableKeeps | Bootloader/BMFS/bmfs.c:693-706 | such a create adds no file; under the unused mark all others stay, under the empty name exactly those before its record do |
| BmfsDirectory.DeleteKeeps | Bootloader/BMFS/bmfs.c:802-821 | delete removes exactly the named file, keeps the directory sound, and leaves in the record where the file lay |
| BmfsDirectory.DirectorySoundExactly | Bootloader/BMFS/bmfs.c:610-821 | on any run of creates and deletes extents stay disjoint, inside [1, num_blocks - 1), names unique, throughout if and only if every create finds real room |
| BmfsFiles.WriteThenRead | Bootloader/BMFS/bmfs.c:722-799 | a read after a write gives the bytes; other files, other records, other disk bytes are unchanged |
| BmfsFiles.OtherFileUntouched | Bootloader/BMFS/bmfs.c:784-789 | writing inside one reservation leaves every other live file's bytes alone |
| BmfsStore.RoomIsBlocks | Bootloader/BMFS/bmfs.c:615-620 | the room the table gives a file created for n MiB is that size in whole blocks, in bytes |
| BmfsStore.ImageIsATable | Bootloader/BMFS/bmfs.c:610-821 | after any run of creates that find real room, deletes and writes from a formatted disk the image is sound and shows under every name what a table of names, rooms in bytes and contents holds |
| BmfsStore.WriteSucceedsExactly | Bootloader/BMFS/bmfs.c:754-781 | write reports no file if and only if the table has none, and succeeds if and only if the bytes fit the room reserved for the name |
| BmfsImage.SortEntries | Bootloader/BMFS/bmfs.c:596-661 | yields an ordering that qsort with the comparison function may yield |
| BmfsImage.Image.FindFile | Bootloader/BMFS/bmfs.c:205-231 | finds the first live record with the name, up to the end mark |
| BmfsImage.Image.CountEntries | Bootloader/BMFS/bmfs.c:635-651 | counts the used records (0 without an end mark) and finds the first free one |
| BmfsImage.Image.FindGap | Bootloader/BMFS/bmfs.c:663-685 | the loop is the written scan |
| BmfsImage.Image.WholeBlocks | Bootloader/BMFS/bmfs.c:621 | the number of blocks is that of the whole 2 MiB of the disk |
| BmfsImage.Image.CreateFile | Bootloader/BMFS/bmfs.c:610-719 | create in place is the abstract create; refusals change nothing |
| BmfsImage.Image.DeleteFile | Bootloader/BMFS/bmfs.c:802-821 | delete in place is the abstract delete |
| BmfsImage.Image.ReadBytes | Bootloader/BMFS/bmfs.c:722-751 | read delivers the file's bytes or reports that it does not exist |
| BmfsImage.Image.WriteBytes | Bootloader/BMFS/bmfs.c:754-799 | write in place is the abstract write and keeps the image sound |
| ModuleImage.LeastByteFirst | Toolchain/ModulePacker/main.c:66-85 | a 32-bit field is stored and read least significant byte first |
| ModuleImage.ImageLayout | Toolchain/ModulePacker/main.c:54-87 | the image is the kernel, four bytes of count, and then for each module four bytes of size and its bytes, with nothing between or behind |
| ModuleImage.UnpackExactly | Toolchain/ModulePacker/main.c:54-121 | bytes parse as a module list if and only if they start with the payload packed for it and nothing was truncated |
| ModuleImage.PackedParsesBackExactly | Toolchain/ModulePacker/main.c:54-121 | packed modules parse back if and only if the count and every size fit 32 bits |
| ModuleImage.LoadPlacesWhatParses | Kernel/moduleLoader.c:11-31 | loading puts what memory parses to at the targets, each byte, and changes nothing else |
| ModuleImage.PackThenLoad | Kernel/moduleLoader.c:11-31 | with the packed image in memory, loading restores each module's exact bytes at its target and changes nothing else |
| ModuleLoader.Target.WriteFile | Toolchain/ModulePacker/main.c:111-121 | the chunk loop copies the whole file, whatever its length modulo the buffer |
| ModuleLoader.BuildImage | Toolchain/ModulePacker/main.c:54-87 | the packer writes kernel, count, then each size and module |
| ModuleLoader.Memcpy | Kernel/lib.c:16-52 | the word path and the byte path have the same effect, for disjoint ranges |
| ModuleLoader.LoadModule | Kernel/moduleLoader.c:20-25 | copies one module and moves the cursor past it |
| ModuleLoader.LoadModules | Kernel/moduleLoader.c:11-18 | the loop has the effect of the loading function |
| Radix.PrintThenParse | Userland/SampleCodeModule/libc.c:29-121 | what is printed in base 10 or 16 is a numeral that reads back as the same number |
| Radix.ParseThenPrintExactly | Userland/SampleCodeModule/libc.c:29-121 | what is read prints back as the same text if and only if it has no needless leading zero and no small letter |
| Radix.AcceptedExactly | Userland/SampleCodeModule/libc.c:91-121 | text is a numeral if and only if every character prints a digit of the base, in base 16 after capitalising |
| Radix.SmallLettersCount | Userland/SampleCodeModule/libc.c:91-106 | a hexadecimal numeral has the value of its capitalised text |
| Radix.PrintsCapitalsExactly | Userland/SampleCodeModule/libc.c:29-106 | it prints back as its capitalised text if and only if it has no needless leading zero |
| Radix.DigitsInOrder | Userland/SampleCodeModule/libc.c:29-40 | the digits are the characters 0 to 9 and A to Z, in this order |
| Radix.PrintedOrderExactly | Userland/SampleCodeModule/libc.c:29-54 | of two printed numbers the smaller is the shorter text, or of two as long the one with the smaller character where they first differ |
| Radix.PrintedWidthExactly | Userland/SampleCodeModule/libc.c:34-39 | a number prints in at most k digits if and only if it is below base to the k |
| RadixCode.UintToBase | Userland/SampleCodeModule/libc.c:29-54 | the buffer starts with the digits, most significant first, and a terminator; the rest is untouched; the digit count is returned |
| RadixCode.ReverseInPlace | Userland/SampleCodeModule/libc.c:43-51 | reverses exactly the first n characters in place |
| RadixCode.Hex2Int | Userland/SampleCodeModule/libc.c:91-106 | the value of the capitalised text modulo 2^64; 0 and a lowered flag exactly for text that is not hexadecimal |
| RadixCode.Atoi | Userland/SampleCodeModule/libc.c:108-121 | the value modulo 2^64; 0 and a lowered flag exactly for text that is not decimal |

## Left out

* Assembly, interrupt stubs, console, keyboard and its waiting list, shell, system-call tables and printing: hardware state and user interface.
* Kernel/interruptions/time.c: the sleep list.
* Allocators: the heap's base address and the sentinels' layout in memory; `heapSize`, `heapLeft` and `usedHeap`, which only read the counter; frees of pointers that are not live.
- FreeListHeap.FreeListManager.AllocMem: headers are separate cells of memory; a request that wraps to 8 makes two of them overlap, of which the model says only that the heap is no longer sound.
- FreeListSpec.AllocKeeps: grants that cut off a block too small for its header are not sound and are the subject of FreeListSpec.GrantSoundExactly.
- FreeListSpec.RunKeeps: runs stop at such a grant, since nothing is promised after it (FreeListSpec.HeapSoundExactly); FreeListSpec.HeapAfterAnyRun likewise.
- FreeListSpec.FreeListAllocates: the contract is met by the grants that FreeListSpec.GrantSoundExactly finds sound.
* Scheduler: stack pointers, process memory, arguments and pipe descriptors in the process block; the slice counter `quantum`, which is always reset to 0.
- SchedulerCode.Scheduler.SwitchProcess: the node of a process that has just left the list is freed by the code and still read at the next switch; here it keeps its pid, its deleted state and its next pointer.
- SchedulerCode.Scheduler.constructor: the shell's `next` pointer, which the code leaves as it finds it in fresh memory, is null.
- SchedulerCode.Scheduler.CreateProcess: priority 0 and the wrap of the 32-bit pid counter are excluded.
- SchedulerCode.Scheduler.ChangeProcessState: the yield of a process that blocks itself is a tick of its own.
- ProcessList.EventKeeps: the shell exiting, priority 0, the wrap of the 32-bit pid counter and calls by a process that has already left the list are excluded; a tick is taken only where it reads no null pointer, and ProcessList.PrudentRunsNeverReadNull says when that is always so.
- ProcessTable.ListIsATable: for the same runs.
- ProcessList.ProcessListAfterAnyRun: runs stop where a switch would read through a null pointer, which ProcessList.KilledForegroundExample and ProcessList.NicedExitExample show to be possible.
- SchedulerWaiting.BoundedWaiting: the number of listed processes is fixed during the wait, and so it is for SchedulerAging.AuxWhileWaiting.
- SemaphoreTheorems.NextKeeps: a continuation after a wakeup is one step, which the code does not guarantee; SemaphoreInterleaving splits it.
- SemaphoreTheorems.NoLostWakeup: only for runs without an interrupted continuation; SemaphoreInterleaving.WakeupsExactly covers the others.
- SemaphoreTheorems.MutualExclusion: only for runs without an interrupted continuation; SemaphoreInterleaving.ExclusionExactly covers the others.
- SemaphoreCode.Semaphore.Resume: taken as uninterrupted.
- SemaphoreKills.ForgottenExactly: continuations after a wakeup are uninterrupted here too, and a killed holder's semaphore is simply never posted.
- SemaphoreInterleaving.ExclusionExactly: a decrement and the release of the lock after it are still one step, and so are the block of a process and its entry into the queue.
- PhilosophersSpec.MutexKept: rests on uninterrupted continuations of the mutex; SemaphoreInterleaving.TwoHoldersExample shows that it fails without them.
- Philosophers.TableExclusion: rests on PhilosophersSpec.MutexKept, and so do Philosophers.HungryHaveEatingNeighbour, Philosophers.DiningIsExclusive and Philosophers.PrivateStartExactly.
- Philosophers.HungryHaveEatingNeighbour: rests on PhilosophersSpec.MutexKept.
- TableProgress.NobodyIsForgotten: rests on PhilosophersSpec.MutexKept, and so does TableProgress.NeverDeadlocked; no seat is added on these runs.
- Philosophers.DiningIsExclusive: rests on uninterrupted continuations of the mutex and of the private semaphores.
- Philosophers.PrivateStartExactly: that passing means EATING rests on the same; the failing half does not.
* Semaphores: the table, `sem_open`, `sem_close`, the upper bound of the `int` value, and the order in which a kill visits the semaphores.
* Philosophers: `endDining`, process creation, the kill of the philosopher whose seat is removed, and failed private waits.
- DiningTable.Philosophers.DeletePh: what lies before the table, and what the check of seat -1 may do to it, is not modelled.
- DiningTable.Philosophers.CheckAvailability: the post is a result, tied to the semaphore by DiningTable.TakeIsTwoSteps and DiningTable.PutIsThreeSteps.
* Pipes: ids and the table, `openPipeId`, freeing when both ends are closed, kills, several readers or writers, and bytes equal to NUL inside a string.
- PipeSpec.PipeIsFifo: a continuation after a wakeup is one step, which PipeInterleaving.FifoByteByByte does without; once a closed reader has let the writer overrun the ring, `content` is what was stored, of which the ring itself has overwritten a part that nobody reads.
- PipeSpec.RingSafeExactly: only for uninterrupted continuations; PipeInterleaving.RingSafeExactly covers the others.
- PipeSpec.StrandedExactly: only for uninterrupted continuations; PipeInterleaving.StrandedExactly covers the others.
- PipeInterleaving.RingSafeExactly: moving one byte with its index and the fill level is still one step, and so are the block of a process and its entry into the waiting slot.
- PipeCode.Pipe.CloseFd: closing the second end, which frees the pipe, is left out.
* BMFS: `initialize`, `format`, `list`, the command line, the byte layout of a record and the flush to disk; local files are byte sequences; file lengths of 2^31 and more, which the `int` loop counters do not reach.
- BmfsImage.SortEntries: an insertion sort stands for `qsort`; deleted records may come in any order, and differences of starting blocks that do not fit an `int` are left out.
- BmfsDirectory.CreateExactly: names that are empty or start with the deleted mark are excluded here; BmfsDirectory.CreatedIsFoundExactly and BmfsDirectory.UnstorableKeeps cover them.
- BmfsDirectory.CreatedIsFoundExactly: names longer than 31 characters, which overrun the name field of the record, are not modelled.
- BmfsDirectory.DirectorySoundExactly: the same names; requests are of at least 1 MiB, as lines 159 and 173 of the program demand.
- BmfsStore.ImageIsATable: creates have a storable name, find real room and do not hide the files of a full directory; the lemmas of BmfsDirectory say what the others do.
* Packer and loader: the command line, file errors, and files that change while they are packed.
- ModuleLoader.LoadModules: memory is one array; a payload that leads outside it, more modules than targets, a module overlapping its own target and 2^31 or more modules are excluded.
- ModuleLoader.Memcpy: overlapping ranges are excluded, as the source's comment demands.
- RadixCode.UintToBase: bases outside 2 to 36 are excluded; texts are sequences without their terminator on the reading side.
* Userland/SampleCodeModule/libc.c: signed and floating-point conversion and formatted printing.

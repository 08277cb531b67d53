# Pintos, modelled and proved

A Dafny model of the parts of the Pintos kernel whose correctness is not obvious from reading one
function, with proofs of what they promise. Every property is stated for all inputs, all runs or all
reachable states. `dafny verify dfyconfig.toml` checks everything.

## What is modelled

**Demand paging** (`PagingState`, `PagingProofs`, `PagingRun`, `PagingExit`, `PagingTheorem`,
`PagingKernel`, `Clock`, `ElfSegment`, `DemandLoading`, `EvictionWindow`, `PoolLayout`). A state machine
over frames, swap slots, supplemental page entries and page table bits. Its steps are processes coming
and going, pages being mapped, page faults (each with the eviction it causes) and accesses; a fault and
the access that caused it are two steps, because `page_fault` lets other processes run before the access
is retried. The invariant is that a page's bytes are where its entry says: in its frame, in its slot, in
its file, or nowhere and zero; in particular a clean resident page that is neither from a file nor from
swap is all zeros, which is what makes it safe that a page read back from swap keeps only its dirty bit.
The contents of files are constants here: `load` denies writes to the executable it maps pages from
(`src/userprog/process.c:306`), and `FsRuns.DeniedFileStays` says what that gives. The main theorems are
`PagingIsInvisible` and, for executables, `DemandLoadEqualsEager`. The class `Kernel` is the imperative
code, proved to take the steps of the state machine.

**The file system** (`Disk`, `Bitmap`, `FsLayout`, `FsStore`, `FsDirectory`, `FsTable`, `FsSystem`,
`FsSpec`, `FileSys`, `FsRuns`, `FsLaws`, `FsMount`). Sectors at the bottom; above them inodes that own disjoint
sectors, the free map and its file, the root directory, open inodes and open files; at the top a
specification in which there are only names, contents and open files. `FsRuns.Run` says that any
sequence of calls behaves as the specification; the lemmas after it and `FsLaws` say what that gives callers,
in terms of bytes and positions.

**Threads and synchronization** (`Threads`, `ThreadRuns`, `ThreadFrames`, `ThreadKernel`, `CondVars`,
`CondRuns`). Semaphores and locks over the round-robin scheduler, as interleaved steps with interrupts
off inside each primitive; condition variables as sequences of those steps, with every other thread's
steps in between. `ThreadKernel` is the imperative code, proved to take the steps of the machine.

**Data structures and arithmetic.** The doubly linked list and its in-place natural merge sort
(`ListOrder`, `LinkedList`, `ListSort`), the resizing hash table (`BucketCount`, `HashTable`), heapsort
and binary search (`HeapSort`), the block allocator (`ArenaState`, `ArenaSteps`, `ArenaTheorem`,
`ArenaKernel`), 64-bit division from 32-bit division (`Division`), ustar headers (`Octal`, `Ustar`) and
the initial user stack (`CommandLine`, `UserStack`). `Prelude`, `CStrings` and `LittleEndian` are shared.

Code that changes things in place is a class or a method over an array, proved against functions of the
old state; code that only computes is functions and lemmas.

## Where the code does less than one would expect

The model follows the code, and states exactly when the expected property holds.

- `malloc` promises at least SIZE bytes. It gives them exactly when `SIZE + 4107` does not wrap `size_t`
  (`ArenaKernel.BigEnough`); `ArenaKernel.WrappedRequest` is a request for which it does not.
- `umod64` and `smod64` promise the remainder but return 32 bits of it; they are exact for all dividends
  exactly when the divisor is at most 2^32 (`Division.ModExact`), or 2^31 in magnitude
  (`Division.SmodExact`).
- `evict_page` saves a page, with interrupts on, before it unmaps it. A store by the owner in between is
  lost: what processes see is then right exactly when the store changed nothing
  (`EvictionWindow.StoreInWindow`). In the runs of the model eviction is one step.
- A page fault that is turned down has claimed a frame already, and exit does not give it back
  (`PagingKernel.RejectedFrameLeaks`).
- A page of an executable whose file offset does not fit `off_t`, as in a segment with 2 GB of zeros,
  cannot be loaded: `file_seek` panics. All other pages of a segment whose bytes are in the file load
  whenever a frame can be had (`DemandLoading.FirstLoad`, `DemandLoading.EntryReadable`);
  `DemandLoading.OffsetOverflows` is such a segment.
- A `filesys_create` that fails because the name is taken or invalid, or the directory is full, leaves
  the sectors of the file's data marked used; `FileSys.FileSystem.Create` says exactly which. All other
  sectors marked used belong to exactly one inode (`FsStore.UsedExactly`).
- The frame table is sized from all of RAM. It has one entry per user page exactly when the user page
  limit does not cut the user pool short, and is otherwise longer (`PoolLayout.FramesMatchPool`). A
  longer table never fills, so nothing is evicted and `assign_page` gets a null page when the pool is used
  up (`PoolLayout.LongTableNeverEvicts`, `PoolLayout.PageForFrameExactly`).

## Model

| member | source | states |
|---|---|---|
| Clock.Dist | src/vm/frametable.c:97-102 | the hand meets every frame once per turn: the distance to a frame is unique in 1..n |
| Clock.ClearedBit | src/vm/frametable.c:97-110 | a sweep of m steps clears the accessed bits of exactly the frames it visited |
| Clock.FirstClear | src/vm/frametable.c:97-110 | the sweep stops at the first frame after the hand whose bit was clear, after at most n + 1 steps |
| Clock.SweepStops | src/vm/frametable.c:107-110 | the do-while test ends the sweep exactly at that frame, so the loop terminates |
| PagingProofs.ApplyKeeps | src/vm/frametable.c:112-127 | any one change of a frame, an entry and a slot that fits its surroundings keeps the whole paging invariant |
| PagingProofs.FilledMapped | src/vm/frametable.c:103-106 | a filled frame has an owner whose table holds its page, so eviction finds its spinfo |
| PagingProofs.OneHolder | src/vm/frametable.c:103-106 | no other page of any process is in that frame |
| PagingProofs.EvictKeeps | src/vm/frametable.c:112-127 | evicting a page keeps the invariant and what every process sees |
| PagingProofs.InstallKeeps | src/userprog/exception.c:211-251 | loading a page (file, swap or zeros) and restoring its dirty bit keeps the invariant and what every process sees |
| PagingProofs.ClearKeeps | src/userprog/pagedir.c:202-215 | clearing an accessed bit keeps the invariant and what every process sees |
| PagingRun.SweptBits | src/vm/frametable.c:97-110 | the sweep over page tables is the clock over their accessed bits |
| PagingRun.FreePageExists | src/vm/frametable.c:66-69 | when a frame is empty the user pool has a free page, so assign_page never gets a null page |
| PagingRun.AddKeeps | src/userprog/process.c:476-487 | a new supplemental entry keeps the invariant |
| PagingRun.FaultRefines | src/userprog/exception.c:161-252 | a resolved fault (stack growth, file, swap or zero page, with eviction) leaves every page as flat memory has it |
| PagingRun.TouchRefines | src/userprog/pagedir.c:163-197 | a user load or store, with the bits the processor sets, does to the frame what it does to flat memory |
| PagingRun.MakePresentRefines | src/userprog/exception.c:161-252 | after an access is made possible, every page is still as flat memory has it |
| PagingExit.HeldIsOwned | src/userprog/process.c:148-157 | a frame's page is in a process's table exactly when the process owns the frame |
| PagingExit.ExitFreesItsOwn | src/userprog/process.c:148-157 | exit empties exactly the frames the process owns and frees exactly the slots of its swapped pages |
| PagingExit.ExitKeeps | src/threads/thread.c:333-346 | exit keeps the invariant for all other processes |
| PagingTheorem.StepRefines | src/userprog/exception.c:161-252 | each event, a fault resolved without its access among them, does to what processes see what it does to flat memory |
| PagingTheorem.PagingIsInvisible | src/vm/frametable.c:65-128 | over every run of spawns, mappings, faults, accesses and exits by any number of processes, in any order, every load delivers the byte flat memory holds and all pages end as in flat memory |
| PagingTheorem.Boot | src/vm/swaptable.c:14-29 | the state after initialisation satisfies the invariant and agrees with empty memory |
| PagingTheorem.ReachableOwnership | src/vm/swaptable.c:55-103 | in every reachable state filled frames match resident pages and filled slots match SWAP pages one to one, and no SWAP page is resident |
| PagingKernel.FindSpinfo | src/vm/spagetable.c:5-16 | the list walk finds the first entry for a user page |
| PagingKernel.FindSpinfoByKpage | src/vm/frametable.c:105 | the same walk keyed by the kernel page |
| PagingKernel.Kernel.constructor | src/vm/frametable.c:16-32 | tables sized from RAM start in the boot state, when that size is the user pool's |
| PagingKernel.Kernel.GetMetaframeByPage | src/vm/frametable.c:34-48 | finds the first frame holding a page |
| PagingKernel.Kernel.NextEmptyMetaswapEntry | src/vm/swaptable.c:39-53 | finds the first free slot; none is a panic |
| PagingKernel.Kernel.MoveIntoSwap | src/vm/swaptable.c:55-75 | eight sector writes put exactly the page in the slot and leave every other slot |
| PagingKernel.Kernel.ReadFromSwap | src/vm/swaptable.c:77-90 | eight sector reads return exactly the page of the slot |
| PagingKernel.Kernel.FreeMetaswapEntry | src/vm/swaptable.c:92-103 | the slot is free, its instruction USELESS and its dirty flag kept |
| PagingKernel.Kernel.PallocGetPage | src/threads/palloc.c:70-101 | the first free user page, zeroed |
| PagingKernel.Kernel.PallocFreePage | src/threads/palloc.c:117-142 | the page is free and overwritten |
| PagingKernel.Kernel.FreeFrame | src/vm/frametable.c:78-85 | empties the frame that holds the page |
| PagingKernel.Kernel.SweepStep | src/vm/frametable.c:97-109 | one turn of the loop moves the hand by one and clears that one bit |
| PagingKernel.Kernel.Sweep | src/vm/frametable.c:97-110 | the loop ends in the state the clock gives, hand and bits |
| PagingKernel.Kernel.EvictVictim | src/vm/frametable.c:112-127 | saves, unmaps and frees the victim as the eviction step says, or panics exactly when swap is full and needed |
| PagingKernel.Kernel.Unmap | src/vm/frametable.c:120-125 | the entry and the mapping are replaced, the pool page and the frame given back, and nothing else changes |
| PagingKernel.Kernel.EvictPage | src/vm/frametable.c:88-128 | is the eviction of the model |
| PagingKernel.Kernel.NextEmptyFrame | src/vm/frametable.c:50-63 | an empty frame, by eviction only when all are filled |
| PagingKernel.Kernel.LoadInto | src/userprog/exception.c:211-251 | the load of the model: file bytes and zeros, or slot contents, with the dirty bit restored |
| PagingKernel.Kernel.PageFault | src/userprog/exception.c:161-252 | is the fault of the model (DemandLoading.StackGrows says when that grows the stack), on absent pages and on stores to read-only ones; a fault that is turned down leaves exactly the frame and the page claimed for it taken |
| PagingTheorem.AccessMarks | src/userprog/pagedir.c:163-197 | after an access the page is present with its accessed bit set, after a store also its dirty bit |
| PagingTheorem.SecondChance | src/vm/frametable.c:97-110 | while some page in memory has its accessed bit clear, no page with the bit set is evicted |
| PagingTheorem.EvictionSwaps | src/vm/frametable.c:112-127 | eviction fills a free slot with the page exactly when it is a stack page or dirty, fails exactly when there is no slot for it, and otherwise leaves swap alone |
| PagingKernel.RejectedFrameLeaks | src/userprog/process.c:146-157 | exit after such a fault gives back all but that frame and that page, which stay taken for a process that is gone: no run of the model reaches such a state, and the clock hand finds no page there |
| PagingKernel.Kernel.ReleaseFrames | src/userprog/process.c:148-157 | the loop over the table empties the frames of its resident pages and no others |
| PagingKernel.Kernel.ReleasePages | src/userprog/pagedir.c:27-51 | the user pages the directory maps are freed and no others |
| PagingKernel.Kernel.ReleaseSlots | src/threads/thread.c:333-346 | the loop frees the slots of SWAP pages and no others |
| PagingKernel.Kernel.ProcessExit | src/userprog/process.c:142-175 | is the exit of the model |
| ElfSegment.ValidMeans | src/userprog/process.c:403-444 | a segment is let through if and only if it is a nonempty piece of user memory past page 0 and below PHYS_BASE, not shorter than its file part, which starts inside the file at the same place in its page |
| ElfSegment.LoadSegment | src/userprog/process.c:460-498 | the loop makes one entry per page, consecutive, without gap or repeat |
| ElfSegment.SegmentCovers | src/userprog/process.c:349-376 | a valid segment meets the assertions and its pages cover it exactly, below the kernel |
| ElfSegment.LazyEqualsEager | src/userprog/process.c:349-376 | mapped into flat memory, every address of a valid segment whose file bytes exist holds the file byte or zero its program header prescribes (ELF, Program Header) |
| DemandLoading.LoadableStep | src/userprog/process.c:476-487 | no event but its own exit takes a page, or what it was mapped with, away from a process |
| DemandLoading.ClaimFailsWhenFull | src/vm/frametable.c:50-63 | next_empty_frame panics only when every frame and every swap slot is taken |
| DemandLoading.LoadOutcome | src/userprog/exception.c:161-252 | a load from a page that exists is never refused; if its file bytes can be read it panics only when memory and swap are full |
| DemandLoading.SegmentMaps | src/userprog/process.c:468-497 | mapping a segment onto free pages always goes through, and appends its entries and nothing else |
| DemandLoading.EntryReadable | src/filesys/file.c:153-159 | a page of a segment whose bytes are all in the file can be read exactly when its offset fits off_t |
| DemandLoading.OffsetOverflows | src/userprog/process.c:493 | there is a valid segment with a page whose offset does not: one file byte and 2 GB of zeros |
| DemandLoading.FirstLoad | src/userprog/exception.c:161-252 | after mapping, the first load from any page of a valid segment is never refused, and goes through exactly when a frame can be had and the page can be read |
| DemandLoading.StillThere | src/userprog/exception.c:161-252 | over every run in which the process neither ends nor stores there, a byte stays what it was |
| DemandLoading.DemandLoadEqualsEager | src/userprog/exception.c:161-252 | map a valid segment and let anything happen but the process ending or storing at the address: a load is never refused, panics only when memory and swap are full or the offset overflowed, and else delivers the byte the program header prescribes |
| DemandLoading.StackGrows | src/userprog/exception.c:180-204 | where there is no page and a frame can be had, a load or store makes a writable stack page if and only if it is at or above the stack pointer, or 4 or 32 bytes below it; else the process ends |
| DemandLoading.NewStackIsZero | src/userprog/exception.c:181-193 | every byte of a page the stack grew by reads as 0 |
| DemandLoading.SetupStackIs | src/userprog/process.c:508-532 | the first stack page is the one below PHYS_BASE, writable and all zeros |
| DemandLoading.StoreOutcome | src/userprog/exception.c:205-209 | a store to a page that exists goes through only if the page is writable, ends the process only if it is not, and panics only when there is no room or the page cannot be read |
| DemandLoading.SegmentStores | src/userprog/process.c:476-487 | over any run after a segment is mapped, a store to it goes through only if the program header says writable and is refused only if it does not |
| EvictionWindow.StoreInWindow | src/vm/frametable.c:112-120 | a store between saving a page and unmapping it is lost: processes see what flat memory holds exactly when the store changed nothing |
| PoolLayout.LongTableNeverEvicts | src/vm/frametable.c:50-76 | with more frames than pool pages there is always an empty frame, so nothing is ever evicted, and once the pool is used up assign_page gets a null page |
| PoolLayout.PageForFrameExactly | src/vm/frametable.c:65-76 | every consistent state has a page for an empty frame exactly when the frame table is no longer than the pool |
| PoolLayout.FramesMatchPool | src/vm/frametable.c:16-24 | the frame table is as long as the user pool exactly when the page limit does not cut the pool short, and never shorter |
| LinkedList.MovedChained | src/lib/kernel/list.c:183-204 | the six pointer writes of a splice leave a chain in the moved order |
| LinkedList.List.constructor | src/lib/kernel/list.c:60-68 | an empty well-formed list |
| LinkedList.List.Insert | src/lib/kernel/list.c:168-178 | the element is at its place in a well-formed list, the others in order |
| LinkedList.List.Remove | src/lib/kernel/list.c:248-255 | the element is gone, the others in order |
| LinkedList.List.Relink | src/lib/kernel/list.c:196-203 | links cross over at the three seams and nowhere else |
| LinkedList.List.RelinkInPlace | src/lib/kernel/list.c:196-203 | a block spliced to where it is stays there |
| LinkedList.List.Splice | src/lib/kernel/list.c:183-204 | the block is moved in front of any element outside it, up or down the list, which stays well formed |
| LinkedList.List.SpliceFrom | src/lib/kernel/list.c:183-204 | a block of another list is moved in front of an element of this one, and both stay well formed |
| ListOrder.MoveIsStable | src/lib/kernel/list.c:391-398 | moving an element in front of strictly larger ones reorders no equivalent elements |
| ListOrder.StableIsPermutation | src/lib/kernel/list.c:403-440 | a stable image is a permutation |
| ListOrder.SortedDescents | src/lib/kernel/list.c:403-440 | a sequence without descents is sorted |
| ListSort.FindEndOfRun | src/lib/kernel/list.c:357-372 | the end of the longest non-descending run |
| ListSort.InplaceMerge | src/lib/kernel/list.c:379-399 | two adjacent sorted runs become one, stably, and nothing else moves |
| ListSort.TwoRunsCount | src/lib/kernel/list.c:418-436 | merging two runs lowers the number of natural runs by one |
| ListSort.PassStep | src/lib/kernel/list.c:418-436 | one merge of a pass keeps what the pass promises |
| ListSort.Pass | src/lib/kernel/list.c:414-438 | a pass is stable, leaves at most as many natural runs as it output, and fewer than before when it output more than one |
| ListSort.Sort | src/lib/kernel/list.c:404-440 | terminates with a well-formed list that is a sorted, stable permutation, for every strict weak order |
| Threads.ScheduleKeeps | src/threads/thread.c:575-651 | schedule leaves exactly one running thread, READY threads exactly on the ready list (idle apart), each once |
| Threads.SwitchKeeps | src/threads/thread.c:375-389 | giving up the processor keeps the whole invariant |
| Threads.UpKeeps | src/threads/synch.c:108-121 | sema_up keeps the invariant: waking the first waiter and raising the value loses no wakeup |
| Threads.BlockKeeps | src/threads/synch.c:69-73 | waiting on a semaphore at zero keeps the invariant |
| Threads.TakeKeeps | src/threads/synch.c:74-76 | taking a unit keeps the invariant |
| Threads.GrabKeeps | src/threads/synch.c:192-203 | passing the lock's semaphore keeps value plus threads inside at one |
| Threads.ReholdKeeps | src/threads/synch.c:200-203 | setting and clearing the holder keeps it null or the thread inside |
| Threads.ReleaseKeeps | src/threads/synch.c:228-236 | releasing a lock keeps the invariant |
| Threads.OnlyOneInside | src/threads/synch.c:192-236 | a thread inside a lock is the only one |
| ThreadRuns.StepKeeps | src/threads/synch.c:60-121 | every step of every interleaving, by threads or handlers, keeps the invariant |
| ThreadRuns.MutualExclusion | src/threads/synch.c:192-236 | in every interleaving at most one thread is inside a lock, its value is 0, and the holder is null or that thread |
| ThreadRuns.NoLostWakeup | src/threads/synch.c:60-121 | in every interleaving a semaphore with waiters and value v has at least v awake threads about to test it |
| ThreadRuns.ValueIsNet | src/threads/synch.c:60-121 | in every interleaving the value is the initial value plus ups less downs |
| ThreadRuns.StepValue | src/threads/synch.c:60-121 | each step moves a value by its ups and downs, and a wait list only by an up at its front or a wait at its end |
| ThreadRuns.WokenInTurn | src/threads/synch.c:69-121 | in every interleaving waiters are woken in the order they came: the one at position k by the (k + 1)th up |
| ThreadRuns.DispatchedInTurn | src/threads/thread.c:375-389 | the thread at position k of the ready list runs by the (k + 1)th call of schedule |
| ThreadRuns.TicksSchedule | src/threads/thread.c:129-147 | over any run every four ticks bring a call of schedule |
| ThreadRuns.DispatchedInTime | src/threads/thread.c:129-147 | the thread at position k runs within 4 (k + 1) delivered ticks |
| ThreadRuns.InitOk | src/threads/thread.c:112-126 | the machine thread_start leaves satisfies the invariant |
| ThreadRuns.IdleWhenNoneReady | src/threads/thread.c:575-582 | after any switch the idle thread runs only if no other thread is READY |
| ThreadRuns.NoIdlingWhileReady | src/threads/thread.c:637-650 | the same of every step of every run that switches |
| ThreadRuns.AloneKeepsRunning | src/threads/thread.c:384-387 | a thread that yields, or whose slice ends, with no other thread READY goes on running |
| ThreadRuns.YieldsBehind | src/threads/thread.c:384-387 | a thread that yields is behind all that were READY before it |
| ThreadRuns.CreateIsReady | src/threads/thread.c:172-242 | a new thread is READY and last in the list; the creator goes on running |
| ThreadRuns.ExitDies | src/threads/thread.c:318-371 | thread_exit leaves its thread DYING |
| ThreadRuns.ExitIsFinal | src/threads/thread.c:318-371 | over any run, a DYING thread never runs again and is never on the ready list |
| ThreadKernel.Cpu.NextThreadToRun | src/threads/thread.c:575-582 | the front of the ready list, or idle |
| ThreadKernel.Cpu.Schedule | src/threads/thread.c:637-650 | is the scheduling step of the model |
| ThreadKernel.Cpu.SwitchTo | src/threads/thread.c:251-259 | the running thread blocks, yields or dies and the next one runs; ThreadRuns.IdleWhenNoneReady and AloneKeepsRunning say which |
| ThreadKernel.Cpu.ThreadUnblock | src/threads/thread.c:269-281 | the thread is READY at the end of the list |
| ThreadKernel.Cpu.ThreadYield | src/threads/thread.c:375-389 | is the yield of the machine and keeps its invariant |
| ThreadKernel.Cpu.ThreadTick | src/threads/thread.c:129-147 | is the tick of the machine: the fourth of a slice yields |
| ThreadKernel.Cpu.ThreadExit | src/threads/thread.c:366-370 | is the exit of the machine |
| ThreadKernel.Cpu.ThreadCreate | src/threads/thread.c:172-242 | is the creation step of the machine: the new thread is READY, last on the list |
| ThreadKernel.Cpu.Raise | src/threads/synch.c:116-119 | wakes the first waiter, if any, and raises the value |
| ThreadKernel.Cpu.SemaUp | src/threads/synch.c:108-121 | is the up step of the machine, by a thread or a handler |
| ThreadKernel.Cpu.SemaTryDown | src/threads/synch.c:83-102 | takes a unit exactly when there is one, else changes nothing |
| ThreadKernel.Cpu.Resume | src/threads/synch.c:69-74 | the test in the loop of sema_down is the machine's: sleep at zero, else take a unit |
| ThreadKernel.Cpu.SemaDown | src/threads/synch.c:60-77 | takes the machine's steps up to passing or going to sleep, and passes exactly when the value was positive |
| ThreadKernel.Cpu.LockHeldByCurrentThread | src/threads/synch.c:241-247 | true only of the one thread inside the lock |
| ThreadKernel.Cpu.LockAcquire | src/threads/synch.c:192-201 | takes the machine's steps up to holding the lock, exactly when it was free, or going to sleep |
| ThreadKernel.Cpu.LockTryAcquire | src/threads/synch.c:209-221 | takes the lock exactly when it was free, else changes nothing |
| ThreadKernel.Cpu.LockRelease | src/threads/synch.c:228-236 | takes the machine's steps; the lock is free, no thread is inside it and the first waiter is awake |
| ThreadKernel.Cpu.GiveBack | src/threads/synch.c:235 | the sema_up that ends lock_release is the machine's |
| ThreadFrames.StepFramed | src/threads/synch.c:60-236 | a step moves only the running thread and changes only the holder it sets or clears |
| ThreadFrames.HeldStays | src/threads/synch.c:192-236 | a thread that does not run neither gains nor loses a lock |
| ThreadFrames.AddSema | src/threads/synch.c:44-51 | a new semaphore keeps the invariant |
| CondVars.NextCallEnabled | src/threads/synch.c:287-321 | no call made inside cond_wait or cond_signal trips an assertion |
| CondVars.CStepKeeps | src/threads/synch.c:287-321 | every step of every interleaving of waits and signals keeps the invariant: a waiter's semaphore is up exactly when it was signalled and its thread has not passed it |
| CondRuns.InitOk | src/threads/synch.c:259-265 | cond_init satisfies the invariant |
| CondRuns.SignalledIsAwake | src/threads/synch.c:287-303 | a signalled thread that has not passed its semaphore is not on its wait list and not asleep in it |
| CondRuns.NoSignalLost | src/threads/synch.c:287-321 | in every interleaving a signalled thread, wherever it is between joining the list and its sema_down, finds its semaphore up and passes |
| CondRuns.NoFalseReturn | src/threads/synch.c:287-303 | in every interleaving cond_wait goes past its semaphore only if it was signalled, and returns holding the lock, alone |
| CondRuns.SignalledInTurn | src/threads/synch.c:311-321 | in every interleaving the waiter at position i is taken off the list exactly when more than i signals found a waiter, and is then signalled |
| CondRuns.ListGuarded | src/threads/synch.c:287-321 | while a thread holds the lock no other thread touches the list |
| CondRuns.BroadcastEnds | src/threads/synch.c:330-338 | the loop of cond_broadcast can always run to its end, and left alone it signals every waiter |
| CondRuns.BroadcastSignalsAll | src/threads/synch.c:330-338 | among any steps of other threads, each signal of a broadcast takes the longest waiter, no one joins and its caller keeps the lock; when the list is empty and the caller done, every thread that was waiting has been signalled |
| Disk.WritePart | src/filesys/inode.c:299-307 | writing part of a sector through a bounce buffer changes those bytes of the device and no others |
| Disk.ReadChunk | src/filesys/inode.c:223-240 | direct or bounced, a chunk is those bytes of the device |
| Disk.WriteChunk | src/filesys/inode.c:284-308 | direct or bounced, a chunk replaces those bytes of the device |
| Disk.InodeReadAt | src/filesys/inode.c:200-250 | the loop transfers max(0, min(size, length - offset)) bytes, those of the device at the offset |
| Disk.InodeWriteAt | src/filesys/inode.c:257-318 | the loop is one splice of the device: that many bytes, no others; nothing when writes are denied |
| Disk.WriteThenRead | src/filesys/inode.c:200-318 | a read after a write, of any extent, gives the bytes written where they overlap and the old bytes elsewhere; of the same place, what was written |
| Bitmap.BitmapContains | src/lib/kernel/bitmap.c:251-263 | whether some bit of the group has the value |
| Bitmap.BitmapScan | src/lib/kernel/bitmap.c:296-312 | the first group of cnt bits that all have the value, or none |
| Bitmap.BitmapSetMultiple | src/lib/kernel/bitmap.c:218-228 | sets exactly the group |
| Bitmap.BitmapScanAndFlip | src/lib/kernel/bitmap.c:320-328 | flips the first fitting group and says where it is |
| Bitmap.FlipBack | src/filesys/free-map.c:27-50 | releasing what was just allocated restores the bitmap |
| Bitmap.ValueBit | src/lib/kernel/bitmap.c:34-62 | bit j of a packed element is bit j of the group it packs |
| Bitmap.BytesSuffice | src/lib/kernel/bitmap.c:50-61 | whole 32-bit elements, enough of them and not one too many |
| Bitmap.DecodeEncode | src/lib/kernel/bitmap.c:333-361 | reading back what bitmap_write stored gives the bitmap |
| FsLayout.HeaderRoundTrip | src/filesys/inode.c:85-92 | the header inode_create writes reads back as its start and length |
| FsLayout.HeaderBytes | src/filesys/inode.c:13-21 | the bytes of the header: start, length, magic and zeros, 512 in all |
| FsLayout.SectorsSuffice | src/filesys/inode.c:25-29 | enough sectors for the size and not one too many |
| FsLayout.WriteElsewhere | src/filesys/inode.c:257-318 | writes to one inode leave every sector outside its extent |
| FsLayout.WriteData | src/filesys/inode.c:257-318 | a write splices the inode's own bytes and leaves its header |
| FsLayout.FilledEntryReads | src/filesys/directory.c:171-175 | the entry dir_add writes reads back as its name and sector, in use |
| FsLayout.EntryBytesAre | src/filesys/directory.c:16-22 | the bytes of the entry: sector, name, null and the in-use flag, 20 in all |
| LittleEndian.Le32RoundTrip | src/filesys/inode.c:15-21 | a 32-bit field reads back as it was stored |
| LittleEndian.Le32Bytes | src/filesys/inode.c:15-21 | byte i counts 256^i |
| CStrings.CStringPrefix | src/filesys/directory.c:173 | a string followed by a null reads back as the string |
| FsStore.WriteKeeps | src/filesys/inode.c:257-318 | writing one live inode changes its bytes and no other inode's, and no extent |
| FsStore.WriteUnowned | src/filesys/inode.c:92-100 | writing a sector no live inode owns changes no file |
| FsStore.AdoptKeeps | src/filesys/inode.c:72-106 | a new header over sectors nobody owns keeps all inodes in range, marked used and pairwise disjoint |
| FsStore.DropKeeps | src/filesys/inode.c:176-182 | an inode dropped leaves its sectors owned by nobody |
| FsStore.UsedExactly | src/filesys/free-map.c:27-50 | a sector is marked used exactly when one live inode owns it, and no other, or it is one a failed create left behind |
| FsStore.ReadWritten | src/filesys/inode.c:200-318 | reading back a write gives the bytes that fitted |
| FsStore.FileStore.constructor | src/filesys/free-map.c:11-20 | the free map with the two system sectors marked |
| FsStore.FileStore.Open | src/filesys/free-map.c:52-61 | the map read from disk is the map that was written |
| FsStore.FileStore.OpenMap | src/filesys/free-map.c:79-82 | the free map file is open with its header's extent |
| FsStore.FileStore.ReadAt | src/filesys/inode.c:200-250 | the bytes of that inode at the offset, as many as there are |
| FsStore.FileStore.WriteAt | src/filesys/inode.c:257-318 | that inode's bytes are overwritten as far as they reach, all other inodes unchanged |
| FsStore.FileStore.BitmapWrite | src/lib/kernel/bitmap.c:355-361 | the free map file holds the free map |
| FsStore.FileStore.Allocate | src/filesys/free-map.c:27-41 | first fit: the sectors were free and are marked; the file on disk holds the new map; no file changes |
| FsStore.FileStore.Release | src/filesys/free-map.c:44-50 | exactly those sectors are free again and the file on disk holds the new map |
| FsStore.FileStore.CreateInode | src/filesys/inode.c:72-106 | succeeds exactly when a run of sectors is free; then a live inode of zeros, disjoint from all others; else nothing changes |
| FsStore.FileStore.ZeroSectors | src/filesys/inode.c:93-100 | exactly those sectors are zero and no file changes |
| FsStore.FileStore.WriteInode | src/filesys/inode.c:92-101 | header and zeroed data make a live inode of zeros |
| FsStore.FileStore.ReleaseHeader | src/filesys/inode.c:179 | the header sector is free again and recorded on disk, the data sectors still marked |
| FsStore.FileStore.ReleaseInode | src/filesys/inode.c:177-182 | header and data of a removed inode, and nothing else, are free again |
| FsDirectory.LookupFinds | src/filesys/directory.c:91-112 | the search finds a name exactly when the directory has it, with its sector |
| FsDirectory.NameMapProper | src/filesys/directory.c:151-157 | names are valid and no two lead to one inode |
| FsDirectory.AddKeeps | src/filesys/directory.c:159-175 | filling a free slot adds that name and changes no other |
| FsDirectory.RemoveKeeps | src/filesys/directory.c:204-207 | clearing the in-use byte removes that name and no other |
| FsDirectory.SlotReplaced | src/filesys/directory.c:171-175 | writing one entry changes one slot |
| FsDirectory.EmptyDirectory | src/filesys/directory.c:26-30 | a new directory has no names and free slots only |
| FsTable.OpenFirst | src/filesys/inode.c:129-141 | the first open keeps counts and open files in step |
| FsTable.CloseLast | src/filesys/inode.c:170-184 | so does the last close |
| FsTable.FileOpened | src/filesys/file.c:17-34 | a new open file takes over one count |
| FsTable.FileClosed | src/filesys/file.c:44-54 | closing gives it back |
| FsTable.FileDenied | src/filesys/file.c:118-141 | deny and allow move the count by one, never above the open count nor below zero |
| FsTable.DeniedIff | src/filesys/inode.c:265-266 | writes are denied exactly when some open file denies them |
| FsSystem.CloseLastKeeps | src/filesys/inode.c:163-186 | the last close of an inode ends its life exactly when no name leads to it |
| FsSystem.AddNameKeeps | src/filesys/directory.c:141-179 | naming a new inode keeps directory, open inodes and live inodes consistent |
| FsSystem.RemoveNameKeeps | src/filesys/directory.c:184-216 | so does taking a name away and marking the inode |
| FsSystem.InodeCounts | src/filesys/inode.c:111-151 | at most one inode in memory per sector, open_cnt its open files, deny_write_cnt the denying ones |
| FsSystem.QuietLive | src/filesys/inode.c:160-186 | between calls an inode is live exactly while a name or an open file leads to it |
| FsSpec.KeptIsLive | src/filesys/inode.c:160-186 | the bytes kept on disk are those the specification keeps |
| FsSpec.LookOk | src/filesys/directory.c:118-157 | names are unique and valid, names and open files lead to contents, and all contents are led to |
| FileSys.FileSystem.constructor | src/filesys/filesys.c:17-31 | a mounted file system with nothing open |
| FileSys.FileSystem.InodeOpen | src/filesys/inode.c:111-142 | one more reference to the one inode of the sector |
| FileSys.FileSystem.InodeClose | src/filesys/inode.c:163-186 | one reference less; the inode's bytes and sectors go exactly with the last one of a removed inode |
| FileSys.FileSystem.Lookup | src/filesys/directory.c:91-112 | the slot search through inode reads is the search of the slots |
| FileSys.FileSystem.FreeSlot | src/filesys/directory.c:166-169 | the first free slot, or the end |
| FileSys.FileSystem.WriteEntry | src/filesys/directory.c:171-175 | the entry is stored exactly when its slot exists |
| FileSys.FileSystem.DirAdd | src/filesys/directory.c:141-179 | succeeds exactly for a valid new name when a slot is free; then that name is added, else nothing changes |
| FileSys.FileSystem.DirRemove | src/filesys/directory.c:184-216 | succeeds exactly when the name exists, which is then gone; the inode goes with its last opener |
| FileSys.FileSystem.GiveUp | src/filesys/filesys.c:54-55 | a failed create releases the header's sector but leaves the data's sectors marked used |
| FileSys.FileSystem.NewInode | src/filesys/filesys.c:50-52 | header and data are both allocated or neither is |
| FileSys.FileSystem.CreateIn | src/filesys/filesys.c:50-55 | creation with the directory open |
| FileSys.FileSystem.Create | src/filesys/filesys.c:45-59 | succeeds exactly when there is room, the name is valid and new and a slot is free; then a new file of zeros; a failure changes nothing callers see; exactly which sectors it leaves marked |
| FileSys.FileSystem.DirLookup | src/filesys/directory.c:118-133 | opens the inode that has the name |
| FileSys.FileSystem.Open | src/filesys/filesys.c:66-77 | succeeds exactly when the name exists; a new open file at position 0 |
| FileSys.FileSystem.Remove | src/filesys/filesys.c:83-91 | the name is gone; the bytes stay while a file is open on them |
| FileSys.FileSystem.MoveTo | src/filesys/file.c:153-159 | the position is set and nothing else changes; FsLaws.SeekThenRead says what the next read returns |
| FileSys.FileSystem.Read | src/filesys/file.c:68-74 | the bytes at the position, which moves past them |
| FileSys.FileSystem.Write | src/filesys/file.c:94-100 | the bytes replace those at the position as far as the file reaches, unless some open file denies writes; no other file changes |
| FileSys.FileSystem.SetDeny | src/filesys/file.c:118-141 | only the file's denial changes |
| FileSys.FileSystem.Close | src/filesys/file.c:44-54 | the file is gone, its denial with it; the bytes go exactly when no name and no other file is left |
| FileSys.FileSystem.AllSpaceBack | src/filesys/inode.c:176-182 | with every file gone and no failed create behind it, every sector but the system files' is free |
| FsRuns.Do | src/filesys/filesys.c:45-91 | one call is one step of the specification, and only a create that fails can leave sectors behind |
| FsRuns.Run | src/filesys/filesys.c:45-91 | every sequence of create, open, read, write, seek, deny, allow, remove and close behaves as names to inodes to bytes, and leaves no sector behind unless a create in it failed |
| FsRuns.Isolation | src/filesys/file.c:94-100 | over any run a file nobody writes keeps its bytes for as long as it exists |
| FsRuns.OpenFileStays | src/filesys/inode.c:188-195 | over any run an open file keeps its inode, whatever is removed or created |
| FsRuns.ReadsLastWritten | src/filesys/inode.c:188-195 | over any run an open file reads what was last written to it, even after its name is removed |
| FsRuns.DeniedFileStays | src/filesys/file.c:118-141 | over any run, while an open file denies writes its inode's bytes do not change, whoever writes |
| FsLaws.FileAlone | src/filesys/file.c:68-100 | over any part of a run whose calls neither use an open file nor write its inode, it keeps its position and its bytes |
| FsLaws.ReadIs | src/filesys/file.c:68-74 | a read returns the bytes from the position on, as many as there are, and moves past them |
| FsLaws.WriteIs | src/filesys/file.c:94-100 | a write replaces the bytes from the position on by as much of the data as fits and moves past it, or does nothing while writes are denied |
| FsLaws.SeekThenRead | src/filesys/file.c:153-159 | over any run, a read after a seek returns the bytes from the place sought on, whatever happens to other files in between |
| FsLaws.TwoReads | src/filesys/file.c:68-74 | over any run, two reads in a row return together what one read of both sizes would have returned |
| FsLaws.WriteSeekRead | src/filesys/file.c:94-159 | over any run, a write, a seek back and a read return what was taken of the data |
| FsLaws.TwoWrites | src/filesys/file.c:94-100 | over any run, two writes in a row take and leave what one write of both would have |
| FsLaws.CreateIs | src/filesys/filesys.c:45-59 | a new name with a file of zeros of the size given; every other name and file stays |
| FsLaws.OpenIs | src/filesys/filesys.c:66-77 | a file at position 0 of the named inode, exactly when the name exists |
| FsLaws.OpenThenRead | src/filesys/filesys.c:66-77 | over any run, open and then read return the first bytes of the named file |
| FsLaws.RemoveIs | src/filesys/filesys.c:83-91 | exactly that name goes, exactly when it exists; bytes that are open or named stay |
| FsLaws.CloseIs | src/filesys/file.c:45-54 | exactly that file goes; bytes that are open or named stay |
| FsLaws.DenyIs | src/filesys/file.c:118-141 | after deny writes are denied; after allow or close exactly when another open file of the inode still denies them |
| FsMount.FitAfterPrefix | src/lib/kernel/bitmap.c:296-312 | first fit after a solid prefix is right behind it |
| FsMount.Format | src/filesys/filesys.c:93-103 | an empty, consistent file system with room for 16 names in its root, exactly when the device has room for the free map and the root directory |
| FsMount.Reopen | src/filesys/free-map.c:52-68 | closing and opening the free map gives the same store |
| FsMount.Remount | src/filesys/filesys.c:17-39 | started again from the disk, names and named files are as they were; with nothing open, everything is |
| ArenaState.BlockBounds | src/threads/malloc.c:284-294 | a block lies on its arena's page, past the header |
| ArenaState.BlocksAre | src/threads/malloc.c:284-294 | an arena has blocks_per_arena distinct blocks |
| ArenaState.WithArenaPages | src/threads/palloc.c:70-101 | pages taken for an arena were nobody's and are now its own |
| ArenaState.WithoutArenaPages | src/threads/palloc.c:117-142 | pages given back are exactly the arena's |
| ArenaSteps.NewArenaKeeps | src/threads/malloc.c:124-146 | a new arena keeps the heap consistent |
| ArenaSteps.TakeKeeps | src/threads/malloc.c:148-153 | taking the first free block keeps free_cnt the number of the arena's blocks on the free list |
| ArenaSteps.GiveKeeps | src/threads/malloc.c:238-242 | giving a block back does too |
| ArenaSteps.AllFree | src/threads/malloc.c:242-246 | when the count is full every block of the arena is on the list and none is in use, so the assertion holds |
| ArenaSteps.DropKeeps | src/threads/malloc.c:242-253 | a page returned leaves no node of a free list behind |
| ArenaSteps.NewBigKeeps | src/threads/malloc.c:105-120 | a big block keeps the heap consistent |
| ArenaSteps.FreeBigKeeps | src/threads/malloc.c:257-262 | and so does freeing it |
| ArenaTheorem.CellInside | src/threads/malloc.c:266-294 | a block in use or free lies in its arena's pages, past the header |
| ArenaTheorem.CellsDisjoint | src/threads/malloc.c:89-154 | blocks in use and free never overlap |
| ArenaTheorem.HeadersDisjoint | src/threads/malloc.c:284-294 | and overlap no arena header |
| ArenaTheorem.AllReturned | src/threads/malloc.c:218-264 | once all blocks are freed every page is back in the pool and the free lists are empty |
| ArenaKernel.DescSizes | src/threads/malloc.c:71-85 | the seven descriptors, 16 to 1024 bytes |
| ArenaState.NoMoreFit | src/threads/malloc.c:81 | an arena holds as many blocks as fit |
| ArenaKernel.FindDesc | src/threads/malloc.c:100-105 | the smallest descriptor that fits |
| ArenaKernel.BigEnough | src/threads/malloc.c:107-113 | a big block has the size asked for exactly when size_t does not wrap, and never a page more than it takes |
| ArenaKernel.WrappedRequest | src/threads/malloc.c:109 | a request of 2^32 - 1 bytes is given 4084 |
| ArenaKernel.StarvedSmall | src/threads/malloc.c:100-135 | what a small request lacks when it fails: a block on the list of the smallest descriptor that fits, and a page |
| ArenaKernel.Allocator.constructor | src/threads/malloc.c:71-85 | an empty heap over the pool as it is |
| ArenaKernel.Allocator.MallocBig | src/threads/malloc.c:105-120 | null exactly when no pages are to be had; else a new block |
| ArenaKernel.Allocator.AddArena | src/threads/malloc.c:137-145 | the loop puts the arena's blocks on the list in order |
| ArenaKernel.Allocator.MallocSmall | src/threads/malloc.c:122-153 | null exactly when the list is empty and no page is free; else a block nobody had |
| ArenaKernel.Allocator.Malloc | src/threads/malloc.c:89-154 | a block nobody had, of at least the size asked for exactly when size_t does not wrap; null exactly when the size is 0, the page count wraps to 0, or there is neither a free block nor the pages the request needs; a failure changes nothing |
| ArenaKernel.Allocator.Unlist | src/threads/malloc.c:247-251 | exactly the arena's blocks leave the list |
| ArenaKernel.Allocator.Free | src/threads/malloc.c:218-264 | the block is no longer in use, no arena is left entirely unused, and the heap is consistent |
| Division.Nlz | src/lib/arithmetic.c:41-73 | shifted left by the result, the number has its top bit set |
| Division.ShortDivision | src/lib/arithmetic.c:80-112 | by a one-word divisor: the divide does not trap and the sum is the quotient |
| Division.Estimate | src/lib/arithmetic.c:121-123 | the estimate from the top word brackets the quotient within one |
| Division.LongDivision | src/lib/arithmetic.c:121-123 | by a two-word divisor: the divide does not trap and the estimate is the quotient or one more |
| Division.Correct | src/lib/arithmetic.c:124 | the final test picks the quotient, in 64-bit arithmetic |
| Division.Udiv64 | src/lib/arithmetic.c:77-127 | the floor of n / d for every 64-bit n and nonzero d |
| Division.Umod64 | src/lib/arithmetic.c:131-135 | the low 32 bits of the remainder |
| Division.ModExact | src/lib/arithmetic.c:131-135 | which is the remainder for every n exactly when d is at most 2^32 |
| Division.Sdiv64 | src/lib/arithmetic.c:139-146 | truncates toward zero exactly but for INT64_MIN / -1, which gives INT64_MIN |
| Division.Smod64 | src/lib/arithmetic.c:150-154 | the low 32 bits of the remainder with the sign of n |
| Division.SmodExact | src/lib/arithmetic.c:150-154 | which is the remainder for every n exactly when d is at most 2^31 in magnitude |
| BucketCount.TurnOffZero | src/lib/kernel/hash.c:328-340 | clearing the lowest set bit gives zero exactly for powers of two |
| BucketCount.TurnOffKeeps | src/lib/kernel/hash.c:371-372 | it never goes below the power of two beneath, so the loop ends there |
| BucketCount.MaskIsMod | src/lib/kernel/hash.c:304-310 | masking with bucket_cnt - 1 is the remainder |
| BucketCount.NewBucketCnt | src/lib/kernel/hash.c:364-372 | a power of two, at least 4, with elem_cnt < 4 bucket_cnt, and 2 bucket_cnt <= elem_cnt unless it is 4 |
| HashTable.OneEach | src/lib/kernel/hash.c:98-110 | no two elements of the table compare equal |
| HashTable.PushKeeps | src/lib/kernel/hash.c:415-421 | inserting in the bucket of its hash adds exactly that element |
| HashTable.DropKeeps | src/lib/kernel/hash.c:423-429 | removing takes exactly that element |
| HashTable.DistributeOk | src/lib/kernel/hash.c:394-410 | moving all elements to new buckets gives a table of exactly those elements |
| HashTable.FlatUnique | src/lib/kernel/hash.c:200-235 | across all buckets no two elements compare equal |
| HashTable.Table.constructor | src/lib/kernel/hash.c:24-42 | an empty table of four buckets |
| HashTable.Table.FindElem | src/lib/kernel/hash.c:312-326 | an equal element of the bucket, or none is there |
| HashTable.Table.Locate | src/lib/kernel/hash.c:304-326 | an equal element of the whole table, or none is there |
| HashTable.Table.MoveAll | src/lib/kernel/hash.c:394-410 | the nested loops push every element to its new bucket |
| HashTable.Table.Rehash | src/lib/kernel/hash.c:351-413 | the elements stay, with or without memory for new buckets; with it elem_cnt < 4 bucket_cnt |
| HashTable.Table.Insert | src/lib/kernel/hash.c:98-110 | an equal element is returned and nothing changes, or the new one is added |
| HashTable.Table.Replace | src/lib/kernel/hash.c:114-127 | the new element is in, the equal one out |
| HashTable.Table.Find | src/lib/kernel/hash.c:131-135 | an equal element exactly when there is one |
| HashTable.Table.Delete | src/lib/kernel/hash.c:144-154 | the equal element is out and returned, or nothing changes |
| HashTable.Table.SizeIs | src/lib/kernel/hash.c:246-251 | elem_cnt is the number of elements |
| HashTable.Table.Next | src/lib/kernel/hash.c:218-235 | the next element in bucket order, or none left |
| HashTable.Table.Iterate | src/lib/kernel/hash.c:199-235 | iteration visits each element once |
| Octal.PaddedDigits | src/lib/stdio.c:501-544 | reversed digits with zeros in front are the number in so many octal digits |
| Octal.FormatOctal | src/lib/stdio.c:469-547 | a zero-padded octal conversion gives the digits of the value, at least as many as the width and no more than it takes |
| Octal.ParseOctalField | src/lib/ustar.c:129-162 | the loop is the field parser, overflow and bad characters included |
| Octal.ParseIs | src/lib/ustar.c:129-162 | a field is accepted if and only if it is octal digits, at least one, then a space or a null, whose number fits 32 bits; the result is that number |
| Octal.DigitsValue | src/lib/stdio.c:501-544 | the digits written stand for the value written |
| Octal.ParseWritten | src/lib/ustar.c:129-162 | a field written by snprintf parses to its value |
| Ustar.Strip | src/lib/ustar.c:65-73 | the stripped name is not empty, not "..", and starts with no "/", "./" or "../" |
| Ustar.StripPrefixes | src/lib/ustar.c:65-73 | the loop strips so |
| Ustar.StripTwice | src/lib/ustar.c:65-73 | stripping is idempotent |
| Ustar.StripsOff | src/lib/ustar.c:68-71 | a leading "/", "./" or "../" is taken off, and nothing more than stripping the rest takes |
| Ustar.StripsNothing | src/lib/ustar.c:68-72 | every other name stays as it is, but the empty name and ".." become "." |
| Ustar.CalculateChksum | src/lib/ustar.c:36-54 | the plain sum of the 512 bytes of the header with eight spaces written over the checksum field |
| Ustar.ChksumIs | src/lib/ustar.c:44-52 | the checksum of the model is that sum |
| Ustar.SumIgnoresChksum | src/lib/ustar.c:44-52 | filling the checksum in does not change it |
| Ustar.FilledParses | src/lib/ustar.c:181-227 | a header with these fields parses to these values |
| Ustar.RoundTrip | src/lib/ustar.c:82-227 | for every name whose stripped form is at most 99 long, a made header parses to that name, the type and the size (0 for directories); only negative sizes fail, as too large (pax, ustar Interchange Format, IEEE Std 1003.1) |
| Ustar.MakeHeader | src/lib/ustar.c:82-118 | fails exactly for longer names; else fills the header, checksum included |
| Ustar.FillHeader | src/lib/ustar.c:99-112 | all fields but the checksum |
| Ustar.HeaderSays | src/lib/ustar.c:10-33 | every field of a made header, by offset and in digits: name, mode, owner, group, size, time, checksum, type, magic, version, user and group name (pax, ustar Interchange Format, IEEE Std 1003.1) |
| Ustar.ParseHeader | src/lib/ustar.c:181-227 | the checks in order are the parser of the model |
| Ustar.AcceptedExactly | src/lib/ustar.c:199-226 | a header is taken for an entry if and only if its magic and version are right, its checksum field is well formed and equals the byte sum, its name fits, its type is known and, for a file, its size is well formed and at most 2^31 - 1 |
| CommandLine.TokensFit | src/userprog/process.c:38-43 | words and their nulls take at most the line and its null |
| CommandLine.FirstToken | src/lib/string.c:248-274 | a text's words are its first and those of what follows |
| CommandLine.StrtokR | src/lib/string.c:234-275 | the next word gets a null after it, the rest of the line is untouched, and the scan goes on behind it |
| CommandLine.Tokenize | src/userprog/process.c:286-291 | the pointers collected point to the words of the line, in order |
| UserStack.LineFits | src/userprog/process.c:42 | every line let through, of at most 25 words, fits in the page |
| UserStack.PushStrings | src/userprog/process.c:538-545 | each string is in the page where its pointer says |
| UserStack.PushPointers | src/userprog/process.c:554-565 | the argument vector and its null, below the strings |
| UserStack.SetupStack | src/userprog/process.c:534-583 | the stack pointer is word aligned, and return address, argc, argv and the strings read back from it |
| UserStack.StartStack | src/userprog/process.c:286-291 | from the length check to the stack: the words of the line are found at the stack pointer, in order, with a null pointer behind |
| UserStack.FillsPage | src/userprog/process.c:42 | a longest line of 25 words fills the page to its last byte |
| HeapSort.FloatDown | src/lib/stdlib.c:103-121 | swapping with the larger child moves the one violation of the heap down |
| HeapSort.Heapify | src/lib/stdlib.c:96-123 | restores the heap from the element down, permuting the heap and nothing past it |
| HeapSort.RootIsMax | src/lib/stdlib.c:146-151 | the root of a heap is its largest element |
| HeapSort.TakeRoot | src/lib/stdlib.c:147-150 | taking the root to the end leaves the tail sorted, the rest below it, and one hole |
| HeapSort.BuildHeap | src/lib/stdlib.c:142-144 | a heap of the same elements |
| HeapSort.Sort | src/lib/stdlib.c:131-152 | a sorted permutation, for every total preorder |
| HeapSort.BinarySearch | src/lib/stdlib.c:184-207 | a match exactly when there is one |

## Left out

- Runs that go on after a page fault was turned down (`src/userprog/exception.c:195-209`), in which the frame it claimed belongs to no process.
- Interleavings inside a page fault, which holds the memory lock, apart from the store in `EvictionWindow`, and inside a file system call: each is one step.
- Executables whose segments share a page: `load_segment` does not look for an entry that is there already, and the runs of the model map each page once.
- TLB, page directory words and other hardware state: a page directory is a map with present, writable, dirty and accessed bits.
- `find_spinfo_by_kpage` is not part of the repository's sources; it is modelled as `find_spinfo` keyed by the kernel page.
- Failure of small kernel allocations (spinfo, inode, bounce buffer, file): they succeed; `malloc` itself is modelled with its failures.
- Disk errors and device drivers.
- exec, wait and exit status, the file descriptor table, system call dispatch and pointer checks.
- Thread priorities and sleeping, and condition variables used with more than one lock.
- The contents of allocated blocks, `realloc` and `calloc`.
- `list_reverse`, `list_unique` and `list_insert_ordered`.
- `dir_readdir`, and a root directory size that is not a whole number of entries.
- The free map file's inode is kept with the free map, not in the list of open inodes, where nothing ever looks it up.
- Elements of `sort` are swapped as values, not byte by byte; hash and list elements are values or objects, not embedded links with offsets.
- Conversions of `printf` other than zero-padded octal, and parsing of format strings.
- FsRuns.Run: leaves open when create succeeds; FileSys.FileSystem.Create says exactly when, in terms of sectors and slots the specification does not have.
- ThreadKernel.Cpu.SemaDown: ends where the thread passes or is switched out, because it is suspended inside; ThreadKernel.Cpu.Resume is what it does when it runs again, and ThreadRuns.StepKeeps and its companions are about all turns of all threads.
- ThreadKernel.Cpu.LockAcquire: likewise ends where the thread holds the lock or is switched out.
- FsStore.FileStore.CreateInode: takes sizes up to 2^31 - 513, because above that `bytes_to_sectors` overflows a signed int.
- FileSys.FileSystem.Create: takes sizes up to 2^31 - 513, for the same reason.
- FsStore.FileStore.BitmapWrite: takes the bits past the last sector in the last element as zero, where `bitmap_create` leaves them as malloc gave them; `bitmap_read` masks them, so nothing depends on them.
- UserStack.StartStack: takes lines of 1 to 25 words, because on others `load` reads or writes outside `argv`.
- PagingKernel.Kernel.constructor: takes a frame table as long as the user pool; PoolLayout says exactly when it is, and what happens when it is not.

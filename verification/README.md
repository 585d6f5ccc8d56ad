# Verified models of the kernel's core algorithms

A Dafny model of six kernel subsystems, each written twice. One form is a set of
pure functions on abstract states, about which the properties are proved. The
other is a class or method that changes fields, links and buffers in place, step
by step as the C code does, and is proved to compute exactly those functions.
`dafny verify dfyconfig.toml` checks everything.

| files | subsystem |
|---|---|
| `Dll` | NULL-terminated doubly linked lists, shared by all that follows |
| `Pages`, `PageAllocator` | the ring of free pages |
| `BuddyAddress`, `Buddy`, `Kmalloc`, `KernelHeap` | the buddy allocator, `kmalloc` and `kfree` |
| `TimerList`, `Timer` | the delta list of timers, its slot pool and the bottom halves that drive it |
| `TimerRace`, `TimerRemoval` | timer interrupts inside the calls that add and remove timers |
| `Spinlock` | the ticket lock as steps of any number of CPUs |
| `Procs`, `ProcTable`, `Locks` | run list, sleep table, scheduler, resource locks |
| `Reaping`, `ProcList` | pending signals and the reaping of zombies |
| `CharQueue`, `CharBlocks`, `LineDiscipline`, `TtyDevice` | character queues and input cooking |
| `Layout` | the page tables built at boot and the memory map |
| `Printf`, `Format`, `Directives`, `FormatEngine` | the formatter |

Objects that the kernel links through their own fields (free blocks, processes,
cblocks) live at addresses; a field of all of them is a map from address to
value, and `Dll.Listed` says that a head pointer and two such maps link up a given
sequence. A region with interrupts off is one atomic step. Where the code leaves them
on, interrupts are part of the model for the timer calls and `lock_resource`; heap,
character queue and terminal calls are taken as atomic. What `kmalloc` or a `sig_get`
call returns to code that only uses the result is a parameter.

## Where the code does something else than it says

Each of these is proved, with the exact condition under which the promise holds
and with an input on which it does not.

* `buddy.c:145` tests `!block` under a comment that begins "Assuming we allocated
  a block". Taken literally no upper half ever reaches a free list
  (`Kmalloc.AsWrittenAddsNothing`), and a request is served correctly iff it needs
  no split (`Kmalloc.AsWrittenIffNoSplit`); the first small request after boot does
  (`Kmalloc.FirstRequestAsWritten`). All other results are about `if (block)`.
* `kmalloc` adds the header to the request in 32 bits. A block it returns has room
  for the request iff that sum does not wrap (`Kmalloc.MallocMeetsSpec`); a request
  of 2^32 - 1 bytes gets a block of 32 (`Kmalloc.WrappedRequestServed`).
* `wakeup` steps over the process behind one it wakes further down the bucket, so
  it is complete iff no two neighbours behind the leading run sleep on the address
  (`Procs.WakeupIsCompleteIff`). An unlock loses waiters in exactly the other cases
  (`Locks.StepLosesNobodyIff`, `Locks.AWaiterIsLost`).
* `timer_task_add` and `timer_task_remove` run with interrupts on. The insertion comes
  out right iff no timer interrupt fires the task whose `next` field the loop points
  at (`TimerRace.InterruptedInsertIff`); if one does, the new timer never fires
  (`TimerRace.InterruptedAddFiresIff`, `TimerRace.ATimerIsLost`). A removal misses its
  task iff an interrupt sends its walk into the pool and the task is still on the list
  (`TimerRemoval.InterruptedRemovalIff`, `TimerRemoval.ARemovalIsLost`).
* `lock_resource` switches interrupts on before it sleeps. The process that goes to
  sleep is lost iff the resource is no longer locked and wanted by then
  (`Locks.WindowLosesNobodyIff`, `Locks.UnlockInWindowLoses`). As the kernel stands no
  interrupt handler unlocks: the two calls of `unlock_resource` are at proc.c:49 and 110.
* Once it scans the run list, `sched_run` never stops iff somebody is runnable and
  nobody runnable has time left or a positive priority
  (`Procs.SchedEndsIffATurnEnds`, `Procs.SchedEndsIff`). No
  kernel source assigns `priority`, so one process with a used-up slice is enough
  (`Procs.ASchedulerSpins`).
* After a `sleep` a sleeping process runs iff idle is asleep, or goes to sleep, and
  nobody else is fit to run (`Procs.SleeperNotChosen`, `Procs.IdleSleepsOn`).
* The ticket lock excludes iff there are at most 2^16 CPUs
  (`Spinlock.SafeIffTicketsSuffice`).
* `charq_remaining` does not count the consumed start of the first block
  (`CharQueue.RemainingOverstates`, `CharQueue.OneOfTwoGetsIn`), so the guard in
  `opost` can part CR from NL (`LineDiscipline.NewlineSplitsIff`,
  `LineDiscipline.ANewlineSplits`).
* A number that fills the formatter's 32-character buffer loses its sign
  (`Printf.MinusPrintedIff`, `Printf.SignLost`), zeros pad no further than that buffer
  (`Printf.FieldFilledIff`, `Printf.FieldNotFilled`), and a left-justified number
  ignores its precision (`Printf.PrecisionHonouredIff`, `Printf.PrecisionIgnored`).
  `#` can overwrite digits (`Printf.HashKeepsNumberIff`, `Printf.FullFieldLosesDigits`)
  and can be left without its prefix (`Printf.PrefixPrintedIff`,
  `Printf.MarkPrintedIff`, `Printf.PrefixLost`, `Printf.PrefixLostInZeros`).
* An integer directive takes its argument iff it is signed or not for long long
  (`Format.ArgumentTakenIff`). So `%llu`, `%#llx` and the like print nothing and leave
  it to the next directive (`Format.UnsignedLongLongSkipped`,
  `Format.NextDirectiveMisreads`).
* VERASE erases more than one character iff it is also VWERASE or VKILL
  (`LineDiscipline.EraseDropsOneIff`). VWERASE erases exactly the last word iff VERASE
  is neither and VWERASE is not VKILL (`LineDiscipline.WordEraseMeetsIff`); otherwise
  the whole line goes.
* tty.h:316-319 and 335-339 promise that erasing stops at the beginning of the line.
  Nothing in `erase_char` does. Finished lines still queued survive VERASE iff it does
  not follow a newline (`LineDiscipline.EraseKeepsLinesIff`), VWERASE iff a blank stands
  between them and the last word (`LineDiscipline.WordEraseKeepsLinesIff`), and VKILL
  iff there are none (`LineDiscipline.KillKeepsLinesIff`); after VKILL the queue still
  counts as holding a line (`LineDiscipline.KillTakesFinishedLine`).
* How input is spread over calls of `tty_cook_input` matters iff an unshielded VINTR
  flushes (`LineDiscipline.CallsDoNotMatterIff`).

## Model

| member | source | states |
|---|---|---|
| Pages.GetKeepsInv | kernel/src/mem/page.c:127-173 | taking a page keeps the ring equal to the unreserved pages nobody uses, each once; it fails iff the ring is empty |
| Pages.ReleaseKeepsInv | kernel/src/mem/page.c:175-208 | releasing any page keeps the same |
| Pages.PagesConserved | kernel/src/mem/page.c:44-76 | free pages plus pages in use are the pages counted at boot |
| Pages.DoubleReleaseIsNoOp | kernel/src/mem/page.c:177-181 | releasing a page nobody uses changes nothing |
| Pages.GetThenRelease | kernel/src/mem/page.c:162-199 | a page taken and put back at once leaves the ring as it was, order included |
| Pages.GetTakesHead | kernel/src/mem/page.c:155-172 | a request hands out the page at the head of the ring, used once and without inode, and touches no other |
| Pages.ReleaseDropsOne | kernel/src/mem/page.c:175-199 | a release drops one reference; the last puts the page at the tail if it has an inode, at the head otherwise |
| Pages.ThresholdMoves | kernel/src/mem/page.c:130-151 | how a request moves the low-memory threshold, in numbers |
| PageAllocator.BootKeepsInv | kernel/src/mem/page.c:210-245 | what page_init leaves behind meets the invariant |
| PageAllocator.FreeAtBootIff | kernel/src/mem/page.c:219-241 | a page is free at boot iff it is memory, holds no byte of the kernel image and is not the page of the kernel stack |
| PageAllocator.Allocator.constructor | kernel/src/mem/page.c:210-245 | page_init's loop reserves exactly the pages its conditions name and puts all others on the ring, in order |
| PageAllocator.Allocator.InsertIntoFreeList | kernel/src/mem/page.c:44-57 | the four pointer writes append the page to the circular list |
| PageAllocator.Allocator.RemoveFromFreeList | kernel/src/mem/page.c:59-76 | the pointer writes take any page of the ring out of the circular list and keep its order; an empty ring stays as it is |
| PageAllocator.Allocator.GetFree | kernel/src/mem/page.c:127-173 | in-place page_get_free is `Pages.Get` |
| PageAllocator.Allocator.ReleasePage | kernel/src/mem/page.c:175-208 | in-place page_release is `Pages.Release` |
| BuddyAddress.XorFlipsOneBit | kernel/src/mem/buddy.c:20-26 | XOR with a power of two adds it if that bit is clear and subtracts it otherwise |
| BuddyAddress.BuddyPairs | kernel/src/mem/buddy.c:20-26 | the buddy of an aligned block is the other half of one block of the next level, in the same page, and its buddy is the block |
| Buddy.PopKeepsInv | kernel/src/mem/buddy.c:134-140 | handing out a list head keeps the invariant: blocks aligned and disjoint, tiling every PAGE_BUDDY page, lists holding exactly the free blocks of their level, no two free buddies |
| Buddy.SplitKeepsInv | kernel/src/mem/buddy.c:141-152 | splitting a held block keeps it |
| Buddy.PushKeepsInv | kernel/src/mem/buddy.c:92-107 | putting a block on its list keeps it if the buddy is not there |
| Buddy.MergeKeepsInv | kernel/src/mem/buddy.c:63-80 | merging a held block with its free buddy keeps it |
| Buddy.ReturnPageKeepsInv | kernel/src/mem/buddy.c:81-90 | giving a whole page back keeps it |
| Buddy.AdoptPageKeepsInv | kernel/src/mem/buddy.c:117-133 | turning a fresh page into one block keeps it |
| Kmalloc.AllocMeetsSpec | kernel/src/mem/buddy.c:110-156 | buddy_alloc fails iff every list from its level up and the page ring are empty; otherwise it adds exactly one held block and leaves every shorter list alone, so the list that a split overwrites was empty |
| Kmalloc.DeallocFrame | kernel/src/mem/buddy.c:49-108 | buddy_dealloc takes exactly the given block from its holders |
| Kmalloc.AllocThenDealloc | kernel/src/mem/buddy.c:49-156 | a block given straight back restores all free lists and the page ring, in order, however many splits and pages it took |
| Kmalloc.NoPageWhollyFree | kernel/src/mem/buddy.c:49-90 | every PAGE_BUDDY page has a block that some caller holds |
| Kmalloc.LevelFor | kernel/src/mem/buddy.c:112-115 | the least level whose blocks hold the request |
| Kmalloc.FlagTellsRoute | kernel/src/mem/alloc.c:34-43 | the page flag of a held pointer tells which allocator it came from |
| Kmalloc.MallocMeetsSpec | kernel/src/mem/alloc.c:10-32 | kmalloc fails iff nothing can serve the request; otherwise one pointer nobody held becomes held, and it has room for the request iff the 32-bit sum with the header did not wrap |
| Kmalloc.KmallocBySize | kernel/src/mem/alloc.c:10-32 | for every size in numbers: which block length or page kmalloc hands out, and what must be exhausted for it to fail |
| Kmalloc.WrappedRequestServed | kernel/src/mem/alloc.c:13-17 | on a machine with one free page kmalloc(0xFFFFFFFF) returns a block of 32 bytes |
| Kmalloc.FreeMeetsSpec | kernel/src/mem/alloc.c:34-43 | kfree takes exactly the given pointer out of its callers' hands |
| Kmalloc.HeldExtentsApart | kernel/src/mem/alloc.c:10-32 | no two held pointers share a byte |
| Kmalloc.MallocThenFree | kernel/src/mem/alloc.c:10-43 | kmalloc undone by kfree restores every free list and the ring, in order |
| Kmalloc.EveryRunIsSound | kernel/src/mem/alloc.c:10-43 | after every run of calls from boot all of the above holds |
| Kmalloc.NothingHeldNothingLost | kernel/src/mem/buddy.c:49-108 | once every pointer is given back all lists are empty and every page is on the ring |
| Kmalloc.AsWrittenAddsNothing | kernel/src/mem/buddy.c:144-152 | with `!block` no call adds to a free list |
| Kmalloc.AsWrittenIffNoSplit | kernel/src/mem/buddy.c:144-152 | with `!block` the call does what its comment says iff no split is needed |
| Kmalloc.FirstRequestAsWritten | kernel/src/mem/buddy.c:144-152 | after boot the first request for less than a page should get a block of its level and, with `!block`, gets one of 4096 bytes |
| KernelHeap.FindLevel | kernel/src/mem/buddy.c:112-115 | the search loop finds the least fitting level and the size of the next one |
| KernelHeap.KHeap.RemoveFromFreelist | kernel/src/mem/buddy.c:28-43 | the pointer writes take the block out of its list and leave all other lists linked |
| KernelHeap.KHeap.FindOnFreelist | kernel/src/mem/buddy.c:54-61 | the walk ends at the buddy iff it is listed |
| KernelHeap.KHeap.Prepend | kernel/src/mem/buddy.c:92-107 | the pointer writes put the block in front |
| KernelHeap.KHeap.BuddyDealloc | kernel/src/mem/buddy.c:49-108 | the recursive climb on linked headers is `Kmalloc.Dealloc` |
| KernelHeap.KHeap.BuddyAllocPage | kernel/src/mem/buddy.c:117-133 | taking and flagging a page is the top case of `Kmalloc.Alloc` |
| KernelHeap.KHeap.SplitBlock | kernel/src/mem/buddy.c:146-151 | writing the upper half's header and list is `Buddy.Split` |
| KernelHeap.KHeap.BuddyAlloc | kernel/src/mem/buddy.c:110-156 | the recursion on linked headers is `Kmalloc.Alloc` |
| KernelHeap.KHeap.BuddyMalloc | kernel/src/mem/buddy.c:158-166 | the pointer behind the header, or NULL |
| KernelHeap.KHeap.BuddyFree | kernel/src/mem/buddy.c:168-173 | steps back over the header |
| KernelHeap.KHeap.Kmalloc | kernel/src/mem/alloc.c:10-32 | in-place kmalloc is `Kmalloc.Malloc` |
| KernelHeap.KHeap.Kfree | kernel/src/mem/alloc.c:34-43 | in-place kfree is `Kmalloc.Free` |
| Spinlock.HalvesIndependent | include/arch/atomic.h:8-49 | neither addition to the packed word changes the other half, wrap-around included |
| Spinlock.StepKeepsInv | kernel/src/sync/spinlock.c:8-43 | every step of every CPU keeps: the waiting CPUs hold the tickets behind the owner, without gaps, in queue order |
| Spinlock.ExclusiveAndFair | kernel/src/sync/spinlock.c:8-43 | over every run of at most 2^16 CPUs at most one holds the lock, and they enter in the order of their tickets |
| Spinlock.WaitsExactly | kernel/src/sync/spinlock.c:8-43 | a waiter gets in after exactly (ticket - owner) mod 2^16 unlocks |
| Spinlock.OldestProceeds | kernel/src/sync/spinlock.c:17-35 | the holder of the oldest ticket enters on its next try |
| Spinlock.SafeIffTicketsSuffice | include/sync/spinlock.h:8-18 | mutual exclusion over all runs holds iff there are at most 2^16 CPUs |
| TimerList.InsertIsSorted | kernel/src/interrupt/timer.c:76-97 | on prefix sums, inserting is stable sorted insertion of a deadline |
| TimerList.RemoveKeepsOthers | kernel/src/interrupt/timer.c:143-173 | removing takes the deadline of its key and leaves all others |
| TimerList.TickBringsCloser | kernel/src/interrupt/timer.c:36-49 | one tick brings every deadline one closer |
| TimerList.AddFitsIff | kernel/src/interrupt/timer.c:125-141 | all deltas stay within an int, and non-negative, iff the request is at most INT_MAX |
| TimerList.AddSucceedsIff | kernel/src/interrupt/timer.c:125-141 | an added task is on the list iff fewer than 63 others are |
| TimerList.ToIntIs | kernel/src/interrupt/timer.c:51-57 | the requested ticks are the same 32 bits read as an int |
| TimerList.WakesIff | kernel/src/interrupt/timer.c:36-49 | the drain is flagged iff after the tick the head has no ticks left |
| TimerList.InsertUnique | kernel/src/interrupt/timer.c:125-141 | one entry per function and argument, kept by insertion of a new key |
| TimerList.RemoveUnique | kernel/src/interrupt/timer.c:143-173 | removal leaves no entry of its key |
| TimerList.DrainFiresRipe | kernel/src/interrupt/timer.c:99-123 | the drain loop ends and fires exactly the tasks that are due, though its callbacks add and remove others |
| TimerList.PassOnTime | kernel/src/interrupt/timer.c:36-123 | one pass fires a task with one tick to go and takes one tick off every other |
| TimerList.FiresInItsPass | kernel/src/interrupt/timer.c:36-123 | over every run a task with d ticks to go fires in the d-th pass |
| TimerList.AddedTaskFiresOnTime | kernel/src/interrupt/timer.c:125-141 | so a task added with t >= 1 ticks and left alone fires in the t-th pass |
| TimerList.NeverFires | kernel/src/interrupt/timer.c:99-123 | a task that is not on the list and that nobody adds never fires |
| TimerList.TickFirstIsAPass | kernel/src/interrupt/timer.c:177-178 | registered in this order, tick and drain happen in one run of the table |
| TimerList.DrainFirstFiresLate | kernel/src/interrupt/irq.c:59-71 | registered the other way round the drain would wait for the next run |
| TimerRace.FiresAtIff | kernel/src/interrupt/timer.c:36-123 | a pass takes the slot that the insertion loop's `tmp` points into off the list iff its task has one tick to go |
| TimerRace.InterruptedInsertIff | kernel/src/interrupt/timer.c:81-94 | with passes between any turns of the insertion loop: lists and fired tasks are those of an insertion after the passes before its first turn and before all others, iff no pass fires the task whose `next` field `tmp` points at |
| TimerRace.InterruptedAddFiresIff | kernel/src/interrupt/timer.c:76-141 | a task of t ticks whose insertion saw n passes from its first turn on fires in pass t - n after the call, whatever else happens; if the loop was overtaken it never fires |
| TimerRace.ATimerIsLost | kernel/src/interrupt/timer.c:81-123 | one task with a tick to go, a new one, and a tick after the first turn: the new one never fires |
| TimerRemoval.InterruptedRemovalIff | kernel/src/interrupt/timer.c:143-173 | with passes between any turns of both loops the task is gone iff no pass sent the walk into the pool or the task is not on the list any more; otherwise the list is as if nobody had called |
| TimerRemoval.ARemovalIsLost | kernel/src/interrupt/timer.c:147-170 | a tick that fires the task looked at leaves the task behind it on the list |
| Timer.TimerQueue.constructor | kernel/src/interrupt/timer.c:175-195 | active and pooled slots partition slots 1 to 63 |
| Timer.TimerQueue.TaskFree | kernel/src/interrupt/timer.c:59-63 | puts the slot in front of the pool |
| Timer.TimerQueue.TaskGetFree | kernel/src/interrupt/timer.c:65-74 | takes the first pooled slot, if any |
| Timer.TimerQueue.SeekPlace | kernel/src/interrupt/timer.c:81-94 | the pointer-to-pointer walk finds the place of stable insertion and settles the deltas |
| Timer.TimerQueue.TaskInsert | kernel/src/interrupt/timer.c:76-97 | the relinking is `TimerList.Insert` |
| Timer.TimerQueue.InsertTurn | kernel/src/interrupt/timer.c:81-94 | one turn on pointers, also when `tmp` points into the pool, is the turn of `TimerRace.Run` |
| Timer.TimerQueue.TaskInsertInterrupted | kernel/src/interrupt/timer.c:76-97 | the loop on pointers with interrupts at any turns is `TimerRace.Run` |
| Timer.TimerQueue.TaskRemove | kernel/src/interrupt/timer.c:143-173 | the walk and relinking are `TimerList.Remove`, and the slot returns to the pool |
| Timer.TimerQueue.TaskAdd | kernel/src/interrupt/timer.c:125-141 | is `TimerList.Add`, failing iff the pool is empty |
| Timer.TimerQueue.IrqBh | kernel/src/interrupt/timer.c:36-49 | is `TimerList.Tick` and tells whether the drain is flagged |
| Timer.TimerQueue.TaskBh | kernel/src/interrupt/timer.c:99-123 | the loop is `TimerList.Drain` |
| Timer.TimerQueue.QuietPass | kernel/src/interrupt/timer.c:36-123 | when the timer functions ask for nothing, tick and drain move exactly the ripe slots to the pool and change no link of any other slot |
| Timer.TimerQueue.Register | kernel/src/interrupt/irq.c:45-57 | the walk to the last `next` field appends the entry: the table stays linked, in order of registration |
| Timer.TimerQueue.BottomHalfExec | kernel/src/interrupt/irq.c:59-71 | the walk along the linked table runs the flagged entries in order: `TimerList.RunTable` |
| Timer.TimerQueue.Interrupt | kernel/src/interrupt/irq.S:17-24 | after timer_init an interrupt with its bottom halves is exactly one `TimerList.Pass`, and leaves nothing flagged |
| Procs.RunnableKeepsInvIff | kernel/src/proc/proc.c:113-132 | proc_runnable keeps lists and states in step iff the process is not asleep |
| Procs.NotRunnableKeepsInvIff | kernel/src/proc/proc.c:134-151 | proc_not_runnable keeps them in step iff it moves nobody into or out of a state another list tracks |
| Procs.PickIsFirstMaximal | kernel/src/proc/sched.c:48-61 | the scan picks the first process of largest remaining time, idle only if none is above -1 |
| Procs.SchedMeetsSpec | kernel/src/proc/sched.c:37-80 | after at most one recharge, done only when nobody runnable has time, the first process of largest time runs; idle iff the list is empty |
| Procs.SchedDoes | kernel/src/proc/sched.c:37-80 | a running process with time left that is not to be rescheduled goes on; otherwise the flag goes down, and iff everybody's time is used up exactly the runnable processes get their priority as time |
| Procs.SchedEndsIff | kernel/src/proc/sched.c:47-74 | with non-negative times it comes back iff the slice is kept, nobody is runnable, or somebody runnable has time left or a positive priority |
| Procs.SchedSpins | kernel/src/proc/sched.c:47-74 | from the first recharge on every turn of the loop finds the same state; if the loop has no exit at once or after one recharge, every turn finds a largest time of 0 |
| Procs.SchedEndsIffATurnEnds | kernel/src/proc/sched.c:47-74 | the loop has an exit iff some number of recharges makes the largest time different from 0 |
| Procs.ASchedulerSpins | kernel/src/proc/sched.c:47-74 | one runnable process without time and with priority 0: every turn finds 0 |
| Procs.SleeperNotChosen | kernel/src/proc/sleep.c:27-78 | the sleeper lands in the bucket of its address, lists and states stay in step, and what runs next is a sleeper iff idle sleeps or is the one going to sleep, and nobody else has time left now or after a recharge |
| Procs.SleeperBedded | kernel/src/proc/sleep.c:41-67 | the sleeper goes to the front of the bucket numbered by the address modulo 6, with address and flag set, and off the run list |
| Procs.SleeperChosenIff | kernel/src/proc/sleep.c:27-78 | with non-negative times: iff idle sleeps or is the one going to sleep, and nobody else is on the run list |
| Procs.IdleSleepsOn | kernel/src/proc/sleep.c:27-78 | idle alone on the run list goes to sleep and is chosen to run |
| Procs.WakeupKeepsInv | kernel/src/proc/sleep.c:80-122 | lists and states stay in step, and nobody but sleepers on the address changes |
| Procs.WakeupIsCompleteIff | kernel/src/proc/sleep.c:89-119 | all of them run afterwards iff, behind the sleepers at the front of the bucket, no two neighbours sleep on the address |
| Procs.WakeupRunsOrKeeps | kernel/src/proc/sleep.c:89-119 | everybody either is untouched or runs |
| ProcTable.Table.ProcRunnable | kernel/src/proc/proc.c:113-132 | the links written are those of the run list with the process in front |
| ProcTable.Table.ProcNotRunnable | kernel/src/proc/proc.c:134-151 | the links written are those of the run list without the process; run list and states stay in step iff the new state is not PROC_RUNNING |
| ProcTable.Table.BestRunnable | kernel/src/proc/sched.c:48-61 | the scan loop computes `Procs.Best` and `Procs.Pick` |
| ProcTable.Table.RechargeAll | kernel/src/proc/sched.c:69-73 | the recharge loop is `Procs.Recharge` |
| ProcTable.Table.SchedRun | kernel/src/proc/sched.c:37-80 | the nested loops end and are `Procs.Sched` |
| ProcTable.Table.SleepOn | kernel/src/proc/sleep.c:27-78 | in-place sleep is `Procs.Sleep` and returns the signal that interrupts it |
| ProcTable.Table.WakeupOn | kernel/src/proc/sleep.c:80-122 | the walk over the bucket, with its pointer to a pointer, is `Procs.Wakeup` |
| Locks.EveryRunExcludes | kernel/src/proc/lock.c:12-44 | over every run in which only the holder unlocks, at most one process holds a resource, and it is locked iff somebody does |
| Locks.StepLosesNobodyIff | kernel/src/proc/lock.c:12-44 | every step keeps "asleep on r implies r locked and wanted", except an unlock whose wakeup is incomplete |
| Locks.EveryRunLosesNobody | kernel/src/proc/lock.c:12-44 | with complete wakeups no run loses a waiter |
| Locks.OneAddressPerBucketReaches | kernel/src/proc/sleep.c:89-119 | a bucket whose sleepers share one address is woken completely |
| Locks.SecondWaiterIsLost | kernel/src/proc/lock.c:33-44 | a bucket with another sleeper in front of two waiters leaves the second asleep on a free, unwanted resource |
| Locks.AWaiterIsLost | kernel/src/proc/lock.c:33-44 | a sound state exists in which the holder's unlock loses a waiter |
| Locks.WindowLosesNobodyIff | kernel/src/proc/lock.c:20-23 | the sleep in lock_resource loses nobody iff the resource is still locked and wanted when it is reached |
| Locks.UnlockInWindowLoses | kernel/src/proc/lock.c:20-23 | an unlock of the held resource between setting `wanted` and sleeping leaves the process asleep on a free, unwanted resource |
| Locks.Resources.LockTurn | kernel/src/proc/lock.c:16-29 | one turn of the loop is the lock step |
| Locks.Resources.UnlockResource | kernel/src/proc/lock.c:33-44 | is the unlock step |
| Reaping.ReapMeets | kernel/src/interrupt/signal.c:27-32 | the loop ends; exactly the zombie children behind the list head are gone, `children` falls by their number, no slot is lost and nobody else changes |
| Reaping.ReapTakesZombieChildren | kernel/src/interrupt/signal.c:27-32 | whoever stands behind the head goes iff it is a zombie and its parent is the reaper |
| Reaping.ScanFindsFirst | kernel/src/interrupt/signal.c:19-46 | the scan returns the least pending signal somebody wants to hear of - 17 if it is caught, any other unless ignored -, 0 if there is none below 32, takes exactly those before it off, and reaps iff it passes an ignored 17 |
| Reaping.SigGetMeets | kernel/src/interrupt/signal.c:11-47 | nothing happens if all pending signals are blocked, otherwise the scan |
| ProcList.Processes.GetNextZombley | kernel/src/proc/proc.c:53-64 | the walk finds the first zombie child behind the head |
| ProcList.Processes.ProcRelease | kernel/src/proc/proc.c:88-111 | the relinking takes the process out of the list and puts its slot in front of the free list |
| ProcList.Processes.ReleaseZombley | kernel/src/proc/proc.c:66-86 | releases the process and lowers its parent's count |
| ProcList.Processes.GetSignal | kernel/src/interrupt/signal.c:11-47 | the loop is `Reaping.SigGet` |
| CharQueue.PutAppends | drivers/src/dev/char/charq.c:83-119 | put appends or changes nothing; given memory it succeeds iff characters held plus consumed start are below 256; the shape of the chain is kept |
| CharQueue.UnputDropsLast | drivers/src/dev/char/charq.c:121-140 | unput drops the last character |
| CharQueue.GetTakesFirst | drivers/src/dev/char/charq.c:142-163 | get takes the first character |
| CharQueue.LastCharIsLast | include/drivers/dev/char/tty/tty.h:22 | LAST_CHAR is the last character, NUL for an empty queue |
| CharQueue.RemainingOverstates | drivers/src/dev/char/charq.c:176-179 | of characters put in a row exactly charq_remaining minus the consumed start of the first block get in |
| CharQueue.TakesTwoHundredFiftySix | drivers/src/dev/char/charq.c:83-119 | given memory an empty queue takes the first 256 characters and no more |
| CharQueue.ShapeInNumbers | drivers/src/dev/char/charq.c:18-43 | at most eight blocks, of at most 32 characters, all but the last of exactly 32 |
| CharQueue.OneOfTwoGetsIn | drivers/src/dev/char/charq.c:176-179 | 255 characters written and one read: charq_remaining says 2 and one character gets in |
| CharQueue.RunRefines | drivers/src/dev/char/charq.c:83-174 | every run is a run of a byte deque and keeps: no empty block, only the first partly read, all but the last full, at most eight |
| CharBlocks.CharQ.InsertInTail | drivers/src/dev/char/charq.c:18-43 | links an empty block behind the last, unless eight are there or memory is out |
| CharBlocks.CharQ.DeleteFromHead | drivers/src/dev/char/charq.c:45-63 | unlinks the first block and keeps both counters right |
| CharBlocks.CharQ.DeleteFromTail | drivers/src/dev/char/charq.c:65-81 | unlinks the last block and keeps both counters right |
| CharBlocks.CharQ.PutChar | drivers/src/dev/char/charq.c:83-119 | the recursion on linked blocks is `CharQueue.Put`, and `current_cblock_size` stays the number of characters held |
| CharBlocks.CharQ.UnputChar | drivers/src/dev/char/charq.c:121-140 | is `CharQueue.Unput` |
| CharBlocks.CharQ.GetChar | drivers/src/dev/char/charq.c:142-163 | is `CharQueue.Get` |
| CharBlocks.CharQ.Flush | drivers/src/dev/char/charq.c:165-174 | the loop empties the queue and both counters |
| CharBlocks.CharQ.CharsRemaining | drivers/src/dev/char/charq.c:176-179 | 256 less the characters held |
| LineDiscipline.Erase | drivers/src/dev/char/tty/tty.c:95-144 | the mutual recursion ends; erasing leaves a prefix, a shorter one for VERASE on a non-empty line |
| LineDiscipline.EraseDropsOneIff | drivers/src/dev/char/tty/tty.c:99-117 | VERASE drops exactly one character of every line iff it is neither VWERASE nor VKILL |
| LineDiscipline.EraseKeepsLinesIff | include/drivers/dev/char/tty/tty.h:314-322 | what newlines have finished survives VERASE iff it does not follow a newline; with VERASE in a second role, iff there is no newline |
| LineDiscipline.WordEraseKeepsLinesIff | drivers/src/dev/char/tty/tty.c:119-134 | it survives VWERASE iff a blank with something else behind it stands in the line being edited, or there is no newline |
| LineDiscipline.KillKeepsLinesIff | include/drivers/dev/char/tty/tty.h:334-342 | it survives VKILL iff there is no newline |
| LineDiscipline.KillTakesFinishedLine | drivers/src/dev/char/tty/tty.c:136-143 | with ordinary settings "l", Enter and VKILL leave an empty queue that counts as holding a line |
| LineDiscipline.WordEraseMeetsIff | drivers/src/dev/char/tty/tty.c:119-134 | VWERASE leaves exactly what is in front of the last word and the blanks behind it, on every line, iff VERASE is neither VWERASE nor VKILL and VWERASE is not VKILL |
| LineDiscipline.OverlapErasesAll | drivers/src/dev/char/tty/tty.c:95-144 | if VERASE is also VWERASE or VKILL, both it and VWERASE empty the line |
| LineDiscipline.KillEmpties | drivers/src/dev/char/tty/tty.c:136-143 | VKILL empties the line |
| LineDiscipline.LastWordCut | drivers/src/dev/char/tty/tty.c:119-134 | the line without its last word is the one that cutting blanks and then letters off its end leaves |
| LineDiscipline.KeyEdits | drivers/src/dev/char/tty/tty.c:148-278 | one turn of the loop does to the line what the keystroke means, or nothing if an insertion finds no room |
| LineDiscipline.KeyFlags | drivers/src/dev/char/tty/tty.c:148-278 | the shield is up only behind VLNEXT, queues are flushed only on VINTR, a newline completes the line |
| LineDiscipline.CarriageReturnTyped | drivers/src/dev/char/tty/tty.c:198-207 | 13 is ignored with IGNCR, with ICRNL becomes 10 and completes a canonical line, and goes in as 13 otherwise |
| LineDiscipline.NewlineTyped | drivers/src/dev/char/tty/tty.c:198-207 | 10 becomes 13 with INLCR; otherwise it goes in and completes a canonical line |
| LineDiscipline.ShieldedNotMapped | drivers/src/dev/char/tty/tty.c:197-208 | behind VLNEXT both go in as they are |
| LineDiscipline.PlainLetters | drivers/src/dev/char/tty/tty.c:186-194 | ISTRIP takes off the eighth bit and IUCLC turns 'A' to 'Z' into 'a' to 'z' |
| LineDiscipline.OtherTyped | drivers/src/dev/char/tty/tty.c:186-278 | any other character goes in, stripped and lowered so |
| LineDiscipline.SignalKeys | drivers/src/dev/char/tty/tty.c:154-184 | VINTR drops the line unless NOFLSH is set; VQUIT and VSUSP leave it alone |
| LineDiscipline.EraseKeys | drivers/src/dev/char/tty/tty.c:211-216 | VERASE, VWERASE and VKILL take one character, the last word, or all |
| LineDiscipline.SilentKeys | drivers/src/dev/char/tty/tty.c:218-256 | VREPRINT, VSTART and VSTOP change nothing, VLNEXT puts up the shield |
| LineDiscipline.CookingIsEditing | drivers/src/dev/char/tty/tty.c:146-278 | given room, cooked_q ends up as a keystroke editor leaves it that knows nothing of the code's erase functions, under all settings |
| LineDiscipline.CallsDoNotMatterIff | drivers/src/dev/char/tty/tty.c:146-286 | for every continuation it makes no difference whether it comes in the same call or a later one, iff the first part holds no unshielded VINTR that flushes |
| LineDiscipline.ShieldsExactlyOne | drivers/src/dev/char/tty/tty.c:234-241 | the character behind VLNEXT goes in as it is, and no other, even in a later call |
| LineDiscipline.NewlineSplitsIff | drivers/src/dev/char/tty/tty.c:35-44 | for every answer of kmalloc: CR goes out without NL iff two characters seem to fit, the last block has one place and no other block is to be had; NL without CR iff the last block is full and only the second request for memory is granted |
| LineDiscipline.MemoryAloneDoesNotHelp | drivers/src/dev/char/tty/tty.c:35-44 | with all the memory it asks for CR goes out without NL iff the first block is partly read and charq_remaining exceeds its consumed start by one |
| LineDiscipline.ANewlineSplits | drivers/src/dev/char/tty/tty.c:35-44 | 255 characters written and one read: CR goes out and NL does not |
| TtyDevice.Tty.EraseChar | drivers/src/dev/char/tty/tty.c:95-144 | the loops on cooked_q are `LineDiscipline.Erase` |
| TtyDevice.Tty.EraseLastWord | drivers/src/dev/char/tty/tty.c:119-134 | the word-erase loop |
| TtyDevice.Tty.Translate | drivers/src/dev/char/tty/tty.c:186-208 | strips, lowers and maps the character |
| TtyDevice.Tty.CookOne | drivers/src/dev/char/tty/tty.c:149-277 | the loop body is `LineDiscipline.Key` |
| TtyDevice.Tty.CookInput | drivers/src/dev/char/tty/tty.c:146-278 | the loop is `LineDiscipline.Cook` on cooked_q and read_q |
| Layout.WalkIsLinear | kernel/src/mem/layout.c:82-98 | the processor's walk maps every address of the window to itself minus the offset, and faults everywhere else |
| Layout.CapFitsDirectoryIff | kernel/src/init/bios.c:114-119 | the last page's directory index is below 1024 iff the page count is within the cap |
| Layout.CapPages | kernel/src/init/bios.c:114-119 | the smaller of the pages found and 0x40000 |
| Layout.MemInit | kernel/src/mem/layout.c:82-98 | the loop builds tables that walk to that map; the directory is on the first whole page behind the kernel, the tables behind it, as few as hold all pages |
| Layout.HasAddr | kernel/src/init/bios.c:124-148 | an address is memory iff some available region covers it and no reserved one does |
| Layout.CoversWholePage | kernel/src/init/bios.c:124-148 | a region covers an address iff it is of the kind asked for, below 4 GB, and reaches from before the address to the end of its page |
| Printf.DigitsReadBack | lib/src/printf.c:313-320 | the digits stand for the number |
| Printf.BufferHolds | lib/src/printf.c:230-289 | formatting never goes past the 32-character buffer |
| Printf.PlainIntegerReadsBack | lib/src/printf.c:230-335 | without '#' the text is padding, sign and digits that stand for the number |
| Printf.MinusPrintedIff | lib/src/printf.c:278-286 | a negative number shows its sign iff its padded digits leave room for it |
| Printf.SignLost | lib/src/printf.c:278-286 | %033d of -5 prints no sign |
| Printf.HashKeepsNumberIff | lib/src/printf.c:259-288 | with '#' the text is sign, what fits of the prefix and what is kept of the digits, which stand for the number iff the digit count and the field width leave the field not exactly full or with enough padding zeros for the prefix |
| Printf.PrefixPrintedIff | lib/src/printf.c:259-276 | with '#' the text holds "0x", "0X" or "0b" iff two places are left behind the padded digits or the field gave them back, in terms of digit count, width and flags |
| Printf.MarkPrintedIff | lib/src/printf.c:259-276 | the x, X or b of the prefix is in the text iff one place is left behind the padded digits |
| Printf.PrefixLost | lib/src/printf.c:259-276 | %#b of 2^31 prints no prefix |
| Printf.PrefixLostInZeros | lib/src/printf.c:253-276 | %#035x prints no "0x" for any number but 0 |
| Printf.FieldFilledIff | lib/src/printf.c:206-255 | a number, with or without '#', is at least as long as its field iff the field is padded with blanks or is no longer than the buffer |
| Printf.FieldNotFilled | lib/src/printf.c:206-255 | %040d of 5 prints less than 40 characters |
| Printf.FullFieldLosesDigits | lib/src/printf.c:259-276 | %#4x of 0x1234 prints 0x34 |
| Printf.PrecisionHonouredIff | lib/src/printf.c:245-256 | the text is sign, prefix and digits that stand for the number, and the digits reach the precision iff they suffice anyway or the number is right-justified and the buffer holds it |
| Printf.PrecisionIgnored | lib/src/printf.c:245-256 | %-.3d of 5 prints 5 |
| Format.TruncatedAgrees | lib/src/printf.c:129-135 | a buffer of n > 0 holds the first min(n - 1, length) characters of the unlimited output and a NUL; nothing behind changes |
| Format.NothingWritten | lib/src/printf.c:1057-1058 | a buffer of size 0 is not touched |
| Format.ShorterIsPrefix | lib/src/printf.c:129-135 | buffers of two sizes agree on what both keep |
| Format.DecimalReadsBack | lib/src/printf.c:843-893 | "%d" prints every int as digits that stand for it |
| Directives.DirectiveRead | lib/src/printf.c:711-806 | a directive means what it says: flags in any order, width and precision written out or taken from the arguments, and length are read back exactly |
| Directives.OneDirective | lib/src/printf.c:698-710 | a format that is one directive prints what its conversion prints |
| Directives.SignedConverted | lib/src/printf.c:843-894 | %d and %i print the low 8, 16, 32 or 64 bits of the argument in two's complement, in decimal |
| Directives.UnsignedConverted | lib/src/printf.c:817-842 | %u, %x, %X, %o and %b print the low bits of the argument in base 10, 16, 16, 8 and 2, without plus or space |
| Directives.IntegerReads | lib/src/printf.c:206-335 | the text of an integer without '#' is sign, zeros and digits that read from left to right stand for it, in a field of blanks, all lengths exact |
| Directives.IntegerDirectiveReadsBack | lib/src/printf.c:809-938 | %d, %i, %u, %x, %X, %o and %b print every 32-bit number with digits of the right base and case that stand for it, without leading zeros |
| Directives.TextConverted | lib/src/printf.c:953-1020 | %c prints a byte and %s as much of the string as the precision allows, in a field of blanks on the right side |
| Directives.PointerConverted | lib/src/printf.c:1022-1040 | %p prints a word in upper-case hexadecimal, asking for zeros up to eight characters |
| Directives.OtherConverted | lib/src/printf.c:1042-1052 | a character that is no conversion prints itself and takes no argument |
| Format.ArgumentTakenIff | lib/src/printf.c:843-938 | an integer directive takes its argument iff it is signed or not for long long; otherwise it prints nothing |
| Format.UnsignedLongLongSkipped | lib/src/printf.c:895-911 | an unsigned long long directive, whatever its flags, width and precision, prints nothing and the rest of the format goes on with its argument |
| Format.NextDirectiveMisreads | lib/src/printf.c:895-911 | in "%llu%u" the second directive meets the 64-bit argument |
| FormatEngine.Output.OutReversed | lib/src/printf.c:194-228 | the loops print the buffer backwards between its padding |
| FormatEngine.Output.OutFormatted | lib/src/printf.c:230-289 | the in-place buffer is `Printf.Formatted` |
| FormatEngine.Output.MakeDigits | lib/src/printf.c:313-320 | the digit loop is `Printf.Digits` |
| FormatEngine.Output.OutInteger | lib/src/printf.c:291-335 | prints `Printf.Integer` |
| FormatEngine.Output.EvalField | lib/src/printf.c:711-806 | the scan of a directive is `Format.ParseField` |
| FormatEngine.Output.OutConversion | lib/src/printf.c:808-1054 | prints `Format.Convert` |
| FormatEngine.Vsnprintf | lib/src/printf.c:689-1062 | the result is the length of the unlimited output whatever the buffer's size, and the buffer holds what fits |

## Left out

- Pages.GetKeepsInv: with an empty ring the model fails at once, as if nobody released a page while page_get_free sleeps.
- PageAllocator.Allocator.GetFree: the same sleep.
- PageAllocator.Allocator.ReleasePage: the panic on an invalid page number and the wakeup of those waiting for a page; the page is a known one.
- Page cache chains: `insert_into_cache` has no caller, so `remove_from_cache` appears only as the loss of a page's inode.
- Heap calls are atomic: an interrupt handler that allocates or frees inside one is not modelled.
- Pages.PagesConserved: the counters are unbounded; page numbers stay below 2^18 by the cap.
- Kmalloc.MallocThenFree: leaves out the low-memory threshold and the inode of a reused page, which kfree does not restore.
- KernelHeap.KHeap.BuddyAlloc: follows the comment at buddy.c:144, not the test below it; the test is covered by Kmalloc.AsWrittenIffNoSplit.
- Spinlock.ExclusiveAndFair: memory is sequentially consistent and each atomic instruction one step.
- TimerList.AddedTaskFiresOnTime: nobody asks for zero ticks, and no callback adds or removes that timer. Client calls are whole here; TimerRace.InterruptedAddFiresIff is about the others.
- TimerList.FiresInItsPass: the same two assumptions.
- TimerRace.InterruptedInsertIff: interrupts fall between turns of the loop, not within one or within the pool functions, and the timer functions that run meanwhile ask the timer for nothing, as the kernel's only one at tty.c:22-26 does.
- TimerRemoval.InterruptedRemovalIff: the same, and its turns are not carried out on pointers.
- Timer.TimerQueue.TaskAdd: without an interrupt inside the call; see TimerRace and TimerRemoval.
- Timer.TimerQueue.TaskRemove: without an interrupt inside the call; see TimerRemoval.
- Timer.TimerQueue.TaskBh: LOCK_TT is free, so the early exit at timer.c:109-111 is not taken.
- Timer.TimerQueue.Interrupt: the tick, uptime and system time counters, and interrupts that arrive while the bottom halves run.
- The function pointers of timer tasks: a callback is what it asks the timer for.
- Procs.Sched: the state after a scheduler that returns; Procs.SchedSpins tells when it does not, and ProcTable.Table.SchedRun requires that it does.
- ProcTable.Table.SleepOn: what the two calls of sig_get return is a parameter, and what they do to signals and zombies is left to Reaping.SigGetMeets.
- Context switch and TSS: a switch is the change of the current process.
- Locks.StepLosesNobodyIff: setting `wanted` and going to sleep are one step; what an unlock in between does is Locks.UnlockInWindowLoses.
- Locks.Resources.LockTurn: the same step.
- lock_area, unlock_area and proc_is_orphaned_pgrp, which returns with the lock held.
- ProcList.Processes.ProcRelease: the head of a longer list, for which proc.c:100 writes through a NULL `prev`.
- ProcList.Processes.ReleaseZombley: the kernel stack and page directory it frees, the rss counter, and waiting for the process-list lock.
- Reaping.SigGetMeets: nothing is said about the returned signal being unblocked; the scan does not look.
- CharBlocks.CharQ.DeleteFromTail: what becomes of the block's memory; the code does not free it.
- TtyDevice.Tty.CookOne: as TtyDevice.Tty.CookInput.
- TtyDevice.Tty.CookInput: kmalloc always succeeds for cooked_q; echo, write_q, starting and stopping output, signals to the process group and the wakeup of readers.
- LineDiscipline.EraseKeepsLinesIff: a newline is the only delimiter; nothing marks an EOF in cooked_q.
- LineDiscipline.Erase: the character tests of ISUPPER past its 128-entry table read memory the model takes as a parameter of the terminal.
- LineDiscipline.NewlineSplitsIff: output columns, tabs and the other cases of opost.
- tty_read, tty_write and the console.
- Layout.MemInit: the two clears are part of the arrays; activating the directory and the later allocations of mem_init are not modelled.
- bios_mmap_init: the counting of pages; only its cap and the lookup are modelled.
- FormatEngine.Output.OutConversion: floating-point conversions have no defined output.
- Printf.HashKeepsNumberIff: without a precision in the directive `prec` is 0, as printf.c:760 sets it.
- FormatEngine.Vsnprintf: floating-point conversions, a null buffer, sprintf's unlimited buffer, outputs of 2^31 characters or more; a format that ends inside a directive or lacks an argument has no defined output.
- Port I/O, drivers, boot code, ELF loading, traps, GDT and IDT, string and bitmap routines: straight-line code or easy members.

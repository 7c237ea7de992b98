# Pintos kernel, verified in Dafny

A model of the algorithmic core of the Pintos teaching kernel, with proofs.
Seven groups of code are covered.

- **Threads.** Locks, semaphores, priority donation, the scheduler and the
  alarm clock form a state machine. A stretch of code with interrupts off is
  one step. `KernelState.dfy` has the states and the invariant,
  `KernelSteps.dfy` the steps and safety over runs, `KernelEffects.dfy` what
  each step achieves. `KernelTables.dfy` states what each call does as a
  relation on tables of threads, without any list, and proves that the steps
  on sorted lists refine it; `KernelLaws.dfy` draws from it how long sleepers
  sleep and that nobody overtakes an equal. `KernelPriorities.dfy` says when a
  holder is not below its waiters, `KernelSlots.dfy` when the slots for
  donations last; `KernelScenes.dfy` and `KernelWitness.dfy` construct runs
  from boot.
  `Donation.dfy` has the donation arrays of one thread, `Mlfqs.dfy` the load
  averages.
- **Lists and sorting.** The doubly linked list with its in-place merge sort is
  proved against a stable sort of sequences (`StableOrder.dfy`,
  `IntrusiveList.dfy`). The array heap sort and binary search are in
  `HeapSort.dfy`.
- **64-bit division** out of 32-bit division (`Arithmetic.dfy`).
- **Allocators.** Word-packed bitmaps (`Bitmaps.dfy`), the page allocator on
  top of them (`PageAllocator.dfy`), and malloc on top of that
  (`FreeLists.dfy`, `Malloc.dfy`).
- **Index structures.** The hash table (`HashTable.dfy`) and the two-level page
  table in memory words (`PageTable.dfy`).
- **File system.** Sector I/O (`InodeIo.dfy`), directories in the bytes of an
  inode (`Directory.dfy`), and who owns which sector and what is in it
  (`FileSystem.dfy`).
- **Text formats.** Number printing and reading (`NumberText.dfy`) and ustar
  headers (`Ustar.dfy`).

Things outside the model are parameters: whether an allocation or a disk write
succeeds, how many reads memory lasts for, the page palloc hands out. A null
pointer or an error return is an `Option`; a processor trap is
`Arithmetic.Outcome.Trap`.

In the thread model the end of a time slice is a yield step of the running
thread, which may come between any two other steps; so is the yield that
sema_up, thread_set_priority and thread_create make after interrupts are on
again. Assumptions of that model: the multi-level feedback queue is off; a lock
holder that receives a donation is on the ready list or on a waiters list; a
thread's base priority is not raised to a live donation or above it
(`SetBaseKeepsOrderIff` shows what that would break); no thread exits while it
holds a lock. That a donation finds a free slot is assumed in `IsRun`, and
proved for every run whose priorities span at most 30 levels, and only for
those (`SlotsLastIff`).

Priority donation does not always keep a lock's holder at or above its waiters,
as the comment in lock_acquire suggests (src/threads/synch.c:216-219).
`CoverLost` is a run where it fails, and `StepCovers` and `RunCovers` say
exactly when it holds: the steps that can break it are a release, a lowering of
the own priority, and the taking of a free lock that still has waiters. As long
as it holds, chains of waiting threads of any length are covered too, and
nobody below a thread in such a chain runs (`NestedDonation`, `RunNested`).

The assumption that a holder with a donation due is on the ready list or on a
waiters list is a real restriction: `SleepingHolder` is a run from boot to a
state where the holder is asleep. lock_acquire would then unlink the holder's
stale list element and put it on the ready list while it stays on the alarm
list.

Where code and documentation disagree, the model follows the code:

- umod64 and smod64 return 32 bits, so they are exact only for small divisors
  (`UmodExactIff`, `SmodExactIff`).
- dir_add says that a short read happens only at the end of the file. Reads
  also stop short when there is no memory for the bounce buffer, and then a
  name can be entered twice or an entry overwritten (`AddRefinesIff`,
  `ShortReadDuplicates`, `OverwriteLoses`).
- malloc says it returns a block of at least the size asked for. For the eleven
  largest sizes the sum with the arena header wraps, and the block is one page
  (`Heap.Malloc`, `Heap.MallocLargest`).
- bitmap_scan with a count of zero returns the start index; an empty file
  therefore has data sector 0 and owns no data sector.

## Model

| member | source | states |
|---|---|---|
| Arithmetic.Nlz | pintos-anon/src/lib/arithmetic.c:41-73 | the count of leading zeros: shifting left by it puts the top bit in place and loses nothing; the binary search finds exactly that count |
| Arithmetic.DivideBySmall | pintos-anon/src/lib/arithmetic.c:80-112 | schoolbook division by a 32-bit divisor gives the exact 64-bit quotient and neither divide traps |
| Arithmetic.EstimateQuotient | pintos-anon/src/lib/arithmetic.c:121-123 | with the divisor normalised to 32 bits the divide cannot trap, and the estimate is the true quotient or one more |
| Arithmetic.CorrectionStep | pintos-anon/src/lib/arithmetic.c:124 | the final test, wrap-around included, picks the true quotient out of the estimate and the number below it |
| Arithmetic.DivideByLarge | pintos-anon/src/lib/arithmetic.c:113-126 | estimate and correction together give the exact quotient for every divisor of 2^32 or more |
| Arithmetic.Udiv64 | pintos-anon/src/lib/arithmetic.c:77-127 | floor(n / d) for every 64-bit n and nonzero d; a trap only for d = 0 |
| Arithmetic.Umod64 | pintos-anon/src/lib/arithmetic.c:131-135 | the remainder cut to 32 bits |
| Arithmetic.UmodExactIff | pintos-anon/src/lib/arithmetic.c:131-135 | umod64 is the remainder for all n if and only if d is at most 2^32 |
| Arithmetic.TruncDivLaw | pintos-anon/src/lib/arithmetic.c:139-154 | the truncating quotient's remainder is smaller than the divisor and has the sign of the dividend |
| Arithmetic.Sdiv64 | pintos-anon/src/lib/arithmetic.c:139-146 | truncation toward zero for every pair but INT64_MIN / -1, which wraps |
| Arithmetic.Smod64 | pintos-anon/src/lib/arithmetic.c:150-154 | the truncating remainder cut to a 32-bit int |
| Arithmetic.SmodExactIff | pintos-anon/src/lib/arithmetic.c:150-154 | smod64 is exact for all n if and only if the divisor's magnitude is at most 2^31 |
| StableOrder.StableSortCorrect | pintos-anon/src/lib/kernel/list.c:401-440 | the reference sort is sorted and keeps every equivalence class in its original order, for every strict weak order |
| StableOrder.SortedUnique | pintos-anon/src/lib/kernel/list.c:401-440 | a sorted arrangement with the same classes is unique, so "stable sort" determines the result |
| StableOrder.SameClassesPermute | pintos-anon/src/lib/kernel/list.c:401-440 | equal classes make the two sequences permutations of the same nodes |
| StableOrder.InsertKeepsSorted | pintos-anon/src/lib/kernel/list.c:445-459 | ordered insertion keeps a list sorted and puts the new element behind its equals |
| StableOrder.MergeKeepsSorted | pintos-anon/src/lib/kernel/list.c:374-399 | merging two sorted runs gives a sorted run |
| StableOrder.MergeKeepsClasses | pintos-anon/src/lib/kernel/list.c:374-399 | and preserves the order of equal elements, those of the first run first |
| StableOrder.PassStep | pintos-anon/src/lib/kernel/list.c:421-435 | one merge of a pass keeps all classes and turns two runs into one |
| StableOrder.PassComplete | pintos-anon/src/lib/kernel/list.c:414-436 | a whole pass leaves a stable rearrangement with about half as many runs, as its run count says |
| IntrusiveList.List.constructor | pintos-anon/src/lib/kernel/list.c:60-68 | an empty, well-linked list |
| IntrusiveList.List.Insert | pintos-anon/src/lib/kernel/list.c:168-178 | the element is linked in at its place, all other nodes keep their order and all links are well formed |
| IntrusiveList.List.Splice | pintos-anon/src/lib/kernel/list.c:183-204 | toward the front of its list: the block changes place with the block before it, node by node, and all links stay well formed |
| IntrusiveList.List.SpliceBack | pintos-anon/src/lib/kernel/list.c:183-204 | toward the back, or in place: the block goes past what lies between it and its target |
| IntrusiveList.List.SpliceFrom | pintos-anon/src/lib/kernel/list.c:183-204 | from another list: the block leaves it and joins this one, and both are well linked |
| IntrusiveList.List.InsertOrdered | pintos-anon/src/lib/kernel/list.c:445-459 | the list becomes the reference insertion: after everything not above the element |
| IntrusiveList.List.FindEndOfRun | pintos-anon/src/lib/kernel/list.c:357-372 | the longest run from a node: a run, and the next element descends |
| IntrusiveList.List.InplaceMerge | pintos-anon/src/lib/kernel/list.c:379-399 | relinking nodes within the list produces the stable merge of the two runs |
| IntrusiveList.List.MergeNextPair | pintos-anon/src/lib/kernel/list.c:421-435 | finds the next two runs and merges them, leaving the rest of the list alone |
| IntrusiveList.List.MergePass | pintos-anon/src/lib/kernel/list.c:414-436 | one pass over the list is stable and about halves the number of natural runs; a report of at most one run means the list is sorted |
| IntrusiveList.List.Sort | pintos-anon/src/lib/kernel/list.c:404-440 | list_sort terminates and leaves exactly the stable sort of the same nodes, well linked |
| HeapSort.Heapify | pintos-anon/src/lib/stdlib.c:96-123 | restores the heap property from one violated node, permuting only the first cnt elements |
| HeapSort.RootIsMax | pintos-anon/src/lib/stdlib.c:131-152 | a heap's root is at least every element |
| HeapSort.RootGoesLast | pintos-anon/src/lib/stdlib.c:143-150 | swapping the root to the end keeps the sorted suffix above the remaining heap |
| HeapSort.Sort | pintos-anon/src/lib/stdlib.c:131-152 | a sorted permutation of any array, for every total preorder |
| HeapSort.BinarySearch | pintos-anon/src/lib/stdlib.c:184-207 | on a sorted array finds an equal element exactly when there is one |
| Donation.ThreadPriority.constructor | pintos-anon/src/threads/thread.c:562-594 | a new record is the base priority alone |
| Donation.ThreadPriority.Donate | pintos-anon/src/threads/synch.c:225-231 | the donation is appended to the record |
| Donation.ThreadPriority.SetBase | pintos-anon/src/threads/thread.c:346-364 | the first pair takes the new base, wherever it is stored |
| Donation.ThreadPriority.Bury | pintos-anon/src/threads/synch.c:296-302 | exactly the lock's stored pairs become tombstones, and they are counted |
| Donation.ThreadPriority.FillHole | pintos-anon/src/threads/synch.c:307-314 | the next live pair moves into the hole and the sequence of live pairs is unchanged |
| Donation.ThreadPriority.Compact | pintos-anon/src/threads/synch.c:305-316 | the live pairs end up in front, in order |
| Donation.ThreadPriority.Release | pintos-anon/src/threads/synch.c:293-328 | bury, compact and pop together equal filtering out the lock's pairs |
| Donation.ReleasedPriorityIsMax | pintos-anon/src/threads/synch.c:293-328 | the priority after a release is the maximum of the base and the remaining donations |
| Donation.SetBaseKeepsOrderIff | pintos-anon/src/threads/thread.c:355-358 | setting the base keeps the record increasing if and only if it stays below the first donation |
| Donation.DepthBound | pintos-anon/src/threads/synch.c:220-248 | an increasing record is no deeper than current minus base priority |
| Donation.RunKeepsWellFormed | pintos-anon/src/threads/synch.c:220-328 | over every run of donations, releases and base changes the record is strictly increasing and free of tombstones, its current priority is its maximum, and the depth bound holds |
| Donation.LadderReachable | pintos-anon/src/threads/synch.c:224-231 | a thread of any priority can get any number of donations, one level each |
| Donation.SlotsSufficeIff | pintos-anon/src/threads/thread.h:105-106 | over every run of a record with bases and donors between lo and hi, 30 slots suffice if and only if hi - lo is at most 30 |
| KernelSteps.ScheduleSettles | pintos-anon/src/threads/thread.c:677-690 | a dispatch restores the invariant with the chosen thread on the CPU |
| KernelSteps.SchedulePicksMax | pintos-anon/src/threads/thread.c:614-621 | the chosen thread has maximal priority among the ready, and among equals the earliest arrival; idle only when nothing is ready |
| KernelSteps.YieldSettles | pintos-anon/src/threads/thread.c:310-325 | yielding keeps the kernel invariant |
| KernelSteps.WaitOnSettles | pintos-anon/src/threads/synch.c:241-244 | joining a waiters list in order and blocking keeps the invariant |
| KernelSteps.BoostKeepsInv | pintos-anon/src/threads/synch.c:224-239 | a donation, with the holder pulled onto the ready list, keeps every list ordered and every record owned by its holder |
| KernelSteps.AcquireLoopSettles | pintos-anon/src/threads/synch.c:204-255 | each turn of lock_acquire's loop keeps the invariant |
| KernelSteps.DownLoopSettles | pintos-anon/src/threads/synch.c:62-79 | each turn of sema_down's loop keeps the invariant |
| KernelSteps.WakeOneSettles | pintos-anon/src/threads/synch.c:117-130 | sema_up, up to where interrupts come back on, keeps the invariant |
| KernelSteps.UpSettles | pintos-anon/src/threads/synch.c:111-133 | so does sema_up with its yield, when the caller has interrupts off |
| KernelSteps.ReleaseSettles | pintos-anon/src/threads/synch.c:282-334 | lock_release keeps the invariant, with the lock's donations gone |
| KernelSteps.SleepSettles | pintos-anon/src/devices/timer.c:100-119 | going to sleep keeps the invariant and the alarm list in wake-up order, however long ago the clock was read |
| KernelSteps.WakeDueExact | pintos-anon/src/devices/timer.c:198-208 | the early-exit loop makes ready exactly the sleepers that are due |
| KernelSteps.WakeLoop | pintos-anon/src/devices/timer.c:198-208 | the loop itself, against that specification |
| KernelSteps.TickSettles | pintos-anon/src/devices/timer.c:192-208 | a timer interrupt keeps the invariant |
| KernelSteps.SetPrioritySettles | pintos-anon/src/threads/thread.c:349-362 | changing the base priority keeps the invariant |
| KernelSteps.CreateSettles | pintos-anon/src/threads/thread.c:169-206 | thread creation, up to the new thread's unblocking, keeps the invariant |
| KernelSteps.ExitSettles | pintos-anon/src/threads/thread.c:289-306 | thread exit keeps the invariant |
| KernelSteps.StepSettles | pintos-anon/src/threads/synch.c:62-334 | every enabled step of any thread or of the timer keeps the invariant |
| KernelSteps.RunSafe | pintos-anon/src/threads/synch.c:62-334 | in every state of every run: a lock is free exactly when it has no holder; while anybody waits, each unit of a semaphore is matched by a ready or running thread about to try for it; ready and waiters lists go by priority and then arrival, the alarm list by time; no thread is on two lists; every recorded donation is for a lock its thread holds, and a thread's priority is the largest in its record |
| KernelTables.StepDoes | pintos-anon/src/threads/synch.c:62-334 | every step on the sorted lists does to the thread table exactly what the rules without lists say: who runs next is the ready thread of highest priority that came first, who is woken is the waiter of highest priority that came first, a timer interrupt adds one tick and wakes exactly the due |
| KernelTables.ViewDetermines | pintos-anon/src/threads/thread.h:78-98 | the table determines every list: two states in order with the same table are the same |
| KernelTables.RunDoes | pintos-anon/src/threads/synch.c:62-334 | both over every run |
| KernelLaws.SleepsUntil | pintos-anon/src/devices/timer.c:100-208 | over every run a sleeper is on the alarm list as long as the clock shows less than its time, and is made ready at the very tick of its time, or at the next tick if that had passed |
| KernelLaws.ClockCounts | pintos-anon/src/devices/timer.c:193-204 | at every point of every run from boot the clock shows how many timer interrupts there have been |
| KernelLaws.NoOvertaking | pintos-anon/src/threads/thread.c:614-622 | over every run a ready thread that is ahead of another gets the CPU before it, as long as the other is not raised above it |
| KernelLaws.YieldGoesBehind | pintos-anon/src/threads/thread.c:310-325 | a yield puts the caller behind every ready thread of its priority or above, and one of them runs |
| KernelLaws.YieldIsFair | pintos-anon/src/threads/thread.c:310-325 | round robin: after a yield each of those runs before the caller does again, as long as the caller is not raised above it |
| KernelLaws.SetThenRelease | pintos-anon/src/threads/thread.c:355-356 | a priority set under donations is the own priority that the release of the lock leaves, with the donations for other locks, and decides if there are none |
| KernelLaws.CanCall | pintos-anon/src/threads/synch.c:62-334 | outside the wait loops every call is possible but for the calls' assertions and the three cases left out |
| KernelLaws.CanResume | pintos-anon/src/threads/synch.c:204-252 | inside one the thread can go on exactly when it would not donate to a sleeper |
| KernelEffects.YieldEffect | pintos-anon/src/threads/thread.c:310-325 | after a yield no ready thread outranks the running one, and no other thread is disturbed |
| KernelEffects.ContendedAcquire | pintos-anon/src/threads/synch.c:216-248 | the caller waits in the lock's list; a lower holder gets exactly one pair with the caller's priority, runs at that priority and is awake; nobody else's record changes |
| KernelEffects.FreeAcquire | pintos-anon/src/threads/synch.c:249-254 | an uncontended acquire makes the caller holder of the one unit and moves nobody |
| KernelEffects.DownEffect | pintos-anon/src/threads/synch.c:62-79 | sema_down takes one unit or parks the caller |
| KernelEffects.WakeOneEffect | pintos-anon/src/threads/synch.c:117-130 | the value grows by one; the first waiter has maximal priority among the waiters and is awake, all others wait on; the caller still runs |
| KernelEffects.UpEffect | pintos-anon/src/threads/synch.c:111-133 | with interrupts off all along, and if the first waiter outranks the caller, nothing ready outranks what runs next; otherwise the caller runs on |
| KernelEffects.ReleaseEffect | pintos-anon/src/threads/synch.c:282-334 | the caller keeps exactly the donations of other locks and runs at the largest of those and its base; the lock is free and its first waiter awake; if that one outranks what the caller is left with, nothing ready outranks what runs next, and otherwise the caller runs on |
| KernelEffects.SleepEffect | pintos-anon/src/devices/timer.c:100-119 | the caller is on the alarm list, due the given ticks after the clock was read |
| KernelEffects.SetPriorityEffect | pintos-anon/src/threads/thread.c:349-362 | the record's own priority is the new one and all donations stay in their order; without a donation the new value counts at once, with one the current priority stays |
| KernelEffects.CreateEffect | pintos-anon/src/threads/thread.c:169-206 | the new thread is ready at its own priority, the creator still runs and nobody else changes |
| KernelEffects.TickEffect | pintos-anon/src/devices/timer.c:192-208 | a timer interrupt adds one to the clock and makes ready exactly the sleepers whose time is not after the new value; nobody else moves, and no record or wake-up time changes |
| KernelEffects.ExitEffect | pintos-anon/src/threads/thread.c:289-306 | the caller is gone, a maximal thread runs and nobody else changes |
| KernelPriorities.ReleaseCovers | pintos-anon/src/threads/synch.c:293-328 | from a state where no holder is below a waiter of its lock, lock_release keeps that if and only if what is left of the caller's priority covers the first waiters of its other locks |
| KernelPriorities.SetPriorityCovers | pintos-anon/src/threads/thread.c:349-362 | thread_set_priority keeps it if and only if a donation is in force or the new priority covers those waiters |
| KernelPriorities.ContendedKeepsCover | pintos-anon/src/threads/synch.c:216-248 | a contended lock_acquire always keeps it |
| KernelPriorities.StepCovers | pintos-anon/src/threads/synch.c:204-334 | every step of the kernel keeps it if and only if its guard holds, a condition on the state before the step |
| KernelPriorities.RunCovers | pintos-anon/src/threads/synch.c:204-334 | a run that starts with no holder below a waiter stays so throughout if and only if every step meets its guard |
| KernelPriorities.RunBacked | pintos-anon/src/threads/synch.c:204-334 | over every run no donation outlives its donor: each recorded pair has a thread in its lock's wait loop at that priority or above |
| KernelPriorities.BootCovered | pintos-anon/src/threads/thread.c:91-122 | the state after boot is covered and backed, so both theorems speak of runs from there |
| KernelPriorities.CoversIffChains | pintos-anon/src/threads/synch.c:216-219 | no holder is below a waiter of its lock if and only if along every chain of waiting threads, of any length, the last holder has at least the priority of the first waiter |
| KernelPriorities.NestedDonation | pintos-anon/src/threads/synch.c:216-219 | in such a state, if a thread of maximal priority runs and the last holder of a chain neither waits nor sleeps, then it is ready or running and nobody below a thread of the chain runs |
| KernelPriorities.RunNested | pintos-anon/src/threads/synch.c:216-252 | this holds at every state of every run whose steps meet their guards |
| KernelWitness.CoverLost | pintos-anon/src/threads/synch.c:224 | a run from boot in which a waiter at 50 needed no donation when it came, and a later release leaves the holder at 10 below it |
| KernelWitness.SleepingHolder | pintos-anon/src/threads/synch.c:224-240 | a run from boot to a state where a donation is due to a holder that is asleep, on the alarm list only |
| KernelSlots.BandTraceIsRun | pintos-anon/src/threads/thread.h:105-106 | over every run with priorities in a band of at most 30 levels each donation finds a free slot |
| KernelSlots.BandSafe | pintos-anon/src/threads/synch.c:62-334 | so all of RunSafe holds of such runs with no assumption about slots |
| KernelSlots.LadderOverflows | pintos-anon/src/threads/synch.c:225-231 | in any wider band, from a state that a run from boot reaches, the main thread and 31 donors, one level apart, make a run that needs a 31st slot |
| KernelSlots.SlotsLastIff | pintos-anon/src/threads/thread.h:105-106 | the slots last through every run in the band from lo to hi if and only if hi - lo is at most 30, for runs from any state and for runs from states that boot leads to |
| KernelSteps.BootSettled | pintos-anon/src/threads/thread.c:91-120 | the state after thread_start satisfies the invariant, so runs exist |
| Mlfqs.DivIsTrunc | pintos-anon/src/threads/fixed-point.h:12-26 | the fixed-point division is C's truncating division |
| Mlfqs.LoadBounded | pintos-anon/src/threads/thread.c:427-437 | with at most N runnable threads the load average stays within 0 and N |
| Mlfqs.DecayBounded | pintos-anon/src/threads/thread.c:403-412 | the decay factor is at most 2N / (2N + 1), rounding included |
| Mlfqs.RecentBounded | pintos-anon/src/threads/thread.c:403-412 | one per-second update keeps recent_cpu within -(40N + 20) and 240N + 20 |
| Mlfqs.RunInBounds | pintos-anon/src/devices/timer.c:211-220 | both bounds hold after every second of every run, with at most 100 ticks charged per second |
| Mlfqs.UpdatesFit | pintos-anon/src/threads/thread.c:403-446 | up to 545 threads no intermediate value overflows its C type |
| Mlfqs.LoadApproximates | pintos-anon/src/threads/thread.c:427-437 | the load average never exceeds 59/60 of the old value plus 1/60 of the threads, and falls short of it by a stated rounding only |
| Mlfqs.RecentApproximates | pintos-anon/src/threads/thread.c:403-412 | recent_cpu differs from recent * 2L / (2L + 1) + nice by a stated rounding only |
| Mlfqs.PriorityFormula | pintos-anon/src/threads/thread.c:375-384 | the two truncations are one: the priority is 63 less a quarter of recent_cpu and twice the niceness, clamped |
| Bitmaps.Bitmap.constructor | pintos-anon/src/lib/kernel/bitmap.c:79-95 | a new bitmap is all false |
| Bitmaps.Bitmap.Mark | pintos-anon/src/lib/kernel/bitmap.c:156-166 | or-ing a mask into a word sets one element of the sequence and no other |
| Bitmaps.Bitmap.Reset | pintos-anon/src/lib/kernel/bitmap.c:169-179 | and-ing the complement clears one element and no other |
| Bitmaps.Bitmap.SetMultiple | pintos-anon/src/lib/kernel/bitmap.c:217-228 | exactly the range changes |
| Bitmaps.Bitmap.Contains | pintos-anon/src/lib/kernel/bitmap.c:250-263 | true exactly when some bit of the range has the value |
| Bitmaps.Bitmap.Scan | pintos-anon/src/lib/kernel/bitmap.c:295-310 | the least start of a long enough run, or none exactly when there is none |
| Bitmaps.Bitmap.ScanAndFlip | pintos-anon/src/lib/kernel/bitmap.c:319-326 | that run and only that run is flipped |
| PageAllocator.Pool.Get | pintos-anon/src/threads/palloc.c:70-101 | the first free group of the pool, which becomes used |
| PageAllocator.Pool.Put | pintos-anon/src/threads/palloc.c:116-142 | exactly the group becomes free |
| PageAllocator.Allocator.GetMultiple | pintos-anon/src/threads/palloc.c:70-101 | pages handed out overlap nothing in use in either pool; none only when the pool has no such group or none was asked for |
| PageAllocator.Allocator.FreeMultiple | pintos-anon/src/threads/palloc.c:116-142 | the pool is found from the address and exactly those pages become free |
| PageAllocator.Init | pintos-anon/src/threads/palloc.c:45-62 | two disjoint empty pools, each just behind its own bitmap and as large as the pages left to it, or a panic exactly when a bitmap does not fit |
| PageAllocator.BitmapPagesFit | pintos-anon/src/threads/palloc.c:152-164 | a pool's bitmap gets the fewest pages that hold its header and a bit for every page in whole words |
| Malloc.InitDescriptors | pintos-anon/src/threads/malloc.c:71-85 | the seven descriptors, 16 to 1024 bytes, with the blocks that fit behind the header |
| Malloc.FindDescriptor | pintos-anon/src/threads/malloc.c:102-104 | the smallest descriptor that fits the size |
| Malloc.BlockToArena | pintos-anon/src/threads/malloc.c:267-294 | block_to_arena undoes arena_to_block and its alignment assertions hold |
| Malloc.LiveDisjoint | pintos-anon/src/threads/malloc.c:89-154 | two live blocks never share a byte |
| Malloc.LastLive | pintos-anon/src/threads/malloc.c:241-254 | free_cnt reaches the number of blocks exactly when no other block of the arena is live |
| Malloc.ArenaHasLive | pintos-anon/src/threads/malloc.c:241-254 | every arena kept holds a live block, so once all blocks are freed every page is back |
| Malloc.Heap.AddArena | pintos-anon/src/threads/malloc.c:134-143 | a new arena's blocks, each once and in order, become the free list |
| Malloc.Heap.MallocSmall | pintos-anon/src/threads/malloc.c:121-153 | one block of the descriptor becomes live and a page is taken only if its free list was empty |
| Malloc.Heap.MallocBig | pintos-anon/src/threads/malloc.c:105-119 | a group of pages becomes one live block |
| Malloc.Heap.Malloc | pintos-anon/src/threads/malloc.c:89-154 | keeps free lists equal to the free blocks of their arenas and free_cnt equal to each arena's share; the block is new, a descriptor's block only if the size fits it and no smaller one, and large enough if and only if the size is at most 2^32 - 12; the pages in use grow by those of a big block, or by one when the descriptor's free list was empty, and else not at all; failure is for size 0, a page count that wraps to 0 or lack of pages, for a small size only with its descriptor's list empty, and changes nothing |
| Malloc.Heap.MallocLargest | pintos-anon/src/threads/malloc.c:105-119 | asked for 2^32 - 1 bytes, malloc succeeds whenever a page is free, with a block of 4084 bytes |
| Malloc.Heap.TearDown | pintos-anon/src/threads/malloc.c:246-250 | the loop removes exactly the arena's blocks from the free list |
| Malloc.Heap.Free | pintos-anon/src/threads/malloc.c:218-263 | exactly that block stops being live, other live blocks keep their bytes, and pages return to palloc exactly when no other block in them is live |
| Malloc.Heap.Realloc | pintos-anon/src/threads/malloc.c:194-214 | what is copied fits the new block if and only if the size is at most 2^32 - 12 or the old block had at most 4084 bytes; then the new block begins with the old block's bytes and all other live blocks keep place, size and bytes; the old block is gone; the new one is of the smallest kind that fits; failure, other than for size 0, is for a page count that wraps to 0 or lack of pages and changes nothing |
| BitTricks.MaskIsMod | pintos-anon/src/lib/kernel/hash.c:305-310 | masking with a power of two less one is the remainder |
| BitTricks.LowestBitOff | pintos-anon/src/lib/kernel/hash.c:328-340 | x & (x - 1) is zero exactly for powers of two and otherwise keeps the top bit |
| BitTricks.RoundDown | pintos-anon/src/lib/kernel/hash.c:371-372 | the loop ends at the largest power of two not above its start |
| HashTables.IdealLoad | pintos-anon/src/lib/kernel/hash.c:343-372 | a resized table has fewer than four elements per bucket, and at least two unless it has the minimum of four buckets |
| HashTables.OnePerClass | pintos-anon/src/lib/kernel/hash.c:98-127 | the table holds at most one element per equivalence class, and elem_cnt of them |
| HashTables.HashTable.constructor | pintos-anon/src/lib/kernel/hash.c:24-42 | an empty table of four buckets |
| HashTables.HashTable.FindBucket | pintos-anon/src/lib/kernel/hash.c:305-310 | the bucket is the hash modulo the bucket count |
| HashTables.HashTable.Find | pintos-anon/src/lib/kernel/hash.c:131-135 | an equal element exactly when the table has one, although one bucket is searched |
| HashTables.HashTable.Insert | pintos-anon/src/lib/kernel/hash.c:98-110 | adds the element if none is equal, else returns the equal one and changes nothing; the bucket count is ideal afterwards unless allocation failed |
| HashTables.HashTable.Replace | pintos-anon/src/lib/kernel/hash.c:114-127 | the element takes the place of the equal one, which is returned |
| HashTables.HashTable.Delete | pintos-anon/src/lib/kernel/hash.c:144-154 | removes and returns the equal element, or changes nothing |
| HashTables.HashTable.Rehash | pintos-anon/src/lib/kernel/hash.c:351-413 | the same elements, each in its bucket, in the ideal number of buckets, or the same table when allocation fails |
| HashTables.HashIterator.Next | pintos-anon/src/lib/kernel/hash.c:218-235 | steps through the buckets' elements in order and stops behind the last |
| HashTables.VisitAll | pintos-anon/src/lib/kernel/hash.c:182-235 | the iteration idiom visits each element exactly once |
| PageTable.PdeRoundTrip | pintos-anon/src/threads/pte.h:71-81 | a directory entry is present, nonzero and gives back its page table |
| PageTable.WalkAgrees | pintos-anon/src/threads/pte.h:38-104 | the processor's own walk of the two levels translates every user address as the map says: to the physical page, for user code, writable just when the map says so |
| PageTable.PteRoundTrip | pintos-anon/src/threads/pte.h:87-104 | a user entry is present and gives back its frame and writability |
| PageTable.Indices | pintos-anon/src/threads/pte.h:31-39 | two addresses share both indices exactly when they lie in one page |
| PageTable.WriteEntry | pintos-anon/src/userprog/pagedir.c:113-115 | a write to one entry changes no other entry of any table and no directory entry |
| PageTable.NewTableGood | pintos-anon/src/userprog/pagedir.c:69-78 | installing a zeroed page table maps nothing new and keeps the directory well formed |
| PageTable.PageDir.constructor | pintos-anon/src/userprog/pagedir.c:16-23 | a new directory maps no user page, and its kernel half is the initial directory's |
| PageTable.PageDir.LookupPage | pintos-anon/src/userprog/pagedir.c:56-86 | the entry's address, made if asked for and possible, with the map unchanged |
| PageTable.PageDir.SetPage | pintos-anon/src/userprog/pagedir.c:98-119 | one binding is added and no other address is translated differently, in the map and by the processor, for which the page is present, for user code and writable as asked; the kernel's half stays; failure exactly for want of a page for the table |
| PageTable.PageDir.GetPage | pintos-anon/src/userprog/pagedir.c:125-137 | agrees with the map at every offset: the mapped page at the offset asked for; changes nothing |
| PageTable.PageDir.ClearPage | pintos-anon/src/userprog/pagedir.c:143-157 | the page is unmapped and no other translation changes, in the map and for the processor |
| PageTable.PageDir.Destroy | pintos-anon/src/userprog/pagedir.c:27-48 | when the map is injective every page freed is still in use: each frame, each page table and the directory once, and nothing else; no page is read after it is freed and filled, and pages left in use keep their contents |
| InodeIo.WriteAt | pintos-anon/src/filesys/inode.c:257-318 | the flat device gets exactly the transferred bytes at the file's position, for any alignment; none when writes are denied |
| InodeIo.ReadAt | pintos-anon/src/filesys/inode.c:200-250 | the buffer gets exactly those bytes of the file |
| InodeIo.WriteThenRead | pintos-anon/src/filesys/inode.c:200-318 | reading back what was written returns it |
| InodeIo.TransferredMost | pintos-anon/src/filesys/inode.c:268-283 | a transfer moves the most bytes that are asked for and in the file, in whole sectors when there is no bounce buffer |
| InodeIo.ChunkStep | pintos-anon/src/filesys/inode.c:208-246 | the chunks of the loop add up to the whole transfer, also when memory for the bounce buffer is missing |
| InodeIo.SectorPatched | pintos-anon/src/filesys/inode.c:283-310 | rewriting part of one sector is a patch of the flat byte array |
| FileSystem.FileSys.Allocate | pintos-anon/src/filesys/free-map.c:27-41 | succeeds exactly when some group is free and the free map can be written; the first such group is marked, or nothing changed |
| FileSystem.FileSys.Release | pintos-anon/src/filesys/free-map.c:44-50 | the group, all of it marked as the assertion demands, is free again |
| FileSystem.FileSys.InodeCreate | pintos-anon/src/filesys/inode.c:72-106 | succeeds exactly with memory, a free group for the data and a written free map; the data is the first such group, all zeros, and no sector in use is touched |
| FileSystem.ZeroedBytes | pintos-anon/src/filesys/inode.c:93-100 | zeroed data sectors make every byte of the file read zero |
| FileSystem.FileSys.InodeOpen | pintos-anon/src/filesys/inode.c:111-142 | an open inode is shared and counted |
| FileSystem.FileSys.Close | pintos-anon/src/filesys/inode.c:163-186 | the last close of a removed file frees exactly its sectors, all still marked; any other close frees nothing |
| FileSystem.FileSys.Create | pintos-anon/src/filesys/filesys.c:45-59 | succeeds exactly when the resources are there, a sector and a group apart from it are free, and dir_add succeeds; the new file is all zeros, owns only sectors that were free and takes the slot dir_add picks, a slot in use included when reads stop short; every other file keeps its bytes; failure leaves every entry alone and costs the data sectors just when it is dir_add that fails |
| FileSystem.FileSys.Open | pintos-anon/src/filesys/filesys.c:66-77 | succeeds exactly when the entries read have the name, the inode is open or there is memory for it, and there is memory for the file; one more opener |
| FileSystem.FileSys.Remove | pintos-anon/src/filesys/filesys.c:83-91 | clears the first entry of the name among those read; an open file keeps its sectors, one that is not open is freed at once; failure changes nothing |
| FileSystem.Format | pintos-anon/src/filesys/filesys.c:93-103 | a consistent empty file system with its two inodes and exactly their sectors marked, or a panic exactly when the device is too small |
| FileSystem.WriteFile | pintos-anon/src/filesys/inode.c:257-318 | writing to an open file changes exactly the bytes written; every byte of every other live file, and every inode, stays as it was |
| FileSystem.OthersKept | pintos-anon/src/filesys/inode.c:46-54 | a change confined to one live file's data sectors reaches no inode and no byte of another live file |
| FileSystem.Execute | pintos-anon/src/filesys/filesys.c:45-91 | at every point of every run of creates, opens, removes, closes and writes, memory failing anywhere, each call does to names, openers and free sectors what it should, no sector belongs to two live files and every owned sector is marked |
| FileSystem.KeptUntilLastClose | pintos-anon/src/filesys/inode.c:163-186 | from any point of such a run on, a file closed fewer times than it has openers there keeps its inode and all its sectors to itself, removed or not, and holds what the writes to it have made of its contents, whatever else was called |
| Directories.CStringOf | pintos-anon/src/filesys/directory.c:171-175 | a stored name reads back whatever stale bytes follow its null |
| Directories.AddRefines | pintos-anon/src/filesys/directory.c:141-179 | an entry in a free slot adds one binding |
| Directories.AddRefinesIff | pintos-anon/src/filesys/directory.c:141-179 | dir_add refines the map if and only if its reads did not stop short of the name or of a free slot |
| Directories.ShortReadDuplicates | pintos-anon/src/filesys/directory.c:155-169 | a directory and a point of failure where the name ends up twice |
| Directories.AddSucceedsIff | pintos-anon/src/filesys/directory.c:141-179 | with memory for every read dir_add succeeds exactly for a new name of 1 to 14 bytes while a slot is free, and takes the first |
| Directories.RemoveSucceedsIff | pintos-anon/src/filesys/directory.c:184-216 | dir_remove succeeds exactly for a name in use, and clears its first entry |
| Directories.OverwriteLoses | pintos-anon/src/filesys/directory.c:159-175 | writing to the slot where reading stopped drops the binding it held |
| Directories.RemoveRefines | pintos-anon/src/filesys/directory.c:184-216 | clearing an entry removes one binding |
| Directories.InUseCount | pintos-anon/src/filesys/directory.c:91-236 | the slots in use are the names of the map, each once |
| Directories.Dir.Lookup | pintos-anon/src/filesys/directory.c:91-112 | the first matching slot among those read, with its entry |
| Directories.Dir.Add | pintos-anon/src/filesys/directory.c:141-179 | on the bytes of the file: exactly when it succeeds and which slot it fills, for reads that stop anywhere; a failed call changes no complete slot |
| Directories.Dir.Remove | pintos-anon/src/filesys/directory.c:184-216 | on the bytes: exactly when it succeeds; it clears the first slot of that name among those read |
| Directories.Dir.ReadDir | pintos-anon/src/filesys/directory.c:221-236 | the next slot in use among those memory lasts for, none skipped |
| Directories.ListAll | pintos-anon/src/filesys/directory.c:221-236 | reading from the start lists each name in use once, in slot order, up to where memory lasts |
| Directories.OpRefinesIff | pintos-anon/src/filesys/directory.c:141-216 | a successful add or remove refines its effect on a map if and only if it is safe: no add stopped short of the name or of a free slot |
| Directories.MemoryIsSafe | pintos-anon/src/filesys/directory.c:159-169 | with memory for every read an add is safe |
| Directories.RunRefinesIff | pintos-anon/src/filesys/directory.c:91-236 | a run of calls refines the same run on a finite map throughout if and only if every add in it is safe |
| Directories.Execute | pintos-anon/src/filesys/directory.c:91-236 | the calls on the bytes do to the slots what that run says |
| NumberText.StoredValue | pintos-anon/src/lib/stdio.c:501-524 | whatever the flags and precision, the buffer's digits denote the value |
| NumberText.StoreNumber | pintos-anon/src/lib/stdio.c:501-524 | every write is within the 64-byte buffer, for every 64-bit value, all flags and any precision |
| NumberText.CommasPartGroups | pintos-anon/src/lib/stdio.c:506-513 | counted from the right, every fourth character of a grouped number (every fifth in hexadecimal) is a comma, no other is, and none comes first |
| NumberText.GroupingAddsCommas | pintos-anon/src/lib/stdio.c:506-513 | without its commas a grouped number is the number not grouped |
| NumberText.RenderLaw | pintos-anon/src/lib/stdio.c:482-546 | a conversion is the sign, the 0x or 0X and the digits, and fills its width with spaces in front, zeros behind the sign or spaces behind, as the flags say |
| NumberText.DigitsLaw | pintos-anon/src/lib/stdio.c:512-524 | there are as many digits as the precision asks for, up to 63, and an octal number with # begins with a zero |
| NumberText.Sink.Put | pintos-anon/src/lib/stdio.c:44-52 | at most max_length characters are stored, all are counted |
| NumberText.Sink.FormatInteger | pintos-anon/src/lib/stdio.c:469-547 | the conversion's characters, in order, are added to the output and nothing outside the sink's part of the buffer changes |
| NumberText.Snprintf | pintos-anon/src/lib/stdio.c:25-42 | a truncated, always terminated copy of the text, and its full length |
| NumberText.DecimalText | pintos-anon/src/lib/stdio.c:469-547 | `%d` prints an optional minus and digits that denote the magnitude |
| NumberText.OctalText | pintos-anon/src/lib/stdio.c:469-547 | zero-padded octal fills its width exactly and denotes the value |
| NumberText.Atoi | pintos-anon/src/lib/stdlib.c:9-41 | the value of the digits behind white space and sign, wherever an int can hold it, INT_MIN included |
| NumberText.AtoiOfDecimal | pintos-anon/src/lib/stdlib.c:9-41 | atoi finds in the text of `%d` exactly the sign and digits of the number |
| NumberText.PrintThenRead | pintos-anon/src/lib/stdlib.c:9-41 | printing and reading returns every 32-bit int |
| Ustar.StripSafe | pintos-anon/src/lib/ustar.c:65-73 | a stripped name is not absolute, does not start with "./" or "../", is not empty or "..", and is "." or a suffix of the original |
| Ustar.StripLaws | pintos-anon/src/lib/ustar.c:65-73 | stripping drops "/", "./" and "../" in front, as often as they come, and nothing else |
| Ustar.StripTwice | pintos-anon/src/lib/ustar.c:65-73 | stripping is idempotent |
| Ustar.StripPrefixes | pintos-anon/src/lib/ustar.c:65-73 | the loop terminates with the stripped name |
| Ustar.CalculateChksum | pintos-anon/src/lib/ustar.c:36-54 | the plain sum of the bytes of the header with positions 148 to 155 replaced by spaces |
| Ustar.NumberFields | pintos-anon/src/lib/ustar.c:101-108 | in a made header the numeric fields read as permissions 644 or 755, owner and group 0, the size, and the fixed time |
| Ustar.SumChanges | pintos-anon/src/lib/ustar.c:36-54 | a change of one byte outside that field changes the sum |
| Ustar.ParseOctalField | pintos-anon/src/lib/ustar.c:129-162 | accepts exactly digits ended by a space or null inside the field whose value fits 32 bits, and returns that value |
| Ustar.OctalRoundTrip | pintos-anon/src/lib/ustar.c:129-162 | a field printed in zero-padded octal parses to the same value |
| Ustar.MakeHeader | pintos-anon/src/lib/ustar.c:82-118 | every one of the 512 bytes, the checksum over them included, or nothing when the stripped name is too long |
| Ustar.ParseHeader | pintos-anon/src/lib/ustar.c:181-227 | the first applicable error, the end of the archive, or the file's name, type and size |
| Ustar.MakeThenParse | pintos-anon/src/lib/ustar.c:82-227 | parsing a made header returns the stripped name, the type, and the size of a regular file; a negative size is refused |
| Ustar.ChangeDetected | pintos-anon/src/lib/ustar.c:181-227 | any valid header with one byte changed outside the checksum field is refused |
| Ustar.RoundTrip | pintos-anon/src/lib/ustar.c:82-227 | make and parse in sequence, on the buffer itself |

## Left out

- IntrusiveList.List.Splice: with SpliceBack and SpliceFrom covers every target outside the block; a target inside it, which list.c corrupts the list on, is excluded.
- Malloc.Heap.Realloc: memory is a map from addresses to bytes; arena headers and free-list links are modelled beside it, not as bytes in it.
- FileSystem.FileSys.Create: the root directory is its slots, as Directories proves them of the bytes, and inodes are a map from sectors; the device holds the data of ordinary files, so nothing is said of the bytes of the two system files. The directory's own open count, back at its old value after each call, is not tracked.
- NumberText.Atoi: says nothing about numbers an int cannot hold, where the C code overflows.
- KernelSteps.AcquireLoopSettles: a donation to a holder that sleeps on the alarm list is excluded; the code would unlink a stale list element (SleepingHolder reaches such a state).
- KernelSteps.BoostKeepsInv: excludes the same.
- KernelEffects.ContendedAcquire: excludes the same.
- KernelPriorities.ContendedKeepsCover: excludes the same.
- KernelPriorities.StepCovers: speaks of enabled steps, so excludes the same.
- KernelPriorities.RunCovers: speaks of enabled steps, so excludes the same.
- KernelPriorities.RunBacked: speaks of enabled steps, so excludes the same.
- KernelSteps.SetPrioritySettles: a base priority raised to a live donation or above it is excluded; it would break the order of the record, exactly as Donation.SetBaseKeepsOrderIff says.
- KernelEffects.SetPriorityEffect: excludes the same.
- KernelPriorities.SetPriorityCovers: excludes the same.
- KernelEffects.ExitEffect: excludes a thread that exits while it holds a lock, as ExitSettles does.
- Donation.ThreadPriority.Donate: a 31st donation, which the code would write past the array, is excluded; KernelSlots.SlotsLastIff says when none comes.
- Bitmaps.Bitmap.constructor: memory for the bits is there; the null return without it is left out.
- HashTables.HashTable.constructor: memory for the buckets is there; the false return without it is left out.
- PageTable.PageDir.constructor: the page for the directory is there; the null return without it is left out.
- Directories.Execute: nobody denies writes to the directory's inode while the calls run.
- KernelSteps.ExitSettles: a thread that exits while it holds a lock is excluded; the lock would point to freed memory.
- KernelSteps.RunSafe: safety only, no liveness; a thread that has to yield after interrupts are on again may take other steps first, so the runs are a superset of the kernel's.
- KernelSteps.StepSettles: the steps are functions on a state value; the linked lists and donation arrays that the code updates in place are modelled in place by IntrusiveList and Donation, and appear here as the sequences those refine.
- PageTable.PageDir.SetPage: the check against the amount of physical memory and the TLB flush are not modelled.
- Condition variables, lock_try_acquire, sema_try_down, and sema_up called from an interrupt handler.
- The order of semaphore waiters while the multi-level feedback queue is on, where it is not maintained.
- The order of all_list, and thread names, stacks, context switches and page reclamation.
- calloc, and the filling of freed pages in PageAllocator (PageTable models it).
- list_reverse, list_unique, list_max and list_min, which would add easy members.
- hash_clear, hash_destroy, hash_apply and the FNV hash functions; the hash is any function that agrees with the comparison.
- Dirty and accessed bits of page table entries.
- inode_deny_write and inode_allow_write beyond the effect of their counter on writes; file positions; inode_reopen; the free map file's own contents.
- Parsing of printf formats, `%s`, `%c`, `%p` and the console.
- Device drivers, boot code, interrupts at the hardware level, system calls, process loading and the user library.

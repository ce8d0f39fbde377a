# A verified model of the simulator

The simulator runs several CPU threads and a loader thread in lockstep with a timer, schedules processes with a
multi-level ready queue, and gives every process a paged memory with a region allocator on top.  This project
models those four parts in Dafny and proves what they keep over whole runs.

| file | what it models |
|---|---|
| `Common.dfy` | declarations that several modules share |
| `Barrier.dfy` | `src/timer.c`: the timer and any number of devices, one mutex operation, flag access or signal per step, spurious wake-ups included |
| `Sched.dfy`, `Mlq.dfy` | `src/sched.c`, `src/queue.c`: the 140 bounded arrays, as values and as a class with the source's loops; the reference is one line of processes in order of arrival |
| `Os.dfy`, `Turns.dfy`, `Progress.dfy`, `Shutdown.dfy` | `src/os.c`: the CPU and loader loops as state machines over the barrier and the queues, with a log of what they do; whose turn it is, that every thread moves on, how the simulation ends |
| `Bits.dfy`, `Pte.dfy` | `include/bitops.h`, `include/mm.h`, entry setters of `src/mm.c`: 32-bit words, fields, page table entries, addresses |
| `Regions.dfy` | `src/libmem.c`, `src/mm-vm.c`: the free-region list, the symbol table, the break and the limit of one process |
| `Paging.dfy`, `Refinement.dfy`, `Runs.dfy` | RAM, swap and the page tables of any number of processes on values; the invariant, the proof that paged memory is a flat memory per process, and what whole runs show: order of replacement, swap slots, heaps, answers of reads and writes |
| `Eviction.dfy` | concrete runs: an evicted page is read wrongly; a resident page is mapped again and listed twice |
| `Memphy.dfy`, `Mm.dfy`, `Libmem.dfy` | the same memory manager as classes that change bytes, packed entries and lists in place, each method proved to be the step of the value model |

How the parts hang together: `Os` runs over `Barrier` and `Sched`; `Turns` shows that the queues of a run always hold
the line of `Sched` that its log describes; `Mlq` implements `Sched`; `Paging` uses
`Regions` and the decoded entries of `Pte`; `Refinement` and `Runs` prove the results over runs of `Paging`, and
`Runs.HeapsAreRegionRuns` carries those of `Regions` over to them; `Libmem` shows
that the in-place code of `Mm` and `Memphy` takes exactly the steps of `Paging`, so a history of library calls
that do not overlap in time is a run in the sense of `Refinement`.

Where the code does not do what one would expect, the model follows the code:

- An evicted page keeps its present bit, so it is never faulted back in and its frame number is read from the low
  bits of the swap slot number.  `Eviction.EvictedReadIsWrong` gives a run that reads a wrong byte;
  `Refinement.ReadsOwnPageIffResident` and `Refinement.WriteLandsIffResident` say exactly which accesses reach
  their page, and `Refinement.EvictedRead` and `Refinement.EvictedWriteGoesAstray` what the others reach.  Tables,
  lists, owners and slots survive such accesses, so every result about them holds for runs that make them; only the
  refinement to a flat memory asks that no evicted page is written.
- The limit of the area is raised before the pages are mapped.  A page whose mapping failed, like one beyond the
  limit, is filled from swap slot 0 when it is touched (`Refinement.FaultReadsSlotZero`), which from the first fault on holds the page that
  the first fault moved out (`Refinement.FirstFaultCopiesVictim`, `Refinement.SlotZeroFrozen`).
- The break moves twice when the area grows, so a region may lie beyond the limit
  (`Regions.RegionBelowLimitIff`, `Regions.SecondRequestBeyondLimit`).
  Accesses beyond the limit are ordinary operations of the model.  What does harm is a later growth that maps a page
  which is resident by then: the list names it twice (`Eviction.MappedTwiceIsQueuedTwice`), and exactly then
  (`Refinement.AllocKeepsListIff`, `Refinement.FaultThenGrowIff`).
- A search of the free list loses the exact fits it passes before it stops at a larger region
  (`Regions.CarveTakes`).
- A full ready queue silently drops the process (`Sched.PutRefinesLine`); with at most ten processes this cannot
  happen (`Os.RoomForOne`).
- The slot counters of `get_mlq_proc` influence nothing (`Mlq.ReadyQueues.GetProc`).

Assumptions: library calls on memory are atomic.  In the source only `__alloc` holds `mmvm_lock`; `__free`,
`pg_getval` and `pg_setval` run without it (the lock calls at src/libmem.c:255, 461 and 514 are commented out), so
calls of two CPUs could interleave inside a fault, and such interleavings are not modelled.  Freshly allocated
memory is zero where the source reads it before writing it; identifiers of regions are not 30 (the bounds check
admits it, the table does not have it); allocation sizes are positive, since a search for size 0 need not end
(`Regions.ZeroSearchEndsIff`); addresses lie within the 22-bit bus; RAM has at most 2^21 bytes and swap at most
2^29, the sizes the entry fields can name.

## Model

| member | source | states |
|---|---|---|
| Barrier.StepKeepsInv | src/timer.c:21-93 | Every operation of every thread keeps the invariant: each mutex is held by the thread at the matching location, each flag agrees with its owner's location, and no one sleeps unnoticed. |
| Barrier.RunKeepsInv | src/timer.c:21-93 | The invariant holds after every interleaving from a state that has it. |
| Barrier.ClockWaitsForDevices | src/timer.c:29-53 | In every interleaving the clock moves by one, and only while each device that has not set `fsh` waits in `next_slot` with `done` set. |
| Barrier.SlotsBegun | src/timer.c:61-81 | A device that has not detached has begun `_time` or `_time`+1 slots, and exactly `_time` while it works inside one. |
| Barrier.SleepersAreAwaited | src/timer.c:30-36 | No lost wake-up: the timer asleep on a device means neither flag is set or the signal is about to be sent; a device asleep means `done` is set or its signal is about to be sent. |
| Barrier.TimerLeavesLast | src/timer.c:54-56 | The timer leaves its loop only after every device has set `fsh`. |
| Barrier.QuiescentMeansDevicesWork | src/timer.c:61-77 | No deadlock: when no protocol step is enabled, some device is inside its slot and the timer sleeps on a working device, or all devices have detached and the timer has exited. |
| Barrier.InternalRunsAreShort | src/timer.c:21-93 | No livelock: without new calls the protocol takes at most 40n+15 steps. |
| Barrier.EverySlotEnds | src/timer.c:28-57 | Once every live device has called `next_slot`, every interleaving rests with the clock advanced by exactly one and all of them back in a slot, or with the timer gone if none is live. |
| Barrier.ComesToRest | src/timer.c:28-57 | From every state with the invariant a state of rest is reached by protocol steps alone. |
| Barrier.ProtocolFrame | src/timer.c:21-93 | The protocol by itself never takes a device out of its slot, never counts a slot and never turns the clock back. |
| Sched.GetRefinesLine | src/sched.c:62-84 | Scanning the levels and selecting on one level removes the minimum by (prio, priority, arrival) of the whole line, and the arrays still represent the line. |
| Sched.PutRefinesLine | src/queue.c:11-17 | Enqueueing appends to the line if and only if the level has fewer than 10 processes; otherwise nothing changes and the process is lost. |
| Sched.LevelsRefineLine | src/sched.c:49-105 | For every history without overflow the 140 arrays and the one line return the same processes. |
| Sched.NextIsUnique | src/queue.c:46-55 | The next process of a line is unique: ties go to the earlier arrival. |
| Sched.NextIsHighest | src/queue.c:46-55 | Within its level the next process of the line is the one the selection loop ends on. |
| Sched.GetServesInTurn | src/sched.c:62-84 | One get returns the process in question or moves it one place forward among its equals. |
| Sched.RoundRobin | src/sched.c:62-105 | While nothing smaller is ready or arrives, the process with k equals in front is returned by get number k+1, whatever puts and adds interleave. |
| Sched.RoundRobinOnLevels | src/sched.c:62-105 | The same on the 140 arrays. |
| Mlq.ReadyQueues.constructor | src/sched.c:28-40 | All queues start empty. |
| Mlq.ReadyQueues.EnqueueAt | src/queue.c:11-17 | Appends on one level, or does nothing when it is full; other levels are unchanged. |
| Mlq.ReadyQueues.Select | src/queue.c:47-55 | The selection loop ends on the first process of least priority value. |
| Mlq.ReadyQueues.ShiftLeft | src/queue.c:56-58 | The shift loop removes exactly the selected position and leaves other levels alone. |
| Mlq.ReadyQueues.DequeueAt | src/queue.c:46-60 | Returns the selected process and leaves the level without it. |
| Mlq.ReadyQueues.GetProc | src/sched.c:49-93 | Returns and leaves what the specification says of the queues alone, whatever the slot counters hold. |
| Mlq.ReadyQueues.PutProc | src/sched.c:95-105 | put and add enqueue on the level of the process. |
| Os.StepKeepsInv | src/os.c:47-141 | Every step of loader, CPUs, timer and barrier keeps the invariant over queues, places, barrier and log. |
| Os.DeterministicAdmission | src/os.c:114-135 | In every interleaving process p is admitted in slot max(start[p], slot of p-1 plus 1) and in no other. |
| Os.ProcessConservation | src/os.c:53-98 | With any number of CPUs and at most 10 processes every admitted process is queued, held by a CPU, or finished, and only one of the three. |
| Os.NoProcessTwice | src/os.c:53-98 | No process is held by two CPUs and none is queued twice, for any number of processes. |
| Os.RoomForOne | src/queue.c:14-14 | With at most 10 processes a process outside the queues always finds room on its level. |
| Os.RunDropsNone | src/queue.c:11-17 | With at most 10 processes no run ever drops one from a ready queue. |
| Turns.QueuesHoldTheLine | src/os.c:54-133 | In every interleaving each of the 140 queues holds, in order, the processes of its prio in the line that the log describes (admission and put-back join at the end, a hand-over leaves), and every hand-over went to the first of that line by (prio, priority, arrival). |
| Turns.RoundRobinInRuns | src/os.c:54-98 | In every interleaving, a process with k equals in front, while nobody smaller waits or joins, waits until hand-over number k+1, which is its own. |
| Progress.CpuMovesOn | src/os.c:53-98 | In every interleaving a CPU takes at most five steps of its own for each call into the barrier. |
| Progress.LoaderMovesOn | src/os.c:114-139 | The loader takes at most three. |
| Progress.AdmittedOnTime | src/os.c:114-135 | Once the loader has begun a slot later than max(start[p], slot of p-1 plus 1), or has left, process p has been admitted, in exactly that slot. |
| Progress.FetchFindsIffReady | src/os.c:55-76 | A CPU that asks for a process gets one if and only if one is ready. |
| Progress.DoubtIsResolved | src/os.c:79-87 | A CPU that found nothing detaches if the loader has raised its flag, and otherwise waits for the next slot. |
| Progress.WorksInEverySlot | src/os.c:94-97 | A CPU that holds a process with any code ends no slot without having executed an instruction of it in that slot. |
| Progress.StopsAfterServing | src/os.c:55-82 | A CPU stops only if the last thing it did was to finish or put back a process; one that was never handed a process never stops. |
| Shutdown.NobodyStranded | src/os.c:54-98 | With at least one CPU, once every CPU has stopped all processes have been admitted and each has finished, unless a full queue dropped it; with at most 10 processes each has finished. |
| Shutdown.StepLooks | src/os.c:55-86 | In every reachable state with a ready process some CPU is going to call get_proc again. |
| Shutdown.SlotHoldsClock | src/timer.c:29-45 | The clock stands still while a device is inside its slot. |
| Os.QuantumDiscipline | src/os.c:63-98 | With a time slot of at least 1 every dispatch executes exactly time_slot instructions unless the process finishes first: no instruction is executed once the quantum is used up, and a process is put back exactly after time_slot instructions with instructions left (with a smaller slot it never is). It finishes having executed exactly its code size and is never heard of again. |
| Os.WithinQuantum | src/os.c:88-96 | Along every log no dispatch has executed more than time_slot instructions. |
| Os.OneInstructionPerSlot | src/os.c:94-97 | At most one instruction per CPU per slot and per process per slot. |
| Bits.GenMaskBits | include/bitops.h:27-28 | GENMASK(h, l) has exactly the bits l to h. |
| Bits.SetValField | include/mm.h:75-75 | SETVAL writes the low bits of the value into the field and keeps every other bit. |
| Bits.SetThenGet | include/mm.h:75-76 | GETVAL after SETVAL returns the value if and only if it fits the field, for every field and every old word. |
| Bits.OtherFieldKept | include/mm.h:75-75 | Setting a field keeps every disjoint field. |
| Bits.SetClrBit | include/mm.h:72-73 | SETBIT and CLRBIT change exactly one bit. |
| Bits.NBitsTop | include/bitops.h:30-35 | NBITS is the position of the highest set bit of every nonzero word. |
| Bits.NBitsIsLog2 | include/bitops.h:30-35 | NBITS is floor(log2 n) for every nonzero 32-bit n. |
| Pte.EntryRoundTrip | src/mm.c:56-80 | For every old entry, pte_set_fpn is read back as that frame if and only if it is below 8192, and pte_set_swap as that type and slot if and only if the type is below 32 and the slot below 2^21. |
| Pte.SetFpnDecodes | src/mm.c:72-80 | pte_set_fpn makes the entry resident and keeps bits 13 to 29. |
| Pte.SetSwapDecodes | src/mm.c:56-65 | pte_set_swap makes the entry present and swapped for every type and slot, each field holds its value if and only if it fits, and bits 26 to 29 are kept. |
| Pte.ReadsAgree | src/libmem.c:290-298 | What pg_getpage reads from an entry is what the decoded entry says. |
| Pte.EvictedFrame | include/mm.h:88-94 | The frame number read from a swapped entry is made of the low bits of its slot number and its swap type. |
| Pte.LayoutConstants | include/mm.h:55-68 | NBITS of the page size and of the largest RAM and swap are 8, 21 and 29. |
| Pte.AddressFields | include/mm.h:79-88 | Page number and offset are quotient and remainder by 256, the former modulo 2^14. |
| Pte.AddressRoundTrip | include/mm.h:79-88 | Every address below 2^22 splits into page and offset and rejoins. |
| Regions.CarveIsChoice | src/libmem.c:626-657 | The walk that cuts and unlinks in place returns a prefix of the first larger region, or else the last exact fit, and leaves the list described by recursion. |
| Regions.FoundIffFits | src/libmem.c:626-657 | The search succeeds if and only if some free region is long enough, and returns exactly the requested length. |
| Regions.WalkIterates | src/libmem.c:626-654 | For positive sizes the loop body, iterated, does what the walk says. |
| Regions.ZeroSearchEndsIff | src/libmem.c:626-654 | A search for size 0 ends if and only if the list is empty, holds a region with an address, or has a last region of negative length; on the list a process starts with it does not end. |
| Regions.CarveTakes | src/libmem.c:632-649 | An address stays free if and only if it was free and lies neither in the returned block nor in an exact fit passed on the way. |
| Regions.AllocKeepsRegions | src/libmem.c:72-133 | An allocation keeps live and free regions pairwise disjoint and below the break. |
| Regions.ReleaseKeepsRegions | src/libmem.c:184-218 | So does a free. |
| Regions.DoubleFree | src/libmem.c:202-213 | Freeing an identifier again fails and changes nothing more. |
| Regions.AllocSymbol | src/libmem.c:89-133 | After an allocation the symbol names a region of exactly the requested length, which was free or starts at the old break, and no other symbol has changed. |
| Regions.AllocFrees | src/libmem.c:89-133 | After it an address is free if and only if it was free and lies neither in the new region nor in an exact fit passed by the search. |
| Regions.ReleaseFrees | src/libmem.c:184-218 | A free makes exactly the addresses of the region free, clears that symbol alone, and succeeds if and only if the region was not empty. |
| Regions.FreedIsReused | src/libmem.c:32-49 | A request that fits into the region just freed never grows the area, and a shorter one gets its prefix. |
| Regions.SymbolSizes | src/libmem.c:72-218 | After every run each symbol names a region of the size last asked for and not freed since, or an empty one. |
| Regions.OverlapsIffMeets | src/mm-vm.c:92-117 | The overlap check refuses an area if and only if the limit is not 0 and the area meets the closed interval from 0 to the limit. |
| Regions.RegionSafety | src/libmem.c:32-218 | After any sequence of allocations and frees, double frees and reused identifiers included, all live and free regions are pairwise disjoint and below the break. |
| Regions.LimitAccounting | src/libmem.c:105-133 | In every run the limit is the sum of the page-rounded sizes of the requests that missed the free list, and the break exceeds it by the sum of their raw sizes. |
| Regions.MissGrows | src/mm-vm.c:125-163 | Under that accounting a miss always grows the area: the overlap check never refuses. |
| Regions.MappedOnce | src/mm-vm.c:156-160 | No page number is passed to mapping twice in a run. |
| Regions.RegionBelowLimitIff | src/libmem.c:123-128 | A region taken from the break ends below the limit if and only if the slack of its last page covers the raw sizes of all earlier misses. |
| Regions.WholePagesBeyondLimit | src/libmem.c:123-128 | After a first miss, every request of whole pages that misses gets a region that ends beyond the limit. |
| Regions.SecondRequestBeyondLimit | src/libmem.c:111-128 | Already the second request of a process, if it is for whole pages, gets a region that ends beyond the limit. |
| Paging.StepKeepsInv | src/libmem.c:281-431 | Every allowed operation of every process, accesses beyond the limit and to evicted pages included, keeps the machine invariant: free lists, owners of frames and slots, page tables, FIFO lists. |
| Paging.StepKeepsZero | src/libmem.c:401-431 | Free frames stay zeroed as long as no evicted page is written. |
| Paging.FaultReady | src/libmem.c:292-310 | In a reachable state an access to an absent page finds a victim in RAM, a slot, and slot 0. |
| Paging.TouchedPage | src/libmem.c:281-353 | After an allowed access the page is in a frame of its own, unless it was evicted, or absent in a process without resident pages; the frame number read from a present entry always exists. |
| Refinement.FaultKeepsContents | src/libmem.c:292-347 | In every reachable state the fault branch keeps the contents of every mapped page of every process, moves the victim to the slot its entry now names, and gives the target the contents of its recorded slot if that slot is not free. |
| Refinement.StepPages | src/libmem.c:361-431 | What one operation of any process does to any page: a page that an allocation maps comes from the free list and holds what its frame held; another mapped page changes only by a write through an entry that names its frame, which changes one byte; an unmapped page becomes mapped only by an access of its process, and is filled from slot 0. |
| Refinement.HitsItsOwn | src/libmem.c:401-431 | A write to a page that has not been evicted changes that page and no other page of any process. |
| Refinement.PagesAreFlat | src/libmem.c:361-431 | After every run without a write to an evicted page, each byte of a never-faulted page, resident or evicted, is the last byte its own process wrote there, or 0. |
| Refinement.FaultedPagesAreFlat | src/libmem.c:292-347 | From its fault on, as long as no evicted page is written and no allocation maps the page again, each byte of a faulted page, resident or evicted, is the last byte its process wrote there since, or that of slot 0. |
| Refinement.ReadsLastWrite | src/libmem.c:361-393 | After such a run a read of a resident never-faulted page returns the last byte the same process wrote at that address, or 0, and changes nothing. |
| Refinement.ReadsOwnPageIffResident | src/libmem.c:292-373 | A read of a mapped page returns the byte of that page, whatever it is, if and only if the page is resident. |
| Refinement.EvictedRead | src/libmem.c:350-373 | A read of an evicted page returns a byte of frame 32 * slot mod 8192 and changes nothing. |
| Refinement.WriteLandsIffResident | src/libmem.c:292-413 | A write that changes a byte of a mapped page reaches the page if and only if the page is resident. |
| Refinement.EvictedWriteGoesAstray | src/libmem.c:350-413 | A write to an evicted page changes the page of any process that owns frame 32 * slot mod 8192. |
| Refinement.FaultReadsSlotZero | src/libmem.c:298-323 | A page that was never mapped is filled from swap slot 0. |
| Refinement.FirstFaultCopiesVictim | src/libmem.c:303-323 | The first fault of a run gives the target a copy of the victim's page. |
| Refinement.SlotZeroFrozen | src/libmem.c:308-323 | From then on, whatever the run does, slot 0 never changes and is never free again. |
| Refinement.FailedAllocation | src/mm.c:228-246 | An allocation that finds too few frames uses up the free list, changes no page table, no list and no byte, and returns 0 all the same. |
| Refinement.RunLosesNothing | src/mm.c:228-246 | A run loses no frame if and only if every allocation that failed found the free list empty. |
| Refinement.FrameOwnership | src/mm-memphy.c:143-159 | After every run the free list has no duplicates and resident entries of all processes name distinct frames in range and off the list; every frame is free or named if and only if every allocation that failed found the free list empty. |
| Runs.FifoReplacement | src/libmem.c:570-601 | Over every run the pages of a process turn from resident to evicted in the order in which they entered (by a mapping allocation, in ascending order, or by a faulting access), and the list holds exactly its resident pages, each once, youngest first. |
| Runs.SwapFillsInOrder | src/mm-memphy.c:143-159 | After k evictions, of whatever processes, the free swap slots are those from k on, in ascending order. |
| Runs.EvictedToSlot | src/libmem.c:303-335 | The page evicted after k others gets the entry for slot k. |
| Runs.HeapsAreRegionRuns | src/libmem.c:72-218 | The heap of a process after a run is what its own allocations and frees make of an empty heap, whatever other processes and memory accesses do. |
| Runs.FreeAnswers | src/libmem.c:184-218 | After every run a free returns 0 if the last request for the identifier has not been freed since, and -1 otherwise. |
| Runs.ReadAnswers | src/libmem.c:361-393 | Every allowed read, faulting ones included: the byte of the page if it is resident afterwards; a byte of frame 32 * slot mod 8192 if it is evicted; -1, with nothing changed, if it is still unmapped, and then the process has no resident page. |
| Runs.WriteAnswers | src/libmem.c:401-431 | A write returns 0 if and only if its page is mapped afterwards, and -1 only with nothing changed. |
| Runs.FaultedReads | src/libmem.c:281-393 | Over runs: a read of a faulted page, the faulting read included, returns the last byte its process wrote there since the fault, or that of slot 0, as long as the page is resident. |
| Refinement.GrowKeepsListIff | src/mm.c:168-200 | Mapping keeps the list free of duplicates if and only if it maps no page that is in the list. |
| Refinement.FaultThenGrowIff | src/libmem.c:292-346 | A fault and then a growth keep the list free of duplicates if and only if the growth leaves out the faulted page. |
| Refinement.AllocKeepsListIff | src/libmem.c:105-133 | In every reachable state an allocation keeps the list free of duplicates if and only if it maps no resident page. |
| Refinement.MappingShape | src/mm.c:168-204 | A successful request binds page start+i to the (n-1-i)-th frame popped, and changes nothing else. |
| Eviction.EvictedReadIsWrong | src/mm.c:56-65 | A legal run of five operations, none of which writes to an evicted page, after which the process may read where it last wrote 7, and reads 9. |
| Eviction.MappedTwiceIsQueuedTwice | src/libmem.c:292-346 | A legal run that faults in a page beyond the limit, after which the next request is not allowed: it maps that page again and the list names it twice. |
| Memphy.MemphyStruct.constructor | src/mm-memphy.c:198-214 | Zeroed storage, all frames free in ascending order. |
| Memphy.MemphyStruct.Format | src/mm-memphy.c:115-141 | The loop builds the list 0, 1, ..., n-1. |
| Memphy.MemphyStruct.GetFreeFp | src/mm-memphy.c:143-159 | Pops the head, or fails and changes nothing. |
| Memphy.MemphyStruct.PutFreeFp | src/mm-memphy.c:182-193 | Pushes on the head. |
| Memphy.StoreInFrame | src/mm-memphy.c:98-109 | One byte of storage is one byte of one frame and of no other. |
| Memphy.SwapCpPage | src/mm.c:299-315 | The byte loop makes the destination frame equal to the source frame and changes no other frame. |
| Mm.AllocPagesRange | src/mm.c:218-249 | Pops the frames in order onto the list, or fails with the free list used up. |
| Mm.MmStruct.constructor | src/mm.c:322-346 | An empty page table, one empty free region, an empty area. |
| Mm.MmStruct.SetEntryFpn | src/mm.c:72-80 | The decoded table changes at one page, to resident. |
| Mm.MmStruct.SetEntrySwap | src/mm.c:56-65 | The decoded table changes at one page, to evicted with the given type and slot. |
| Mm.MmStruct.FindVictimPage | src/libmem.c:570-601 | Unlinks and returns the last node, the page that entered first. |
| Mm.MmStruct.VmapPageRange | src/mm.c:136-209 | Maps as many pages as there are frames, in order, and returns a region of exactly that many pages. |
| Mm.MmStruct.VmMapRam | src/mm.c:260-291 | All the pages are mapped, or none and the popped frames are gone. |
| Mm.MmStruct.IncVmaLimit | src/mm-vm.c:125-163 | Break, limit and pages change as the specification of growth says, also when the overlap check refuses. |
| Mm.MmStruct.GetFreeVmrgArea | src/libmem.c:609-658 | The list walk terminates and leaves and returns what the specification of the search says. |
| Mm.MmStruct.Alloc | src/libmem.c:72-133 | Symbol table, free list, break, limit, page table and frames change as specified; a bad identifier is refused. |
| Mm.MmStruct.Free | src/libmem.c:184-218 | The region goes to the head of the free list unless it is empty; the symbol is cleared either way. |
| Mm.MmStruct.PgGetPage | src/libmem.c:281-353 | A fault swaps victim and target as specified, a present page is left alone, and the frame number returned is that of the entry. |
| Mm.MmStruct.PgGetVal | src/libmem.c:361-393 | Returns the byte at the offset in the frame of the page. |
| Mm.MmStruct.PgSetVal | src/libmem.c:401-431 | Changes that byte and no other. |
| Libmem.Memory.Load | src/os.c:123-127 | A new process gets an empty memory; all other memories are untouched. |
| Libmem.Memory.LibAlloc | src/libmem.c:225-245 | If the objects show a machine with the invariant, the in-place allocation leaves them showing its next state: the allocation step, with all other processes untouched. |
| Libmem.Memory.LibFree | src/libmem.c:253-272 | The same for a free. |
| Libmem.Memory.Read | src/libmem.c:361-393 | The same for reading a byte, result included, of an evicted page as well. |
| Libmem.Memory.Write | src/libmem.c:401-431 | The same for writing a byte, to an evicted page as well. |

## Left out

- Paging.StepKeepsInv: an allocation that maps a resident page again is not a step of the machine (it breaks the list, see `Refinement.AllocKeepsListIff`), nor is an access through an evicted entry whose frame number does not exist, where the source leaves its storage.
- Mm.MmStruct.PgGetPage: a fault with a victim but without a free swap slot is not modelled; the source goes on with an uninitialised slot number.
- Refinement.PagesAreFlat: says nothing of a page that was faulted in after its mapping failed (that is `Refinement.FaultedPagesAreFlat`), nor of runs that write to an evicted page (which page that changes is stated by `Refinement.StepPages`).
- Refinement.WriteLandsIffResident: like `Refinement.ReadsOwnPageIffResident`, requires that the frame number read from the entry exists in RAM; otherwise the source accesses memory outside its storage.
- Memory accesses outside the storage array: the value model answers -1 where a frame number outside RAM would be used; no allowed operation reaches that (`Paging.TouchedPage`).
- Mm.MmStruct.Alloc: does not model the address written through the last argument, which the source leaves unset when the area grows.
- Barrier.EverySlotEnds: promises nothing about how long a device stays in its slot, and spurious wake-ups do not count as progress.
- Shutdown.NobodyStranded: does not say that every CPU stops; a CPU that finds nothing at the top of its loop never checks the loader's flag.
- Reading `_time` and the `done` flag of the loader without a lock is modelled as an atomic read; so are the queue operations, which hold the queue lock.
- Creation and teardown of the timer and its device list: all devices are attached at the start, as `attach_event` demands.
- Wrap-around of addresses, sizes and the slot counter at 32 or 64 bits: integers are unbounded, limits and addresses stay within the 22-bit bus, where the page number of a larger address would wrap.
- Requests of size 0 and identifier 30: the search for size 0 ends only on the lists named in `Regions.ZeroSearchEndsIff`, and the table has 30 entries.
- Linked lists are sequences; nodes, `malloc` and `free` are not modelled.
- Translating a region and an offset into an address (`libread`, `libwrite`): the offset is not checked in the source, so the model starts from addresses.
- Memory area 1 and searching among several areas: the library always passes area 0.
- `sys_killall` and the running list, the other system calls, raw RAM access through them, and the instruction plumbing around `run`.
- Sequential devices, `free_pcb_memph`, `init_pte`, the dump and print functions, the configuration and program loader, the scheduler without levels: not used in the build, output only, or parsing.

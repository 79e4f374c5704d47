# Verified core of the HailOS kernel

Dafny models of the hardest parts of the kernel, with proofs over every input, every interleaving or every run.
`dafny verify dfyconfig.toml` checks all of it. Nothing was executed; everything below is a statement about the model.

- **Ticket spin lock** (`TicketLock*.dfy`). Each atomic instruction of Lock, TryLock and Unlock is one step of an
  interleaving machine with two wrapping 32-bit counters. A history that counts without wrapping runs beside it.
  Main result: with at least two threads, mutual exclusion holds in all runs in which no TryLock lasts longer than
  `bound` tickets **if and only if** `threads + bound <= 2^32`. Ticket order, bounded bypass, the exact set of
  outstanding tickets and the exact answer of TryLock follow for all runs inside that limit.
- **Interrupt flag** (`InterruptFlag.dfy`). LockIRQSave and UnlockIRQRestore over any number of locks, released in any
  order: the flag is conserved, and no lock is ever held with interrupts on **if and only if** the context that saved
  an enabled flag is always released last.
- **Page bitmap, boot-time parsing and early page allocator** (`Bits`, `Align`, `PageMap`, `BootMemory`, `Allocation`,
  `PageAllocator`, `AllocatorRuns`). The byte array is changed in place and proved against a flat sequence of page
  bits. Inversion and restoration hold for whatever byte lies behind the bitmap at each request; safety of all runs
  holds **if and only if** those bytes are safe.
- **Kernel stacks** (`KernelStack`, `StackRuns`, `StackDriver`). Stacks, first frames, the header that operator new
  writes, and the writes of running threads and block owners share one memory. From page maps with page 0 in
  use, every thread that has not started can start, after all runs, **if and only if** the bytes that allocations may
  find behind the bitmap are safe. The allocator,
  stack and memory objects driven by any run end in the world of that run.
- **Run queue and scheduler** (`RunQueue`, `SchedulerModel`, `Scheduler`). A doubly linked list refines a queue, and
  thread objects with rewritten fields refine a state machine whose safety, fairness and conservation are proved for
  all runs.
- **Reference counts** (`RefCount`, `SharedCounts`, `SharedOutcomes`). The counts the code keeps are compared with an independent
  definition of who refers to what, after any sequence of RefPtr operations; and, with every atomic instruction and
  pointer store as a step of its own, in every interleaving of threads that share objects, where the operations also
  leave the handles as if each had been executed as a whole.
- **MADT walk** (`Madt.dfy`), against the record layout of section 5.2.12 of the ACPI specification.
- **Frame-buffer console** (`ConsoleGrid`, `ConsoleText`, `KernelConsole`). The pixel array always equals the
  rendering of a grid of character cells, and the grid is characterised by plain page arithmetic for arbitrary text.

Where the code does something other than what its comments or names intend, the model follows the code, and a theorem
says exactly when the intention is met:

| departure | where | exact condition |
|---|---|---|
| the contiguous search reads one byte past the bitmap | Kernel/Core/Memory/EarlyPageAllocator.cpp:25 | one allocation: `Allocation.SoundExactly`, `Allocation.NeighbourExactly`; whole runs: `AllocatorRuns.RunsSafeExactly`, `AllocatorRuns.PagesConserved` |
| for one page the contiguous search can return an address where the nested loops return null | Kernel/Core/Memory/EarlyPageAllocator.cpp:25-53 | `Allocation.SearchesAgree` |
| a region that wraps round the end of the address space can free page 0, whose address is the null pointer | Kernel/Core/Memory/PhysicalMemoryBitmap.cpp:64-65 | `BootMemory.PageZeroUsed` |
| pushing a thread that is queued already ruins the list | Kernel/Core/Scheduler/RunQueue.hpp:18-32 | `RunQueues.RunQueue.Push` |
| a free region that starts inside page 0 is dropped whole, since its length is computed from the overwritten base | Kernel/Core/Memory/PhysicalMemoryBitmap.cpp:52-53 | `BootMemory.DroppedExactly` |
| a free region that runs past the 64 GiB of the bitmap is dropped whole, with all its pages inside | Kernel/Core/Memory/PhysicalMemoryBitmap.cpp:88, Kernel/Include/Utility/Bit.hpp:47-50 | `BootMemory.DroppedExactly` |
| behind an unsafe byte two threads can get one and the same stack | Kernel/Core/Memory/EarlyPageAllocator.cpp:25 | `StackRuns.WorldSafeExactly`, with `StackRuns.ClashBreaks` |
| the guard against parsing twice is never set, so the boot path parses twice (documented as once) | Kernel/Core/Memory/PhysicalMemoryBitmap.cpp:29-33 | harmless: `PageAllocator.EarlyPageAllocator.InitMemory` |
| rounding up wraps near the end of the address space | Kernel/Core/Memory/PhysicalMemoryBitmap.cpp:20-24 | `Align.AlignExactly` |
| a worker that yields to itself stays marked Ready and is lost at its next Yield | Kernel/Core/Scheduler/Scheduler.cpp:69-72 | `SchedulerModel.ConservationExactly` |
| a stalled TryLock can take a wrapped counter for a free lock | Kernel/Sync/SpinLock.hpp:59-66 | `TicketLockExact.ExclusiveExactly` |
| interrupts come back early when the enabling context is not released last | Kernel/Sync/SpinLock.hpp:87-91 | `InterruptFlag.ProtectedExactly` |
| operator new writes its header into the word before its block, which may be the top word of a stack | Kernel/Core/Memory/NewDelete.cpp:34 | `StackRuns.TopWordExactly` |
| interrupt source overrides are read 42 bytes too far | Kernel/Core/ACPI/MADT.cpp:107 | `Madt.OverrideRowExactly` for an override among others; `Madt.OverrideExactly` unfolds the general case byte by byte |

## Model

| member | source | states |
|---|---|---|
| TicketLockExact.ExclusiveExactly | Kernel/Sync/SpinLock.hpp:42-72 | For every number of threads from two on and every bound on the tickets issued during one TryLock: at most one holder at the end of every such interleaving if and only if threads + bound is at most 2^32 |
| TicketLockExact.TooManyThreads | Kernel/Sync/SpinLock.hpp:42-55 | With more than 2^32 threads there is a run in which two waiters share a 32-bit ticket and both hold the lock |
| TicketLockExact.OutrunTry | Kernel/Sync/SpinLock.hpp:57-67 | Beyond the bound there is a run in which a stalled TryLock enters while another thread holds the lock |
| TicketLockProofs.MutualExclusionHolds | Kernel/Sync/SpinLock.hpp:42-72 | At most one holder in every interleaving within the bound, however often the counters have wrapped |
| TicketLockProofs.InvRun | Kernel/Sync/SpinLock.hpp:42-72 | In every reachable state the outstanding unwrapped tickets and the waiting threads correspond one to one, the 32-bit counters are the residues of the unwrapped ones and entries are a prefix of the ticket order |
| TicketLockProofs.OutstandingTickets | Kernel/Sync/SpinLock.hpp:31-55 | The 32-bit tickets of waiters and holder are pairwise distinct and are exactly the values from Owner up to, not including, Next |
| TicketLockProofs.EntriesFollowTickets | Kernel/Sync/SpinLock.hpp:44-53 | Threads enter in exactly the order in which they took tickets, none skipped; those with a ticket that have not entered, plus the holder, are the waiters |
| TicketLockProofs.WaiterProgress | Kernel/Sync/SpinLock.hpp:46-72 | A waiter's 32-bit distance to Owner is below the number of threads, falls by one at each Unlock and at no other step, and is 0 exactly when its next look at Owner lets it in |
| TicketLockProofs.TryNeverOvertakes | Kernel/Sync/SpinLock.hpp:57-67 | A TryLock that succeeds found nobody holding or waiting |
| TicketLockTry.TryEnds | Kernel/Sync/SpinLock.hpp:57-67 | In every interleaving a thread inside TryLock has executed one or two instructions of the call and can execute the next, which is the second or the third and last |
| TicketLockTry.TryAnswers | Kernel/Sync/SpinLock.hpp:57-67 | Within the bound a TryLock ends holding the lock if and only if no ticket was outstanding when it loaded Owner and none was issued before its swap; otherwise it ends idle |
| TicketLockTry.FailedTryLeavesNoTrace | Kernel/Sync/SpinLock.hpp:57-67 | In every interleaving the lock and all threads end a failed TryLock as if only the other threads' instructions had been executed |
| TicketLockObject.TicketSpinLock.constructor | Kernel/Sync/SpinLock.hpp:31-35 | Both counters start at 0 |
| TicketLockObject.TicketSpinLock.FetchAddNext | Kernel/Sync/SpinLock.hpp:44 | Returns the old Next and stores its 32-bit successor |
| TicketLockObject.TicketSpinLock.FetchAddOwner | Kernel/Sync/SpinLock.hpp:71 | Returns the old Owner and stores its 32-bit successor |
| TicketLockObject.TicketSpinLock.CompareExchangeNext | Kernel/Sync/SpinLock.hpp:66 | Swaps exactly when Next has the expected value |
| TicketLockObject.Execute | Kernel/Sync/SpinLock.hpp:42-72 | One instruction of one thread's code on the lock object is one step of the machine |
| TicketLockObject.Interleave | Kernel/Sync/SpinLock.hpp:42-72 | Any interleaving executed on the object ends in the machine's state, with at most one holder within the bound |
| InterruptFlag.Cpu.SaveAndDisable | Kernel/Sync/SpinLock.hpp:12-17 | Hands back the flags register and clears the interrupt flag and nothing else |
| InterruptFlag.Cpu.Restore | Kernel/Sync/SpinLock.hpp:19-29 | Sets the interrupt flag if the saved copy had it, never clears it, and touches no other flag |
| InterruptFlag.Drive | Kernel/Sync/SpinLock.hpp:80-91 | A CPU that executes any run of acquires and releases has the flag and the saved contexts the run describes |
| InterruptFlag.FlagConserved | Kernel/Sync/SpinLock.hpp:80-91 | The flag plus the saved contexts that will set it again always add up to the flag at the start |
| InterruptFlag.FlagRestored | Kernel/Sync/SpinLock.hpp:87-91 | Once every lock is released, in whatever order, the flag equals its starting value |
| InterruptFlag.ProtectedExactly | Kernel/Sync/SpinLock.hpp:80-91 | Interrupts are off at every point at which a lock is held if and only if every context that saved an enabled flag is released when it is the only one left |
| InterruptFlag.NestedIsProtected | Kernel/Sync/SpinLock.hpp:80-91 | Properly bracketed use keeps interrupts off from the first acquire to the last release and then restores the flag |
| InterruptFlag.FirstReleasedFirst | Kernel/Sync/SpinLock.hpp:87-91 | Two locks released in the order of acquisition leave one held with interrupts on |
| Bits.WithBitExact | Kernel/Include/Utility/Bit.hpp:11-30 | Writing one bit of a byte gives that bit the flag and keeps the other seven |
| Bits.BitIsDigit | Kernel/Include/Utility/Bit.hpp:11-19 | A bit is that binary digit of the byte's value, lowest first; there is none from 8 on |
| Bits.FlatWithBit | Kernel/Include/Utility/Bit.hpp:21-30 | Writing one bit of one byte of an array changes one place of the flat bit sequence |
| Bits.SetBit | Kernel/Include/Utility/Bit.hpp:21-30 | In place: one place of the flat sequence changes; a bit number of 8 or more changes nothing |
| Bits.SetBitRange | Kernel/Include/Utility/Bit.hpp:32-59 | In place, in 64-bit arithmetic: exactly the bits of the range take the flag, across byte boundaries; a range that does not fit changes nothing; bytes behind the given size are untouched |
| Bits.BoundsTest | Kernel/Include/Utility/Bit.hpp:47-50 | The test of the wrapping end against the size is right for every range that does not wrap back into the data |
| Align.AlignExactly | Kernel/Core/Memory/PhysicalMemoryBitmap.cpp:9-25 | For every address and alignment: alignment 0 returns the address; otherwise both branches give the least multiple at or above the address if and only if the address is not above the last 64-bit multiple |
| Align.MaskTest | Kernel/Core/Memory/PhysicalMemoryBitmap.cpp:18 | The test that picks the mask branch accepts the powers of two and nothing else |
| Align.MaskOff | Kernel/Core/Memory/PhysicalMemoryBitmap.cpp:20 | Masking off the low bits subtracts the remainder by the power of two |
| PageMap.AddressRoundTrip | Kernel/Core/Memory/PhysicalMemoryBitmap.hpp:18-27 | Byte index and bit of an address give back its page address, and the page address of an index and bit gives back both |
| PageMap.PagesForRoundsUp | Kernel/Core/Memory/EarlyPageAllocator.cpp:76 | The page count is the number of bytes rounded up to whole pages, and rounding again changes nothing |
| PageMap.FirstFit | Kernel/Core/Memory/EarlyPageAllocator.cpp:18-54 | The lowest start of that many consecutive free pages; none only when no such run exists |
| PageMap.CountAfterRange | Kernel/Core/Memory/EarlyPageAllocator.cpp:107-123 | Marking a run of free pages used, or of used pages free, moves the number of free pages by exactly its length |
| PageMap.FreeCountIs | Kernel/Core/Memory/EarlyPageAllocator.cpp:107-123 | The count is the size of the set of free pages, and 0 if and only if every page is in use |
| BootMemory.RangeIsContents | Kernel/Core/Memory/PhysicalMemoryBitmap.cpp:57-90 | The page range derived from a region is exactly the whole pages inside it, also when the region wraps round the end of the address space |
| BootMemory.ParsedExactly | Kernel/Core/Memory/PhysicalMemoryBitmap.cpp:27-92 | A page ends free if and only if it lies wholly inside some region that does not start in page 0 and ends inside the bitmap |
| BootMemory.PageZeroUsed | Kernel/Core/Memory/PhysicalMemoryBitmap.cpp:42-65 | Page 0 stays in use, so that null always means failure, if and only if no region wraps round onto it |
| BootMemory.AvailableAfterBoot | Kernel/Core/Memory/PhysicalMemoryBitmap.cpp:27-92 | After boot the free pages are as many as the pages that usable regions report, each counted once |
| BootMemory.OrderIrrelevant | Kernel/Core/Memory/PhysicalMemoryBitmap.cpp:38-91 | Order and repetition of regions do not matter |
| BootMemory.DroppedExactly | Kernel/Core/Memory/PhysicalMemoryBitmap.cpp:43-90 | A region frees all its whole pages but page 0 if and only if it starts at page 1 or later and ends inside the bitmap, or has no such page there |
| Allocation.SoundExactly | Kernel/Core/Memory/EarlyPageAllocator.cpp:18-90 | With page 0 in use, one allocation returns the lowest free run, marks just that, and fails only when there is none, if and only if one page is asked for, or the map has a run, or the byte behind it completes none |
| Allocation.NeighbourExactly | Kernel/Core/Memory/EarlyPageAllocator.cpp:25 | All allocations from all page maps are sound if and only if the byte behind the bitmap has bit 0 set and no two adjacent clear bits |
| Allocation.UnsafeWitness | Kernel/Core/Memory/EarlyPageAllocator.cpp:25-53 | For every other neighbour byte there is a page map on which a two-page allocation goes wrong |
| Allocation.SearchesAgree | Kernel/Core/Memory/EarlyPageAllocator.cpp:18-72 | For one page the contiguous search and the nested loops give the same address if and only if a page is free or the byte behind the bitmap has no clear bit |
| Allocation.SearchesDiffer | Kernel/Core/Memory/EarlyPageAllocator.cpp:18-72 | A full map in front of the byte 0xFD: the nested loops return null and the contiguous search an address |
| Allocation.AllocateMarks | Kernel/Core/Memory/EarlyPageAllocator.cpp:56-90 | Whatever byte lies behind the bitmap, a non-null result is page-aligned, was free as far as it lies in the map, and is marked as one range or not at all |
| Allocation.AllocateAt | Kernel/Core/Memory/EarlyPageAllocator.cpp:18-90 | An allocation lands on a page if and only if the lowest long enough run of the bits searched starts there |
| PageAllocator.ScanForRun | Kernel/Core/Memory/EarlyPageAllocator.cpp:31-53 | The one-pass loop with a run counter returns the lowest run of clear bits of an array of any length, or null when there is none |
| PageAllocator.ScanForClearBit | Kernel/Core/Memory/EarlyPageAllocator.cpp:58-71 | The nested loops return the lowest clear bit, or none when there is none |
| PageAllocator.SumFree | Kernel/Core/Memory/EarlyPageAllocator.cpp:109-122 | The nested sum is the page size times the count of clear bits, which FreeCountIs identifies |
| PageAllocator.Locate | Kernel/Core/Memory/PhysicalMemoryBitmap.cpp:40-80 | The cuts, the rounding and the 64-bit size lead to the derived page range, or skip exactly the regions that have none |
| PageAllocator.EarlyPageAllocator.MarkAllUsed | Kernel/Core/Memory/PhysicalMemoryBitmap.cpp:36 | Filling the bitmap with 0xFF marks every page used and leaves the byte behind alone |
| PageAllocator.EarlyPageAllocator.MarkRegion | Kernel/Core/Memory/PhysicalMemoryBitmap.cpp:40-90 | One iteration of the region loop frees exactly the derived page range |
| PageAllocator.EarlyPageAllocator.ParseMemoryInfo | Kernel/Core/Memory/PhysicalMemoryBitmap.cpp:27-92 | The bitmap becomes the parsed page map, or stays as it is when the guard is set |
| PageAllocator.EarlyPageAllocator.InitEarlyPageAllocator | Kernel/Core/Memory/EarlyPageAllocator.cpp:125-135 | Parses on the first call only |
| PageAllocator.EarlyPageAllocator.InitMemory | Kernel/Core/KernelMain.cpp:58-59 | Parsing twice, as the boot path does, equals parsing once |
| PageAllocator.EarlyPageAllocator.FindAvailableAddress | Kernel/Core/Memory/EarlyPageAllocator.cpp:18-54 | The one-pass loop with a run counter finds the first fit over bitmap and neighbour byte, and returns null for zero pages, too many pages or no run |
| PageAllocator.EarlyPageAllocator.FindClearBit | Kernel/Core/Memory/EarlyPageAllocator.cpp:58-71 | The nested loops find the lowest free page of the bitmap, or none |
| PageAllocator.EarlyPageAllocator.AllocatePage | Kernel/Core/Memory/EarlyPageAllocator.cpp:56-72 | Result and new bitmap are those of a one-page allocation |
| PageAllocator.EarlyPageAllocator.AllocatePageSized | Kernel/Core/Memory/EarlyPageAllocator.cpp:74-90 | Result and new bitmap are those of an allocation of the rounded-up page count |
| PageAllocator.EarlyPageAllocator.FreePage | Kernel/Core/Memory/EarlyPageAllocator.cpp:92-97 | Clears exactly the bit of the page that contains the address |
| PageAllocator.EarlyPageAllocator.FreePageSized | Kernel/Core/Memory/EarlyPageAllocator.cpp:99-105 | Clears exactly the rounded-up number of bits, or nothing when they do not fit |
| PageAllocator.EarlyPageAllocator.GetAvailableSize | Kernel/Core/Memory/EarlyPageAllocator.cpp:107-123 | Page size times the size of the set of free pages; 0 if and only if no page is free |
| AllocatorRuns.Serve | Kernel/Core/Memory/EarlyPageAllocator.cpp:74-105 | The allocator object driven by any run of requests in bytes, while the byte behind the bitmap changes between them, has the page map and live blocks of that run |
| AllocatorRuns.InvRun | Kernel/Core/Memory/EarlyPageAllocator.cpp:56-105 | When every allocation finds a safe byte behind the bitmap, after every run live blocks lie inside the map in pages free at the start, are disjoint, and a page is used exactly when it was used at the start or belongs to a live block |
| AllocatorRuns.TidyRun | Kernel/Core/Memory/EarlyPageAllocator.cpp:56-105 | Whatever bytes lie behind the bitmap from request to request, the same holds of the live blocks that lie inside the map |
| AllocatorRuns.RunsSafeExactly | Kernel/Core/Memory/EarlyPageAllocator.cpp:25 | The full invariant holds after all runs that see only given bytes, from all page maps with page 0 in use and equally from just those that the boot-time parser produces, if and only if all those bytes are safe |
| AllocatorRuns.AcquireExactly | Kernel/Core/Memory/EarlyPageAllocator.cpp:56-90 | In any state a safe run can reach, a request turns the lowest long enough run of free pages into a live block and lowers the number of free pages by exactly its length, or changes nothing when there is no such run |
| AllocatorRuns.ReleaseExactly | Kernel/Core/Memory/EarlyPageAllocator.cpp:99-105 | A free takes exactly that block out of the live ones and makes its pages, and no others, free |
| AllocatorRuns.BlocksAreSafe | Kernel/Core/Memory/EarlyPageAllocator.cpp:56-105 | With safe bytes behind the bitmap and no region wrapped onto page 0: every page of a live block is above page 0, marked used, inside a reported region and in no other live block |
| AllocatorRuns.AllFreedRestores | Kernel/Core/Memory/EarlyPageAllocator.cpp:74-105 | When everything has been freed the page map is the one at the start, whatever bytes lie behind the bitmap |
| AllocatorRuns.RestoresExactly | Kernel/Core/Memory/EarlyPageAllocator.cpp:56-105 | That holds for all runs from a page map if and only if its page 0 is in use |
| AllocatorRuns.AllocateFreeInverse | Kernel/Core/Memory/EarlyPageAllocator.cpp:74-105 | An allocation followed by its matching free restores the page map, whatever byte lies behind the bitmap |
| AllocatorRuns.PagesConserved | Kernel/Core/Memory/EarlyPageAllocator.cpp:74-123 | Free pages plus pages in live blocks equal the pages free at the start if and only if all live blocks lie inside the map, which safe bytes ensure |
| AllocatorRuns.MarkedConserved | Kernel/Core/Memory/EarlyPageAllocator.cpp:74-123 | Whatever bytes lie behind the bitmap, free pages plus pages in live blocks inside the map always equal the pages free at the start |
| KernelStacks.KernelStack.constructor | Kernel/Core/Scheduler/KernelStack.hpp:13 | A new stack has neither base nor size |
| KernelStacks.KernelStack.Allocate | Kernel/Core/Scheduler/KernelStack.cpp:8-24 | Success exactly when the allocator found the pages (16 KiB for size 0); base and size are the block, or unchanged on failure |
| KernelStacks.KernelStack.Free | Kernel/Core/Scheduler/KernelStack.cpp:26-29 | Frees exactly the pages of the block |
| KernelStacks.StackRoundTrip | Kernel/Core/Scheduler/KernelStack.cpp:8-29 | Allocate then Free restores the page map for every size and whatever byte lies behind the bitmap |
| KernelStacks.Memory.PrepareInitialStack | Kernel/Core/Scheduler/Thread.cpp:57-72 | Writes the eight words of the first frame below the top and leaves the stack pointer at top minus 64 |
| KernelStacks.FrameWords | Kernel/Core/Scheduler/Thread.cpp:57-72 | The eight words from RSP up to the top are zero except the trampoline's address at RSP + 48; no other word is written |
| StackRuns.OtherBlocksUntouched | Kernel/Core/Scheduler/Thread.cpp:57-72 | Preparing a new stack changes no word of any live block inside the map, whenever the request can be served from the map |
| StackRuns.WorldInvRun | Kernel/Core/Scheduler/Thread.cpp:41-72 | With safe bytes behind the bitmap, after any sequence of creations, starts, allocations by operator new, frees and writes of owners: blocks are disjoint and inside the map, stacks are distinct live blocks, and every unstarted thread has its seven words for the context switch |
| StackRuns.WorldSafeExactly | Kernel/Core/Memory/EarlyPageAllocator.cpp:25 | That holds for all page maps, memories and runs that see only given bytes, and every unstarted thread can start, also just after boot, if and only if all those bytes are safe |
| StackRuns.FirstSwitch | Kernel/Arch/x86_64/CPU/SwitchContext.S:12-19 | With page 0 in use and safe bytes: whatever running threads and block owners write to their own blocks meanwhile, the first switch to any thread pops six zero registers, starts at the trampoline and ends one word below the top of the thread's still live block |
| StackRuns.WriteMissesFrame | Kernel/Core/Scheduler/Thread.cpp:57-72 | The owner of one live block writes none of the words that wait on another block |
| StackRuns.SharedStack | Kernel/Core/Scheduler/Thread.cpp:41-55 | Behind every unsafe byte there is a page map on which two threads are created with one and the same stack |
| StackRuns.ClashBreaks | Kernel/Core/Scheduler/Thread.cpp:57-72 | There the first push of one thread destroys the address at which the other is to start |
| StackRuns.TopWordExactly | Kernel/Core/Memory/NewDelete.cpp:24-36 | An allocation by operator new overwrites a stack's top word if and only if, in the page map before it, the lowest run of free pages long enough for it starts where the stack ends |
| StackRuns.TopWordLost | Kernel/Core/Memory/NewDelete.cpp:24-36 | A stack followed at once by an allocation of operator new loses its top word |
| StackRuns.HeaderBytes | Kernel/Core/Memory/NewDelete.cpp:34 | The header is the letters KMEM in memory order followed by the 32-bit page count |
| StackDriver.OperatorNew | Kernel/Core/Memory/NewDelete.cpp:24-36 | The block of the rounded-up size, with its header in the word before it; 0 and no write when there is no block |
| StackDriver.PrepareStack | Kernel/Core/Scheduler/Thread.cpp:48-52 | The stack object and its first frame, or failure and no write |
| StackDriver.CreateKernel | Kernel/Core/Scheduler/Thread.cpp:41-55 | Thread object, stack and first frame on the objects are one creation step of the world |
| StackDriver.Drive | Kernel/Core/Scheduler/Thread.cpp:41-72 | Allocator, stacks and memory driven by any run end in the world of that run; with page 0 in use and safe bytes every unstarted thread can start |
| RunQueues.RunQueue.constructor | Kernel/Core/Scheduler/RunQueue.hpp:10-11 | The empty list stands for the empty queue |
| RunQueues.RunQueue.Empty | Kernel/Core/Scheduler/RunQueue.hpp:13-16 | True exactly when nothing is queued |
| RunQueues.RunQueue.Push | Kernel/Core/Scheduler/RunQueue.hpp:18-32 | A thread that is not queued is appended, and Head, Tail, Next and Prev again describe exactly the queue; after a push of a queued thread they describe no queue at all |
| RunQueues.RunQueue.PopFront | Kernel/Core/Scheduler/RunQueue.hpp:34-53 | Takes the oldest thread, fully unlinked, or null when the queue is empty |
| RunQueues.AfterPush | Kernel/Core/Scheduler/RunQueue.hpp:18-32 | On histories: a push joins the threads pushed and not yet popped at the end |
| RunQueues.AfterPop | Kernel/Core/Scheduler/RunQueue.hpp:34-53 | On histories: a pop delivers the oldest waiting thread, or nothing |
| RunQueues.Replay | Kernel/Core/Scheduler/RunQueue.hpp:18-53 | After any history without double pushes the list holds exactly the threads pushed and not yet popped, in order, and the pops delivered all earlier ones, in order |
| SchedulerModel.YieldBusy | Kernel/Core/Scheduler/Scheduler.cpp:84-96 | A Yield with threads waiting runs the head of the queue and puts a running worker at the tail |
| SchedulerModel.YieldEmpty | Kernel/Core/Scheduler/Scheduler.cpp:65-96 | A Yield with nobody waiting leaves a running worker on the CPU marked Ready, and otherwise gives way to idle |
| SchedulerModel.InvFromInit | Kernel/Core/Scheduler/Scheduler.cpp:31-107 | In every reachable state the queue has no duplicates and holds only Ready workers, never the current, idle, bootstrap or a Dead thread; at most the current worker is Running |
| SchedulerModel.DeadForever | Kernel/Core/Scheduler/Thread.cpp:11-17 | Once Dead, a thread is never current or queued again |
| SchedulerModel.ExitIsFinal | Kernel/Core/Scheduler/Thread.cpp:11-17 | A worker that exits is Dead from then on, whatever follows, and never on the CPU or in the queue again |
| SchedulerModel.DeadExactly | Kernel/Core/Scheduler/Thread.cpp:11-17 | After every run a worker is Dead if and only if it was on the CPU at some earlier exit |
| SchedulerModel.ThreadsCounted | Kernel/Core/Scheduler/Scheduler.cpp:98-107 | After every run the threads are bootstrap, idle and one for each successful creation |
| SchedulerModel.BootstrapNeverReturns | Kernel/Core/Scheduler/Scheduler.cpp:84-96 | Once it has given up the CPU the bootstrap thread never gets it back |
| SchedulerModel.NoStarvation | Kernel/Core/Scheduler/Scheduler.cpp:49-107 | A thread at queue position k moves up one place with every switch and is current at exactly the (k+1)-th, whatever happens between |
| SchedulerModel.ConservationExactly | Kernel/Core/Scheduler/Scheduler.cpp:65-96 | No created, non-Dead worker is ever neither current nor queued if and only if no worker yields again right after a Yield that found the queue empty |
| SchedulerModel.BusyRunsConserve | Kernel/Core/Scheduler/Scheduler.cpp:65-96 | While every worker's Yield finds the queue non-empty, no thread is lost and the current worker is Running |
| SchedulerModel.LoneWorkerLost | Kernel/Core/Scheduler/Scheduler.cpp:69-72 | A lone worker that yields twice is lost |
| SchedulerModel.Rotation | Kernel/Core/Scheduler/Scheduler.cpp:84-96 | n yields of busy workers rotate the ring of current thread and queue by n places |
| SchedulerModel.RoundRobin | Kernel/Core/Scheduler/Scheduler.cpp:84-96 | Two or more workers that only yield are back in the same state after as many yields as there are workers |
| Schedulers.CreateKernel | Kernel/Core/Scheduler/Thread.cpp:41-55 | A created thread is Ready and unlinked |
| Schedulers.Scheduler.constructor | Kernel/Core/Scheduler/Scheduler.cpp:31-42 | Init leaves the bootstrap thread Running and current, the idle thread Ready and unqueued, the queue empty |
| Schedulers.Scheduler.EnqueueReady | Kernel/Core/Scheduler/Scheduler.cpp:49-53 | Marks the thread Ready and puts it at the tail |
| Schedulers.Scheduler.DequeueNext | Kernel/Core/Scheduler/Scheduler.cpp:55-63 | The head of the queue, or the idle thread when it is empty |
| Schedulers.Scheduler.SwitchTo | Kernel/Core/Scheduler/Scheduler.cpp:65-77 | The thread becomes current and Running, unless it is current already: then nothing changes |
| Schedulers.Scheduler.Requeue | Kernel/Core/Scheduler/Scheduler.cpp:89-92 | A running worker goes back to the queue; idle, bootstrap and threads not Running do not |
| Schedulers.Scheduler.Yield | Kernel/Core/Scheduler/Scheduler.cpp:84-96 | One Yield step of the machine on the thread objects |
| Schedulers.Scheduler.CreateAndEnqueue | Kernel/Core/Scheduler/Scheduler.cpp:98-107 | One creation step: a new Ready thread at the tail of the queue; null and no change when the stack could not be allocated |
| Schedulers.Scheduler.ThreadExit | Kernel/Core/Scheduler/Thread.cpp:11-17 | One exit step: the worker is Dead, off the CPU and not in the queue |
| Schedulers.Drive | Kernel/Core/Scheduler/Scheduler.cpp:31-107 | The objects driven by any run end in the machine's state |
| RefCounts.RetargetCounts | Kernel/Include/Utility/RefPtr.hpp:17-77 | Redirecting one handle takes one reference from its old object and gives one to its new one |
| RefCounts.ReleaseKeeps | Kernel/Include/Utility/RefPtr.hpp:38-44 | Clearing a handle and releasing its object keeps every count equal to the number of references |
| RefCounts.AddKeeps | Kernel/Include/Utility/RefPtr.hpp:17-31 | Pointing an empty handle at an object and adding a reference keeps the counts exact |
| RefCounts.TransferKeeps | Kernel/Include/Utility/RefPtr.hpp:33-36 | Taking over another handle's pointer keeps the counts exact without counting |
| RefCounts.RefHeap.AddRef | Kernel/Include/Object/RefCountedBase.hpp:13-16 | The object's count rises by one, its new value is returned, and no other count changes |
| RefCounts.RefHeap.Release | Kernel/Include/Object/RefCountedBase.hpp:18-25 | One less, and the object is gone exactly when that was the last |
| RefCounts.RefHeap.New | Kernel/Include/Object/RefCountedBase.hpp:11 | A new object counts its creator's reference |
| RefCounts.RefHeap.ReleaseCreator | Kernel/Include/Object/RefCountedBase.hpp:18-25 | The creator's own reference is given up; counts stay exact |
| RefCounts.RefHeap.ConstructNull | Kernel/Include/Utility/RefPtr.hpp:14-15 | A null handle refers to nothing |
| RefCounts.RefHeap.ConstructRaw | Kernel/Include/Utility/RefPtr.hpp:17-23 | A handle made from a raw pointer refers to its object; counts stay exact |
| RefCounts.RefHeap.CopyConstruct | Kernel/Include/Utility/RefPtr.hpp:25-31 | Both handles refer to the object; counts stay exact |
| RefCounts.RefHeap.MoveConstruct | Kernel/Include/Utility/RefPtr.hpp:33-36 | The new handle refers to the object and the old one to nothing; counts stay exact |
| RefCounts.RefHeap.ReleaseTarget | Kernel/Include/Utility/RefPtr.hpp:48-53 | The release at the start of the destructor and of both assignments leaves the counts exact for the handles without this one |
| RefCounts.RefHeap.Destroy | Kernel/Include/Utility/RefPtr.hpp:38-44 | The handle is gone; counts stay exact |
| RefCounts.RefHeap.CopyAssign | Kernel/Include/Utility/RefPtr.hpp:46-62 | The target refers to the source's object, also on self-assignment; counts stay exact |
| RefCounts.RefHeap.MoveAssign | Kernel/Include/Utility/RefPtr.hpp:64-77 | The target takes over the pointer and the source is empty; self-assignment changes nothing; counts stay exact |
| RefCounts.Drive | Kernel/Include/Utility/RefPtr.hpp:14-77 | After any run exactly the referenced objects exist, each counting its creator reference plus its live handles, so no handle points to a destroyed object |
| RefCounts.CreatorKeepsAlive | Kernel/Core/Scheduler/Scheduler.cpp:40-41 | Raw pointers kept by the scheduler stay good until the creator's reference is released, whatever handles do |
| RefCounts.CreationLeavesOneReference | Kernel/Core/Scheduler/Thread.cpp:41-55 | The temporary handle of a thread creation leaves exactly the creator's reference behind |
| SharedCounts.InvRun | Kernel/Include/Utility/RefPtr.hpp:17-77 | In every interleaving the count of every existing object is the number of references counted so far, a handle is counted for its pointer except in the middle of its own thread's operation, and a count of 0 means that exactly one thread is about to delete |
| SharedCounts.AlwaysContinues | Kernel/Include/Object/RefCountedBase.hpp:13-25 | Every instruction that comes next in an unfinished operation finds its object and its handles |
| SharedCounts.TouchesOnlyLiving | Kernel/Include/Object/RefCountedBase.hpp:13-25 | In every interleaving AddRef and Release find an existing object with a positive count; only the one thread about to delete finds 0, and no other thread's next instruction touches that object |
| SharedCounts.LastReleaseDeletes | Kernel/Include/Object/RefCountedBase.hpp:18-25 | A Release leads to deletion if and only if it gives up the only reference there is |
| SharedCounts.DeletedOnce | Kernel/Include/Object/RefCountedBase.hpp:18-25 | No object is deleted twice, and a deleted object exists no more |
| SharedCounts.QuietIsExact | Kernel/Include/Utility/RefPtr.hpp:14-77 | Whenever no operation is under way, exactly the referenced objects exist, each with its number of references as count, and every other object ever created has been deleted |
| SharedOutcomes.RunRefines | Kernel/Include/Utility/RefPtr.hpp:14-77 | In every interleaving the pointers and creators' references, with unfinished operations carried to their end, are those of the operations begun, executed whole and one after the other |
| SharedOutcomes.QuietRefines | Kernel/Include/Utility/RefPtr.hpp:14-77 | Whenever no operation is under way, who refers to what is exactly what those operations say |
| SharedOutcomes.OperationEnds | Kernel/Include/Utility/RefPtr.hpp:14-77 | However it is interleaved, a finished construction, copy, move or assignment has left each handle of its thread pointing where it alone would have: a copy keeps its source, a move empties it, self-assignment changes nothing |
| SharedOutcomes.KillEnds | Kernel/Include/Utility/RefPtr.hpp:38-44 | When a destructor is over the handle is gone |
| SharedOutcomes.OthersHandlesKept | Kernel/Include/Utility/RefPtr.hpp:14-77 | No step of one thread changes the pointer or owner of another thread's handle |
| SharedOutcomes.OperationsAreShort | Kernel/Include/Utility/RefPtr.hpp:14-77 | An operation is over after at most four more instructions of its own thread, whatever the others do |
| Madt.ParsedMADT.constructor | Kernel/Core/ACPI/MADT.hpp:47-69 | Both arrays start empty and the other fields at their defaults |
| Madt.Visit | Kernel/Core/ACPI/MADT.cpp:88-113 | One entry adds the I/O APIC or override it describes, if long enough and if there is room, and nothing otherwise |
| Madt.Walk | Kernel/Core/ACPI/MADT.cpp:84-116 | The loop ends and collects, in table order and as far as there is room, everything up to a zero length or the end of the table |
| Madt.ParseMADT | Kernel/Core/ACPI/MADT.cpp:71-119 | False and nothing changed when there is no table; otherwise the local APIC address is stored and the walk covers the table's stated length |
| Madt.WalkFindsAll | Kernel/Core/ACPI/MADT.cpp:84-116 | The walk over any list of records, longer or shorter than the specification says, finds each of them, decodes all I/O APICs of at least 12 bytes and counts all overrides of at least 10 |
| Madt.ParsedTable | Kernel/Core/ACPI/MADT.cpp:79-118 | For every table of such records: the first 8 I/O APICs in table order, decoded, and the smaller of 32 and the number of overrides |
| Madt.OverrideExactly | Kernel/Core/ACPI/MADT.cpp:105-109 | An override's payload is stored as the entry has it if and only if its seven bytes recur 42 bytes further on |
| Madt.OverrideRowExactly | Kernel/Core/ACPI/MADT.cpp:105-109 | An override followed by five more is stored as a mixture of the fields of the fourth that follows it and the header of the fifth: right if and only if its own fields are that mixture, and never with flags other than 0x0A02 |
| Madt.OverrideMisread | Kernel/Core/ACPI/MADT.cpp:107 | An override of IRQ 9 with zeros behind it is stored as one of IRQ 0 |
| ConsoleGrid.Put | Kernel/Core/KernelConsole/KernelConsole.cpp:60-115 | On the grid: the cursor is again on the screen and the size is unchanged, for every character |
| ConsoleGrid.PutByCode | Kernel/Core/KernelConsole/KernelConsole.cpp:6-9 | By code: 0x1A to 0x7E fill the next cell, the first of the next line or the first of a clear screen, with 32 leaving it as it is; 10 ends the line or clears the screen; every other code changes nothing |
| ConsoleGrid.PutAllConcat | Kernel/Core/KernelConsole/KernelConsole.cpp:117-123 | Putting one text after another is putting their concatenation |
| ConsoleGrid.AlwaysBlankAhead | Kernel/Core/KernelConsole/KernelConsole.cpp:75-79 | After any text every cell from the cursor on is blank, so leaving a space undrawn is as good as drawing it |
| ConsoleGrid.PutShows | Kernel/Core/KernelConsole/KernelConsole.cpp:60-98 | A visible character is appended to what is shown, or stands alone on a cleared screen when all cells were taken |
| ConsoleGrid.TextLayout | Kernel/Core/KernelConsole/KernelConsole.cpp:60-123 | After any text of codes 0x1A to 0x7E the screen shows its last page, line by line, with the cursor behind it |
| ConsoleGrid.LastPage | Kernel/Core/KernelConsole/KernelConsole.cpp:70-73 | The page on screen starts at a multiple of the screen size |
| ConsoleText.ExpansionAlike | Kernel/Core/KernelConsole/KernelConsole.cpp:60-115 | Arbitrary text looks like the same text with each line break replaced by spaces to the end of its line and other control characters left out, up to when a full line is left |
| ConsoleText.AnyTextLayout | Kernel/Core/KernelConsole/KernelConsole.cpp:60-123 | After any text that ends in a code from 0x1A to 0x7E the screen shows exactly the last page of its expansion |
| KernelConsoles.KernelConsole.constructor | Kernel/Core/KernelConsole/KernelConsole.cpp:18-21 | The buffer renders the empty grid with the cursor at its start |
| KernelConsoles.KernelConsole.Reset | Kernel/Core/KernelConsole/KernelConsole.cpp:130-135 | The buffer renders the empty grid again, from any position of the cursor |
| KernelConsoles.KernelConsole.IsNewLineRequired | Kernel/Core/KernelConsole/KernelConsole.cpp:23-31 | True exactly when the line has no cell left |
| KernelConsoles.KernelConsole.IsEndOfScreen | Kernel/Core/KernelConsole/KernelConsole.cpp:33-41 | True exactly when the cursor is below the last line |
| KernelConsoles.KernelConsole.DrawPixel | Kernel/Core/KernelConsole/KernelConsole.cpp:43-58 | Inside the resolution exactly one pixel of the buffer changes, despite the 32-bit product; outside nothing does |
| KernelConsoles.KernelConsole.BoxOnScreen | Kernel/Core/KernelConsole/KernelConsole.cpp:81-95 | Every pixel of a glyph box is on the screen and inside the buffer |
| KernelConsoles.PixelByValue | Kernel/Core/KernelConsole/KernelConsole.cpp:81-95 | In the rendering a pixel is white if and only if its cell holds a glyph whose line has that binary digit set, highest digit leftmost; every other pixel is black |
| KernelConsoles.KernelConsole.DrawGlyph | Kernel/Core/KernelConsole/KernelConsole.cpp:81-95 | The two loops turn the rendering of a grid into the rendering of the grid with the glyph at the cursor |
| KernelConsoles.KernelConsole.PutChar | Kernel/Core/KernelConsole/KernelConsole.cpp:60-115 | Whatever the character, the buffer renders the grid after that character, which its code determines as in PutByCode |
| KernelConsoles.KernelConsole.PutString | Kernel/Core/KernelConsole/KernelConsole.cpp:117-123 | The buffer renders the grid folded over all characters before the terminating zero |
| KernelConsoles.KernelConsole.Flush | Kernel/Core/KernelConsole/KernelConsole.cpp:137-140 | A line break |

## Left out

- Weak memory orderings: atomic instructions are sequentially consistent steps, so acquire, release and relaxed are not told apart.
- Starvation of Lock by unfair scheduling of its poll: WaiterProgress bounds releases, not time.
- ParseMADT: does not model FindTable and its signature search; whether a table was found is a parameter.
- WalkFindsAll, ParsedTable: records have at least the two bytes of their header; ParseMADT's own contract covers entries of length 1 too.
- SetBitRange: requires that the end of the range does not wrap round 64 bits to a place inside the data, where the code would write outside the array.
- MarkRegion, ParseMemoryInfo, InitEarlyPageAllocator, InitMemory, ParsedExactly, PageZeroUsed, OrderIrrelevant: require that a region of one whole page lies inside the bitmap, since the code writes its bit unchecked.
- FreePage: requires an address below the 64 GiB the bitmap covers, since the code writes unchecked.
- Serve: frees live blocks only, each with its own size; frees of addresses that were never handed out are not part of a run.
- AllocatorRuns.InvRun, BlocksAreSafe, WorldInvRun, FirstSwitch: assume safe bytes behind the bitmap; RunsSafeExactly and WorldSafeExactly say that nothing less will do.
- AllFreedRestores, TidyRun, PagesConserved, OtherBlocksUntouched, FirstSwitch: assume that page 0 is in use; PageZeroUsed says when it is, and RestoresExactly that it must be.
- WorldInvRun, FirstSwitch, StackDriver.Drive: threads and other owners write whole aligned words, and only inside their own live blocks; a stack that overflows its block is not modelled. Operator delete is not modelled; a freed block is freed with its own page count, and stacks are never freed, as the kernel never does. Sizes in a driven run do not wrap round when the header is added.
- StackDriver.CreateKernel: what the constructor writes into the thread object is left to later writes of its owner.
- Replay: histories without double pushes; Push says what a double push does.
- SchedulerModel.Step: allows a Yield while the idle thread is current, which the kernel never does, since the idle loop only halts and the reschedule request set by the timer is never read; the results hold for these runs as well.
- Scheduler.constructor: assumes that the idle thread's stack could be allocated.
- Schedulers.CreateKernel: name, entry, argument and CPU index are left out; stacks and first frames are modelled in StackRuns.
- CreateAndEnqueue: the outcome of the stack allocation is a parameter; StackDriver.CreateKernel computes it.
- Release, Destroy, CopyAssign, MoveAssign: objects that contain handles are not modelled, so a deletion does not cascade; no counted class of the kernel has a RefPtr member. 64-bit overflow of a count is left out.
- SharedCounts.InvRun: a raw pointer becomes a handle only while its thread holds the creator's reference, or that reference is never given up; a handle is used by one thread at a time. A step is an instruction on a count, a store to a pointer or a deletion.
- KernelConsole.constructor: requires at least one cell, a scan line at least as wide as the screen, and a buffer of V scan lines with fewer than 2^32 pixels; the font is an arbitrary table of 127 glyphs of 16 bytes, and pixels are written as whole colours.
- Sleep, timer ticks, preemption and more than one CPU: the scheduler is cooperative and the model has one CPU.
- Paging, APIC and I/O APIC drivers, PIC, PIT and TSC timing, descriptor tables, exception handlers: hardware access with little logic of its own.
- Serial console, RedundantOutput, UUID, random device, Panic, string helpers: they would only add easy members.

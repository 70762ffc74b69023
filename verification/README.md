# Verification model of the hypervisor

The repository is a hypervisor for MIPS microcontrollers together with the runtime library of its bare-metal
guests. This project models its six components with the hardest guarantees and proves them in Dafny.

| files | component |
|---|---|
| `FreeList.dfy`, `Heap.dfy` | the kernel heap: a circular, address-ordered free list kept in the headers of the blocks |
| `Queue.dfy`, `Sharing.dfy`, `Waiting.dfy`, `Scheduler.dfy` | the VCPU scheduler over a ring queue |
| `Uart.dfy`, `UartDriver.dfy` | one UART transmitter shared by the VCPUs |
| `Messages.dfy`, `MessageRings.dfy` | inter-VM messages through two chained rings |
| `Tlb.dfy`, `Layout.dfy`, `Separation.dfy`, `Limits.dfy`, `FlashWindows.dfy` | the memory layout generator, the TLB, spatial separation and where the layout falls short |
| `Bits.dfy`, `SoftInt.dfy`, `Binary32.dfy`, `Rounding.dfy`, `SoftAdd.dfy`, `SoftAddRounding.dfy`, `SoftMultiply.dfy`, `SoftMultiplyRounding.dfy`, `SoftDivide.dfy`, `SoftConvert.dfy`, `Text.dfy` | integer and floating-point arithmetic in software, and number printing and parsing |
| `Words.dfy`, `Wrappers.dfy` | machine words, optional values |

Code that changes state in place is a class with the source's fields or a method over an array, and each such
method is proved against a transition or a function on values. The theorems about histories, runs and real
numbers are lemmas about those.

How the model is set up:

- Heap addresses are header units from the heap start; `ptr` and `size` are arrays with one slot a unit.
- A run of the scheduler, the UART driver or the message rings is a sequence of atomic steps: hypercalls,
  interrupts and scheduler calls. How many bytes the transmit queue takes before it is full is a parameter of
  each step, so every behaviour of the hardware is covered.
- The TLB is read as in chapter 4 of the MIPS32 Privileged Resource Architecture (MIPS Architecture For
  Programmers, Volume III): page pairs, a page mask, and one valid bit for each page of the pair.
- Words are naturals below 2^32 with wrap-around written out. A float is its word; its value is the real number
  of IEEE 754-2008, section 3.4, and the accuracy theorems compare results with exact real sums, products and
  quotients. A signed right shift rounds down, and the product of two `int32_t` in `__mulsf3` is taken modulo 2^32.
- Integer division is the truncating division of ISO/IEC 9899:2011, section 6.5.5.
- A C string is a sequence of characters followed by its terminator.

## Findings

Where the code falls short of what one would expect, the model keeps the code as it is, and the lemmas named here
give the exact condition under which it does what it should, a concrete case in which it does not, or both.

- The heap list breaks in exactly two cases (`FreeList.StepKeepsInvIff`): a request for exactly the only free block,
  after which nothing is left to link (`WholeHeapIsHarmful`), and freeing a block that ends where the only free block
  begins, after which `freep` points into the merged block (`FreeBelowSoleBlockIsHarmful`). While the block at the
  heap start stays free neither can happen.
- `HeapInit` rounds the length up, so the last unit may reach up to seven bytes beyond the region
  (`Heap.HeapMayOverrun`). Requests above 2^32 - 8 bytes wrap and get a block that is too small (`Heap.Units`,
  `Heap.HugeRequestWraps`).
- A VCPU with priority 255 is never picked by priority while it has 255 left (`Sharing.IdleIff`), so if all have that
  priority none ever gets a turn (`Waiting.FreshIdlesIff`, `Waiting.HighestPriorityIdles`). One lower priority in the
  queue is enough for all to be served (`Waiting.NoStarvation`).
- `irq_network` can leave a message for which no interrupt is due, because its first fetch clears the interrupt and
  it may then stop at a full guest ring or behind a message without payload (`Messages.DrainLeavesNoneIff`,
  `Messages.HandlerCanLeaveAMessage`).
- The temporary mapping needs an 8 KB aligned RAM base and a buffer that ends inside the second page
  (`Tlb.TempAgreesIff`). VMs with 4 KB of RAM can start on an odd page (`Limits.SecondSmallVmIsOdd`,
  `Limits.SmallVmBufferIsMissed`).
- A guest finds its flash at its address only up to 8 MB, since 16 MB pages are mapped from a 32 MB boundary
  (`Limits.FlashShownIff`, `Limits.LargePageMissesFlash`).
- `__divsf3` says it returns NaN for a zero divisor. The returned integers are converted, and give 2^31 or 2^32
  (`SoftDivide.DivByZeroIsNoNaN`).
- `__moddi3` gives the remainder the wrong sign for a negative divisor (`SoftInt.LongIdentityIff`,
  `SoftInt.LongIdentityFails`).
- `__floatsisf` does not return for -2^31, and for no other integer (`SoftConvert.FirstLoopStopsIff`).
- `__fixsfsi` truncates exactly below 2^31 (`SoftConvert.FixTruncatesIff`).
- `__cmpsf2` tells +0 from -0, and orders all other finite floats as numbers (`SoftConvert.CompareOrdersIff`,
  `SoftConvert.ZerosCompareUnequal`).
- `__addsf3` looks at the bit it rounds up to and not at the bits that alignment and the shift after a carry dropped.
  It takes some sums for ties that are none (`SoftAddRounding.RoundsRightIff`); with exponents six apart or less only
  after a carry (`ExactlyAlignedIff`, `CarryMisrounds`), with five or less never (`CloseExponentsRoundRight`).
- `__mulsf3` drops up to one and a half counts below its rounding position, and misses the nearest float exactly when
  a whole count among them would have carried (`SoftMultiplyRounding.RoundsAwayIff`, `SquareMisrounds`).
- The generator does not check where the flashes end. Guests are separate over all of their addresses as long as that
  is by 0xA0000000 (`FlashWindows.GuestsShareNoByte`); behind it flash entries point into the RAM
  (`FlashWindows.FlashBeyondKseg1`).
- `strtol` reads nine digits at most, and its end pointer is then one short (`Text.StrtolOfItoaIff`,
  `Text.StrtolStopsAtNine`).

The guest's message slot declares 255 bytes where the hypervisor sends up to 256; the padding of the slot holds the
last one, so `Messages.EndToEndFifo` covers messages of 256 bytes too.

## Model

| member | source | states |
|---|---|---|
| Heap.Units | sys/lib/malloc.c:64 | the blocks handed out hold the bytes asked for exactly when the request is at most 2^32 - 8; beyond that the 32-bit sum wraps and the block is too small |
| Heap.HeapMayOverrun | sys/lib/malloc.c:45-47 | the heap covers the region and at most seven bytes more, none exactly when the length is a multiple of 8 |
| Heap.HugeRequestWraps | sys/lib/malloc.c:64 | a request of 2^32 - 1 bytes gets a header and no payload |
| Heap.Allocator.HeapInit | sys/lib/malloc.c:40-58 | a first call leaves one free block and a valid heap, or, for a length of 0 and beyond 2^32 - 8, a list whose block has no unit; a later call rebuilds that same heap whatever its length and whatever calls came before, harmful ones included |
| Heap.Allocator.Malloc | sys/lib/malloc.c:60-84 | before HeapInit and on a heap without units it fails; otherwise it fails, changing nothing, exactly when no free block is large enough, else hands out the end of the first fit behind `freep`; looks at no block twice; the invariant survives exactly when the request is not the whole of the only free block |
| Heap.Allocator.Search | sys/lib/malloc.c:65-83 | the walk ends within one lap at the first fit behind `freep`, or after a whole lap when nothing fits |
| Heap.Allocator.Take | sys/lib/malloc.c:69-78 | an exact fit is unlinked, a larger block loses its end; the headers then describe the new set of blocks |
| Heap.Allocator.Free | sys/lib/malloc.c:86-109 | gives a live block back, merged with the free blocks it touches on either side; finds the gap within one lap; keeps what HeapInit saved; the heap stays valid exactly when the block does not end where the only free block begins |
| Heap.Allocator.FindGap | sys/lib/malloc.c:90-92 | the walk ends within one lap at the free block behind which the freed block belongs |
| Heap.Allocator.Insert | sys/lib/malloc.c:94-108 | two-sided merging rewrites the headers so that they describe exactly the merged free list, still circular and in address order |
| FreeList.EveryUnitInExactlyOneBlock | sys/lib/malloc.c:60-109 | tiling: each header unit of a valid heap lies in exactly one block, free or live |
| FreeList.TakenKeepsInvIff | sys/lib/malloc.c:69-78 | malloc keeps circular order, tiling and full coalescing if and only if it does not hand out the only free block whole |
| FreeList.ReleasedKeepsInvIff | sys/lib/malloc.c:94-108 | free keeps circular order, tiling and full coalescing if and only if the block does not end where the only free block begins |
| FreeList.AnsweredIsStep | sys/lib/malloc.c:60-84 | what malloc answers is one of the transitions the history theorems speak of |
| FreeList.ReleaseIsDetermined | sys/lib/malloc.c:86-109 | every live block of a valid heap can be freed, with exactly one outcome |
| FreeList.StepKeepsInvIff | sys/lib/malloc.c:60-109 | any call keeps the invariant if and only if it is not one of the two harmful ones |
| FreeList.StepKeepsStartFree | sys/lib/malloc.c:60-109 | while the block at the heap start is free, only handing it out whole can be harmful, and nothing else stops it from being free |
| FreeList.RunKeepsInvIff | sys/lib/malloc.c:60-109 | a history of malloc and free from HeapInit keeps the invariant throughout if and only if none of its calls is harmful |
| FreeList.RunKeepsStartFree | sys/lib/malloc.c:60-109 | when no call of a history hands out the heap-start block whole, every state satisfies the invariant, keeps a free block at the start and has free plus live units equal to the heap |
| FreeList.StepConserves | sys/lib/malloc.c:60-109 | no call creates or loses a unit |
| FreeList.WholeHeapIsHarmful | sys/lib/malloc.c:70-71 | an exact fit on the untouched heap breaks the list: the concrete case behind the precondition |
| FreeList.FreeBelowSoleBlockIsHarmful | sys/lib/malloc.c:94-108 | four harmless calls on a heap of six units lead to a free that breaks the list: the concrete case of the other harmful call |
| FreeList.NothingLiveIsStart | sys/lib/malloc.c:40-58 | a valid heap without live blocks is the one HeapInit built |
| FreeList.AnyOrderRestoresStart | sys/lib/malloc.c:86-109 | freeing all live blocks in any order ends in the single free block HeapInit built |
| Queue.WrapsOnce | sys/lib/queue.c:133-134 | index arithmetic: a sum below twice the size wraps at most once |
| Queue.Ring.constructor | sys/lib/queue.c:49-66 | an empty queue for `n` elements, with one slot more than that |
| Queue.Ring.AddTail | sys/lib/queue.c:106-118 | appends, or refuses and changes nothing, and refuses exactly when `n` elements are stored |
| Queue.Ring.RemHead | sys/lib/queue.c:127-138 | first in, first out: takes the oldest element, or nothing from an empty queue |
| Queue.Ring.Get | sys/lib/queue.c:168-176 | the n-th element from the head, or nothing beyond the count |
| Queue.Ring.Set | sys/lib/queue.c:187-193 | replaces the n-th element only |
| Queue.Ring.Swap | sys/lib/queue.c:204-214 | exchanges two elements and leaves the others, also for equal positions |
| Queue.Ring.Rotate | sys/kernel/scheduler.c:67-73 | removing the head and adding it at the tail never fails and rotates the queue by one |
| Scheduler.VirtualCpu.constructor | sys/kernel/vm.c:183-191 | a new VCPU is running, not critical, and has its whole priority left |
| Scheduler.Scheduler.Join | sys/kernel/vm.c:141 | a new VCPU joins at the tail while the queue has room |
| Scheduler.Scheduler.Scan | sys/kernel/scheduler.c:63-85 | finds the first urgent VCPU, leaving the queue rotated just past it, or else the first of the least remaining priorities below 255, with the queue back in its order |
| Scheduler.Scheduler.ComeNearer | sys/kernel/scheduler.c:88-100 | every other running VCPU comes nearer by what the winner had left, none of them below zero |
| Scheduler.Scheduler.RoundRobin | sys/kernel/scheduler.c:56-116 | the two loops decide as the specification does, for every queue; a non-critical pick leaves the order, a critical one rotates it; null exactly when the decision is to idle |
| Scheduler.Scheduler.FastInterruptDelivery | sys/kernel/scheduler.c:129-136 | marks and counts a critical event once, and not for the VCPU that has the processor |
| Scheduler.Scheduler.RunScheduler | sys/kernel/scheduler.c:142-158 | decides exactly at the end of a quantum, on a pending critical event or when the current VCPU was blocked, and otherwise changes nothing but the tick count |
| Sharing.DecisionExists | sys/kernel/scheduler.c:56-116 | every queue has a decision |
| Sharing.DecisionIsUnique | sys/kernel/scheduler.c:56-116 | and only one: the scheduler is a function of the queue |
| Sharing.IdleIff | sys/kernel/scheduler.c:75-107 | nobody is picked exactly when no running VCPU is critical or has less than 255 left; whoever is picked is running |
| Sharing.PickedIff | sys/kernel/scheduler.c:63-106 | exactly who is picked: the first running critical VCPU; without one, of the running ones with less than 255 left the one with the least, and of several the first |
| Sharing.DecisionTakesEffect | sys/kernel/scheduler.c:75-106 | a decision counts one job for the VCPU it picks and none for the others, takes the critical mark only off a VCPU served out of turn, and lowers no remaining priority but those of the other running VCPUs at a regular turn |
| Sharing.PickedExecutes | sys/kernel/scheduler.c:75-106 | the VCPU that is picked, and no other, gets the processor, nobody after an idle call, and serving a critical event takes one off the count |
| Waiting.FreshIdlesIff | sys/kernel/scheduler.c:75-107 | in a queue as create_vcpu leaves it, all running and no critical event, a call is idle exactly when no priority is below 255, and then changes nothing |
| Waiting.HighestPriorityIdles | sys/kernel/scheduler.c:81 | the concrete case: a running VCPU of priority 255, alone in the queue, is not picked |
| Sharing.StepKeepsInv | sys/kernel/scheduler.c:56-158 | every event keeps: pending equals the number of critical flags, remaining priorities lie between 0 and the priority, ids are distinct, and the queue is a rotation of itself |
| Sharing.RunKeepsInv | sys/kernel/scheduler.c:56-158 | the same over every run, with the queue's length unchanged |
| Sharing.UrgentComesCloser | sys/kernel/scheduler.c:75-80 | an urgent VCPU keeps its flag and moves strictly forward with every scheduler call that serves another |
| Sharing.CriticalLatency | sys/kernel/scheduler.c:75-80 | a critical VCPU at position i that stays running is served within i + 1 scheduler calls, whatever else happens in between |
| Sharing.DeliveryTakesEffect | sys/kernel/scheduler.c:129-136 | a delivery marks its VCPU and counts one critical event unless it was marked, does nothing to the VCPU that has the processor, and changes no other field and no other VCPU |
| Sharing.MarkedIsPending | sys/kernel/scheduler.c:144-147 | while any VCPU is marked the pending count is not 0, so every tick reaches the round-robin scheduler |
| Sharing.DeliveryLatency | sys/kernel/scheduler.c:75-136 | from the interrupt on: a VCPU that stays running and did not have the processor is served and executing within p + 1 scheduler calls after a delivery to it at position p |
| Sharing.StepKeepsVirtualTime | sys/kernel/scheduler.c:87-105 | turns times priority plus what was used of the current turn is the same number for all VCPUs, before and after every event |
| Sharing.RunKeepsVirtualTime | sys/kernel/scheduler.c:87-105 | that number exists in every state of every run in which all VCPUs stay running, critical events included |
| Sharing.ProportionalShare | sys/kernel/scheduler.c:56-116 | turns weighted by priority never drift apart by more than one turn of either VCPU |
| Waiting.BoundedWaiting | sys/kernel/scheduler.c:65-106 | in every run in which all VCPUs stay running and no priority is 0, critical events included: while v gets no turn, the others together get at most the sum of priority(v) / priority(u) + 1 |
| Waiting.SomebodyIsPicked | sys/kernel/scheduler.c:65-106 | with all VCPUs running and some priority below 255, no scheduler call is idle |
| Waiting.NoStarvation | sys/kernel/scheduler.c:56-116 | so v gets a turn within as many scheduler calls as that sum, one more, and one for each critical event served meanwhile: no VCPU starves |
| Uart.FirstPending | arch/mips/pic32mz/uart_driver.c:106-111 | the lowest slot with a pending transfer, or none exactly when there is none |
| Uart.SendKeepsInv | arch/mips/pic32mz/uart_driver.c:123-145 | a send by a running VCPU keeps the line, accounts and blocking invariants |
| Uart.TxDoneKeepsInv | arch/mips/pic32mz/uart_driver.c:86-116 | a transmit interrupt keeps them, whatever room the queue has |
| Uart.RunKeepsInv | arch/mips/pic32mz/uart_driver.c:66-145 | with interrupts guarded by nothing but the enable bit, in every reachable state the line carries whole submitted buffers followed by a beginning of the active one, each submitted buffer is finished or waiting exactly once, a VCPU is blocked exactly while its transfer is pending, and a transfer is active exactly while one is pending and exactly while the interrupt is on |
| Uart.SubmittedAreBuffers | arch/mips/pic32mz/uart_driver.c:123-145 | what the histories call submitted are the buffers of the hypercalls made, in order |
| Uart.NoBufferIsLost | arch/mips/pic32mz/uart_driver.c:66-145 | at every point of every run, the buffers of all hypercalls made so far are those on the line, whole and once, and those waiting in a slot |
| Uart.HypercallTakesEffect | arch/mips/pic32mz/uart_driver.c:123-145 | a hypercall writes what there is room for when no transfer is active and nothing otherwise; its VCPU is blocked, with the rest in its slot and the interrupt on, exactly when there is a rest; no other slot changes |
| Uart.InterruptTakesEffect | arch/mips/pic32mz/uart_driver.c:86-116 | an interrupt goes on with the active buffer where it stopped; exactly when that ends its VCPU runs again and the lowest pending slot is next |
| Uart.InterruptMakesProgress | arch/mips/pic32mz/uart_driver.c:95-98 | an interrupt writes as many bytes of the active transfer as there is room for, and no other |
| Uart.InterruptsFinishAll | arch/mips/pic32mz/uart_driver.c:86-116 | as many interrupts as bytes are left, each with room for one, finish everything: nobody is blocked and the line carries each submitted buffer whole and once |
| UartDriver.Driver.SchedulerTransferInterrupt | arch/mips/pic32mz/uart_driver.c:66-81 | queues the rest of a buffer and blocks the sender; becomes active and enables the interrupt only when nothing was active |
| UartDriver.Driver.SendCall | arch/mips/pic32mz/uart_driver.c:123-145 | the loop over the string takes exactly the send step, for any point at which the queue turns full |
| UartDriver.Driver.TransferTxDone | arch/mips/pic32mz/uart_driver.c:86-116 | the handler takes exactly the interrupt step, for any point at which the queue turns full |
| UartDriver.Driver.ActivateNext | arch/mips/pic32mz/uart_driver.c:106-114 | the next transfer is the one in the lowest pending slot; with none left the interrupt goes off |
| Messages.SendKeepsInv | drivers/inter-vm-comm.c:82-134 | an answered send appends to the hypervisor ring; a refused one changes neither ring nor the accepted messages |
| Messages.SendAnswersIff | drivers/inter-vm-comm.c:89-131 | which answer a send gets, each exactly in its case: too big, not found, not started, full, or the size |
| Messages.SendRaises | drivers/inter-vm-comm.c:108-127 | a send answered with a size or with FULL leaves the interrupt due, and any other changes nothing at all |
| Messages.FetchKeepsInv | bare-metal-apps/lib/network.c:73-80 | a round of the handler moves one message between the rings, in order |
| Messages.ReceiveKeepsInv | bare-metal-apps/lib/network.c:27-58 | a delivery takes the oldest guest message, names its sender and cuts it to the buffer only |
| Messages.EndToEndFifo | drivers/inter-vm-comm.c:82-173 | over every interleaving for every VCPU: deliveries, then the guest ring, then the hypervisor ring are the accepted sends in order; at most five in each ring; deliveries are faithful |
| Messages.RunKeepsInv | bare-metal-apps/lib/network.c:27-81 | the invariant behind it, with the history of accepted sends tied to the return values |
| Messages.InterruptDueIff | drivers/inter-vm-comm.c:82-173 | over every run, from the events and answers alone: the interrupt is due exactly when a send answered with a size or with FULL came after the last fetch that took a message |
| Messages.StartedIff | drivers/inter-vm-comm.c:103-106 | sends are refused as not started exactly until the first run of the VCPU |
| Messages.DrainStops | bare-metal-apps/lib/network.c:65-81 | the handler is a sequence of rounds and stops at an empty hypervisor ring, a full guest ring, or behind a message without payload |
| Messages.DrainFillsGuestRing | bare-metal-apps/lib/network.c:73-80 | messages with payload are fetched in order until the guest ring is full, and the interrupt is cleared by the first fetch |
| Messages.DrainLeavesNoneIff | bare-metal-apps/lib/network.c:65-81 | the handler leaves no message without an interrupt due if and only if there was none, or the guest ring was full and the interrupt due already, or the guest ring has room for all and none but the last is without payload |
| Messages.HandlerCanLeaveAMessage | bare-metal-apps/lib/network.c:68-80 | the concrete case: a message waits in the hypervisor, the guest has nothing left to read, and no interrupt is due |
| MessageRings.MessageRing.Fill | drivers/inter-vm-comm.c:118-121 | a message copied to the free slot leaves the stored ones intact |
| MessageRings.MessageRing.Push | drivers/inter-vm-comm.c:123-124 | the filled slot becomes the newest message |
| MessageRings.MessageRing.Pop | drivers/inter-vm-comm.c:165-167 | the oldest message leaves, the others keep their order |
| MessageRings.GetVcpuFromId | sys/kernel/scheduler.c:165-177 | finds a VCPU with the id, and null only when there is none |
| MessageRings.SendMsg | drivers/inter-vm-comm.c:82-134 | answers too big, not found, not started or full in that order of precedence, and otherwise stores the message, raises the interrupt and, exactly then, asks for fast delivery |
| MessageRings.Mailbox.RecvMsg | drivers/inter-vm-comm.c:143-173 | hands out the oldest message with its size and sender and clears the interrupt, or answers empty and changes nothing |
| MessageRings.Guest.FetchOne | bare-metal-apps/lib/network.c:74-79 | the hypercall writes straight into the guest slot; a failed one leaves no trace a reader of the ring could see |
| MessageRings.Guest.IrqNetwork | bare-metal-apps/lib/network.c:65-81 | the handler loop ends and has the effect of the rounds the specification names |
| MessageRings.Guest.ReceiveMessage | bare-metal-apps/lib/network.c:27-58 | delivers the oldest message cut to the buffer with its sender, or 0 without one |
| Tlb.LoRegisterFields | arch/mips/common/tlb.c:46-49 | the three fields or-ed into EntryLo do not disturb each other: frame and valid bit read back as given |
| Tlb.WrittenTranslates | arch/mips/common/tlb.c:37-60 | what the hardware makes of a written entry, for every address: page pair, odd and even page, valid bits, page size |
| Tlb.TempAgreesIff | arch/mips/common/tlb.c:70-106 | every byte of the buffer, at the address returned, is the physical byte the guest means if and only if the RAM base is a multiple of 8 KB and the buffer, measured from its page, ends inside the second page; both cache choices |
| Tlb.ByteShowsIff | arch/mips/common/tlb.c:80-95 | the same for a single byte: exactly which bytes of a buffer the temporary entry shows |
| Tlb.TempMaps | arch/mips/common/tlb.c:80-95 | no address in the entry wraps around for a window inside KSEG0 |
| Tlb.TempIsCachedIff | arch/mips/common/tlb.c:74-101 | the temporary entry is the root's, valid and writable, and cached exactly when that was asked for |
| Tlb.Hardware.EntryWrite | arch/mips/common/tlb.c:37-60 | only the entry at the index register changes, guest ID included |
| Tlb.Hardware.CreateEntry | arch/mips/common/tlb.c:70-106 | field-by-field filling writes exactly the temporary entry and returns its address |
| Layout.GetValueFromStr | platform/cfg_reader/genconf.c:134-142 | the value of the first definition with that name, 0 when there is none |
| Layout.SizesAreNamed | platform/cfg_reader/genconf.c:110-125 | each of the fourteen size names means the size it says, and no other name means any |
| Layout.SelectPageMask | platform/cfg_reader/genconf.c:327-349 | finds an entry that covers the size exactly, two pages if possible, and fails only when none does |
| Layout.CoversIsUnique | platform/cfg_reader/genconf.c:327-349 | a size has at most one such entry |
| Layout.Kseg0ToPhysicalIsFrame | platform/cfg_reader/genconf.c:356-358 | the mask and shift give the frame number of the 29-bit physical address |
| Layout.CalculateMemBaseRoundsUp | platform/cfg_reader/genconf.c:367-372 | the least multiple of the page size that is not below the base |
| Layout.ProcessTlbEntry | platform/cfg_reader/genconf.c:382-455 | picks the pages that cover the size, rounds the running address up to their size and writes that row, or fails exactly on a size no entry covers |
| Layout.GenVm | platform/cfg_reader/genconf.c:700-732 | a VM's RAM and flash rows, or failure exactly when a size is missing or unknown |
| Layout.GenConfVms | platform/cfg_reader/genconf.c:669-800 | the generator accepts a VM list exactly when it needs at most 15 entries and all sizes are known; what it writes satisfies the layout rules |
| Separation.WindowsAreDisjoint | platform/cfg_reader/genconf.c:689-797 | for every accepted list: at most seven VMs, page-aligned RAM windows below 0x9D008000, pairwise disjoint |
| Separation.RamEntryTranslates | platform/cfg_reader/genconf.c:405-447 | the RAM row maps offset k to RAM base + k for every k below the size and nothing else |
| Separation.Machines.FillEntry | sys/kernel/vm.c:111-121 | an entry gets the fields of its row, and its valid bits exactly where the row has a frame |
| Separation.Machines.CreateVm | sys/kernel/vm.c:105-124 | the loop gives the VM's rows consecutive indexes from the static counter and writes each to the TLB |
| Separation.Machines.InitializeMachines | sys/kernel/vm.c:57-62 | all VMs' entries are written one after the other with the indexes 0, 1, 2 and so on |
| Separation.AllStay | sys/kernel/vm.c:110-124 | no entry overwrites an earlier one |
| Separation.RamStays | sys/kernel/vm.c:105-124 | every VM's RAM entry is still in the TLB at the end, and none has the reserved index |
| Separation.SpatialSeparation | sys/kernel/vm.c:105-124 | for every accepted list, the RAM entry of each VM maps its RAM addresses to its own window byte by byte and nothing beyond; the entries of two VMs never share a physical byte; the hypercall entry is not used |
| Separation.LookupIsRam | sys/kernel/vm.c:110-124 | over all entries of the TLB under a VM's guest ID: an address below the flash that no added row covers finds RAM base plus offset inside the RAM, and nothing else and nothing beyond |
| Separation.LookupStaysRam | arch/mips/common/tlb.c:70-106 | the same once a root entry stands at the reserved index, as after every hypercall |
| Separation.HypercallLeavesLookups | arch/mips/common/tlb.c:70-106 | in particular no temporary entry changes what any guest's lookup finds |
| Separation.GuestsAreSeparate | sys/kernel/vm.c:110-124 | so the lookups of two guests never find the same physical byte |
| Limits.FlashShownIff | platform/cfg_reader/genconf.c:728-731 | a guest finds its flash at 0x9D000000, byte by byte, if and only if the flash has at most 8 MB |
| Limits.LargePageMissesFlash | platform/cfg_reader/genconf.c:728-731 | with pages of 16 MB the first byte of the flash is not where the guest looks |
| Limits.SecondSmallVmIsOdd | platform/cfg_reader/genconf.c:711-714 | two VMs of 4 KB are accepted, and the second one's RAM starts at 0x80009000, an odd page |
| Limits.SmallVmBufferIsMissed | arch/mips/common/tlb.c:80-95 | no buffer of that VM is shown whole by the temporary entry |
| FlashWindows.FlashesAreDisjoint | platform/cfg_reader/genconf.c:689-797 | for every accepted list: each flash starts on the first page of its size at or behind the end of the flash before it, all of them end below 2^32, and no two overlap |
| FlashWindows.RamsArePacked | platform/cfg_reader/genconf.c:689-797 | and each RAM on the first page of its size at or behind the end of the RAM before it |
| FlashWindows.ConfiguredAsAsked | sys/kernel/vm.c:110-124 | every VM has the sizes it names, and every row it adds stays in the TLB under its guest ID |
| FlashWindows.OwnRowsAreCached | sys/kernel/vm.c:113-121 | RAM and flash entries are cached write-back and writable on every page they map |
| FlashWindows.FlashRowStaysIn | sys/kernel/vm.c:110-124 | whatever a flash entry translates lies in its own window, page mask and both pages included |
| FlashWindows.LookupIsOwn | sys/kernel/vm.c:105-124 | whatever a lookup under a guest ID finds, at any address its added entries leave alone, is a byte of that VM's own RAM or flash, provided the last flash ends by 0xA0000000 |
| FlashWindows.GuestsShareNoByte | sys/kernel/vm.c:105-124 | under the same bound: no address of one guest and no address of another ever find the same physical byte, RAM and flash alike |
| FlashWindows.FlashBeyondKseg1 | platform/cfg_reader/genconf.c:356-358 | the concrete case beyond the bound: the second of two flashes of 32 MB starts at 0xA0000000 and its second page is mapped into the RAM |
| SoftInt.MulSi3 | bare-metal-apps/lib/libc.c:641-651 | the product modulo 2^32 |
| SoftInt.MulDSi3 | bare-metal-apps/lib/libc.c:653-672 | the exact 64-bit product, computed in 32-bit arithmetic |
| SoftInt.NothingWraps | bare-metal-apps/lib/libc.c:658-669 | no half-word product and none of the sums of them leaves 32 bits |
| SoftInt.MulDi3 | bare-metal-apps/lib/libc.c:674-685 | the product modulo 2^64, of unsigned words |
| SoftInt.SignedProduct | bare-metal-apps/lib/libc.c:674-685 | and so the signed product modulo 2^64 |
| SoftInt.UDivModSi4 | bare-metal-apps/lib/libc.c:687-706 | quotient and remainder for every divisor but zero; what the loops answer for zero |
| SoftInt.UDivModDi4 | bare-metal-apps/lib/libc.c:828-853 | quotient and remainder for every divisor but zero; for zero, whatever the processor makes of 1 / 0, and the remainder is not written |
| SoftInt.DivSi3 | bare-metal-apps/lib/libc.c:708-728 | truncates toward zero, for every nonzero divisor, the wrapping quotient included |
| SoftInt.ModSi3 | bare-metal-apps/lib/libc.c:730-748 | the remainder takes the dividend's sign |
| SoftInt.TruncIdentity | bare-metal-apps/lib/libc.c:708-748 | truncated quotient and remainder determine the dividend, with the remainder smaller than the divisor and of the dividend's sign |
| SoftInt.TruncIsUnique | bare-metal-apps/lib/libc.c:708-748 | and no other pair does |
| SoftInt.DivDi3 | bare-metal-apps/lib/libc.c:886-904 | truncates toward zero, for every nonzero divisor, the wrapping quotient included |
| SoftInt.ModDi3 | bare-metal-apps/lib/libc.c:866-884 | the code's remainder, whose sign depends on the divisor as well |
| SoftInt.LongIdentityIff | bare-metal-apps/lib/libc.c:866-904 | quotient times divisor plus remainder is the dividend if and only if the divisor is positive or divides it, and the quotient does not wrap |
| SoftInt.LongIdentityFails | bare-metal-apps/lib/libc.c:866-884 | a concrete pair for which it is not |
| Binary32.FieldsAreMasks | bare-metal-apps/lib/include/libc.h:101-103 | the masks and shifts are the fields of the word |
| Binary32.Unpack | bare-metal-apps/lib/include/libc.h:104 | packed fields in range are found again: one word for one triple |
| Binary32.PackedValue | bare-metal-apps/lib/include/libc.h:104 | a packed word is the normal number its fields spell |
| Binary32.HalfUnitIsNearest | bare-metal-apps/lib/libc.c:1132-1190 | strictly less than half a unit away, and not below a power of two, no finite float is as near |
| Binary32.ClearHidden | bare-metal-apps/lib/libc.c:1185 | masking the hidden bit off a 24-bit significand leaves its fraction |
| SoftDivide.Subtractions | bare-metal-apps/lib/libc.c:1166-1176 | the 25 subtract-and-shift steps compute floor(m1 * 2^24 / m2) |
| SoftDivide.QuotientBits | bare-metal-apps/lib/libc.c:1178-1185 | the quotient has 25 bits and rounding it never carries past the hidden bit |
| SoftDivide.NoTies | bare-metal-apps/lib/libc.c:1178-1183 | the rounded quotient is strictly within half a unit: a tie would need 2^24 to divide the divisor |
| SoftDivide.QuotientExpFits | bare-metal-apps/lib/libc.c:1142-1182 | the code's exponent is one of a normal number exactly when the exact quotient is in the normal range |
| SoftDivide.DivSf3 | bare-metal-apps/lib/libc.c:1132-1190 | the code computes the specification's word on all words, zero operands included |
| SoftDivide.DivByZeroIsNoNaN | bare-metal-apps/lib/libc.c:1147-1150 | division by +0 gives the normal numbers 2^31 and, for a negative dividend, 2^32 |
| SoftDivide.DivZero | bare-metal-apps/lib/libc.c:1152-1154 | the word 0 divided by any other word is 0 |
| SoftDivide.DivIsNearest | bare-metal-apps/lib/libc.c:1132-1190 | for normal operands with the quotient in the normal range, the result is the one finite float nearest to the exact quotient |
| SoftMultiply.DroppedBits | bare-metal-apps/lib/libc.c:1102-1107 | three of four partial products lose less than one and a half counts of 2^18, and their sum fits 32 bits |
| SoftMultiply.MulSf3 | bare-metal-apps/lib/libc.c:1080-1129 | the code computes the specification's word on all words |
| SoftMultiply.MulIsAccurate | bare-metal-apps/lib/libc.c:1080-1129 | for normal operands with a normal product: normal, less than 17/32 of a unit in the last place from the exact product, and the same in either order |
| SoftMultiply.MulCommutes | bare-metal-apps/lib/libc.c:1080-1129 | commutative on all words |
| SoftMultiplyRounding.MulZero | bare-metal-apps/lib/libc.c:1089-1092 | a product with the word 0 is the word 0, in either order |
| SoftMultiplyRounding.RoundsAwayIff | bare-metal-apps/lib/libc.c:1101-1126 | for normal operands with a normal product: no finite float is nearer to the exact product, and one as near lies nearer to zero, if and only if the dropped bits are less than a count or the kept ones are not all ones below the rounding position |
| SoftMultiplyRounding.SquareMisrounds | bare-metal-apps/lib/libc.c:1102-1117 | the concrete case: the square of 8392156 is rounded to the farther of two floats |
| SoftAdd.AddCommutes | bare-metal-apps/lib/libc.c:914-999 | commutative on all words |
| SoftAdd.AlignmentLoss | bare-metal-apps/lib/libc.c:950-956 | aligning loses less than one guard count, and nothing up to an exponent gap of six |
| SoftAdd.NoDeepCancellation | bare-metal-apps/lib/libc.c:950-972 | with a gap of two or more, at most one bit cancels |
| SoftAdd.NormalizeUp | bare-metal-apps/lib/libc.c:968-972 | the loop stops and shifts the top bit to bit 29 or 30 |
| SoftAdd.RoundAndPack | bare-metal-apps/lib/libc.c:974-996 | rounding to even, the second carry and packing |
| SoftAdd.AddSf3 | bare-metal-apps/lib/libc.c:914-999 | the code computes the specification's word on all words |
| SoftAdd.AddIsAccurate | bare-metal-apps/lib/libc.c:914-999 | for normal operands: in either order the same; 0 when they cancel; and wherever the exact sum is a normal magnitude, less than 17/32 of a unit in the last place from it |
| SoftAddRounding.AddZero | bare-metal-apps/lib/libc.c:924-930 | the sum of any word and the word 0, in either order, is that word |
| SoftAddRounding.RoundsRightIff | bare-metal-apps/lib/libc.c:914-999 | for normal operands with a normal sum, at every exponent gap: no finite float is nearer to the exact sum and one as near leaves the result an even fraction, if and only if the guard bits do not show a tie that dropped bits contradict |
| SoftAddRounding.ExactlyAlignedIff | bare-metal-apps/lib/libc.c:950-990 | in particular, where alignment drops nothing: exactly unless the aligned sum carries into bit 30 and its low eight bits are 65 |
| SoftAddRounding.CloseExponentsRoundRight | bare-metal-apps/lib/libc.c:950-990 | so always with exponents five apart or less |
| SoftAddRounding.CarryMisrounds | bare-metal-apps/lib/libc.c:974-982 | the concrete case, exponents six apart: 16777212 + 131073.015625 gives 16908284 though 16908286 is nearer |
| SoftAddRounding.LargerIsNearest | bare-metal-apps/lib/libc.c:936-941 | beyond a gap of 25 the larger operand is the nearest float |
| SoftAdd.TooSmallToMatter | bare-metal-apps/lib/libc.c:934-939 | the early exit at a gap beyond 25 is at most a quarter unit off |
| SoftConvert.FloatSiSf | bare-metal-apps/lib/libc.c:1252-1276 | both loops end for every integer but the least, with the specification's word |
| SoftConvert.FirstLoopStopsIff | bare-metal-apps/lib/libc.c:1264-1267 | the first loop ends if and only if the integer is not -2^31, whose arithmetic shifts never clear the tested bits |
| SoftConvert.FloatValue | bare-metal-apps/lib/libc.c:1252-1276 | the float is the integer with all but its 24 leading bits cleared, so rounded toward zero |
| SoftConvert.FloatZeroIff | bare-metal-apps/lib/libc.c:1252-1276 | only 0 becomes the word 0 |
| SoftConvert.FixSfSi | bare-metal-apps/lib/libc.c:1205-1226 | the code computes the specification's integer on all words, inside 32 bits |
| SoftConvert.FixTruncatesIff | bare-metal-apps/lib/libc.c:1205-1226 | for every finite float: the result is the value truncated toward zero if and only if the magnitude is below 2^31, the exponent at most 157 |
| SoftConvert.ConvertRoundTrip | bare-metal-apps/lib/libc.c:1205-1276 | to float and back keeps sign and 24 leading bits, hence every integer up to 2^24 in magnitude |
| SoftConvert.CmpSf2 | bare-metal-apps/lib/libc.c:1020-1045 | the code compares words as signed integers, flipping the signs when both are negative |
| SoftConvert.CompareOrdersIff | bare-metal-apps/lib/libc.c:1020-1045 | comparison orders finite floats as numbers, whatever their signs, if and only if they are not the two different zeros |
| SoftConvert.ZerosCompareUnequal | bare-metal-apps/lib/libc.c:1020-1045 | the concrete case: +0 is taken for larger than -0 |
| Text.Itoa | bare-metal-apps/lib/libc.c:281-303 | the buffer holds the printed integer and its terminator, the rest is untouched; an unsupported base gives the empty string |
| Text.WriteDigits | bare-metal-apps/lib/libc.c:289-293 | the do-while writes the digits lowest first and ends with a leading digit of the number's sign |
| Text.DigitsSpell | bare-metal-apps/lib/libc.c:289-293 | the digits spell the number in their base, without a leading zero |
| Text.Atoi | bare-metal-apps/lib/libc.c:259-279 | blanks, one sign and a run of digits, modulo 2^32 |
| Text.AtoiReads | bare-metal-apps/lib/libc.c:263-278 | for any blanks, an optional sign, the digits of any number and whatever follows them: the signed number modulo 2^32 |
| Text.AtoiWithoutDigits | bare-metal-apps/lib/libc.c:263-278 | 0 when no digit follows the blanks and the sign |
| Text.Strtol | bare-metal-apps/lib/libc.c:228-257 | sign, 0x prefix and at most nine digits modulo 2^32; the end pointer is one short exactly when all nine were read |
| Text.StrtolReads | bare-metal-apps/lib/libc.c:231-256 | for an optional minus sign, an optional 0x, at most nine digits or letters and whatever follows them: the signed number they spell in base 16 or the caller's, and where the end pointer comes out |
| Text.StrtolOfHex | bare-metal-apps/lib/libc.c:235-256 | every 32-bit number in hexadecimal behind 0x, in small or capital letters, is read back whatever base was asked for |
| Text.AtoiOfItoa | bare-metal-apps/lib/libc.c:259-303 | atoi gives every 32-bit integer back that itoa printed in base 10, the least one included |
| Text.StrtolOfItoaIff | bare-metal-apps/lib/libc.c:228-303 | strtol gives a printed integer back in the same base, for every base from 2 to 36, if and only if its magnitude is below base^9 |
| Text.StrtolOfItoa | bare-metal-apps/lib/libc.c:228-303 | so for every 32-bit integer from base 11 on; in base 10 exactly below 10^9 |
| Text.StrtolStopsAtNine | bare-metal-apps/lib/libc.c:240-254 | the concrete case: of 1000000000 the tenth digit is lost, and the end pointer is at the ninth |
| Bits.BitByBit | bare-metal-apps/lib/include/libc.h:101-104 | the And and Or the other rows use are those of the bits |

## Left out

- SoftConvert.FloatSiSf: requires an integer other than -2^31, because the code does not return for it (SoftConvert.FirstLoopStopsIff).
- Queue.Ring.constructor: takes the two allocations to succeed.
- Heap.Allocator.Free: requires the pointer of a live block, as the caller must.
- MessageRings.Guest.ReceiveMessage: does not model the spinning wait of a blocking call; it returns 0 when no message is there.
- MessageRings.Guest.IrqNetwork: is the handler alone; Messages.EndToEndFifo covers sends between its rounds.
- SoftAdd.AddIsAccurate, SoftAddRounding.RoundsRightIff, SoftMultiply.MulIsAccurate, SoftMultiplyRounding.RoundsAwayIff, SoftDivide.DivIsNearest: are about normal operands and normal exact results. NaN, infinities, subnormals, negative zero and exponent overflow are computed as the code does, but nothing is said about their values.
- SoftInt.UDivModDi4: does not say what 1 / 0 is; C leaves it undefined, and the guests are built without a check for it.
- SoftMultiply.MulSf3: does not cover a compiler that uses the undefined overflow of a product of two `int32_t`.
- Messages.Send: is that of the PIC32MZ build; built for the Baikal-T1, a send to a full ring sets another interrupt bit than an accepted one.
- MessageRings.SendMsg: says when fast delivery is asked for; Scheduler.Scheduler.FastInterruptDelivery is what it does.
- SoftDivide.DivWord: takes the constants for a zero divisor as correctly rounded by the compiler.
- Separation.LookupIsRam: is about RAM and about addresses the VM's `memory_maps` entries leave alone, which are the user's choice and may overlap. Limits.FlashShownIff and FlashWindows.GuestsShareNoByte are about flash windows inside KSEG0, a bound the generator does not check.
- Separation.Machines.CreateVm: models the entries and both counters of `create_vm`, not the rest of the VM structure.
- Layout.GenConfVms: covers the PIC32MZ build; parsing with libconfig and file output are not part of this model, and the `memory_maps` rows are inputs, so a malformed one does not make it fail.
- Uart.Send: takes the guest's buffer as a value, since its owner is blocked until it is sent; its mapping is Tlb.Hardware.CreateEntry.
- Context save and restore, which `run_scheduler` calls around the change of VCPU.
- `queue_remtail`, which reads the slot behind the last element.
- The 64-bit shift helpers, whose unsigned comparison is wrong for counts above 32.
- `calloc` and `realloc`, and the guests' own allocator in `bare-metal-apps/lib/malloc.c`.
- Register access, interrupt controller set-up, boot code, the other drivers, instruction emulation and the applications.
- The thin wrappers over the soft arithmetic, such as `__subsf3` and `__udivsi3`, and printing of floats.

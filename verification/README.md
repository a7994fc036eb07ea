# A verified model of the ACRN device model

The ACRN device model is the user-space program that gives a guest its memory, its devices and its
firmware tables. This project models the parts of it whose correctness is hardest to see from the
code, in Dafny, and proves what they promise for every input and every reachable state.

`dafny verify dfyconfig.toml` checks the whole project.

| file | what it models |
|---|---|
| `Common.dfy` | constants and a datatype that several parts share |
| `RbShape.dfy`, `RbBalance.dfy`, `RbTree.dfy` | the red-black tree macros, in place on nodes with parent links |
| `Mmio.dfy` | the MMIO registry with its one-entry cache, over two such trees |
| `HugeTlb.dfy` | the huge-page allocator: splitting, reserving and mapping guest memory |
| `BlockQueues.dfy`, `BlockSched.dfy`, `BlockRuns.dfy`, `BlockOrder.dfy`, `BlockExact.dfy` | the block request scheduler: its queues, then its workers and clients as interleaved steps |
| `BlockChs.dfy` | disk geometry |
| `Mevent.dfy`, `MeventExact.dfy`, `MeventHandlers.dfy` | the event dispatcher: its deferred reclamation, as interleaved steps, and which handlers it calls |
| `Uart.dfy`, `UartRead.dfy` | the 16550 UART, and what a guest reads from it |
| `E820.dfy` | the guest memory map: low and high memory, address lookup, the E820 table |
| `MpTable.dfy`, `MpRouting.dfy` | the MultiProcessor table, and what it tells a guest |
| `Timer.dfy` | ticks and timespecs |

## How to read it

**Red-black trees.** A tree is described twice. `RbShape.Tree` is its shape as a value, and a
zipper (`Ctx`, `Plug`) says where in the tree an operation is at work. `RbTree.RbTree` is the heap:
nodes whose `left`, `right`, `parent` and `color` fields the rotations and recolouring loops rewrite
one at a time. `At(c, t)` says that every field of every node is what the shape says. The insertion
loop keeps `Rising` (a red-black tree but for one red node under a red parent) and the removal loop
keeps `Short` (one subtree a black level too short). From `Short` it follows that the sibling the C
code dereferences is never null. Both loops end because the place of the defect only moves up, or,
once, gains a red parent.

**Huge pages.** The kernel is a pair of counters (`nr`, `free`) for each page size and the room it
has for more pages (`room`). A write to `nr_hugepages` fails, or moves the counters towards the
requested total by any amount, but when raised by at least the room there is, and when lowered by
what is free; a large page given back makes room for `gives` small ones. `writes` says that writes do
not fail. `Covered` says that the small free pages cover the small need and every large page that
must fall back to small ones. Reserving succeeds exactly when it ends in a `Covered` state, it does
end in one whenever writes work and the room covers the gaps (`Hopeful`, `ObtainableFor`), and from
such a state no mapping fails.

**Block requests and events.** Each region under a mutex is one step, and a run is any sequence of
steps (`Reached`). The invariants are proved step by step and then for every run.

**UART.** `UartSpec` is the device with its receive ring as a bounded queue. `Uart.Uart` is the code,
with the ring in an array, and every operation of it is proved to do what the specification does.
What the specification means is stated over the history of operations: which bytes came and which
were read since the ring was last emptied, which modem lines moved since the guest last looked, and
so when the interrupt pin must be asserted. The history functions look at the device each operation
met, for instance to tell whether the ring had room; for the overrun and transmit bits they are
latches over the same events the registers are. `UartRead` gives the byte that a read of each register
answers, from those histories and from the values last written (`Last`), and the bytes sent.

**Tables.** The E820 table is read as a map from addresses to types. The MultiProcessor table is
read by a walker that knows only the format in sections 4.1 to 4.3 of the MultiProcessor
Specification 1.4; `MpRouting` says which entries it finds.

## What turned out not to hold as stated

* *A held-back block request starts only after an earlier-submitted request that ends at its offset
  has left.* A later request with the same end block can release it (`BlockOrder.EarlierFails`,
  `BlockOrder.OrderFails`). All along a run, releases are by earlier requests if and only if every
  departure releases only requests submitted after it (`BlockExact.EarlyExact`). That is so when no
  submission ends where a held-back request starts (`BlockOrder.CourteousOrderly`), and in particular
  when outstanding requests have distinct end blocks (`DistinctStartsAfterEarlier`, `ReachedOrder`).
  The order itself survives a step exactly when the request that leaves is not shadowed
  (`CompletedOrder`, `CancelledOrder`).
* *No freed event is in a batch being handled.* Deferring the deletion is not enough: a thread in
  mevent_enable that has found the event can be overtaken by the whole deletion and then put the
  event back on epoll (`MeventExact.EnableUnsafe`). The epoll call of an enable is harmless in every
  later interleaving if and only if no deletion of the event has passed its own epoll call
  (`MeventExact.EnableExact`); with enables like that, deferred deletions and deletions by an event's
  own handler are safe in every run (`Mevent.DeferredSafe`).
* *Events without a teardown, which are freed at once, can be deleted like the others.* They cannot
  (`MeventExact.ImmediateUnsafe`). Whatever batch the kernel returns, the free is safe if and only if
  the event is off epoll when the dispatch thread polls (`MeventExact.FreeExact`), and a handler may
  delete an event if and only if it is its own or off epoll at that poll (`MeventExact.HandlerExact`).
* *Unregistering leaves no dangling node.* A freed node stays linked exactly when the descriptor
  names a registered range that it does not match or may not remove (`Mmio.Mmio.UnregisterMem`), and
  a caller can come to do that (`MmioSpec.MismatchReached`, `Mmio.FreedLinked`).
* *Every mapping is aligned to its page size.* It is, whatever falls back, if the page-aligned bios
  region is smaller than a large page or a multiple of one; any other bios region gets a misaligned
  large page as soon as the pools hold all of the guest (`HugeTlb.HugeTlb.SetupMemory`,
  `HugeTlb.Misaligned`, `HugeTlb.MisalignedBios`).
* *The E820 table is sorted, and its RAM is the guest's memory.* Both hold exactly when the guest has
  at least 1 MB (`E820Map.TableSorted`, `E820Map.TableRamExact`).
* *The APIC ids of the MultiProcessor table tell the processors apart.* They do exactly for up to 256
  processors (`MpRouting.NumberedExact`).
* *A walker finds the entries of the MultiProcessor table.* In the memory set aside for the table, it
  does exactly when the length fits the 16-bit field (`MpTable.Build`, `MpTable.LongTable`).
* *The address lookup accepts only ranges in guest memory.* On 64-bit words this holds exactly while
  5 GB plus twice the high memory is at most 2^64 (`GuestMemory.AcceptsExact`).
* *Ticks survive the conversion to a timespec and back.* They do exactly up to 1 GHz
  (`Timer.RoundTripExact`).

## Model

| member | source | states |
|---|---|---|
| RbTree.RbTree.RotateLeft | devicemodel/include/tree.h:342-361 | rewriting the links in place turns exactly the subtree at hand, wherever it hangs, and leaves every other field alone |
| RbTree.RbTree.RotateRight | devicemodel/include/tree.h:363-382 | the mirror image |
| RbTree.RbTree.InsertColor | devicemodel/include/tree.h:437-480 | from a tree with one red node under a red parent, the loop ends in a valid red-black tree with the same in-order contents |
| RbTree.RbTree.Insert | devicemodel/include/tree.h:640-670 | returns null exactly when the new range overlaps none; then the tree is valid and its contents are the old ones with the new range put in; otherwise it returns an overlapping range and nothing changes |
| RbTree.RbTree.RemoveColor | devicemodel/include/tree.h:482-570 | from a tree with one subtree a black level short, the loop ends in a valid red-black tree with the same in-order contents |
| RbBalance.ShortSide | devicemodel/include/tree.h:486-540 | the sibling of a short black subtree exists, is a black level taller, and if red has two black children: no null sibling is dereferenced |
| RbTree.RbTree.RemoveInner | devicemodel/include/tree.h:575-615 | the two-child case: the successor is unlinked and takes the place, links and colour of the removed node; contents are the others in order |
| RbTree.RbTree.Remove | devicemodel/include/tree.h:572-638 | removes exactly the given node: the rest stays in order, balanced and consistently linked |
| RbTree.RbTree.Lookup | devicemodel/core/mem.c:76-92 | finds a range that covers the address, or there is none |
| RbTree.RbTree.UpLinks | devicemodel/include/tree.h:312-324 | in a valid tree every parent link is matched by a child link, only the root has none, and a red node has a black parent |
| RbTree.RbTree.DownLinks | devicemodel/include/tree.h:312-324 | in a valid tree every child links back, and lies strictly before or after its parent |
| RbBalance.CompareOverlap | devicemodel/core/mem.c:66-74 | the comparator answers zero exactly for ranges that share an address, and otherwise orders them as their addresses are |
| RbBalance.PlugBalanced | devicemodel/include/tree.h:437-480 | a tree is balanced exactly when the subtree at hand and its surroundings fit: the decomposition both loops rest on |
| RbBalance.HeightBound | devicemodel/include/tree.h:437-480 | a valid tree of n ranges has height at most 2 lg(n + 1) |
| Mmio.RegisterIn | devicemodel/core/mem.c:193-216 | succeeds exactly when the range is free of every registered one, and then adds exactly it |
| Mmio.UnregisterIn | devicemodel/core/mem.c:230-259 | succeeds exactly when the range found at the base is the one described and may be removed, and then removes exactly it; UnregisterExact says what that means |
| Mmio.Mmio.constructor | devicemodel/core/mem.c:273-279 | an empty registry with no cached entry |
| Mmio.Mmio.Select | devicemodel/core/mem.c:153-181 | with or without a cached entry, the entry picked is the one the registry alone determines |
| Mmio.Mmio.RegisterMem | devicemodel/core/mem.c:218-222 | the cached entry stays a node of the root tree |
| Mmio.Mmio.RegisterMemFallback | devicemodel/core/mem.c:224-228 | the same for the fallback tree |
| Mmio.Mmio.UnregisterMem | devicemodel/core/mem.c:261-265 | the cached entry stays null or a node of the root tree, and a freed node is still linked exactly on a mismatch |
| Mmio.Mmio.UnregisterMemFallback | devicemodel/core/mem.c:267-271 | the same for the fallback tree |
| Mmio.Run | devicemodel/core/mem.c:153-271 | cache agreement: in every run of registrations, unregistrations and accesses each call answers as the registry without a cache would |
| MmioSpec.MismatchReached | devicemodel/core/mem.c:230-259 | a registered range can come to be named by a description that does not match it |
| Mmio.FreedLinked | devicemodel/core/mem.c:241-259 | and then the node it frees is still linked |
| MmioSpec.AccessMeaning | devicemodel/core/mem.c:153-181 | an access goes to the root range that contains it, else to the fallback range, else nowhere |
| MmioSpec.UnregisterExact | devicemodel/core/mem.c:230-259 | where a range covers the base, unregistering removes exactly it if base, size and the first 80 characters of the name agree and the flag of value 4 (immutable) is clear, and otherwise answers -1 and changes nothing |
| MmioSpec.UnregisterNothing | devicemodel/core/mem.c:230-259 | where none does it answers -1 and changes nothing |
| MmioSpec.RegisterUnregister | devicemodel/core/mem.c:193-259 | registering puts the range in the tree asked for; unregistering the same descriptor gives back the registry, except that an immutable range stays and the answer is -1 |
| MmioSpec.RegisterRefused | devicemodel/core/mem.c:193-216 | a range that shares an address with a registered one, or for which there is no memory, is refused |
| MmioSpec.RunSane | devicemodel/core/mem.c:193-259 | in every run the registered ranges of each tree are disjoint |
| HugeTlb.HugeTlb.CheckMemgap | devicemodel/core/hugetlb.c:495-515 | finds a gap exactly when some level needs more than it has free, and records need less free |
| HugeTlb.HugeTlb.ReserveMore | devicemodel/core/hugetlb.c:518-540 | the kernel is asked for the pages lacking: whatever it grants the gap shrinks by just that, and if writes work the gap shrinks by at least the room there is |
| HugeTlb.HugeTlb.ReleaseLarger | devicemodel/core/hugetlb.c:543-580 | gives back at most one page, only from a surplus, with the books kept; if writes work it gives one back whenever a surplus page is free, and the room for small pages grows by it |
| HugeTlb.HugeTlb.ReservePages | devicemodel/core/hugetlb.c:596-645 | ends for every kernel behaviour, keeps the recorded gap equal to need less free with gaps passed down, succeeds exactly when the pools cover the guest, and does succeed whenever writes work and the room covers the gaps, counting what surplus large pages give |
| HugeTlb.HugeTlb.MmapFromLevel | devicemodel/core/hugetlb.c:265-296 | a mapping takes its pages or fails with nothing changed |
| HugeTlb.HugeTlb.MapRegion | devicemodel/core/hugetlb.c:298-327 | maps as many large pages as are free, hands the rest down, and succeeds exactly when the small pages suffice; the size of the region is conserved |
| HugePages.StillEnough | devicemodel/core/hugetlb.c:298-375 | mapping one region greedily leaves enough for the regions after it |
| HugeTlb.HugeTlb.MapAll | devicemodel/core/hugetlb.c:786-804 | with the pools covering the guest, none of the three mappings fails |
| HugeTlb.HugeTlb.SplitSizes | devicemodel/core/hugetlb.c:717-738 | each region is split into page multiples that add up to it, with less than one large page left at the smaller level |
| HugeTlb.HugeTlb.Secure | devicemodel/core/hugetlb.c:742-747 | checking and reserving succeed exactly when the pools cover the guest, and whenever writes work and the room covers the gaps |
| HugeTlb.HugeTlb.SetupMemory | devicemodel/core/hugetlb.c:687-804 | end to end: if the pages can be secured, as they can be whenever writes work and the room covers the gaps, every mapping succeeds; the pieces fill the three regions end to end and share neither guest memory nor file pages, at an aligned base inside a reserved area of the exact size; they lie on page boundaries if the bios region is even, and with pools that hold the whole guest only then |
| HugeTlb.Misaligned | devicemodel/core/hugetlb.c:687-804 | whenever the pools hold the whole guest, a bios region that is not even gets a misaligned large page |
| HugeTlb.MisalignedBios | devicemodel/core/hugetlb.c:706-804 | such a guest and such pools, with pages of 2 MB and 1 GB |
| HugePages.RegionTiles | devicemodel/core/hugetlb.c:298-327 | the pieces of a region fill it end to end |
| HugePages.GuestApart | devicemodel/core/hugetlb.c:786-804 | no two mappings share guest memory or pages of a file |
| HugePages.GuestMapped | devicemodel/core/hugetlb.c:786-804 | whatever fell back, the pieces tile the regions and are apart |
| HugePages.GuestOnPages | devicemodel/core/hugetlb.c:706-804 | whatever fell back, the pieces lie on page boundaries if the bios region is smaller than a large page or a multiple of it; if nothing fell back, exactly then |
| BlockIf.Context.constructor | devicemodel/hw/block_if.c:742-748 | all 72 elements are free |
| BlockIf.Context.Enqueue | devicemodel/hw/block_if.c:160-205 | without a free element nothing happens; otherwise the request is last in the queue, ends past its segments (a flush at 128), and is ready exactly when nothing outstanding ends where it starts |
| BlockQueues.SumLaws | devicemodel/hw/block_if.c:176-187 | the total of the segments is zero for none, the segment itself for one, and additive |
| BlockIf.Context.Dequeue | devicemodel/hw/block_if.c:207-224 | takes the first ready request, or finds none |
| BlockIf.Context.Complete | devicemodel/hw/block_if.c:226-243 | frees the element and releases exactly the requests that start where it ended |
| BlockIf.Context.Cancel | devicemodel/hw/block_if.c:830-851 | takes out the first pending element of the request, if any |
| BlockSched.ApplyInv | devicemodel/hw/block_if.c:160-243 | every step of workers and clients keeps the elements conserved, requests numbered, every held-back request waiting for an earlier one, and every busy request manned |
| BlockSched.HeadReady | devicemodel/hw/block_if.c:176-243 | with nothing busy the head of the pending queue can be dispatched |
| BlockRuns.NoLostWakeup | devicemodel/hw/block_if.c:379-407 | in every reachable state with work outstanding some worker is awake or processing |
| BlockRuns.Progress | devicemodel/hw/block_if.c:379-407 | no deadlock: outstanding work can always be advanced by a worker, without help from clients |
| BlockRuns.ReachedFate | devicemodel/hw/block_if.c:329-407 | in every run each accepted request is outstanding, or got its callback once, or was cancelled once, never both |
| BlockRuns.Drained | devicemodel/hw/block_if.c:905-933 | when the last worker has exited the queues are empty, all elements are free, and every accepted request got one callback or one cancel |
| BlockRuns.OutstandingEnds | devicemodel/hw/block_if.c:207-243 | once submissions stop, open or closing, the queues change only as often as the outstanding requests need |
| BlockRuns.CanFinish | devicemodel/hw/block_if.c:379-407 | from every reachable state the workers alone can answer all that is outstanding |
| BlockRuns.DrainDescends | devicemodel/hw/block_if.c:905-933 | after close every step that changes anything uses up work, so the drain ends |
| BlockRuns.DrainMoves | devicemodel/hw/block_if.c:379-407 | and until all workers have exited one of them can move |
| BlockRuns.AdjacentHeld | devicemodel/hw/block_if.c:160-205 | in every run a submission that starts where an outstanding read, write, discard or flush ends is held back |
| BlockRuns.CancelOwn | devicemodel/hw/block_if.c:830-851 | in every run a cancel drops a pending request only if it was submitted as the one named |
| BlockRuns.CancelDrops | devicemodel/hw/block_if.c:830-851 | and a cancel of a pending request drops it, or an earlier submission of the same |
| BlockOrder.StartsAfterRelease | devicemodel/hw/block_if.c:176-243 | in every run a request held back at submission starts only after a request that ends at its offset has left |
| BlockOrder.StartsAfterEarlier | devicemodel/hw/block_if.c:176-243 | and that request was submitted earlier, if every departure releases only requests submitted after it |
| BlockExact.EarlyExact | devicemodel/hw/block_if.c:176-243 | all along a run releases are by earlier requests if and only if every departure releases only later ones |
| BlockExact.StepExact | devicemodel/hw/block_if.c:226-243 | the same for one step |
| BlockOrder.CourteousOrderly | devicemodel/hw/block_if.c:176-205 | departures are like that when no submission ends where a held-back request starts |
| BlockOrder.DistinctStartsAfterEarlier | devicemodel/hw/block_if.c:176-243 | which distinct end blocks guarantee |
| BlockOrder.EarlierFails | devicemodel/hw/block_if.c:176-243 | a run in which a held-back request starts before anything submitted earlier has left |
| BlockOrder.ReachedOrder | devicemodel/hw/block_if.c:160-243 | with distinct end blocks nothing is ready or busy while an earlier request ending at its offset is outstanding |
| BlockOrder.CompletedOrder | devicemodel/hw/block_if.c:226-243 | a completion keeps that order exactly when the request is not shadowed: no request waits at its end while another outstanding one, submitted before the waiter, ends there too |
| BlockOrder.CancelledOrder | devicemodel/hw/block_if.c:830-851 | and so does a cancel |
| BlockOrder.OrderFails | devicemodel/hw/block_if.c:160-243 | a run with equal end blocks that breaks the order |
| BlockChs.Chs | devicemodel/hw/block_if.c:939-980 | the geometry covers the clamped disk and no cylinder more would fit; it has 17 sectors a track and the fewest heads from 4 to 16 that keep the cylinders below 1024, or else 31, 63 or 255 sectors by size with 16 heads; its cylinders fit 16 bits, and passing the heads through 8 bits changes nothing |
| BlockChs.EightBits | devicemodel/hw/block_if.c:960-968 | the truncated head count decides no branch differently and is right where it is kept |
| Mevent.ApplyInv | devicemodel/core/mevent.c:149-356 | every step of the dispatch thread and of the threads that add, enable, disable and delete keeps each event in one place and torn down when and only when freed |
| Mevent.DeferredSafe | devicemodel/core/mevent.c:193-205 | in every run whose deletions are deferred or by the event's own handler, and whose enables no deletion overtakes, no freed event is in the rest of a batch |
| MeventExact.EnableExact | devicemodel/core/mevent.c:264-291 | the epoll call of an enable is harmless in every later interleaving if and only if no deletion has passed its own epoll call |
| MeventExact.EnableUnsafe | devicemodel/core/mevent.c:264-291 | a run with only deferred deletions in which an overtaken enable brings a freed event back |
| MeventExact.FreeExact | devicemodel/core/mevent.c:334-356 | freeing an event without teardown is safe for every batch the kernel can return if and only if the event is off epoll at the poll |
| MeventExact.HandlerExact | devicemodel/core/mevent.c:334-356 | a handler deletes safely, for every batch, if and only if the event is its own or off epoll at the poll |
| MeventExact.ImmediateUnsafe | devicemodel/core/mevent.c:334-356 | a run in which an event without teardown is freed while a batch holds it |
| Mevent.TornOnce | devicemodel/core/mevent.c:305-356 | in every run a teardown has been called once if its event is freed and never otherwise |
| Mevent.DestroyedOnce | devicemodel/core/mevent.c:149-191 | after destroy every teardown has been called once, exactly for events no thread is adding or deleting |
| Mevent.Dispatcher.DrainDelList | devicemodel/core/mevent.c:315-332 | the in-place loop reclaims the whole list, each event once |
| Mevent.Dispatcher.Destroy | devicemodel/core/mevent.c:149-191 | reclaims both lists |
| Mevent.SweptOnce | devicemodel/core/mevent.c:315-332 | sweeping a list reclaims exactly its events |
| MeventHandlers.StateExact | devicemodel/core/mevent.c:334-356 | in every run an event is marked for its handler exactly until it is deleted |
| MeventHandlers.VisitExact | devicemodel/core/mevent.c:193-205 | in every run, at every slot of every batch, the handler runs if the event is not deleted and the slot is passed over if it is |
| MeventHandlers.NeverAgain | devicemodel/core/mevent.c:193-205 | in every run no step after the deletion of an event starts its handler |
| MeventHandlers.BatchDone | devicemodel/core/mevent.c:193-205 | in every run each event a poll reported has had its turn, once and in order, before the deletion list is reclaimed |
| MeventHandlers.DisabledSilent | devicemodel/core/mevent.c:293-303 | in every run, after an event is disabled or taken off epoll by its deletion, no poll reports it until it is enabled |
| MeventHandlers.EnabledReported | devicemodel/core/mevent.c:264-291 | after an event is enabled the next poll can report it |
| Uart.Uart.PutChar | devicemodel/hw/uart_core.c:190-206 | the ring in the array is a bounded queue: a byte goes to its end or, when full, is refused; the backend is polled exactly while there is room |
| Uart.Uart.GetChar | devicemodel/hw/uart_core.c:208-227 | the oldest byte leaves, or 0xFF from an empty ring |
| Uart.Uart.RxReset | devicemodel/hw/uart_core.c:164-179 | an empty ring of the clamped size, polled again, with unread input flushed |
| Uart.Uart.ToggleIntr | devicemodel/hw/uart_core.c:337-348 | the pin is asserted exactly when a reason is pending |
| Uart.Uart.constructor | devicemodel/hw/uart_core.c:350-366 | the reset device, quiet, with a ring of one byte |
| Uart.Uart.Write | devicemodel/hw/uart_core.c:396-518 | does what the specification does, sends the byte to the backend when it should, and leaves the pin, the ring size and the polling right |
| Uart.Uart.Read | devicemodel/hw/uart_core.c:520-605 | does what the specification does, with the byte the guest gets; the next rows say which byte that is |
| UartRead.LineStatusExact | devicemodel/hw/uart_core.c:570-584 | in every run a read of the line status answers that a byte is ready exactly when some accepted byte is not yet read, overrun exactly when a loopback write was lost since the last such read, and always an empty transmitter |
| UartRead.InterruptExact | devicemodel/hw/uart_core.c:549-562 | in every run a read of the interrupt identification names the outstanding enabled cause of highest priority, or none, with the FIFO bits as the guest selected |
| UartRead.ModemStatusExact | devicemodel/hw/uart_core.c:585-591 | in every run a read of the modem status answers the lines as the guest set them, looped back or not, and which of them moved since the last such read |
| UartRead.DataExact | devicemodel/hw/uart_core.c:543-545 | in every run a read of the data register answers the oldest accepted byte not yet read, or 0xFF |
| UartRead.ReadsBack | devicemodel/hw/uart_core.c:520-605 | in every run each of the other registers reads as last written, under its mask and honouring the divisor latch |
| UartRead.NoRegister | devicemodel/hw/uart_core.c:595-597 | any other offset reads 0xFF |
| UartRead.WrittenExact | devicemodel/hw/uart_core.c:396-518 | in every run each register holds the value last written to it, under its mask (of the FIFO control, the enable bit) |
| UartRead.FlushExact | devicemodel/hw/uart_core.c:444-466 | in every run a write of the FIFO control empties ring and backend exactly on a change of mode or a receive reset |
| UartRead.DrainExact | devicemodel/hw/uart_core.c:368-394 | in every run a drain loses no byte outside loopback and stops only when none waits or the ring is full at the size the guest selected |
| UartRead.EchoExact | devicemodel/hw/uart_core.c:420-433 | in every run a byte written in loopback is received if the ring has room |
| Uart.Uart.Drain | devicemodel/hw/uart_core.c:368-394 | moves waiting bytes in order until the ring is full or none waits; in loopback drops one |
| Uart.Run | devicemodel/hw/uart_core.c:368-605 | in every run the code is in the specified state, bytes accepted are bytes read followed by the ring, which has the size the guest selected, the bytes sent are those written to the data register outside loopback, in order, and the pin is asserted exactly when an enabled cause is outstanding |
| UartSpec.ModemExact | devicemodel/hw/uart_core.c:471-496 | in every run the line bits follow the control register and each delta bit is set exactly when its line moved (RI: fell) since the status was last read |
| UartSpec.OverrunExact | devicemodel/hw/uart_core.c:420-433 | in every run the overrun bit is set exactly when a loopback write was lost since the line status was last read |
| UartSpec.ArmedExact | devicemodel/hw/uart_core.c:420-443 | in every run the transmit interrupt is pending exactly when it was offered and not yet reported |
| UartSpec.RingHistory | devicemodel/hw/uart_core.c:164-235 | in every run what was accepted since the last flush, all that left the backend outside loopback included, is what the guest read followed by the queue, which is within the selected size |
| UartPin.ReasonPending | devicemodel/hw/uart_core.c:317-331 | prioritising hides nothing: some reason is reported exactly when an enabled source is pending |
| UartPin.PinExact | devicemodel/hw/uart_core.c:317-348 | after every run a reason is pending exactly when an enabled cause has arisen that the guest has not cleared |
| GuestMemory.Vm.SetupMemory | devicemodel/core/vmmapi.c:398-416 | low and high memory add up to the size, low memory is filled first and never overfilled |
| GuestMemory.Vm.MapGpa | devicemodel/core/vmmapi.c:445-472 | answers, at the right offset, exactly the ranges that lie in low or in high memory |
| GuestMemory.AcceptsExact | devicemodel/core/vmmapi.c:452-472 | the comparisons on wrapping words are exact if and only if no end of a range can wrap |
| E820.CreateTable | devicemodel/core/sw_load_common.c:242-282 | the in-place edits of the default entries give the table for the guest's low and high memory, with empty entries removed |
| E820Map.TableSorted | devicemodel/core/sw_load_common.c:65-137 | the table is sorted and disjoint exactly when low memory reaches 1 MB |
| E820Map.TableKinds | devicemodel/core/sw_load_common.c:65-137 | for a guest with at least 1 MB of low memory, the type of every address: RAM is its memory less the hole below 1 MB; the hole, the rest of low memory, 128 MB above it and everything from the graphics memory through configuration space and the 64-bit PCI window are reserved; nothing else is in the table |
| E820Map.TableRamExact | devicemodel/core/sw_load_common.c:242-282 | the RAM of the table is the guest's memory less the hole exactly from 1 MB of low memory on |
| E820.RamIsMapped | devicemodel/core/sw_load_common.c:242-282 | an address is RAM exactly when the lookup accepts it outside that hole |
| E820.AddEntry | devicemodel/core/sw_load_common.c:187-240 | the in-place shift and overwrite split the first entry that contains the range into one, two or three; any other range changes nothing |
| E820Map.AddedMeaning | devicemodel/core/sw_load_common.c:187-240 | the table stays sorted and the type of addresses changes on exactly the range |
| E820.AddedAllMeaning | devicemodel/core/sw_load_common.c:187-240 | after any additions the type of an address is that of the last addition that covers it |
| MpSpec.WalkEncoded | devicemodel/include/mptable.h:78-123 | round trip: walking an encoded table by entry type gives back its entries and uses exactly its bytes |
| MpSpec.LittleEndian | devicemodel/include/mptable.h:78-123 | numbers lie low byte first and are read back as written |
| MpTable.ComputeChecksum | devicemodel/core/mptbl.c:82-92 | the summing loop gives the byte that makes a range sum to zero modulo 256 |
| MpTable.SetChecksum | devicemodel/core/mptbl.c:82-103 | storing it in a zero field of the range makes the range sum to zero |
| MpTable.BuildFloating | devicemodel/core/mptbl.c:94-103 | the floating pointer of section 4.1 of the MultiProcessor Specification 1.4, to the table after it, summing to zero |
| MpTable.BuildHeader | devicemodel/core/mptbl.c:105-114 | the header of section 4.2, with its fields in their places |
| MpTable.BuildProcessors | devicemodel/core/mptbl.c:116-133 | one entry for each processor, the first the bootstrap processor |
| MpTable.BuildBuses | devicemodel/core/mptbl.c:158-171 | the PCI bus, then the ISA bus |
| MpTable.GeneratePciInt | devicemodel/core/mptbl.c:200-222 | the APIC id read from the bytes before the cursor is that of the entry before |
| MpTable.BuildIoInts | devicemodel/core/mptbl.c:224-276 | the sixteen pins, then one entry for each interrupt of each bus; the callbacks' cursor ends where the count says |
| MpTable.CountIoInts | devicemodel/core/mptbl.c:184-198 | sixteen and one for each interrupt of each bus |
| MpTable.BuildLocals | devicemodel/core/mptbl.c:135-156 | the two local interrupts |
| MpTable.BuildEntries | devicemodel/core/mptbl.c:318-348 | all entries in place, with the cursor after them and their number in the header |
| MpTable.Build | devicemodel/core/mptbl.c:278-360 | fails, touching nothing, exactly when the memory is not mapped or a bus other than 0 is configured; otherwise pointer and table are in place, and a walker finds exactly the entries in exactly the recorded length and count, summing to zero, if and only if the length fits its field |
| MpTable.LongTable | devicemodel/core/mptbl.c:349-357 | a guest whose table fits the memory and not the field |
| MpTable.OneIoApic | devicemodel/core/mptbl.c:200-276 | every I/O interrupt entry names the table's one I/O APIC |
| MpRouting.ProcessorsExact | devicemodel/core/mptbl.c:116-133 | the processors come first and are all enabled; the first and no other carries the bootstrap flag, and each has its number as APIC id, in 8 bits |
| MpRouting.NumberedExact | devicemodel/core/mptbl.c:116-133 | no two processors share an APIC id if and only if there are at most 256 |
| MpRouting.RoutingExact | devicemodel/core/mptbl.c:200-276 | the I/O interrupt entries are exactly: the legacy controller on pin 0, IRQ 0 on pin 2, every other ISA interrupt but 2 on its own pin with 9 level and active low, and for each PCI bus the slots and pins its source numbers decode to; none if the guest owns its local APICs |
| MpRouting.LocalsExact | devicemodel/core/mptbl.c:135-156 | the local interrupt entries are exactly: pin 0 the legacy controller and pin 1 the non-maskable interrupt, on all processors |
| MpRouting.BusesExact | devicemodel/core/mptbl.c:158-171 | bus 0 is PCI and bus 1, which the ISA lines name, is ISA, and there is no other |
| MpRouting.IoApicsExact | devicemodel/core/mptbl.c:173-182 | there is one I/O APIC, enabled and at its address, unless the guest owns its local APICs |
| Timer.Galois | devicemodel/include/timer.h:33-54 | within the words, ticks fit in a timespec exactly when the timespec they convert to is at most it |
| Timer.RoundTrip | devicemodel/include/timer.h:33-54 | up to 1 GHz converting ticks to a timespec and back loses nothing |
| Timer.RoundTripExact | devicemodel/include/timer.h:33-54 | and it loses nothing for all ticks only up to 1 GHz |

## Left out

- Mmio.Run: excludes an unregister call whose descriptor names a registered range it does not match, because the code then frees a node that stays linked (UnregisterMem says exactly when); ranges are non-empty and end at or below 2^64.
- MpTable.Build: leaves out tables that overrun the memory set aside for them, which the builder does not check, and assumes that a walk of a bus reports as many interrupts as its count.
- HugeTlb.HugeTlb.SetupMemory: does not model failures to read sysfs, opening and mounting the file systems, the EPT mapping calls, or 32-bit overflow of page counts; page sizes are powers of two, so aligning down is subtracting the remainder.
- RbTree.RbTree.RotateLeft: the order of link writes that do not depend on each other is not kept, and neither is it for RotateRight.
- Block requests: the signal handshake that cancels a request in flight, discard processing and the file operations themselves; a client does not submit after it closes.
- Events: file descriptors and the notify pipe; a deletion by the dispatch thread is one step; an event is deleted once, and its pointer is not used after that except by enables already under way.
- UART: opening, accepting and configuring backends; the model's backend is open throughout, and its unread input and the bytes sent to it are strings of bytes.
- MMIO handlers, which are called after the lock is released.
- E820: entries end below 2^64; the log output.
- MP table: where a vendor's table comes from; paddr_guest2host, which is a parameter here.
- Splay trees and the neighbour and nearest-match operations of the red-black trees: the code here does not use them.
- Command-line parsing, loaders, I/O ports, the main loop and the device headers: mostly constants and file copies, with only easy claims.

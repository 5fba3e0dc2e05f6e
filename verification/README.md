# XDMA driver: a verified model

This project models the Xilinx XDMA scatter-gather driver (`Official_Xilinx/driver`) in Dafny and proves
what its parts are for: that a request becomes one plain copy, that the engine queue never completes or
fails the wrong transfer, that the C2H streaming ring neither loses nor reorders bytes, and that a
bitstream is parsed and downloaded word for word.

Verify it with `dafny verify dfyconfig.toml`.

## What is modelled

| files | subject |
|---|---|
| `Words`, `Errno`, `Descriptors` | 64-bit addresses in two registers, error numbers, the packed descriptor control word |
| `SgMapper` | `xdma-sgm.c`: page fragments, page pinning |
| `Coalesce`, `Chain`, `Transfers`, `Sgdma`, `Whole` | from a user buffer to descriptor chains, the hardware as an interpreter of chains, the copy that results, and what memory holds after a read or write call |
| `EngineModel`, `Engines`, `Protocol`, `Drain` | the transfer queue of an engine: as a value, as the class that the driver updates, and in runs of a whole device |
| `IrqRegisters`, `Executed` | those runs once more with the interrupt registers as words, and with the chains that the hardware executes |
| `RingModel`, `Ring`, `RingRuns`, `Delivery`, `StreamRuns`, `CreditRuns`, `Cyclic` | the 256-slot C2H ring: scan, read, stream reassembly, credits, and the circular chain behind it |
| `BitHeader`, `BitStream` | `xdma-bit.c`: header parser and word-stream downloads |

Where the driver updates a structure in place, a class does the same and its methods are proved against
functions on values; invariants over runs are proved of state machines made of those functions.

## What is assumed

- Hardware, engines: the completed count restarts at 0 on RUN; the engine goes idle and raises one request
  when it has executed a STOPPED descriptor; reading and clearing the status drops that request; the
  channel request register shows requests under the enable mask (`Protocol.SafeIffGated` shows that
  without this the driver is wrong).
- Hardware, ring: result slots start at zero; a result is written with its page in one step; a result costs
  one credit and credit writes add, if credits are in use. The module parameter for them is 0 unless it is set
  (`xdma-core.c:44-46`): for that case `RingRuns` lets the hardware write anything anywhere, and
  `StreamRuns.StreamReassembled` asks of it that it writes only free slots whose page no reader still has to
  copy. With credits that is proved (`CreditRuns.RunsRefine`).
- Kernel: DMA mapping keeps the bytes and their order and may merge entries; descriptor memory is
  page-aligned and not written while its transfer is queued; the interrupt handler and each work item run one
  at a time; memory allocation succeeds.
- Requests of at most `0x7FFFFFF0` pages, so that `nr_pages`, an `int`, does not overflow; a request never
  asks for more than 8 MB at a time.
- Inputs the code cannot compute are parameters: page table, bus addresses, how many pages were pinned, how a
  wait ended and what a failed transfer had moved, what `copy_to_user` could not copy, FIFO vacancies.
- A buffer that cannot be pinned makes `transfer_create` fire its BUG_ON (`xdma-core.c:2962`).
  `Sgdma.MapBuffer` states exactly when; the members around it require that the pieces they reach can be
  pinned, since after that nothing is promised.

## Where code and comments disagree

The model follows the code.

- `Official_Xilinx/driver/include/xbar_sys_parameters.h:78` calls `HeaderLength` a number of 32-bit words;
  the parser stores bytes and its callers add it to byte pointers.
- `sgm_get_user_pages` is documented to return -1 on error; it returns `-EINVAL` or `-ENOMEM`.

## Model

| member | source | states |
|---|---|---|
| SgMapper.FragmentBounds | Official_Xilinx/driver/driver/xdma-sgm.c:176-217 | fragment i of a buffer is a non-empty part of one page that begins where the i fragments before it end |
| SgMapper.FragmentsPartition | Official_Xilinx/driver/driver/xdma-sgm.c:176-217 | the first n fragments together are exactly the part of [start, start+count) before page n, so all of them partition the buffer |
| SgMapper.PageBound | Official_Xilinx/driver/driver/xdma-sgm.c:41-73 | a mapper for max_len bytes has max_len/4096+2 entries, enough for every buffer of at most max_len bytes at any offset |
| SgMapper.PinTable.PutPages | Official_Xilinx/driver/driver/xdma-sgm.c:236-249 | every reference in the page array is released exactly once |
| SgMapper.Mapper.Pin | Official_Xilinx/driver/driver/xdma-sgm.c:141-226 | all pages are pinned or none: a short pin is undone to the last page and reported as -ENOMEM |
| SgMapper.Mapper.Populate | Official_Xilinx/driver/driver/xdma-sgm.c:176-217 | from any page array the scatterlist becomes the page fragments of the buffer, and neither BUG_ON on count fires |
| SgMapper.Mapper.GetUserPages | Official_Xilinx/driver/driver/xdma-sgm.c:103-227 | exact result for wrap-around, too many pages, empty buffer, short pin and success; on failure nothing stays pinned, on success the scatterlist is the fragments and each page is pinned once |
| SgMapper.Mapper.KernelPages | Official_Xilinx/driver/driver/xdma-sgm.c:262-361 | the kernel variant builds the same scatterlist and pins nothing; exact result for wrap-around, too many pages, an empty buffer and a page without a frame; the BUG_ON on a high-memory page met before any without a frame is its precondition |
| SgMapper.Mapper.PutUserPages | Official_Xilinx/driver/driver/xdma-sgm.c:236-259 | releases what was pinned, once each, marks exactly those pages dirty on request, and leaves mapped_pages 0 |
| SgMapper.FramesTouched | Official_Xilinx/driver/driver/xdma-sgm.c:141-160 | the frames behind the pages of a buffer are exactly those that hold its bytes |
| Coalesce.TransferBuild | Official_Xilinx/driver/driver/xdma-core.c:2828-2927 | the in-place loop fills one descriptor for every maximal mergeable block, with end-point address start plus preceding lengths or constant, leaves links and control words alone, and its BUG_ON on j never fires |
| Coalesce.BlocksExpand | Official_Xilinx/driver/driver/xdma-core.c:2852-2911 | merging entries into blocks keeps the sequence of bus byte addresses, for every scatterlist and both settings of force_new_desc |
| Coalesce.BlocksBound | Official_Xilinx/driver/driver/xdma-core.c:2866-2879 | blocks are non-empty and at most 262143-4096 bytes plus one entry long |
| Coalesce.BlocksMaximal | Official_Xilinx/driver/driver/xdma-core.c:2866-2879 | two blocks in a row are apart because there is a gap between their bus addresses, because the first is longer than 258047 bytes, or because of force_new_desc |
| Coalesce.BlocksForced | Official_Xilinx/driver/driver/xdma-core.c:2874-2905 | with force_new_desc every scatterlist entry keeps its own descriptor |
| Coalesce.LimitIffPageEntries | Official_Xilinx/driver/driver/xdma-core.c:2866-2879 | no descriptor exceeds 262143 bytes, over all scatterlists, if and only if entries are at most a page long |
| Coalesce.LimitAttained | Official_Xilinx/driver/driver/xdma-core.c:2866-2879 | the bound is tight: 64 contiguous pages entered one byte late make one descriptor of 262143 bytes |
| Descriptors.UnpackPack | Official_Xilinx/driver/driver/xdma-core.c:2117-2142 | splitting a control word into its four fields loses nothing |
| Descriptors.PackUnpack | Official_Xilinx/driver/driver/xdma-core.c:2117-2142 | every 32-bit word is the packing of its fields, so what is proved of fields is proved of all words |
| Descriptors.KeepWord | Official_Xilinx/driver/driver/xdma-core.c:2075-2142 | the mask-and-merge of link and adjacent replaces magic and prefetch count and keeps the reserved and control bits of any word |
| Descriptors.SetWord | Official_Xilinx/driver/driver/xdma-core.c:2145-2155 | xdma_desc_control changes the control byte and no other bit, for all words |
| Descriptors.ClearWord | Official_Xilinx/driver/driver/xdma-core.c:2158-2168 | xdma_desc_control_clear clears the masked control bits and no other bit, for all words |
| Descriptors.OrWord | Official_Xilinx/driver/driver/xdma-core.c:2171-2181 | xdma_desc_control_set sets the masked control bits and no other bit, for all words |
| Descriptors.LinkWord | Official_Xilinx/driver/driver/xdma-core.c:2075-2102 | what linking does to a descriptor is the driver's expression on its packed word |
| Descriptors.AdjacentWord | Official_Xilinx/driver/driver/xdma-core.c:2117-2142 | so is setting the prefetch count |
| Descriptors.SetControlWord | Official_Xilinx/driver/driver/xdma-core.c:2145-2155 | so is setting the control byte |
| Descriptors.ClearControlWord | Official_Xilinx/driver/driver/xdma-core.c:2158-2168 | so is clearing control bits |
| Descriptors.OrControlWord | Official_Xilinx/driver/driver/xdma-core.c:2171-2181 | so is setting control bits |
| Descriptors.ExtraFor | Official_Xilinx/driver/driver/xdma-core.c:2117-2137 | the prefetch count is the largest that respects the list, the limit of sixteen descriptors and the 4 KB page of the next descriptor |
| Words.SplitIsLossless | Official_Xilinx/driver/driver/xdma-core.c:2211-2243 | a 64-bit address survives being stored as two 32-bit halves |
| Chain.DescAlloc | Official_Xilinx/driver/driver/xdma-core.c:2000-2065 | the allocated list is linked by bus address, ends in 0, carries the magic everywhere and control byte 0 |
| Chain.FirstExtra | Official_Xilinx/driver/driver/xdma-core.c:897-904 | the first prefetch count is the largest that respects the list and the limit of sixteen descriptors |
| Chain.CloseChain | Official_Xilinx/driver/driver/xdma-core.c:2993-3015 | terminating the chain and filling in the adjacent counts gives the promised shape: links, STOPPED, COMPLETED and EOP on the last descriptor only, the rest unreachable, payloads untouched |
| Chain.ChainRuns | Official_Xilinx/driver/driver/xdma-core.c:2804-2826 | a walk along the next pointers from desc_bus executes the desc_num descriptors of the chain in order, and none behind them |
| Chain.RunsDeterministic | Official_Xilinx/driver/driver/xdma-core.c:2804-2826 | memory and start address determine the whole walk |
| Chain.PrefetchExists | Official_Xilinx/driver/driver/xdma-core.c:897-904 | the prefetching walk that engine_start sets up never meets memory without a descriptor |
| Chain.PrefetchEqualsPointers | Official_Xilinx/driver/driver/xdma-core.c:2117-2142 | fetching blocks of extra_adj+1 descriptors, first as first_desc_adjacent says and then as each block ends, visits what the pointer walk visits; blocks have at most 16 descriptors and never cross a 4 KB page |
| Transfers.FragmentsExpand | Official_Xilinx/driver/driver/xdma-sgm.c:176-217 | the mapped page fragments are the bus addresses of the buffer bytes, in order |
| Transfers.TraceCopies | Official_Xilinx/driver/driver/xdma-core.c:2828-2927 | descriptors placed block by block perform one copy of all bytes |
| Transfers.ChainCopies | Official_Xilinx/driver/driver/xdma-core.c:2929-3021 | the chain of one transfer, interpreted by the hardware, is one plain copy between the mapped buffer bytes and the end point, for every order-preserving DMA mapping |
| Transfers.PrefetchCopies | Official_Xilinx/driver/driver/xdma-core.c:863-918 | the same copy is performed by an engine that prefetches descriptors in blocks |
| Sgdma.ChainFits | Official_Xilinx/driver/driver/xdma-core.c:2211-2236 | no address or length is cut off in its descriptor field |
| Sgdma.MapBuffer | Official_Xilinx/driver/driver/xdma-core.c:2951-2962 | the BUG_ON on the mapping result fires exactly if the buffer wraps round, a user page could not be pinned or a kernel page has no frame; nothing stays pinned then |
| Sgdma.TransferCreate | Official_Xilinx/driver/driver/xdma-core.c:2929-3021 | if the pages can be had, the transfer holds them, each user page pinned once, and a finished chain that carries the buffer to or from ep_addr |
| Sgdma.TransferDestroy | Official_Xilinx/driver/driver/xdma-core.c:2669-2694 | every page that transfer_create pinned is released once; the frames of a user buffer that the device wrote become dirty, those of one it read do not; the BUG_ON of sg_destroy_mapper is not reached |
| Sgdma.RunPiece | Official_Xilinx/driver/driver/xdma-core.c:3255-3336 | one turn of the loop, for every final state and wait result: the result code; the bytes moved, as one copy - the whole piece if completed, else as many of its first bytes as the device moved; pins restored and, toward the host, the frames dirty, or the pages still pinned and clean if the wait was interrupted |
| Sgdma.TransferData | Official_Xilinx/driver/driver/xdma-core.c:3255-3336 | for every pattern of outcomes in which the pieces reached can be pinned: all count bytes, or the error of the first piece that does not proceed, with the position before it; if the pieces before it completed, the device has performed exactly the request up to there, byte k once and in order, with what the last piece moved; unless one was left submitted, pins are as before; toward the host the frames under the released pieces become dirty, toward the device none |
| Sgdma.RequestStep | Official_Xilinx/driver/driver/xdma-core.c:3283-3330 | the bytes of a request up to a piece and the copy of the next piece are the bytes up to the next |
| Whole.RequestIsOneCopy | Official_Xilinx/driver/driver/xdma-core.c:3255-3336 | with incremental addressing the whole request is one copy of count bytes: pieces, fragments and descriptors leave no trace |
| Whole.FixedAddressIff | Official_Xilinx/driver/driver/xdma-core.c:2892-2900 | fixed-address mode keeps the end-point address for the whole request if and only if count is at most 8 MB, since the loop steps the address from piece to piece (3329) |
| Whole.DeviceHoldsBuffer | Official_Xilinx/driver/driver/xdma-core.c:3255-3336 | after a host-to-device request device byte pos+k holds host byte k for every k below count, and no other device byte has changed |
| Whole.BufferHoldsDevice | Official_Xilinx/driver/driver/xdma-core.c:3255-3336 | after a device-to-host request buffer byte k holds device byte pos+k, and no other host byte has changed |
| Whole.CheckTransferAlign | Official_Xilinx/driver/driver/xdma-core.c:3023-3067 | with fixed addresses or a stream, -EINVAL unless buffer, position (not for a stream) and length are multiples of their granules; else -EINVAL unless buffer and position differ by a multiple of the alignment |
| Whole.AbreastIff | Official_Xilinx/driver/driver/xdma-core.c:3056-3064 | they do exactly if every byte of the buffer, and if any, lies at the same offset as the device byte it goes with |
| Whole.ReadWrite | Official_Xilinx/driver/driver/xdma-core.c:3354-3412 | -EINVAL, and nothing moved, pinned or dirtied, exactly for the wrong direction, a buffer, position or length that is no multiple of its granule, or, with incremental addresses, a byte at another offset than its device byte; any other call is the loop of transfer_data |
| Whole.Write | Official_Xilinx/driver/driver/xdma-core.c:3354-3412 | end to end, for a page table and mapping that stay fixed: after the call the device holds the buffer's bytes from pos on, as many as were moved - all count if the call succeeds - every other device byte is unchanged and no page has become dirty |
| Whole.Read | Official_Xilinx/driver/driver/xdma-core.c:3354-3412 | end to end, likewise: after the call the buffer holds the device's bytes from pos on, as many as were moved, every other host byte is unchanged, and if the call succeeds exactly the frames of the buffer have become dirty and no page is pinned more than before |
| Engines.Engine.Start | Official_Xilinx/driver/driver/xdma-core.c:863-918 | starts the head: first descriptor address and prefetch count written, RUN set, dequeued count restarted |
| Engines.Engine.TransferQueue | Official_Xilinx/driver/driver/xdma-core.c:2321-2374 | appends in order and starts an idle engine on its head; refuses during a shutdown and then changes nothing |
| Engines.Engine.ServiceTransferList | Official_Xilinx/driver/driver/xdma-core.c:1185-1225 | removes and completes exactly the transfers that lie wholly below the reported count; residual and dequeued count add up |
| Engines.Engine.ServiceFinalTransfer | Official_Xilinx/driver/driver/xdma-core.c:1227-1317 | completed or failed by the residual; with an error flag the transfer is failed, stays queued and the engine is stopped |
| Engines.Engine.ServiceResume | Official_Xilinx/driver/driver/xdma-core.c:1345-1375 | an idle engine restarts on a non-empty queue, or reports idle if a shutdown was requested |
| Engines.Engine.Service | Official_Xilinx/driver/driver/xdma-core.c:1385-1476 | in interrupt and in poll mode: which status and count are used and when the status register is cleared, the new queue, the state of every transfer that left, that those that stay keep theirs but for the head an error flag finds, every register written, the restart and the return code |
| EngineModel.PassedMeans | Official_Xilinx/driver/driver/xdma-core.c:1194-1222 | the loop stops at the transfer that contains descriptor c, and only there |
| EngineModel.BugIffBeyondQueue | Official_Xilinx/driver/driver/xdma-core.c:1185-1261 | the BUG_ON on a missing transfer fires exactly if the hardware reports more descriptors than are queued |
| EngineModel.CompletionAccounting | Official_Xilinx/driver/driver/xdma-core.c:1185-1307 | for every queue and 1 <= c <= its descriptors, without error flags: the shortest prefix with c descriptors leaves, a transfer in it completed exactly if its last descriptor is among the c |
| EngineModel.FinishConserves | Official_Xilinx/driver/driver/xdma-core.c:1199-1307 | servicing moves descriptors from the queue to the dequeued count and never changes their sum |
| EngineModel.DequeuedMeetsHardware | Official_Xilinx/driver/driver/xdma-core.c:1281-1307 | the driver dequeues exactly what the hardware reported if and only if the count ends a transfer, and if and only if nothing is failed; otherwise it dequeues more |
| EngineModel.ServicedTooEarly | Official_Xilinx/driver/driver/xdma-core.c:1276-1288 | an engine serviced before anything new has finished fails its head transfer |
| EngineModel.ErrorLeavesHead | Official_Xilinx/driver/driver/xdma-core.c:1271-1274 | with an error flag only the transfers wholly below c leave; the one containing c stays at the head and the restart runs it again from its first descriptor |
| Protocol.ServiceKeeps | Official_Xilinx/driver/driver/xdma-core.c:1385-1476 | a service on a reachable state completes exactly the head, restarts the hardware on the next transfer, and keeps the invariant |
| Protocol.StepKeeps | Official_Xilinx/driver/driver/xdma-core.c:1479-1508 | every step of submitters, hardware, interrupt handler and work items keeps the invariant, for any number of engines |
| Protocol.RunsAreSafe | Official_Xilinx/driver/driver/xdma-core.c:1385-1508 | in every run: queue non-empty iff running, the hardware executes the head, completions are an in-order prefix of submissions, each once and only after all its descriptors ran, no BUG_ON fires, a busy engine is never serviced, and a finished transfer always has its interrupt pending or its work under way |
| Protocol.NoCallFires | Official_Xilinx/driver/driver/xdma-core.c:1385-1476 | in every reachable state neither the service under way nor any submission fires a BUG_ON |
| Protocol.UngatedFails | Official_Xilinx/driver/driver/xdma-core.c:1646-1685 | a concrete run in which, if the request register showed masked requests, a second transfer is failed while the hardware executes it |
| Protocol.SafeIffGated | Official_Xilinx/driver/driver/xdma-core.c:1646-1685 | all runs are safe if and only if the request register hides masked requests |
| IrqRegisters.IrqMasksDisjoint | Official_Xilinx/driver/driver/xdma-core.c:2579-2581 | masking or unmasking one engine in a 32-bit mask register leaves every other engine's bit alone |
| IrqRegisters.ShownBy | Official_Xilinx/driver/driver/xdma-core.c:460-476 | writing ones to the set or clear address adds or removes the engines that the ones show |
| IrqRegisters.StepRefines | Official_Xilinx/driver/driver/xdma-core.c:1646-1685 | the handler that clears what it read in the enable mask and tests each engine's mask against it, and the work item that sets its own mask, are the steps on sets of engines used in the runs |
| IrqRegisters.RegisterRunsAreSafe | Official_Xilinx/driver/driver/xdma-core.c:1385-1689 | so every run of the device with its registers is safe, and a bit of the enable mask is down exactly while that engine's work is pending or running |
| IrqRegisters.OnlyOwnWorkUnmasks | Official_Xilinx/driver/driver/xdma-core.c:1479-1508 | no step but the end of an engine's own work raises that engine's bit |
| Drain.StepDescends | Official_Xilinx/driver/driver/xdma-core.c:1385-1508 | every useful step of hardware, handler or work item brings the device nearer to rest |
| Drain.SomethingToDo | Official_Xilinx/driver/driver/xdma-core.c:1625-1689 | while any transfer is queued some useful step is possible: no deadlock |
| Drain.QuietRunsDrain | Official_Xilinx/driver/driver/xdma-core.c:1385-1508 | after any run, a run without new submissions is bounded, whatever its order, and comes to rest only with every submitted transfer completed |
| Executed.FetchStops | Official_Xilinx/driver/driver/xdma-core.c:863-918 | in every reachable state the hardware finds a descriptor along the next pointers, and it carries STOPPED exactly if the engine then goes idle |
| Executed.LogIsChains | Official_Xilinx/driver/driver/xdma-core.c:1385-1508 | in every run the descriptors an engine has executed are the chains of the retired transfers in order of submission and the counted part of the head's chain |
| Executed.RunsCopyInOrder | Official_Xilinx/driver/driver/xdma-core.c:1385-1508 | in every run the bytes an engine has moved are the copies of the retired transfers, in order of submission, and the beginning of the head's, all of it once the engine is idle; an empty queue means that every submitted buffer has been copied |
| RingModel.ScanFromMeans | Official_Xilinx/driver/driver/xdma-core.c:1031-1052 | the scan passes written slots only and stops at an empty one or where the ring is full |
| RingModel.ScanStops | Official_Xilinx/driver/driver/xdma-core.c:1031-1052 | from any ring without overrun the scan stops within 256 minus occupied steps; overrun is set exactly if all 256 slots are then occupied |
| RingModel.FineIff | Official_Xilinx/driver/driver/xdma-core.c:3529-3538 | a result is good exactly if its status word lies between 0x52B40000 and 0x52B4FFFF and its length between 1 and 4096 |
| RingModel.FlagsOf | Official_Xilinx/driver/driver/xdma-core.c:3529-3549 | of the sixteen flag bits only the lowest matters, and it ends a packet |
| RingModel.StopFromMeans | Official_Xilinx/driver/driver/xdma-core.c:3515-3563 | a call takes good results up to and including the first bad one or end of packet, or all there are |
| RingModel.StopFrom | Official_Xilinx/driver/driver/xdma-core.c:3515-3563 | a call ends within 257 steps even with overrun set for good, since each step clears a slot and a cleared slot is a fault |
| Ring.RxRing.RingProcess | Official_Xilinx/driver/driver/xdma-core.c:1017-1055 | the loop advances the tail and sets overrun as specified and counts the ends of packet it passes |
| Ring.RxRing.CopyCyclicToUser | Official_Xilinx/driver/driver/xdma-core.c:3459-3492 | the bytes of the pages from head on, across the wrap-around, land at the offset reached so far, nothing else in the user buffer changes; a page that copy_to_user does not finish ends the delivery, its remainder is returned and not counted in the offset |
| Ring.CopyingPositive | Official_Xilinx/driver/driver/xdma-core.c:3569-3577 | a delivery of something returns something positive even if a copy fails, so the credits are returned |
| Ring.RxRing.TakeResults | Official_Xilinx/driver/driver/xdma-core.c:3511-3563 | the locked loop clears the slots it takes, moves the head, and reports length, credits, fault and end of packet |
| Ring.RxRing.CompleteCyclic | Official_Xilinx/driver/driver/xdma-core.c:3494-3581 | a fault returns -EIO, delivers nothing, returns no credit and leaves overrun as it was; any other call delivers its packet as far as copy_to_user goes, clears overrun and returns one credit a result |
| Ring.CopiedIsDelivered | Official_Xilinx/driver/driver/xdma-core.c:3459-3492 | what the call wrote is the delivery, at the cumulative offset of this open |
| RingRuns.ReadKeepsIff | Official_Xilinx/driver/driver/xdma-core.c:3566-3578 | a read keeps the ring invariant if and only if it does not fault on an overrun ring |
| RingRuns.OverrunFaultIff | Official_Xilinx/driver/driver/xdma-core.c:3515-3563 | a read of an overrun ring faults unless an end of packet comes, before any bad result, within the 256 slots |
| RingRuns.ScanKeeps | Official_Xilinx/driver/driver/xdma-core.c:1028-1052 | the scan keeps it: overrun iff all 256 slots are scanned and unread, else head and tail bracket them, all written |
| RingRuns.RunsKeepInv | Official_Xilinx/driver/driver/xdma-core.c:1017-1055 | the invariant holds in every run without credits in which no read faults while overrun is set |
| Delivery.CutIffFull | Official_Xilinx/driver/driver/xdma-core.c:3474-3491 | the page-wise copy reads exactly the bytes the hardware filled, in order, if and only if every result of the call but the last fills its page |
| Delivery.FullDelivers | Official_Xilinx/driver/driver/xdma-core.c:3474-3491 | then the delivery is the data of the results, one after the other |
| StreamRuns.StreamReassembled | Official_Xilinx/driver/driver/xdma-core.c:3494-3581 | for a hardware that writes only free slots whose page no reader still has to copy: with well-formed results, in every interleaving of writes, scans and page-wise copies in which no read faults on an overrun ring, the delivered bytes are a prefix of the produced ones, and all of them once everything is read |
| StreamRuns.TakeKeeps | Official_Xilinx/driver/driver/xdma-core.c:3511-3563 | a read keeps the bracket of head, tail and written slots also on an overrun ring, and while it copies |
| StreamRuns.ScanMeets | Official_Xilinx/driver/driver/xdma-core.c:1028-1052 | the scan passes exactly the written slots it has not seen, and sets overrun exactly if all 256 are written |
| StreamRuns.CallStopsAtEop | Official_Xilinx/driver/driver/xdma-core.c:3511-3563 | every result of a call but the last is good and ends no packet; the last is bad or ends a packet, unless there are no more |
| CreditRuns.CreditsConserved | Official_Xilinx/driver/driver/xdma-core.c:4025-4029 | in every run, malformed results and faults included: credits held + results unread + results being copied + results lost to faults = 128; the hardware's next slot is clear, overrun is never set, the scan never passes an unwritten slot |
| CreditRuns.GrantIff | Official_Xilinx/driver/driver/xdma-core.c:4025-4029 | overrun is never set in any run if and only if fewer credits are granted at the start than there are slots; with 256, the commented-out grant, a flood of results overruns the ring |
| CreditRuns.CreditIsFree | Official_Xilinx/driver/driver/xdma-core.c:3569-3578 | a credit is a free slot, and its page is none that a reader still has to copy |
| CreditRuns.RunsRefine | Official_Xilinx/driver/driver/xdma-core.c:4025-4029 | a run with fewer credits than slots is one of a hardware that knows the free slots, and no read of it faults on an overrun ring |
| CreditRuns.StreamReassembled | Official_Xilinx/driver/driver/xdma-core.c:3494-3581 | so in credit mode the stream comes through whole in every interleaving |
| Cyclic.TransferSetResultAddresses | Official_Xilinx/driver/driver/xdma-core.c:2245-2256 | source of descriptor i becomes result slot i, 32 bytes apart |
| Cyclic.TransferSetAllControl | Official_Xilinx/driver/driver/xdma-core.c:2258-2267 | the whole control byte of every descriptor becomes the given one |
| Cyclic.PagePerBlock | Official_Xilinx/driver/driver/xdma-core.c:2874-2905 | with a one-to-one mapping of a page-aligned buffer, page i is block i |
| Cyclic.TransferSetup | Official_Xilinx/driver/driver/xdma-core.c:3993-4020 | descriptor i moves 4096 bytes to page i, reports to result slot i, carries EOP and COMPLETED, and leads to descriptor i+1, the last to the first |
| Cyclic.RingOrder | Official_Xilinx/driver/driver/xdma-core.c:2107-2114 | from any descriptor k steps lead k slots on and n steps lead back; the engine never stops |
| Cyclic.RingCovers | Official_Xilinx/driver/driver/xdma-core.c:2107-2114 | among n steps in a row exactly one meets descriptor j |
| Cyclic.RingPrefetch | Official_Xilinx/driver/driver/xdma-core.c:2117-2142 | prefetching in the ring never runs past the last descriptor, a page or sixteen descriptors |
| BitHeader.ParseHeader | Official_Xilinx/driver/driver/xdma-bit.c:208-348 | the loops of the parser compute the item-wise reading, with its rejections and its reads outside the data |
| BitHeader.ParseIff | Official_Xilinx/driver/driver/xdma-bit.c:208-348 | data is accepted as header h if and only if h is well formed and the data begins with its written form, up to the one unchecked byte that ends the magic; HeaderLength is the bytes consumed |
| BitHeader.RoundTrip | Official_Xilinx/driver/driver/xdma-bit.c:208-348 | a written well-formed header is read back, whatever follows it |
| BitHeader.ParseExtends | Official_Xilinx/driver/driver/xdma-bit.c:208-348 | what the parser decides without leaving the data it decides of all longer data |
| BitHeader.FitsIff | Official_Xilinx/driver/driver/xdma-bit.c:484-494 | a well-formed header is read from a buffer of its first size bytes if and only if it is at most that long; a longer one leads the parser out of the buffer |
| BitHeader.OutOfBoundsCompletes | Official_Xilinx/driver/driver/xdma-bit.c:208-348 | where the parser leaves the data, more data could make a header of it, unless a length of zero was read or a wrong half word is cut in two |
| BitHeader.NeverAccepted | Official_Xilinx/driver/driver/xdma-bit.c:208-348 | what is rejected, or left for one of those two reasons, never becomes a header |
| BitHeader.Written | Official_Xilinx/driver/driver/xdma-bit.c:208-348 | the written form is magic length + 21 + the four field lengths bytes long |
| BitStream.WordOfWritten | Official_Xilinx/driver/driver/xdma-bit.c:184-206 | a word is the inverse of its written form, most significant byte first |
| BitStream.Downloader.HwIcapWrite | Official_Xilinx/driver/driver/xdma-bit.c:184-206 | the words go to the FIFO in order, big-endian decoded |
| BitStream.Downloader.IcapHelper | Official_Xilinx/driver/driver/xdma-bit.c:351-372 | every word goes in a burst behind a vacancy of its own that it fits; which words are sent and when it fails |
| BitStream.Downloader.Icap | Official_Xilinx/driver/driver/xdma-bit.c:375-432 | the words sent, the result and the registers read, for every vacancy sequence; -EINVAL, with nothing sent, exactly for data that is no bitstream or whose 32-bit length exceeds the one promised |
| BitStream.Downloader.IoctlIcap | Official_Xilinx/driver/driver/xdma-bit.c:457-534 | the bounce-buffer download sends, behind the clearing bitstream, the same words with the same result as the one from memory; user memory shorter than the buffer, or ending inside the bitstream, gives -EFAULT after the complete pieces |
| BitStream.Downloader.ClearIcap | Official_Xilinx/driver/driver/xdma-bit.c:434-454 | the stashed bitstream is downloaded once and then dropped |
| BitStream.Downloader.IoctlMcapData | Official_Xilinx/driver/driver/xdma-bit.c:687-698 | 1024-byte pieces send BitstreamLength/4 words, the same as in one piece; user memory that ends inside the bitstream gives -EFAULT after the words of the complete pieces |
| BitStream.Downloader.McapData | Official_Xilinx/driver/driver/xdma-bit.c:923-936 | all BitstreamLength/4 words in one piece |
| BitStream.PiecesIff | Official_Xilinx/driver/driver/xdma-bit.c:409-417 | the whole stream is sent if and only if every vacancy read on the way was positive and every burst was taken; there is at most one read a word |
| BitStream.SmoothSendsAll | Official_Xilinx/driver/driver/xdma-bit.c:409-423 | if as many vacancies as there are words are positive and their bursts taken, all words that memory holds are sent, in order and once each, and the result is that of the done test, or -EFAULT if memory ends before the bitstream |
| BitStream.FileDownload | Official_Xilinx/driver/driver/xdma-bit.c:375-432 | a file of a header and the written form of words is downloaded as exactly these words, if as many vacancies as there are words are positive and their bursts taken |
| BitStream.FileWords | Official_Xilinx/driver/driver/xdma-bit.c:687-698 | and they are the words of its MCAP downloads |
| BitStream.ZeroIff | Official_Xilinx/driver/driver/xdma-bit.c:414-423 | 0 is returned exactly if the FPGA was done after a complete download or the download broke off |
| BitStream.ZeroAfterFailure | Official_Xilinx/driver/driver/xdma-bit.c:414-415 | a concrete download that returns 0 and has sent nothing |
| BitStream.PayloadIs | Official_Xilinx/driver/driver/xdma-bit.c:496-512 | memory that holds the bitstream is read whole, any other only in part |

## Left out

- `sg_aio_read_write`: the asynchronous path never advances `pos` between its transfers, so the copy theorem is false of it.
- Poll mode over whole runs, and its timeouts: `Engines.Engine.Service` covers poll-mode calls one by one.
- Servicing with error flags over whole runs: the failed head stays queued and is restarted (`EngineModel.ErrorLeavesHead`), so the clean invariants do not hold.
- `CHAIN_MULTIPLE_TRANSFERS`: not set in this configuration; the engine would be serviced while busy.
- MSI-X: each engine masks itself in its own register, a special case of the legacy mode that is modelled.
- Sgdma.TransferData: after a piece whose wait ended without an error while it was still submitted, the log is not described; such a transfer stays queued and pinned, as in the code, and nothing is said of its later fate.
- Whole.Write: fixed addresses, where bytes of one piece overwrite each other; `Whole.FixedAddressIff` says what address they go to.
- Protocol.RunsAreSafe: `desc_dequeued` and descriptor counts are unbounded numbers below 2^31, and a device that raises spurious completions is not modelled.
- IrqRegisters.RegisterRunsAreSafe: at most 32 engines, the width of the register; the driver has at most eight.
- RingRuns.RunsKeepInv: `complete_cyclic` is one step, so a scan between its unlock and its clearing of `rx_overrun` is not covered; `StreamRuns` does split it.
- StreamRuns.StreamReassembled: one reader, whose copies succeed (`Ring.RxRing.CopyCyclicToUser` covers those that fail, whose bytes are lost); the second parameter of the read call (its size) is not looked at by the code and not modelled.
- `transfer_monitor_cyclic`: waiting and retry counts.
- BitStream.Downloader.IoctlIcap: a header longer than the 1024-byte buffer, which the parser reads past the end of (`BitHeader.FitsIff` says which those are).
- BitStream.Downloader.IoctlMcapData: MCAP control registers, resets and the completion check around the data words.
- BitStream.Downloader.Icap: the sum in the length check is 32 bits wide as in the code, and the caller's memory is required to hold what passes it.
- Null pointers, failed allocations, AXI gate handling, PCI, character-device and sysfs plumbing, ioctl dispatch, performance runs, the `sd_accel` clock and reset calls.
- The memory-copy and 32-bit drivers elsewhere in the repository: simple word loops.

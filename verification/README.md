# Verified core of the hgsdk firmware kit

A Dafny model of the parts of the SDK whose correctness is a matter of protocol or data-structure
reasoning, with proofs over every input, every run or every interleaving.

* **Heap allocator** (`csky/libs/mm`). `MmLayout` holds the boundary-tag view of the region,
  `MmIndex` the sorted free list threaded through the 19 bucket heads, `MmSpec` the operations as
  functions on both views, `MmTheorems`, `MmInfo` and `MmRuns` what they promise. `MmBytes` is
  memory, 32-bit little-endian words at multiples of four and the bytes in them; `MmMemory` says how
  the views are stored there, and `MmHeap` is the code itself: a class over that memory whose
  methods, loops included, are proved to compute the functions of `MmSpec`. `MmClients` executes
  sequences of calls and client writes on that class.
  Configuration: 32-bit words, granule 16, header 8, free node 16, buckets 2^4 to 2^22, one region,
  error detection off, `CONFIG_MM_MAX_USED` on; calls are sequential because the semaphore macros
  are empty.
* **Ring buffer and UART bridge** (`RingBuffer`, `UartP2p`, `UartProgress`). The interrupt handler and
  the draining task are a state machine of single memory accesses, interleaved freely; `UartProgress`
  says what the task gets done.
* **Intrusive list and device registry** (`ListHead`, `DevRegistry`). Nodes are objects with `next`
  and `prev`; every operation is proved to refine its sequence operation.
* **Memory-to-memory DMA** (`MemDma`). Any number of tasks, two channels, one byte per engine step,
  any interleaving; no call is dropped, done twice or left hanging.
* **GPIO register file** (`Gpio`). 32-bit registers as bit vectors, refined to one record per pin; the
  device's calls on pin numbers, refused ones included, are a log of writes to those records.
* **Ethernet PHY** (`EthPhy`, `EthRuns`, `EthConfig`). State machine, link events, negotiation timeout, forced
  settings, and the generic driver's status read and negotiation set-up, which every PHY of the
  repository uses. In `EthPhy` what the driver callbacks return and leave in the device is an input of
  each step; `EthRuns` says which states and events those answers lead to, and `EthConfig` runs the
  state machine with the generic `config_aneg`. The completion bit is that of the status register of
  section 22.2.4.2 of IEEE 802.3.
* **Driver-command hooks** (`DriverCmd`) and **timer prescaler** (`HgTimer`).

`dafny verify dfyconfig.toml` checks the whole project.

## Where the code differs from its documentation or from the obvious reading

* `mm_malloc` (csky/libs/mm/mm_malloc.c:119) rounds on 32 bits: the rounded size covers request and
  header exactly when the sum does not wrap. Of the requests that wrap, the last seven are served as
  one granule, and those from 2^32 - 23 to 2^32 - 8 become 0 (`MmConfig.RoundedCoversRequest`). A
  request that becomes 0 takes whatever is behind the first bucket head, and what it leaves in memory
  is no well-formed heap (`MmHeap.MmHeap.MallocOfNothing`).
* `dev_register` accepts an object that is listed already, under a fresh id. The second
  `list_add_tail` then leaves no well-formed list behind (`ListHead.AddTail`,
  `DevRegistry.DevMgr.Register`).
* `eth_phy_find_valid` (sdk/lib/ethernet_phy/eth_phy.c:131-143) is documented to search at or below
  the index; it searches upwards in the table, towards slower settings, and so does the model.
* `eth_phy_aneg_done` (sdk/lib/ethernet_phy/eth_phy.c:95-106) is documented to return 0 on an error and
  is written to pass a negative read on. Since `phy_read` returns 16 unsigned bits
  (sdk/lib/ethernet_phy/eth_phy_device.c:51-53) neither happens, and no read of the generic driver
  fails (`EthPhy.ShippedNeverFails`).
* `link_timeout` is never reloaded, so a wait that goes on after the first timeout calls `config_aneg`
  again only 2^32 passes later (`EthPhy.TimeoutIsNeverReloaded`). The states are documented to drop to
  the next setting after a timeout (sdk/include/lib/ethernet_phy/eth_phy.h:127-131); no step does.
* `genphy_config_aneg` is documented to restart negotiation
  (sdk/lib/ethernet_phy/eth_phy_device.c:402-404). It does so exactly when the advertisement register
  differs from the wanted one, negotiation is off or the PHY is isolated
  (`EthConfig.ConfigRestartsIff`). Starting negotiation rules all three out (`EthConfig.StartSettles`),
  so the call a timeout makes writes nothing (`EthConfig.TimeoutsRestartNothing`) and bringing up a PHY
  restarts negotiation at most once (`EthConfig.BringUpRestartsOnce`).
* State, link and last event agree after every step with the drivers of this repository
  (`EthPhy.ShippedRunTracks`). For a driver from elsewhere, `EthPhy.RunTracksIff` is the contract to
  meet: no status read may fail after changing `link`; `EthPhy.FailedReadBreaksTracking` shows what
  such a read would leave.
* The timer search wants the shifted count below 2^16 although 2^16 would also fit the register once
  one is subtracted: at 2^16 ticks it takes prescaler 1 where 0 would do (`HgTimer.FullScaleIsSkipped`).
  It takes the least prescaler whose register value fits exactly when no prescaler leaves a shifted
  count of 2^16 (`HgTimer.LeastRegisterFitIff`). For the counts from 2^23 to 2^23 + 127 the call fails
  although prescaler 7 would still give a 16-bit value, and above them none would
  (`HgTimer.RegisterFitExists`); the ASSERT at sdk/driver/timer/hgtimer_v2.c:80 admits 2^23 itself.
  A tick product that is 0 programs the largest 32-bit
  value (`HgTimer.ReloadFitsIff`).
* Unregistering a handler removes its first pair only, so it undoes a registration exactly when no
  earlier slot holds the same handler (`DriverCmd.UnregisterUndoesRegister`).

## Model

| member | source | states |
|---|---|---|
| `MmConfig.RoundedCoversRequest` | csky/libs/mm/mm_malloc.c:115-119 | the rounded size is a granule multiple; it covers request and header if and only if the 32-bit sum does not wrap, and then by less than a granule; of the others, exactly the last seven become 16 and the rest 0 |
| `MmConfig.Size2Ndx` | csky/libs/mm/mm_size2ndx.c:60-77 | the shifting loop computes the floor-log2 bucket index |
| `MmConfig.BucketBounds` | csky/libs/mm/mm_size2ndx.c:60-77 | bucket k holds exactly sizes 2^(k+4) up to 2^(k+5), the last bucket everything from 2^22 |
| `MmLayout.SplitTiled` | csky/libs/mm/mm_malloc.c:178-199 | splitting a chunk keeps the region tiled with every `preceding` right |
| `MmLayout.MergeTiled` | csky/libs/mm/mm_free.c:141-171 | merging two neighbours keeps the region tiled with every `preceding` right |
| `MmLayout.MergeUndoesSplit` | csky/libs/mm/mm_free.c:141-145 | merging back the remainder of a split restores every tag |
| `MmLayout.SplitGranular` | csky/libs/mm/mm_malloc.c:178-199 | a split leaves every size a nonzero granule multiple, so no residue is stranded |
| `MmIndex.LowerBoundSeparates` | csky/libs/mm/mm_addfreechunk.c:72-91 | the insertion point parts the list into strictly smaller ranks before and no smaller ranks from there on |
| `MmIndex.PutIndexed` | csky/libs/mm/mm_addfreechunk.c:76-91 | inserting a missing free chunk there makes the list sorted, duplicate-free and complete |
| `MmIndex.TakeIndexed` | csky/libs/mm/mm_malloc.c:160-169 | unlinking a chunk leaves a sorted list that misses that chunk alone |
| `MmSpec.MallocKeepsInv` | csky/libs/mm/mm_malloc.c:93-237 | the two views agree after an allocation: tiling, fences, no adjacent free chunks, list exactly the free chunks; a non-null result is a live chunk |
| `MmSpec.FreeKeepsInv` | csky/libs/mm/mm_free.c:70-177 | the two views agree after freeing any live block or NULL, with coalescing complete |
| `MmSpec.ForwardDetached` | csky/libs/mm/mm_free.c:116-146 | after the forward merge the following chunk is allocated and only the merged chunk is off the list |
| `MmSpec.BackwardDetached` | csky/libs/mm/mm_free.c:148-171 | after the backward merge both neighbours are allocated and only the merged chunk is off the list |
| `MmTheorems.InitInv` | csky/libs/mm/mm_initialize.c:89-217 | the initialised heap meets the invariant and has no live block |
| `MmTheorems.MallocIsBestFit` | csky/libs/mm/mm_malloc.c:129-154 | NULL if and only if no free chunk is large enough; otherwise a smallest sufficient chunk, trimmed to exactly the rounded request, at a 16-byte aligned pointer |
| `MmTheorems.InOwnBucket` | csky/libs/include/mm.h:281-286 | every listed chunk comes after the head of bucket k exactly when k is at most its own bucket, that is, between its own head and the next |
| `MmTheorems.FreeUndoesMalloc` | csky/libs/mm/mm_free.c:113-175 | freeing what a successful allocation returned restores every tag and the exact list order |
| `MmInfo.WalkMeetsAll` | csky/libs/mm/mm_mallinfo.c:102-125 | the address walk meets every free chunk once and nothing else |
| `MmInfo.WalkAgreesWithList` | csky/libs/mm/mm_mallinfo.c:102-141 | count and byte sum over the walk equal those over the free list |
| `MmInfo.CarveUses` | csky/libs/mm/mm_malloc.c:178-209 | an allocation raises the bytes in use by exactly the rounded request |
| `MmInfo.FreeReturnsBytes` | csky/libs/mm/mm_free.c:113-175 | freeing lowers the bytes in use by exactly the block's chunk, whatever is merged |
| `MmBytes.WithByteChangesOne` | csky/libs/include/mm.h:211-241 | a byte store into little-endian word memory changes that byte alone |
| `MmMemory.UnlinkStored` | csky/libs/mm/mm_malloc.c:165-169 | the two pointer writes of an unlink store the list without the node and touch link words only |
| `MmMemory.LinkStoredAfter` | csky/libs/mm/mm_addfreechunk.c:82-91 | the pointer writes of an insertion store the list with the node, `flink` and `blink` inverse to each other |
| `MmMemory.SplitStored` | csky/libs/mm/mm_malloc.c:183-199 | the header writes of a split store the split layout and spare the list |
| `MmMemory.MergeStored` | csky/libs/mm/mm_free.c:143-145 | the header writes of a merge store the merged layout and spare the list |
| `MmMemory.PayloadStored` | csky/libs/include/mm.h:211-241 | a client may overwrite any byte of its payload, old link words included, without disturbing the stored views |
| `MmMemory.OwnedBytes` | csky/libs/include/mm.h:211-241 | no byte of any word the allocator may write lies in a live payload |
| `MmRuns.RunKeepsInv` | csky/libs/mm/mm_free.c:70-177 | after every legal run the views agree and each live pointer holds exactly its rounded request |
| `MmRuns.FreeingAllRestoresInit` | csky/libs/mm/mm_free.c:118-175 | after any history, freeing the live blocks in any order gives exactly the initial heap and free list |
| `MmRuns.NoLiveMeansInitial` | csky/libs/mm/mm_initialize.c:136-152 | a heap that meets the invariant and has no live block is the initial heap |
| `MmRuns.PeakIsRunningMaximum` | csky/libs/mm/mm_mallinfo.c:147-164 | after every run from initialisation that has made an allocation call of positive size, the recorded peak is the running maximum of bytes in use and never below the current value |
| `MmRuns.PayloadsAreIsolated` | csky/libs/mm/mm_malloc.c:165-209 | in every reachable state each payload lies between the guards, is as long as requested unless the request wrapped, and meets no other payload, no header and no list node |
| `MmRuns.PayloadSurvives` | csky/libs/mm/mm_free.c:113-175 | over every run of calls and client byte writes, a payload byte keeps its value until its owner writes it or frees the block |
| `MmHeap.MmHeap.Initialize` | csky/libs/mm/mm_initialize.c:174-217 | the chaining loop and the region set-up store the initial heap and write nothing outside it and the bucket array |
| `MmHeap.MmHeap.AddRegion` | csky/libs/mm/mm_initialize.c:89-153 | aligning, guard nodes and first insertion give the initial heap |
| `MmHeap.MmHeap.AddFreeChunk` | csky/libs/mm/mm_addfreechunk.c:65-92 | the pointer code inserts the node at its lower bound and changes link words only |
| `MmHeap.MmHeap.FindSlot` | csky/libs/mm/mm_addfreechunk.c:72-78 | the loop from the bucket head stops at the list's lower bound for the size |
| `MmHeap.MmHeap.Unlink` | csky/libs/mm/mm_malloc.c:160-169 | removes the node from the stored list and changes link words only |
| `MmHeap.MmHeap.Search` | csky/libs/mm/mm_malloc.c:125-147 | the search from the bucket head finds what a scan of the whole list from the start would find first |
| `MmHeap.MmHeap.Split` | csky/libs/mm/mm_malloc.c:178-204 | splits and reinserts the remainder as the model does |
| `MmHeap.MmHeap.Malloc` | csky/libs/mm/mm_malloc.c:93-237 | for every 32-bit request: unless it is rounded to 0, result and new state are those of the model, the peak is updated, and no byte of a live payload changes; if it is, the node behind the first bucket head is handed out and the memory left stores no well-formed heap |
| `MmHeap.MmHeap.MallocOfNothing` | csky/libs/mm/mm_malloc.c:119-210 | the search, the unlinking and the split with a chunk size of 0: the node behind the first bucket head is handed out, and the memory left stores no well-formed heap |
| `MmHeap.MmHeap.MergeNext` | csky/libs/mm/mm_free.c:116-146 | forward merge as in the model |
| `MmHeap.MmHeap.MergePrev` | csky/libs/mm/mm_free.c:148-171 | backward merge as in the model |
| `MmHeap.MmHeap.Free` | csky/libs/mm/mm_free.c:70-177 | new state is that of the model and no byte of another live payload changes |
| `MmHeap.MmHeap.Mallinfo` | csky/libs/mm/mm_mallinfo.c:75-143 | the walk stops exactly at the end guard; count, sum and maximum are those of the free list; used plus free is `mm_heapsize` |
| `MmHeap.MmHeap.MaxUsedSizeUpdate` | csky/libs/mm/mm_mallinfo.c:147-164 | the peak becomes the larger of itself and the bytes in use |
| `MmClients.Execute` | csky/libs/mm/mm_malloc.c:93-237 | a sequence of calls on the heap object gives exactly heap and peak of the run the theorems are about |
| `MmClients.Play` | csky/libs/mm/mm_free.c:70-177 | a sequence of calls and client byte writes on the heap object is a trace the payload theorem is about |
| `RingBuffer.CountIsLength` | sdk/include/lib/rbuffer.h:8-13 | `RB_COUNT` is the number of unread values, at most `qsize - 1`; empty and full tests mean what they say |
| `RingBuffer.StoreKeepsUnread` | sdk/include/lib/rbuffer.h:52-57 | a store at `wpos` leaves every unread value alone |
| `RingBuffer.PublishAppends` | sdk/include/lib/rbuffer.h:52-57 | advancing `wpos` of a ring that is not full appends exactly the stored value |
| `RingBuffer.ConsumeDrops` | sdk/include/lib/rbuffer.h:44-49 | advancing `rpos` removes exactly the value at `rpos` |
| `RingBuffer.Ring.Set` | sdk/include/lib/rbuffer.h:52-57 | appends, or does nothing when full |
| `RingBuffer.Ring.Get` | sdk/include/lib/rbuffer.h:44-49 | takes the oldest value, or leaves the target alone when empty |
| `RingBuffer.Ring.SetOver` | sdk/include/lib/rbuffer.h:60-66 | keeps the last `qsize - 1` values written |
| `RingBuffer.Ring.Count` | sdk/include/lib/rbuffer.h:11-13 | the length of the queue |
| `UartP2p.StepKeepsInv` | sdk/lib/common/uart_p2p.c:44-113 | every single access of the interrupt handler or the task keeps the pipeline invariant |
| `UartP2p.PipelineConserves` | sdk/lib/common/uart_p2p.c:44-113 | in every interleaving the frames sent, the bytes being drained and the ring contents are together exactly the accepted bytes in order, and every frame has 1 to 1500 bytes |
| `UartP2p.AcceptedIsTaken` | sdk/lib/common/uart_p2p.c:90-113 | in every interleaving the accepted bytes and the byte in flight are exactly the received bytes whose full test found room, in order |
| `UartP2p.PipelineDelivers` | sdk/lib/common/uart_p2p.c:44-113 | from the start, in every interleaving, the frames sent, the bytes being drained, the ring and the byte in flight are together exactly the received bytes that met a ring with room, in order |
| `UartProgress.PassSends` | sdk/lib/common/uart_p2p.c:44-61 | from every state of the invariant with the task waiting and n unread bytes, the task's own steps alone, 5 for each of min(n, 1500) bytes and 2 more, send those oldest bytes as one frame, nothing when n is 0, leave the rest in the ring and end waiting |
| `UartProgress.FrameSentIff` | sdk/lib/common/uart_p2p.c:50-60 | in any state, a step sends a frame if and only if it is the loop test with bytes drained and either 1500 of them or an empty ring; the frame is then exactly those bytes |
| `UartProgress.WokenTaskSends` | sdk/lib/common/uart_p2p.c:44-85 | in every interleaving, when the ring holds a byte while the task waits, a frame has been sent by the time the task has made 7502 steps, whatever the interrupts do |
| `UartProgress.InterruptAppends` | sdk/lib/common/uart_p2p.c:90-113 | an interrupt's three steps append its byte to the unread ones, and change nothing if and only if all slots but one are taken |
| `UartP2p.StoreNeverOverwritesUnread` | sdk/include/lib/rbuffer.h:52-57 | the producer's store never hits a slot the consumer has yet to read, however far the consumer has moved since the full test |
| `UartP2p.RecheckNeverFails` | sdk/lib/common/uart_p2p.c:50-53 | the empty test inside `RB_GET` cannot fail once the loop's own test has passed, so no stale byte is counted |
| `UartP2p.TxData` | sdk/lib/common/uart_p2p.c:44-61 | the draining loop moves the oldest bytes, up to 1500, from the ring to the buffer in order |
| `ListHead.FullRotationIsIdentity` | sdk/include/list.h:224-232 | n rotations of a sequence of n entries are the identity |
| `ListHead.InitListHead` | sdk/include/list.h:34-38 | the empty ring |
| `ListHead.Add` | sdk/include/list.h:47-73 | inserts at the front, ring well formed |
| `ListHead.AddTail` | sdk/include/list.h:84-87 | inserts at the end, ring well formed; a node that is listed already leaves no well-formed list, whatever its entries |
| `ListHead.Del` | sdk/include/list.h:96-119 | removes the entry and poisons its links |
| `ListHead.Replace` | sdk/include/list.h:132-139 | puts the new node in the place of the old one |
| `ListHead.Move` | sdk/include/list.h:163-167 | takes the entry off one ring and puts it first on the other; both stay well formed |
| `ListHead.MoveTail` | sdk/include/list.h:174-179 | takes the entry off one ring and puts it last on the other; both stay well formed |
| `ListHead.IsEmpty` | sdk/include/list.h:196-199 | true exactly for the empty sequence |
| `ListHead.IsSingular` | sdk/include/list.h:238-241 | true exactly for one entry |
| `ListHead.Rotate` | sdk/include/list.h:224-232 | rotates the sequence left by one, the empty one included |
| `ListHead.RotateMany` | sdk/include/list.h:224-232 | n rotations of a ring of n entries leave that ring |
| `ListHead.CutPosition` | sdk/include/list.h:243-281 | parts the ring after the entry into prefix and rest, all branches included |
| `ListHead.Splice` | sdk/include/list.h:283-307 | joins the other list's entries at the front |
| `ListHead.SpliceTail` | sdk/include/list.h:314-319 | joins the other list's entries at the end |
| `ListHead.SpliceInit` | sdk/include/list.h:328-335 | as `Splice`, and empties the other ring |
| `ListHead.SpliceTailInit` | sdk/include/list.h:345-352 | as `SpliceTail`, and empties the other ring |
| `ListHead.CutThenSplice` | sdk/include/list.h:269-307 | cutting at any entry, the head or an empty ring included, and splicing back is the identity |
| `DevRegistry.DevMgr.Init` | sdk/lib/common/dev.c:15-21 | the empty registry |
| `DevRegistry.DevMgr.Get` | sdk/lib/common/dev.c:23-38 | the lookup loop agrees with a finite map from id to device |
| `DevRegistry.DevMgr.Register` | sdk/lib/common/dev.c:40-58 | adds the id to the map, or refuses a taken id, a NULL device or an uninitialised registry; ids stay distinct; the list survives if and only if the object was not listed already |
| `DevRegistry.DevMgr.Unregister` | sdk/lib/common/dev.c:60-75 | the id is absent from the map afterwards although only the first match is unlinked |
| `MemDma.GetFreeCh` | sdk/driver/dma/hg_m2m_dma.c:12-24 | claims the lowest free channel, or none when both are taken |
| `MemDma.StepKeepsInv` | sdk/driver/dma/hg_m2m_dma.c:12-81 | every step of every task and of the engine keeps the protocol invariant |
| `MemDma.StepRefinesPlain` | sdk/driver/dma/hg_m2m_dma.c:33-81 | seen from the calls, a step does nothing or is the plain memcpy or memset of the call that returns |
| `MemDma.ReturnDelivers` | sdk/driver/dma/hg_m2m_dma.c:33-81 | when a call returns its destination holds exactly the bytes asked for, on the DMA and on the fallback path, whatever else is in progress |
| `MemDma.ReturnCopies` | sdk/driver/dma/hg_m2m_dma.c:33-81 | when a copy returns destination and source are equal byte by byte; when a fill returns every byte is the value |
| `MemDma.ClaimIffFree` | sdk/driver/dma/hg_m2m_dma.c:42-46 | a call gets a channel if and only if one is free, the lowest one, which becomes busy; otherwise the CPU does the work |
| `MemDma.RunIsSafe` | sdk/driver/dma/hg_m2m_dma.c:12-81 | in every interleaving no channel has two holders and `busy_flag` is the set of held channels |
| `MemDma.RunIsSequential` | sdk/driver/dma/hg_m2m_dma.c:33-81 | in every interleaving, whenever no call is in flight, the calls that returned are as a multiset exactly the calls begun with a count and without a NULL pointer, and memory is what they, one after the other as plain memcpy and memset, make of the initial memory |
| `MemDma.AllReturned` | sdk/driver/dma/hg_m2m_dma.c:33-81 | between any two moments without a call in flight every call begun with a count and without a NULL pointer returns exactly once, and no other call does |
| `MemDma.QuietRunIsBounded` | sdk/driver/dma/hg_m2m_dma.c:33-81 | without new calls no interleaving is longer than the work left, so polling and fallback come to an end |
| `MemDma.RestsIffIdle` | sdk/driver/dma/hg_m2m_dma.c:33-81 | in every reachable state nothing but a new call can happen if and only if every call has returned: no deadlock |
| `MemDma.CanFinish` | sdk/driver/dma/hg_m2m_dma.c:33-81 | from every reachable state there is a schedule that brings all calls to their returns |
| `Gpio.SpreadSelectsPin` | sdk/driver/gpio/hggpio_v2.c:378-391 | the bit spreading turns a pin bit into exactly its mode bit and its nibble bit in one of two registers |
| `Gpio.StampSetsNibble` | sdk/driver/gpio/hggpio_v2.c:393-394 | the multiply-and-mask sets exactly that nibble |
| `Gpio.RunRefinesPins` | sdk/driver/gpio/hggpio_v2.c:24-421 | over every run of writes to single pin records, each pin's record is what the writes of that pin alone make of it |
| `Gpio.ReplaysOneMore` | sdk/driver/gpio/hggpio_v2.c:24-421 | a write of one pin's record extends the replay of every pin, its own by that write and the others by nothing |
| `Gpio.LogIsWrites` | sdk/driver/gpio/hggpio_v2.c:24-421 | conversely, when the registers replay a log and one more entry is logged, the registers changed by exactly that write: one field group of one pin, nothing else |
| `Gpio.Gpio.SetPull` | sdk/driver/gpio/hggpio_v2.c:24-105 | sets one pull field of one pin or clears both, refuses bad pins and modes, no other pin changes; the registers stay the replay of the log |
| `Gpio.Gpio.SetDriverStrength` | sdk/driver/gpio/hggpio_v2.c:107-136 | sets one pin's drive field, refuses bad pins and strengths, no other pin changes; the registers stay the replay of the log |
| `Gpio.Gpio.PinMode` | sdk/driver/gpio/hggpio_v2.c:138-234 | refuses pins out of range and unknown pulls and then changes no register; otherwise sets open drain and pull of slot `pin - first` and no other field of any slot |
| `Gpio.Gpio.DriverStrength` | sdk/driver/gpio/hggpio_v2.c:236-246 | refuses pins out of range and strengths above 7 and then changes no register; otherwise sets the drive field of slot `pin - first` and no other field of any slot |
| `Gpio.Gpio.Dir` | sdk/driver/gpio/hggpio_v2.c:164-194 | refuses pins out of range and directions above 1 and then changes no register; otherwise sets the mode of slot `pin - first` to the direction and no other field of any slot |
| `Gpio.Gpio.AnalogEn` | sdk/driver/gpio/hggpio_v2.c:300-327 | refuses pins out of range and then changes no register; otherwise sets the mode of slot `pin - first` to 3 or back to 1 and no other field of any slot |
| `Gpio.Gpio.Afio` | sdk/driver/gpio/hggpio_v2.c:367-421 | refuses pins out of range and then changes no register; otherwise sets mode 2 and the function of slot `pin - first`, whatever the registers held, and no other field of any slot |
| `Gpio.LandedFields` | sdk/driver/gpio/hggpio_v2.c:19-421 | what each accepted call leaves in the register fields of slot `pin - first`, call by call |
| `Gpio.OthersKept` | sdk/driver/gpio/hggpio_v2.c:19-421 | an accepted call leaves every register field of every other slot as it was |
| `Gpio.LastCallDecides` | sdk/driver/gpio/hggpio_v2.c:19-421 | over every sequence of calls, each field of each pin is what the last accepted call on that pin that decides the field says, or as it was |
| `Gpio.Gpio.IssueAll` | sdk/driver/gpio/hggpio_v2.c:19-421 | every sequence of calls returns the code of each call, logs exactly the writes of the accepted ones in order, and leaves in each register field what the last accepted call on that pin that decides it says |
| `EthPhy.FindSetting` | sdk/lib/ethernet_phy/eth_phy.c:117-125 | the first advertised setting, the last one when there is none |
| `EthPhy.FindValid` | sdk/lib/ethernet_phy/eth_phy.c:136-143 | the first supported setting from the index on, the last one when there is none |
| `EthPhy.ChosenSupported` | sdk/lib/ethernet_phy/eth_phy.c:153-166 | the forced setting is supported if and only if some supported setting is no faster than the fastest advertised one |
| `EthPhy.ChosenIsFastest` | sdk/lib/ethernet_phy/eth_phy.c:153-166 | when only supported settings are advertised, the fastest advertised one is forced |
| `EthPhy.StepTracksIff` | sdk/lib/ethernet_phy/eth_phy.c:222-327 | a step keeps state, link and last event in agreement if and only if it is not a failing read that changed the link |
| `EthPhy.RunTracksIff` | sdk/lib/ethernet_phy/eth_phy.c:222-327 | for any driver: from ETH_PHY_UP, RUNNING means link up, NOLINK means link down and the last event equals the link after every step of a run, if and only if no read of the run fails after changing the link |
| `EthPhy.FailedReadBreaksTracking` | sdk/lib/ethernet_phy/eth_phy.c:299-311 | a driver whose read fails after clearing the link, which none of this repository can, would leave RUNNING with the link down and nothing reported |
| `EthPhy.ShippedNeverFails` | sdk/lib/ethernet_phy/eth_phy_device.c:51-53 | with 16-bit register reads the generic status read returns 0 and the negotiation test is not negative |
| `EthPhy.ShippedRunTracks` | sdk/lib/ethernet_phy/eth_phy.c:222-327 | with the drivers of this repository state, link and last event agree after every step of every run from ETH_PHY_UP |
| `EthPhy.ResolveMode` | sdk/lib/ethernet_phy/eth_phy_device.c:523-543 | the resolved mode is the fastest one both ends advertise, 10 half when there is none |
| `EthPhy.EthPhy.GenphyUpdateLink` | sdk/lib/ethernet_phy/eth_phy_device.c:450-472 | the link becomes the status bit of the second read, or stays when a read is negative |
| `EthPhy.EthPhy.GenphyReadStatus` | sdk/lib/ethernet_phy/eth_phy_device.c:482-569 | link, speed and duplex for every register content, each negative read included |
| `EthPhy.ReachableStates` | sdk/lib/ethernet_phy/eth_phy.c:178-327 | the states a run from ETH_PHY_UP can reach |
| `EthPhy.HaltedIsFinal` | sdk/lib/ethernet_phy/eth_phy.c:178-318 | no run leaves HALTED; an up link is reported down once, by the first pass |
| `EthPhy.RestartsAfterTimeout` | sdk/lib/ethernet_phy/eth_phy.c:241-297 | `link_timeout = n` leaves n waiting passes alone and calls `config_aneg` exactly on pass n + 1 |
| `EthPhy.TimeoutIsNeverReloaded` | sdk/lib/ethernet_phy/eth_phy.c:241-297 | the exact number of `config_aneg` calls after any number of waiting passes, 32-bit wrap included |
| `EthPhy.EthPhy.SanitizeSettings` | sdk/lib/ethernet_phy/eth_phy.c:153-166 | sets speed and duplex of the chosen setting and clears unsupported auto-negotiation |
| `EthPhy.EthPhy.StartAneg` | sdk/lib/ethernet_phy/eth_phy.c:178-198 | the whole new device state, error and HALTED branches included |
| `EthPhy.EthPhy.StateMachine` | sdk/lib/ethernet_phy/eth_phy.c:222-327 | one pass is the step `EthRuns` and the run theorems are about |
| `EthRuns.LinkUpRuns` | sdk/lib/ethernet_phy/eth_phy.c:241-316 | a pass that sees the link up ends in RUNNING and reports it once, from NOLINK, FORCING, RUNNING, and from AN when the completion bit is set |
| `EthRuns.LinkDownStops` | sdk/lib/ethernet_phy/eth_phy.c:246-316 | a pass that sees the link down, from AN or RUNNING, ends in NOLINK and reports it once |
| `EthRuns.FailedReadHolds` | sdk/lib/ethernet_phy/eth_phy.c:241-316 | a pass whose status read fails keeps state and timeout and reports nothing |
| `EthRuns.StartNegotiates` | sdk/lib/ethernet_phy/eth_phy.c:178-198 | in any state one call of the driver, then AN, or with negotiation off FORCING with the chosen setting; an error or HALTED keeps the state |
| `EthRuns.AnRun` | sdk/lib/ethernet_phy/eth_phy.c:241-316 | over every run from AN without failing reads: AN lasts exactly as long as the passes see the link and no completion; the first other pass ends it, and from then on the state is RUNNING or NOLINK as the last pass saw the link; the exact sequence of reports |
| `EthRuns.ForcingRun` | sdk/lib/ethernet_phy/eth_phy.c:282-316 | the same from FORCING, which lasts until the first pass that sees the link |
| `EthRuns.LifeOfPhy` | sdk/lib/ethernet_phy/eth_phy.c:178-316 | from ETH_PHY_UP with the drivers of this repository: state and all reports after any number of passes, with and without negotiation |
| `EthConfig.ConfigRestartsIff` | sdk/lib/ethernet_phy/eth_phy_device.c:406-440 | for every register content the driver writes nothing if and only if the advertisement is in place, negotiation is on and the PHY not isolated; otherwise it writes the control register once, with bits 0x0200 and 0x1000 set, 0x0400 clear and the rest kept; the writes with bit 0x0200 rise by exactly that; afterwards none of the three is missing |
| `EthConfig.StartSettles` | sdk/lib/ethernet_phy/eth_phy.c:178-198 | starting negotiation with this driver leaves its advertisement in place and negotiation on |
| `EthConfig.TimeoutsRestartNothing` | sdk/lib/ethernet_phy/eth_phy.c:241-297 | over every run of waiting passes from such registers, with the PHY clearing the restart bit at any time, no call of `config_aneg` writes a register |
| `EthConfig.UpSettles` | sdk/lib/ethernet_phy/eth_phy.c:237-239 | a pass of UP leaves registers and advertisement in place, with one write that asks for a restart if they were not |
| `EthConfig.UpForces` | sdk/lib/ethernet_phy/eth_phy.c:237-239 | with negotiation off a pass of UP writes the chosen setting, and the status read will find it |
| `EthConfig.BringUpRestartsOnce` | sdk/lib/ethernet_phy/eth_phy.c:178-297 | from UP through any number of waiting passes and timeouts, negotiation is restarted once if the registers were not in place at first, and else never |
| `EthConfig.EndsAgree` | sdk/lib/ethernet_phy/eth_phy_device.c:73-96 | when both ends advertise what their feature words say, whatever else the registers hold, the status read finds exactly the modes the two words have in common |
| `EthConfig.NegotiatedIsFastest` | sdk/lib/ethernet_phy/eth_phy_device.c:482-543 | the status read then yields the fastest of them |
| `EthConfig.ForcedRoundTrip` | sdk/lib/ethernet_phy/eth_phy_device.c:357-372 | the control value of a forced setting is read back as that setting if and only if its speed is 10, 100 or 1000, and has no other bit set |
| `EthConfig.Port.ConfigAdvert` | sdk/lib/ethernet_phy/eth_phy_device.c:300-347 | advertises what is supported: the managed bits 0x0FE0 become the wanted ones, the others stay, and the result says whether the register changed |
| `EthConfig.Port.RestartAneg` | sdk/lib/ethernet_phy/eth_phy_device.c:379-396 | writes the control register with bits 0x0200 and 0x1000 set, 0x0400 clear and every other bit as before |
| `EthConfig.Port.SetupForced` | sdk/lib/ethernet_phy/eth_phy_device.c:357-372 | the control register then reads as the forced setting |
| `EthConfig.Port.ConfigAneg` | sdk/lib/ethernet_phy/eth_phy_device.c:406-440 | with negotiation enabled the registers are those of the step `ConfigRestartsIff` is about, and unless they were in place the value left asks for a restart and keeps every other bit; with negotiation off they are those of the forced setting |
| `DriverCmd.RegisterAddsPair` | sdk/lib/common/drivercmd.c:35-60 | the set of pairs becomes old plus new, or stays as it is when the pair is stored or the table is full, with the code for each case; no duplicates, empty slots zero |
| `DriverCmd.UnregisterRemovesPair` | sdk/lib/common/drivercmd.c:70-89 | removes the first pair of the handler and nothing else |
| `DriverCmd.UnregisterUndoesRegister` | sdk/lib/common/drivercmd.c:35-89 | the table is restored if and only if no slot before the first empty one holds the handler |
| `DriverCmd.RunKeepsValid` | sdk/lib/common/drivercmd.c:35-89 | in every run on a table of any length no pair is stored twice and empty slots are zero |
| `DriverCmd.HookTable.HdlRegister` | sdk/lib/common/drivercmd.c:35-60 | the single pass that inserts early equals the two-pass look-up, slot for slot |
| `DriverCmd.HookTable.HdlUnregister` | sdk/lib/common/drivercmd.c:70-89 | clears the first slot of the handler, or reports that there is none |
| `HgTimer.Prescaler` | sdk/driver/timer/hgtimer_v2.c:81-85 | the loop finds the least prescaler for which the shifted count fits 16 bits |
| `HgTimer.PrescalerExists` | sdk/driver/timer/hgtimer_v2.c:80-88 | one of the eight fits if and only if the count is below 2^23 |
| `HgTimer.PeriodIsClose` | sdk/driver/timer/hgtimer_v2.c:98-104 | the programmed period is never longer than a nonzero count and falls short by less than one part in 2^15 |
| `HgTimer.ReloadFitsIff` | sdk/driver/timer/hgtimer_v2.c:79-99 | the register value fits 16 bits if and only if the count is nonzero |
| `HgTimer.SearchSkipsFullScale` | sdk/driver/timer/hgtimer_v2.c:81-99 | a prescaler the search refuses would still give a 16-bit value exactly when it leaves a shifted count of 2^16 |
| `HgTimer.FullScaleIsSkipped` | sdk/driver/timer/hgtimer_v2.c:81-99 | at 2^16 ticks prescaler 1 is taken although 0 would write 2^16 - 1 |
| `HgTimer.LeastRegisterFitIff` | sdk/driver/timer/hgtimer_v2.c:81-99 | for every nonzero 32-bit count the search takes the least prescaler whose register value fits 16 bits, or fails because there is none, if and only if no prescaler leaves a shifted count of 2^16 |
| `HgTimer.RegisterFitExists` | sdk/driver/timer/hgtimer_v2.c:80-99 | some prescaler gives a 16-bit register value if and only if the count is nonzero and below 2^23 + 128 |
| `HgTimer.TicksAreTime` | sdk/driver/timer/hgtimer_v2.c:79 | without wrap-around the tick count times 10^6 is the time times the clock, exactly for whole megahertz and else short by less than one period a microsecond |
| `HgTimer.PeriodIsTime` | sdk/driver/timer/hgtimer_v2.c:79-99 | the programmed period is never longer than the microseconds asked for and short by less than one part in 2^15 |
| `HgTimer.Timer.Start` | sdk/driver/timer/hgtimer_v2.c:63-108 | the code for every case, nothing changed on an error, least prescaler and its reload value programmed otherwise; for a clock of whole megahertz and no wrap-around the timer runs for the microseconds asked for, up to one part in 2^15 |

## Left out

- MmHeap.MmHeap.Malloc: for a request that is rounded to 0 the model stops before the peak update, because that walk need not end on the memory left. The failure message is not modelled.
- MmHeap.MmHeap.Initialize: takes a region that holds two guards and one chunk after alignment, is smaller than 2^31 and does not overlap the bucket array, and a bucket array at a word address; several regions are not modelled.
- MmHeap.MmHeap.Free: takes NULL or a live pointer, as the code does without checking.
- MmHeap.MmHeap.MaxUsedSizeUpdate: the low-memory message is not modelled.
- MemDma.RunIsSequential: callers keep their buffers apart; overlapping copies, cache maintenance and interrupts of the engine are not modelled.
- Gpio.Gpio.SetPull: the level is one of the four values of its enumeration.
- Gpio.Gpio.PinMode: the level is one of the four values of its enumeration, and a pin mode is a pull and an open-drain flag.
- Gpio.Gpio.Afio: the function number fits its nibble, as every value of its enumeration does; the device has at most 32 pins.
- HgTimer.Timer.Start: the range ASSERT is taken as compiled out; counter source and mode bits of the control register are not modelled apart from running, prescaler and interrupt enable.
- EthPhy.EthPhy.StateMachine: driver callbacks and register reads are inputs; pause flags are not modelled.
- EthConfig.TimeoutsRestartNothing: the registers read back what was written, apart from the restart bit, which the PHY clears by itself.
- EthConfig.Port.ConfigAneg: the exits for negative register reads, which 16-bit reads cannot take.
- UartProgress.WokenTaskSends: counts steps of the task; that the scheduler lets it run is not modelled.
- MemDma.CanFinish: that the engine moves its bytes and the scheduler lets tasks run is a step that may be taken, not a promise.
- UartP2p.PipelineConserves: the semaphore and timer that wake the task, the NULL check on the device and the receive direction are not modelled; the overwriting `RB_SET_OR` is proved as a sequential operation only.
- DevRegistry.DevMgr.Register: sequential calls; look-up and insertion are separate critical sections, so concurrent registration is out. The mutex is not modelled.
- The leak tracker and the error-detection branches of the allocator, which this configuration turns off.
- The `malloc` wrappers of `csky/libs/libc` and `csky/hgic`, which forward to other code.
- `list_del_init`, `list_replace_init` and `list_is_last`, easy variants of modelled operations, and the `hlist` family.
- `driver_cmd_hdl_proc`, which only calls the stored handlers in turn.
- GPIO hysteresis, data, delay, interrupt and ioctl code, and the atomic bit-band variants.
- Timer interrupt and ioctl code, and all UART, SPI, I2C, CRC, watchdog and `dw_dmac` drivers.
- Boot code, system configuration, string and logging utilities, and the application in `project`.

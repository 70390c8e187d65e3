# Verified model of an OpenAMP firmware runtime

This project models, in Dafny, the parts of an OpenAMP-based firmware where a small slip corrupts
memory or loses a message, and proves what they promise.

- **Split virtqueue** (`Vring`, `VqHistory`, `VqInvariant`, `VqSteps`, `VqRuns`, `VqNotify`,
  `VqRounds`, `VirtQueues`). Driver and device share descriptor table, avail ring and used ring as in
  section 2.6 of VIRTIO 1.1. `Vring` gives the operations as atomic steps, cut where the C code has a fence.
  `VqHistory` pairs the code's state with an unbounded queue whose counters never wrap. `VqSteps` and
  `VqRuns` prove that every interleaving refines it; `VqNotify` and `VqRounds` treat notification
  suppression. `VirtQueues` holds the operations as the C code performs them, on shared arrays.
- **NutHeap allocator** (`HeapList`, `HeapState`, `NutHeaps`). `HeapState` is the heap as a value;
  `NutHeaps` rewrites node headers in word-addressed memory and is proved against it, including what
  happens to the contents of every live block.
- **RPMsg** (`Lending`, `RpmsgHeader`, `RpmsgRx`, `RpmsgTx`, `RpmsgVirtio`, `RpmsgWakeup`, `BitMaps`, `Endpoints`,
  `RpmsgEndpoints`), in the device role. Every locked region is one step. The buffer layers run on top
  of the virtqueue model and prove that the device returns only descriptors it holds, which is what
  the virtqueue model asks of it, so that their runs are runs of the queue.
- **ELF loader** (`ElfImage`, `ElfLoader`, `RemoteprocLoad`, `ElfMemory`, `ElfFormat`). The streaming loader is
  proved against parsing of the whole 32-bit image.
- **Bounded formatter** (`PrintfText`, `Printf`, `PrintfRead`, `PrintfFormat`, `PrintfNumbers`, `PrintfWhole`,
  `PrintfLines`): what the loop prints is told twice, as the code computes it and as formats are written,
  and the two are proved equal. **Ring buffer** (`RingBuffers`).

Classes model what the C code updates in place; their methods are proved equal to step functions,
and the lemmas speak about all runs of the steps. Pointers are numbers and 0 is NULL. Locks are
modelled by the atomicity of steps, fences by the boundaries between them.

## Assumptions taken from the code's callers

- Virtqueue: sizes are powers of two up to 2^15; the asserts that are compiled out
  (include/openamp/virtqueue.h:203-212) become `1 <= needed <= vq_free_cnt` and a non-NULL cookie; the
  device returns only chains it holds.
- Heap: regions added are disjoint, and the size arithmetic at utils/nutheap.c:149 yields a block that
  can hold a node.
- RPMsg: the driver does not lend one buffer twice at a time; holds and releases are matched and fewer
  than 2^16 at a time; an endpoint structure is destroyed once per creation.
- ELF: header entries have the size of their structures, at most 255 program headers, tables and
  loadable segments lie inside the file.
- Formatter: no specification is cut short by the end of the format, no float conversions. Arguments
  of the wrong kind or missing ones, undefined in C, read as 0 or the empty string.

## Where the code differs from its description

- `NutHeapRootRegionAvailable` wraps to 2^32 - 4 on an empty list, so its figure says nothing there.
- `ringbuffer_init` accepts size 0, and `ringbuffer_get` returns 0 on an empty buffer as on success.
- `rpmsg_get_address` cannot report exhaustion, because the bit search on a full map returns a set bit.
- In event-index mode a sleeping peer is woken by a kick only if the entry it waits for is, modulo
  2^16, among those counted since the last kick: after 2^16 unannounced entries the kick is silent.
- In event-index mode `disable_cb` puts the event index one queue length behind, which still lies among
  the entries since the peer's last kick when more than that many are unannounced: the next kick
  then notifies although the callback is disabled.
- Without seek support section headers and name table are collected only if each starts no later than
  the end of what was read before it, or if the last program header is loadable; an empty name table is
  never asked for.
- Negative numbers lose their sign when zero padding fills the 32-character buffer, 64-bit binary loses
  digits from 2^32 on, and '#' takes the place of the last digits when a number is as long as its
  width or precision.
- A left-aligned number gets no leading zeros, not even those that its precision asks for, and `%p` keeps
  the flags '+' and ' '. A binary number with '#' and '0' is one character wider than its width.

## Model

| member | source | states |
|---|---|---|
| `VqRuns.RunsRefine` | openamp/openamp/virtio/virtqueue.c:80-269 | from the initial state, in every interleaving of driver and device steps cut at the fences: no step leaves its arrays or meets a malformed chain, the invariant holds (descriptors partitioned into one free chain of `vq_free_cnt` members and disjoint in-flight chains, ordered counters, exact rings), and the code hands out what an unbounded queue would |
| `VqRuns.RunsDeliverAndCollect` | openamp/openamp/virtio/virtqueue.c:135-232 | over any run the device receives exactly the posted chains in order of posting, and the driver receives, per completion in order of completing, the cookie posted with that chain; no chain completes twice |
| `VqRuns.InitialInv` | openamp/openamp/virtio/virtqueue.c:478-495 | the created queue starts in the invariant |
| `VqRuns.RunsDescribe` | openamp/openamp/virtio/virtqueue.c:398-424 | in every reachable state, descriptor j of every chain in flight has address and length of buffer j, bit 0 of its flags (NEXT) set with the link to descriptor j + 1 unless it is the last, bit 1 (WRITE) set exactly when j is not one of the readable buffers, and no other bit |
| `VqRuns.RunsAsActed` | openamp/openamp/virtio/virtqueue.c:80-322 | the unbounded queue that runs are measured by carries exactly the buffers, readable counts, cookies and completions that the actions of the run name, and its counters count those actions |
| `VqSteps.StepAny` | openamp/openamp/virtio/virtqueue.c:80-322 | every allowed step is defined, keeps the invariant and yields the unbounded queue's output |
| `VqSteps.StepPrepare` | openamp/openamp/virtio/virtqueue.c:100-127 | posting fills the first free descriptors in order, records cookie and length at the head, and overwrites no unread avail slot |
| `VqSteps.StepPublish` | openamp/openamp/virtio/virtqueue.c:502-531 | advancing `avail->idx` publishes exactly the prepared chain |
| `VqSteps.StepClaim` | openamp/openamp/virtio/virtqueue.c:140-157 | a used entry is pending exactly when one was published and not claimed, across 16-bit wraps |
| `VqSteps.StepFinish` | openamp/openamp/virtio/virtqueue.c:158-171 | reaping frees the whole chain and yields its own cookie, for completions in any order |
| `VqSteps.FreeChainOf` | openamp/openamp/virtio/virtqueue.c:434-471 | freeing a chain walks exactly its recorded length, never past it, and puts it in front of the free list |
| `VqSteps.FinishFinds` | openamp/openamp/virtio/virtqueue.c:149-171 | the claimed slot still holds the completion it was published with, and that chain is in flight |
| `VqSteps.StepTake` | openamp/openamp/virtio/virtqueue.c:203-232 | taking delivers the oldest published chain with address and length as posted |
| `VqSteps.StepConsume` | openamp/openamp/virtio/virtqueue.c:234-256 | a completion of a held chain fits the used ring without overwriting an unread slot |
| `VqSteps.StepConsumeDone` | openamp/openamp/virtio/virtqueue.c:257-268 | advancing `used->idx` publishes exactly the written completion |
| `VqSteps.UnreadExact` | openamp/openamp/virtio/virtqueue.c:667-699 | `nused` and `navail` are the exact numbers of unread entries and never exceed the queue size |
| `VqSteps.StepFlags` | openamp/openamp/virtio/virtqueue.c:271-307 | enabling, checking and disabling callbacks change nothing but the notification request |
| `VqSteps.StepKick` | openamp/openamp/virtio/virtqueue.c:309-322 | a kick resets the count of entries published since the last kick |
| `VqInvariant.InFlightBound` | openamp/openamp/virtio/virtqueue.c:219-224 | no more chains are in flight than there are descriptors, so unread slots are never reused |
| `VqInvariant.FillChainMember` | openamp/openamp/virtio/virtqueue.c:398-424 | each descriptor of a posted chain holds its own buffer and link; RunsDescribe spells its flags out |
| `VqInvariant.ChainEndOf` | openamp/openamp/virtio/virtqueue.c:451-457 | following NEXT flags from a posted chain's head ends at its last descriptor |
| `VqNotify.NeedEventExact` | include/openamp/virtio_ring.h:207-212 | the cyclic 16-bit test holds exactly when the event index is one of the last `count` published indices |
| `VqNotify.KickNotifies` | openamp/openamp/virtio/virtqueue.c:608-632 | in event-index mode a kick notifies exactly when the peer's event index is among the entries counted since the last kick, modulo 2^16 |
| `VqNotify.KickNotifiesExactly` | openamp/openamp/virtio/virtqueue.c:608-632 | with fewer than 2^16 publishes between kicks these are all the entries published since |
| `VqNotify.KickWrapsToSilence` | openamp/openamp/virtio/virtqueue.c:263-264 | after any multiple of 2^16 publishes since the last kick the kick is silent although every index was published |
| `VqNotify.RunsEventRange` | openamp/openamp/virtio/virtqueue.c:276-307 | event indices stay 16-bit numbers in every run |
| `VqNotify.RunsCheckArmed` | openamp/openamp/virtio/virtqueue.c:538-589 | between the two halves of `enable_cb` the request stands at the next unread entry |
| `VqNotify.EnabledStaysArmed` | openamp/openamp/virtio/virtqueue.c:538-589 | after an `enable_cb` that returned 0 the request keeps standing at the entry that was next, whatever the peer does, its kicks included, until the same side enables or disables again |
| `VqNotify.WakeupExactly` | openamp/openamp/virtio/virtqueue.c:309-322 | after `enable_cb` returned 0, until the same side enables or disables again, and whatever the peer has published or kicked since, a kick of the peer notifies exactly in flag mode, or when (now - 1 - c) mod 2^16 < (now - last kick) mod 2^16, with c the count published at the enable |
| `VqNotify.NoLostWakeup` | openamp/openamp/virtio/virtqueue.c:309-322 | no lost wakeup: after `enable_cb` returned 0, the peer's first kick once it has published one more entry notifies, also when a kick still pending at the enable came in between; in flag mode always, in event-index mode if fewer than 2^16 entries were published since the kick before |
| `VqNotify.DisabledExactly` | openamp/openamp/virtio/virtqueue.c:276-307 | after `disable_cb` with c entries read, until the same side enables or disables again, a kick of the peer never notifies in flag mode, and in event-index mode notifies exactly when (now - c + n) mod 2^16 < (now - last kick) mod 2^16, with n the queue size |
| `VqRounds.RoundsRun` | openamp/openamp/virtio/virtqueue.c:80-269 | from any idle start with nothing published, entries can be posted, delivered and collected without end and without a kick |
| `VqRounds.SleeperWoken` | openamp/openamp/virtio/virtqueue.c:608-632 | with the device put to sleep first, a run of k such entries exists for every k; the kick after it wakes the device exactly when k is not a multiple of 2^16 |
| `VqRounds.DisabledYetNotified` | openamp/openamp/virtio/virtqueue.c:276-307 | a run of k unannounced entries followed by `disable_cb` exists for every k, and the next kick notifies exactly when the queue size is below k mod 2^16 |
| `VirtQueues.VringMem.constructor` | openamp/openamp/virtio/virtqueue.c:478-495 | the driver links the free chain 0, 1, ... ending in 32768 |
| `VirtQueues.VirtQueue.constructor` | openamp/openamp/virtio/virtqueue.c:45-78 | the control block of a created queue |
| `VirtQueues.VirtQueue.RingAddBuffer` | openamp/openamp/virtio/virtqueue.c:385-427 | the fill loop writes the chain in the descriptor table and returns the link after it |
| `VirtQueues.VirtQueue.AddBuffer` | openamp/openamp/virtio/virtqueue.c:80-133 | the operation is its two atomic steps, prepare and publish |
| `VirtQueues.VirtQueue.WalkChain` | openamp/openamp/virtio/virtqueue.c:452-456 | the walk ends at the chain's last descriptor, having counted its links |
| `VirtQueues.VirtQueue.RingFreeChain` | openamp/openamp/virtio/virtqueue.c:434-471 | the chain is freed as the specification of the step says |
| `VirtQueues.VirtQueue.GetBuffer` | openamp/openamp/virtio/virtqueue.c:135-172 | the operation is its two atomic steps; nothing pending returns NULL and changes nothing |
| `VirtQueues.VirtQueue.GetAvailableBuffer` | openamp/openamp/virtio/virtqueue.c:203-232 | the operation is the step; nothing pending returns NULL and changes nothing |
| `VirtQueues.VirtQueue.AddConsumedBuffer` | openamp/openamp/virtio/virtqueue.c:234-269 | the operation is its two atomic steps; an index outside the table is refused and changes nothing |
| `VirtQueues.VirtQueue.EnableCb` | openamp/openamp/virtio/virtqueue.c:538-589 | writes the request, then reports whether entries are unread |
| `VirtQueues.VirtQueue.DisableCb` | openamp/openamp/virtio/virtqueue.c:276-307 | puts the event index n + 1 behind the entries read, or sets the suppress flag |
| `VirtQueues.VirtQueue.Kick` | openamp/openamp/virtio/virtqueue.c:309-322 | notifies exactly when the test says so, and resets the count |
| `HeapState.RunsKeep` | utils/nutheap.c:138-564 | in every state reachable by add, alloc, free and realloc the free list is address-ordered, each node holds at least two words, no two nodes are adjacent, live blocks are disjoint from it and from each other, and free and live words are the words added |
| `HeapState.WordsConserved` | utils/nutheap.c:301-358 | free words plus live words equal added words; none is both |
| `HeapState.AllocKeeps` | utils/nutheap.c:149-205 | an allocation keeps the invariant and every live block, takes the lowest of the smallest fitting nodes, fails exactly when no node is large enough, and then changes nothing |
| `HeapState.AllocExactly` | utils/nutheap.c:180-193 | the block starts where the best fit does and has exactly the words needed, or all of the node when fewer than a node would be left; every other free word stays free |
| `HeapState.AllocCost` | utils/nutheap.c:180-193 | an allocation lowers the number of free words by its block, which is less than one node above the words needed |
| `HeapState.GrownBlock` | utils/nutheap.c:489-527 | a block grown in place has at least the words needed and less than one node more, and takes over exactly the free words that it then covers |
| `HeapState.FreeKeeps` | utils/nutheap.c:301-358 | freeing adds exactly the block's words to the free words, merged on both sides |
| `HeapState.AddKeeps` | utils/nutheap.c:371-381 | a disjoint region becomes free memory |
| `HeapState.ReallocKeeps` | utils/nutheap.c:483-563 | on every path the result is live and as large as asked for, every other block keeps its place and size, and failure leaves the heap unchanged |
| `HeapState.ReallocExactly` | utils/nutheap.c:489-563 | a block that must grow does so in place exactly when a large enough free node follows it directly; else it moves to the best fit for one header more, or NULL is returned exactly when there is none; a block with more than a node to spare is cut to size; any other is left as it is |
| `HeapState.AllocThenFree` | utils/nutheap.c:180-190 | freeing undoes allocating |
| `HeapState.FreeOrderIrrelevant` | utils/nutheap.c:301-358 | freeing a set of blocks in any order gives the same free list |
| `HeapState.FreeingAllRestores` | utils/nutheap.c:301-358 | freeing everything restores the list of maximal added regions |
| `HeapState.AllocSucceedsExactly` | utils/nutheap.c:406-419 | `size <= RegionAvailable` decides whether alloc succeeds exactly when the free list is not empty; the four largest sizes wrap, and then alloc succeeds exactly on a list that is not empty |
| `HeapState.SizesAreWords` | utils/nutheap.c:388-399 | node sizes add up to the number of free words |
| `HeapList.NeedCovers` | utils/nutheap.c:149-153 | the rounded 32-bit size covers the request exactly when the sum does not wrap |
| `HeapList.AskableSizes` | utils/nutheap.c:149-153 | the rounded size is a possible block for all but the three sizes from 2^32 - 7 to 2^32 - 5 |
| `HeapList.AskableAgainSizes` | utils/nutheap.c:483-487 | rounding twice, as relocation does, costs one more header and covers the request exactly for sizes up to 2^32 - 12 |
| `HeapList.Canonical` | utils/nutheap.c:301-358 | the free list is a function of the set of free words |
| `HeapList.InsertOk` | utils/nutheap.c:303-332 | insertion with two-sided merging keeps the list in form and covers exactly the block's words more |
| `HeapList.InsideIsFound` | utils/nutheap.c:335-345 | a block header lies in free memory exactly when the walk's two neighbours show it |
| `HeapList.TakeFromCovers` | utils/nutheap.c:183-193 | splitting or taking a node moves exactly its words to the block |
| `HeapList.TakenIs` | utils/nutheap.c:183-193 | the block is exactly what was asked for, or the whole node when the rest could not be a node |
| `NutHeaps.NutHeap.FindFit` | utils/nutheap.c:158-178 | the search finds the lowest of the smallest fitting nodes, or none |
| `NutHeaps.NutHeap.Carve` | utils/nutheap.c:180-193 | the node headers and links rewritten in memory represent the list after the split or removal |
| `NutHeaps.NutHeap.Alloc` | utils/nutheap.c:138-206 | memory represents the heap after the allocation, every live block's words are unchanged, and NULL leaves memory as it was |
| `NutHeaps.NutHeap.Seek` | utils/nutheap.c:301-349 | the walk stops at the first node that does not end before the block |
| `NutHeaps.NutHeap.FreeBehind` | utils/nutheap.c:305-316 | merging behind a node, and with the next one, in memory |
| `NutHeaps.NutHeap.FreeBefore` | utils/nutheap.c:321-357 | linking in before a node or at the end, merged when adjacent, in memory |
| `NutHeaps.NutHeap.RootFree` | utils/nutheap.c:265-359 | a header anywhere inside free memory is refused with -1 and NULL with -3, changing nothing; any other block is inserted |
| `NutHeaps.NutHeap.Free` | utils/nutheap.c:265-359 | freeing a live block keeps every other live block's words |
| `NutHeaps.NutHeap.Add` | utils/nutheap.c:371-381 | the region is trimmed to aligned words and becomes free |
| `NutHeaps.RegionIs` | utils/nutheap.c:371-381 | the region added is made of exactly the aligned words within the bytes given |
| `NutHeaps.NutHeap.SeekFrom` | utils/nutheap.c:495-501 | finds the first free node at or after the block |
| `NutHeaps.NutHeap.MoveUp` | utils/nutheap.c:508-516 | moving a free node's start, also by one word where old and new header overlap |
| `NutHeaps.NutHeap.Unlink` | utils/nutheap.c:518-523 | removing a node from the list in memory |
| `NutHeaps.NutHeap.GrowInto` | utils/nutheap.c:505-526 | growing by split or absorption in memory |
| `NutHeaps.NutHeap.Grow` | utils/nutheap.c:505-526 | growth in place keeps the block's words and all others |
| `NutHeaps.NutHeap.MoveInto` | utils/nutheap.c:535-543 | copying and freeing keep the copied words and every other block |
| `NutHeaps.NutHeap.Move` | utils/nutheap.c:529-544 | relocation keeps the old words and every other block; NULL changes nothing |
| `NutHeaps.NutHeap.Shrink` | utils/nutheap.c:550-562 | reduction returns the tail to the free list and keeps the leading words |
| `NutHeaps.NutHeap.Realloc` | utils/nutheap.c:437-564 | all paths: NULL block allocates, size 0 frees, otherwise the first min(old, new) words and all other blocks are kept, and a NULL result leaves the heap unchanged |
| `NutHeaps.NutHeap.Available` | utils/nutheap.c:388-399 | free bytes less one header per node |
| `NutHeaps.NutHeap.RegionAvailable` | utils/nutheap.c:406-419 | largest node less a header, in 32-bit arithmetic |
| `RpmsgHeader.WordOps` | openamp/openamp/rpmsg/rpmsg_virtio.c:27-44 | as long as the count stays below 2^16, the reserved word counts holders and keeps the index |
| `Lending.TakeLends` | openamp/openamp/rpmsg/rpmsg_virtio.c:226-245 | a buffer taken is one not already owned, and comes with its own index |
| `Lending.MayReturn` | openamp/openamp/rpmsg/rpmsg_virtio.c:127-131 | the index of an owned buffer is one the queue allows the device to return |
| `Lending.ReturnEnds` | openamp/openamp/rpmsg/rpmsg_virtio.c:108-132 | returning ends ownership of exactly that buffer |
| `Lending.OthersKeep` | openamp/openamp/rpmsg/rpmsg_virtio.c:100-168 | driver steps, publication and kick lend and return nothing |
| `RpmsgRx.RxRuns` | openamp/openamp/rpmsg/rpmsg_virtio.c:288-343 | in every interleaving of driver, callbacks and holders no step fails, and each owned buffer's header carries its index and exact reference count |
| `RpmsgRx.RxStepOnQueue` | openamp/openamp/rpmsg/rpmsg_virtio.c:108-132 | each step is one that the queue's rules allow, or leaves the queue alone; an index given to `add_consumed_buffer` is one the device holds |
| `RpmsgRx.RxRunsOnQueue` | openamp/openamp/rpmsg/rpmsg_virtio.c:288-343 | every run is a run of the queue with the same state, so its deliveries and collections are accounted for and the wakeup results apply |
| `RpmsgRx.RxStepKeeps` | openamp/openamp/rpmsg/rpmsg_virtio.c:559-610 | each locked region and unlocked header access keeps the invariant |
| `RpmsgRx.ReturnedExactlyOnce` | openamp/openamp/rpmsg/rpmsg_virtio.c:559-610 | every buffer taken is either still owned or returned, and returned once |
| `RpmsgRx.ReturnIsLastReference` | openamp/openamp/rpmsg/rpmsg_virtio.c:288-343 | a buffer goes back only when its last reference goes, with the callback ended and no hold left, and under the index it was taken with |
| `RpmsgRx.QuietMeansReturned` | openamp/openamp/rpmsg/rpmsg_virtio.c:604-608 | once no callback runs and no hold is left, every buffer taken has been returned |
| `RpmsgRx.DropAgrees` | openamp/openamp/rpmsg/rpmsg_virtio.c:288-304 | the header's count decides as the true number of references does |
| `RpmsgTx.TxRuns` | openamp/openamp/rpmsg/rpmsg_virtio.c:357-489 | in every interleaving no step fails, and every buffer keeps its own index wherever it is |
| `RpmsgTx.TxStepOnQueue` | openamp/openamp/rpmsg/rpmsg_virtio.c:146-168 | each step is one that the queue's rules allow, or leaves the queue alone; an index given to `add_consumed_buffer` is one the device holds |
| `RpmsgTx.TxRunsOnQueue` | openamp/openamp/rpmsg/rpmsg_virtio.c:357-489 | every run is a run of the queue with the same state |
| `RpmsgTx.TxStepKeeps` | openamp/openamp/rpmsg/rpmsg_virtio.c:181-213 | each step keeps the invariant |
| `RpmsgTx.RecycleKeeps` | openamp/openamp/rpmsg/rpmsg_virtio.c:188-199 | a recycled buffer comes back with its own index |
| `RpmsgTx.SpareFirst` | openamp/openamp/rpmsg/rpmsg_virtio.c:181-213 | `get_tx_buffer` returns the spare buffer given up first and leaves the queue alone; without one, the oldest buffer published and not taken; without that, nothing, and nothing changes |
| `RpmsgTx.GivenUpLast` | openamp/openamp/rpmsg/rpmsg_virtio.c:465-489 | a buffer given up unsent waits behind the other spares with its own index |
| `RpmsgTx.OnlySendsReturn` | openamp/openamp/rpmsg/rpmsg_virtio.c:415-463 | sending puts the sender's buffer on the used ring under its own index and with its descriptor's length, and no other step returns a buffer |
| `RpmsgTx.OnePlace` | openamp/openamp/rpmsg/rpmsg_virtio.c:181-213 | every descriptor, in a chain of any length, is in exactly one place: with the driver, returned as used, in the reclaimer, or with a sender |
| `RpmsgTx.SpareOnly` | openamp/openamp/rpmsg/rpmsg_virtio.c:465-489 | an index in the reclaimer is there once and nowhere else |
| `RpmsgTx.SenderOnly` | openamp/openamp/rpmsg/rpmsg_virtio.c:357-413 | an index in a sender's hands is with one buffer and nowhere else |
| `RpmsgVirtio.RpmsgDevice.BufHeldDecTest` | openamp/openamp/rpmsg/rpmsg_virtio.c:288-304 | decrements the count and tells whether it was the last |
| `RpmsgVirtio.RpmsgDevice.GiveBack` | openamp/openamp/rpmsg/rpmsg_virtio.c:313-328 | the used entry is written, published and kicked with the buffer's own length; the result says whether the other side is notified, exactly when the queue's test on the state after publishing says so |
| `RpmsgVirtio.RpmsgDevice.ReleaseRxBuffer` | openamp/openamp/rpmsg/rpmsg_virtio.c:330-343 | gives the buffer back exactly when the last reference goes, and notifies then as GiveBack says |
| `RpmsgVirtio.RpmsgDevice.GetTxBuffer` | openamp/openamp/rpmsg/rpmsg_virtio.c:181-213 | recycles the oldest spare buffer, else takes the next available one |
| `RpmsgVirtio.RpmsgDevice.SendOffchannelNocopy` | openamp/openamp/rpmsg/rpmsg_virtio.c:415-463 | the buffer is queued under the index in its header, which is cleared, and the other side notified as GiveBack says |
| `RpmsgVirtio.RpmsgDevice.ReleaseTxBuffer` | openamp/openamp/rpmsg/rpmsg_virtio.c:465-489 | an unsent buffer joins the end of the reclaimer with its index |
| `RpmsgVirtio.ReleaseRxIsSteps` | openamp/openamp/rpmsg/rpmsg_virtio.c:330-343 | the whole call is the interleaved steps run without interruption |
| `RpmsgVirtio.SendIsSteps` | openamp/openamp/rpmsg/rpmsg_virtio.c:415-463 | the whole call is the interleaved steps run without interruption |
| `RpmsgVirtio.GetTxIsStep` | openamp/openamp/rpmsg/rpmsg_virtio.c:181-213 | what the call does is the step of the interleaved model |
| `RpmsgVirtio.ReleaseTxIsStep` | openamp/openamp/rpmsg/rpmsg_virtio.c:465-489 | what the call does is the step of the interleaved model |
| `RpmsgWakeup.RxRunsAnnounce` | openamp/openamp/rpmsg/rpmsg_virtio.c:313-328 | in every run of the receive side every buffer returned has been published and kicked once the lock is free, and at most one is under way while it is held |
| `RpmsgWakeup.TxRunsAnnounce` | openamp/openamp/rpmsg/rpmsg_virtio.c:146-168 | the same for the transmit side |
| `RpmsgWakeup.DriverWoken` | openamp/openamp/rpmsg/rpmsg_virtio.c:313-328 | so a driver that waits for the entry being returned is notified by the kick that follows, in both notification modes |
| `Endpoints.EptRuns` | openamp/openamp/rpmsg/rpmsg.c:27-117 | in every run, bit b is set exactly when one registered endpoint has address 1024 + b, and each reference count is one for registration plus one per running callback |
| `Endpoints.EptStepKeeps` | openamp/openamp/rpmsg/rpmsg.c:288-388 | creation, callback entry and exit, and destruction keep the invariant |
| `Endpoints.ReleasedOnce` | openamp/openamp/rpmsg/rpmsg.c:106-117 | an endpoint is released only when unlisted with no callback running, once for each registration |
| `Endpoints.FullMapRepeats` | openamp/openamp/rpmsg/rpmsg.c:331-337 | automatic addressing keeps addresses unique exactly when some bit is clear |
| `Endpoints.CreationsFill` | openamp/openamp/rpmsg/rpmsg.c:331-337 | k automatic creations from an empty table set exactly the first k bits |
| `Endpoints.FullMapIsReached` | openamp/openamp/rpmsg/rpmsg.c:331-337 | after 128 automatic creations the map is full and the next one repeats an address |
| `Endpoints.ReserveOk` | openamp/openamp/rpmsg/rpmsg.c:331-356 | a granted address is unused and its bit is now set, no other bit changes |
| `Endpoints.CreateStatus` | openamp/openamp/rpmsg/rpmsg.c:331-356 | creation succeeds exactly for an automatic address, one below 1024, or one of the map that no endpoint has; it is a parameter error exactly above the map and an address error exactly when taken, and then changes nothing |
| `Endpoints.CreateRegisters` | openamp/openamp/rpmsg/rpmsg.c:301-373 | the new endpoint is listed last with the first 32 characters of its name, the remote address asked for, the local address asked for (or an unused one of the map) and one reference; every other endpoint is unchanged |
| `Endpoints.FreedLast` | openamp/openamp/rpmsg/rpmsg.c:331-337 | an address chosen and freed again is the last that automatic addressing takes: the next creation takes it exactly when no other address of the map is free |
| `Endpoints.UnregisterEffect` | openamp/openamp/rpmsg/rpmsg.c:288-299 | unregistering removes exactly that endpoint and keeps the address map exact |
| `RpmsgEndpoints.AddressFindsOne` | openamp/openamp/rpmsg/rpmsg.c:258-286 | a lookup by dynamic address finds an endpoint exactly when its bit is set, and there is only one |
| `RpmsgEndpoints.MatchesByName` | openamp/openamp/rpmsg/rpmsg.c:258-286 | a lookup by name and remote address matches exactly the endpoints of that name, by 32 characters, that are bound to this address or not bound |
| `RpmsgEndpoints.MatchesByAddress` | openamp/openamp/rpmsg/rpmsg.c:258-286 | a lookup by local address matches exactly the endpoints with that address |
| `RpmsgEndpoints.CreatedIsFound` | openamp/openamp/rpmsg/rpmsg.c:258-286 | an endpoint created without a remote address matches a lookup by its name and any remote address, as a name-service announcement makes it, and stands behind the endpoints listed before |
| `RpmsgEndpoints.RpmsgDevice.GetAddress` | openamp/openamp/rpmsg/rpmsg.c:27-39 | takes the next clear bit and sets it |
| `RpmsgEndpoints.RpmsgDevice.ReleaseAddress` | openamp/openamp/rpmsg/rpmsg.c:50-56 | clears the bit of a dynamic address, ignores others |
| `RpmsgEndpoints.RpmsgDevice.IsAddressSet` | openamp/openamp/rpmsg/rpmsg.c:69-76 | the bit, or an error outside the map |
| `RpmsgEndpoints.RpmsgDevice.SetAddress` | openamp/openamp/rpmsg/rpmsg.c:89-98 | sets the bit, or an error outside the map |
| `RpmsgEndpoints.RpmsgDevice.EptDecref` | openamp/openamp/rpmsg/rpmsg.c:106-117 | one reference less; the last one releases |
| `RpmsgEndpoints.RpmsgDevice.GetEndpoint` | openamp/openamp/rpmsg/rpmsg.c:258-286 | the first listed endpoint that matches by address, or by name and remote address |
| `RpmsgEndpoints.RpmsgDevice.RegisterEndpoint` | openamp/openamp/rpmsg/rpmsg.c:301-317 | one reference, listed last |
| `RpmsgEndpoints.RpmsgDevice.CreateEpt` | openamp/openamp/rpmsg/rpmsg.c:319-373 | address errors change nothing; otherwise the endpoint is registered with the reserved address |
| `RpmsgEndpoints.RpmsgDevice.UnregisterEndpoint` | openamp/openamp/rpmsg/rpmsg.c:288-299 | address freed, unlisted, one reference less |
| `RpmsgEndpoints.RpmsgDevice.DestroyAll` | openamp/openamp/rpmsg/rpmsg_virtio.c:961-965 | the teardown loop ends with nothing registered and every address free |
| `BitMaps.NextClearExact` | include/metal/utilities.h:130-141 | the bit found is clear exactly when some bit is; a full map yields start modulo size |
| `BitMaps.Bitmap.SetBit` | include/metal/utilities.h:89-93 | sets that bit and no other |
| `BitMaps.Bitmap.ClearBit` | include/metal/utilities.h:101-105 | clears that bit and no other |
| `BitMaps.Bitmap.IsBitSet` | include/metal/utilities.h:95-99 | reads the bit |
| `BitMaps.Bitmap.NextClearBit` | include/metal/utilities.h:130-141 | the cyclic search |
| `RemoteprocLoad.Load` | openamp/openamp/remoteproc/remoteproc.c:508-643 | a well-formed image is loaded whenever the store answers; every loadable segment is written once in header order; tables collected equal the image's; all are collected exactly when each follows on the one before it in the file, or they can be had after the data |
| `RemoteprocLoad.LoadHeaders` | openamp/openamp/remoteproc/remoteproc.c:508-553 | the header loop asks for at most four windows; it collects everything exactly when each table follows on the one before it, and stops before the section headers exactly when these do not follow |
| `RemoteprocLoad.HeadersCollected` | openamp/openamp/remoteproc/remoteproc.c:524-538 | the header loop collects everything exactly when section headers and name table each lie in what was read or can be reached from its end, or anywhere with seek support, in terms of the offsets in the ELF header |
| `RemoteprocLoad.LoadSegments` | openamp/openamp/remoteproc/remoteproc.c:562-643 | the data loop writes exactly the loadable segments; after them the missing headers are collected exactly if the last program header is loadable and no request would be empty |
| `RemoteprocLoad.LoadSegment` | openamp/openamp/remoteproc/remoteproc.c:587-619 | file contents, then exactly memsz - filesz zero bytes |
| `RemoteprocLoad.SeekCompletes` | openamp/openamp/remoteproc/remoteproc.c:524-538 | with seek support and a name table that is not empty the header loop collects everything |
| `ElfMemory.NoSeekMisses` | openamp/openamp/remoteproc/elf_loader.c:583-592 | a concrete image whose section headers are never collected without seek support, and that fails the condition |
| `ElfMemory.Loaded` | openamp/openamp/remoteproc/remoteproc.c:587-619 | after loading disjoint segments every byte of target memory is the segment's file byte or zero, and bytes outside are untouched |
| `ElfMemory.LastSegmentDecides` | openamp/openamp/remoteproc/remoteproc.c:565-643 | where segments overlap the last one decides |
| `ElfFormat.HeaderRoundTrip` | include/openamp/elf_loader.h:37-52 | a file header written field by field, least significant byte first, reads back as written |
| `ElfFormat.ProgramRoundTrip` | include/openamp/elf_loader.h:135-144 | entry i of a table of program headers, written in field order, reads back with its own type, offset, physical address, file size and memory size |
| `ElfFormat.SectionRoundTrip` | include/openamp/elf_loader.h:173-184 | entry i of a table of section headers, written in field order, reads back with its own offset and size |
| `ElfFormat.LoadedAsWritten` | openamp/openamp/remoteproc/remoteproc.c:587-619 | for every program header of type 1 written in the file, memory from its physical address on holds its file contents and then zeros after loading |
| `ElfFormat.KeptAsWritten` | openamp/openamp/remoteproc/remoteproc.c:565-643 | an address outside all program headers of type 1 keeps its byte |
| `ElfLoader.ElfInfo.LoadHeader` | openamp/openamp/remoteproc/elf_loader.c:395-532 | goes as far as the window leads, collecting tables equal to the image's slices, then asks for exactly the next missing part; a foreign state is refused |
| `ElfLoader.ElfInfo.TakePhdrs` | openamp/openamp/remoteproc/elf_loader.c:433-458 | program headers are the image's slice, taken exactly when the window contains them |
| `ElfLoader.ElfInfo.TakeShdrs` | openamp/openamp/remoteproc/elf_loader.c:474-493 | section headers are the image's slice, taken exactly when the window contains them |
| `ElfLoader.ElfInfo.TakeShstrtab` | openamp/openamp/remoteproc/elf_loader.c:495-530 | the name table is the image's slice, taken exactly when the window contains it |
| `ElfLoader.ElfInfo.NextLoadSegment` | openamp/openamp/remoteproc/elf_loader.c:356-375 | the first loadable segment at or after the cursor, or none |
| `ElfLoader.ElfInfo.Yield` | openamp/openamp/remoteproc/elf_loader.c:565-595 | one loadable segment per call; post-load or complete exactly after the last header |
| `ElfLoader.ElfInfo.LoadData` | openamp/openamp/remoteproc/elf_loader.c:534-620 | headers first, then segments in order, then missing headers, then complete |
| `ElfImage.WritesSkip` | openamp/openamp/remoteproc/elf_loader.c:366-373 | headers that are not loadable contribute no writes |
| `ElfImage.WantedAdvances` | openamp/openamp/remoteproc/elf_loader.c:442-447 | a window that was asked for always leads on |
| `Printf.Snprintf` | utils/printf.c:577-857 | the result is the length of the whole text as an int, whatever the buffer size; the buffer gets its first min(length, count - 1) characters and NUL, and nothing else changes; nothing at or past `count` changes even when the 32-bit index wraps |
| `Printf.Printer.Print` | utils/printf.c:587-850 | the loop prints exactly the text of the format |
| `Printf.Printer.Convert` | utils/printf.c:683-849 | one conversion, and the arguments it consumes |
| `Printf.Printer.EvalSpec` | utils/printf.c:601-680 | flags, width, precision and length as parsed |
| `Printf.Printer.Out` | utils/printf.c:133-138 | writes only below the buffer size, counts always |
| `Printf.Printer.OutRev` | utils/printf.c:199-223 | reversal and space padding |
| `Printf.Printer.NtoaFormat` | utils/printf.c:227-277 | zeros, prefix, sign and padding |
| `Printf.Printer.Ntoa` | utils/printf.c:281-301 | digits of a number in its base, formatted |
| `Printf.Printer.TakeDigits` | utils/printf.c:292-298 | the digit loop, last digit first, as many as fit |
| `Printf.Printer.OutString` | utils/printf.c:796-820 | a string up to its end or precision, padded |
| `Printf.Printer.OutChar` | utils/printf.c:776-794 | a padded character |
| `Printf.Printer.OutInteger` | utils/printf.c:684-756 | argument width, base and flag rules of the integer conversions |
| `Printf.Printer.StrnlenS` | utils/printf.c:171-176 | length up to NUL or limit |
| `Printf.Printer.Atoi` | utils/printf.c:188-195 | decimal digits in 32-bit arithmetic |
| `PrintfFormat.TextLiteral` | utils/printf.c:587-599 | text without '%' is printed as it stands and consumes no argument |
| `PrintfFormat.SpecParsed` | utils/printf.c:601-680 | the parser reads back every written conversion: its set of flags, width and precision as decimal numbers modulo 2^32 or from a star argument (a negative width aligns left, a negative precision is 0), its length modifier, and the conversion character |
| `PrintfNumbers.DigitsReversed` | utils/printf.c:291-298 | the buffer, reversed, holds the digits of the value in its base, first digit first, in lower or upper case, whenever they fit |
| `PrintfNumbers.NtoaIs` | utils/printf.c:227-301 | what is printed is spaces, sign, prefix, zeros, digits, spaces: zeros up to the precision or, with '0', up to the width less the sign, less the places that a '#' prefix shares with them; whenever that takes at most 32 characters without the spaces |
| `PrintfWhole.StringPrinted` | utils/printf.c:796-820 | %s takes one argument and prints it up to its NUL or its precision in a field of its width, spaces in front or, left aligned, behind |
| `PrintfWhole.CharPrinted` | utils/printf.c:776-794 | %c takes one argument and prints it modulo 256 in a field of its width |
| `PrintfWhole.NumberPrinted` | utils/printf.c:684-774 | an integer conversion takes one argument and prints it at the width its length modifier names, with '0' giving way to a precision, '+' and ' ' only for signed conversions and '#' only for the others |
| `PrintfWhole.PointerPrinted` | utils/printf.c:822-838 | %p takes one argument and prints it as a 32-bit number in upper case base 16, eight digits wide |
| `PrintfWhole.FormatPrinted` | utils/printf.c:587-850 | a whole format of any text and conversions prints the text and the meaning of each conversion in order, and each conversion takes exactly its own arguments |
| `PrintfWhole.FormatSupported` | utils/printf.c:587-850 | every such format is one that Snprintf is specified for |
| `PrintfLines.StringsPrinted` | utils/printf.c:796-820 | text with %s in between prints the strings, each in its own place |
| `PrintfLines.NumbersReadBack` | utils/printf.c:684-774 | a line of n conversions %d, %i, %u, %x, %X, %o or %b, each with a space behind it, reads back as exactly its n arguments in order in base 10, 16, 8 or 2, for every length modifier and every value of its type; binary numbers below 2^32 |
| `PrintfLines.StringFields` | utils/printf.c:796-820 | %5s pads in front, %-5s behind |
| `PrintfLines.NumberField` | utils/printf.c:614-627 | %12d has width twelve |
| `PrintfRead.ReadBack` | utils/printf.c:227-301 | without '#', a printed integer reads back as its value exactly when its digits fit the 32-character buffer and, if negative, a place is left for the sign |
| `PrintfRead.ReadBackHash` | utils/printf.c:242-262 | with '#', a nonzero integer reads back, prefix stripped, exactly when the digits that the prefix leaves are enough, prefix letter and zero both have room, and a negative number has a place for its sign |
| `PrintfRead.HashKeeps` | utils/printf.c:243-249 | the digits that '#' leaves are worth the value exactly when it is below the base to their number |
| `PrintfRead.ZeroHasNoPrefix` | utils/printf.c:286-289 | zero is printed without a prefix |
| `PrintfRead.SignIsLost` | utils/printf.c:264-267 | a concrete negative number that loses its sign |
| `PrintfRead.HighDigitIsLost` | utils/printf.c:292-298 | a concrete 64-bit binary number that loses its digit |
| `PrintfRead.PlainReadsBack` | utils/printf.c:684-756 | conversions without width and precision read back as their argument, exactly but for 64-bit binary numbers from 2^32 on |
| `PrintfRead.HashDropsDigits` | utils/printf.c:243-249 | a concrete '#' conversion that loses digits, as the condition of ReadBackHash says |
| `PrintfRead.DigitsWorth` | utils/printf.c:292-298 | the digits are worth the value exactly when they all fit |
| `RingBuffers.MostRecent` | utils/ringbuffer.c:19-57 | after any sequence of put, get and flush the contents are the most recent unread bytes in order |
| `RingBuffers.RingBuffer.Init` | utils/ringbuffer.c:3-17 | accepts exactly zero and the powers of two |
| `RingBuffers.RingBuffer.Append` | utils/ringbuffer.c:30-45 | appends, dropping the oldest byte when full, across index wraparound |
| `RingBuffers.RingBuffer.Get` | utils/ringbuffer.c:19-28 | takes the oldest byte; on an empty buffer the caller's byte is kept and 0 returned all the same |
| `RingBuffers.RingBuffer.Num` | utils/ringbuffer.c:47-50 | the exact number of unread bytes |
| `RingBuffers.RingBuffer.Flush` | utils/ringbuffer.c:52-57 | empties the buffer |
| `Bits.PowerOfTwoTest` | utils/ringbuffer.c:8-9 | `size & (size - 1)` is zero exactly for powers of two |
| `Bits.MaskedCounter` | openamp/openamp/virtio/virtqueue.c:219-221 | masking a wrapped counter gives the unbounded counter modulo the size |

## Left out

- Cache maintenance and weak memory ordering: each access between fences is one atomic step.
- Translation between virtual and physical addresses: it is the identity here.
- Indirect descriptors: the driver never creates them; freeing a chain keeps the code's test for the flag.
- Virtqueue dump, descriptor-size peek, and the virtio device, MMIO and resource-table code around the queue: short accessors.
- The driver role of RPMsg: this firmware runs in the device role.
- Waiting for a transmit buffer, name-service messages and updates of an endpoint's remote address: they change neither buffer ownership nor reference counts.
- Guard words, debug lists, aligned and cleared allocation of the heap: not configured, or thin wrappers.
- Memory is addressed in words: byte contents are preserved as parts of whole words.
- NutHeaps.NutHeap.Alloc: excludes the three sizes from 2^32 - 7 to 2^32 - 5, for which the rounded size is 0 and the code writes a free node into itself.
- NutHeaps.NutHeap.Realloc: excludes, for a block that is not NULL, sizes from 2^32 - 11 to 2^32 - 5, for which the rounded size wraps when relocation adds a header again, and the copy would not fit the new block.
- Memory exhaustion in the ELF loader, 64-bit images, and lookup of sections and the resource table by name.
- Mapping of device addresses: it succeeds or fails as a parameter says, and is the identity.
- Float and exponent formatting, and output through callbacks instead of a buffer.
- Printf.Snprintf: for texts of 2^32 characters or more, what the buffer holds below `count` after the index has wrapped is left open.
- Mailbox, GPIO, UART, interrupt and PMP code, and the RPC wrappers.

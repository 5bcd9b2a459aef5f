# DeepShield: a verified model

DeepShield is a Windows kernel hypervisor. This project models the data structures and protocols it keeps for itself, and proves what the rest of the hypervisor relies on. It is written for Dafny 4.11; `dafny verify dfyconfig.toml` checks all of it.

- **Private heap** (`Bytes`, `HeapLayout`, `HeapRuns`, `HeapExact`, `HeapHeaders`, `HeapSurgery`, `Heap`). `HeapLayout` says on values where first-fit allocation, aligned allocation and coalescing free place blocks, `HeapRuns` what follows for all histories, and `HeapExact` the outcome of one allocation in plain numbers. `HeapHeaders` reads the 24-byte headers out of memory, `HeapSurgery` says what header writes do to the physical chain and the two lists, and the class in `Heap` performs the writes of `mem.c` byte by byte in an array and is proved to carry out `HeapLayout`. So a header copied over its old place and a header left behind by a merge are what they are in the source: bytes.
- **Barrier** (`Barrier`, `Sets`). The two-turnstile barrier, its semaphores and their spin locks as interleaved steps, one per interlocked access, of any number of threads that repeat Enter and Exit.
- **Page tables** (`Mmu`, `Mapper`, `Fetch`). The entry-address arithmetic on 64-bit words, the 4-level walk of section 4.5 of the Intel SDM (volume 3A) defined table by table, the mapping slots of one processor as a class, the walk through them, and the guest-instruction fetch.
- **RDTSC detector** (`Tsc`). The table of sibling readings in an array, with the casts to `int`, the wrap-around of its counters and `abs` of the least integer written out. The verdict of the disassembler comes with each reading.
- **Ring buffer and mailbox** (`Ringbuf`, `Mailbox`, `MailboxRuns`). The byte ring in an array against a byte queue, the records, and the runs of posts and retrieves against a queue of numbered records.
- **Index list and thread exclusions** (`IdxList`, `Exclusions`). The node array with its circular and its free list against a sequence of active indices, and its client.
- **Bucket bitmap** (`Buckets`) and **all-processor call** (`Rendezvous`, `Sets`) as interleaved steps.

Four expectations turn out not to hold, and each has its exact condition here. A free block can be smaller than MINIMAL_FREE_BLOCK_SIZE (`HeapRuns.SmallFreeBlock`, `ReleaseRoomyExactly`). The sibling range test looks at the low 32 bits of the distance only (`Tsc.FarSiblings`, `NearMeans`, `PairDistance`). Running averages with deltas between lo and hi skip from 2*hi > 5*lo on (`Tsc.SkipsExactly`). A record posted into a ring that is too full takes the whole backlog with it, because Tail lands on Head (`MailboxRuns.NoLossExactly`, `OverflowEmpties`).

Where comments and code differ the model follows the code: `mem.c:482-490` tests whether the offset computed is the current one, but that offset is always larger, so the branch is shown to be dead; `ringbuf.c:87-89` promises to make room for a write, but the code cuts the write.

## Model

| member | source | states |
|---|---|---|
| Heap.PrivateHeap.HeapCreate | src/mem.c:363-391 | less than 16 pages give NULL; otherwise a heap whose memory shows one free block at START that covers it and an empty used list |
| Heap.PrivateHeap.HeapAlloc | src/mem.c:402-440 | the headers in memory end up showing exactly the first-fit placement `Alloc`, the offset returned is `Allocated` (0 for NULL), and no byte of a live payload changes |
| Heap.PrivateHeap.HeapAllocAligned | src/mem.c:443-524 | the same for an aligned request; a zero size or an alignment that is no power of two changes nothing and gives NULL |
| Heap.PrivateHeap.HeapFree | src/mem.c:543-565 | a live block is released and merged with its free neighbours and no byte of another live payload changes; NULL, an address outside and a free block change nothing |
| Heap.PrivateHeap.HeapFreeSecure | src/mem.c:568-622 | for any address at all: exactly the live block whose payload contains it is released, and that payload and the headers that vanish in a merge are zero afterwards, or nothing changes; no byte of another live payload changes |
| Heap.PrivateHeap.FindHolder | src/mem.c:597-617 | the walk of the used list finds the block whose payload contains the address, and 0 exactly if there is none |
| Heap.PrivateHeap.HeappFree | src/mem.c:235-350 | the four consecutive coalescing tests act as one: exactly one of the cases applies, decided before any of them writes |
| Heap.PrivateHeap.HeappSplit | src/mem.c:107-152 | header writes in memory carry out `Split`: the block is cut if a minimal free block fits behind it, and moves to the used list |
| Heap.PrivateHeap.HeappAlign | src/mem.c:155-232 | header writes in memory carry out `Align` in both cases, the overlapping move of the header included |
| Heap.PrivateHeap.HeappBlockUnlink | src/mem.c:57-77 | the headers after unlinking are those of `OutMap`, and the list head follows |
| Heap.PrivateHeap.HeappBlockLink | src/mem.c:80-95 | the headers after linking in front are those of `FrontMap`, and the list head is the block |
| Heap.PrivateHeap.BackToStart | src/mem.c:363-391 | whenever nothing is live, header bytes and list heads are those HeapCreate wrote, all four links zero |
| HeapHeaders.OutLinked | src/mem.c:56-77 | unlinking a member of a doubly linked list leaves the list without it, doubly linked |
| HeapHeaders.FrontLinked | src/mem.c:79-95 | linking in front of a doubly linked list gives the longer list, doubly linked |
| HeapSurgery.CutRep | src/mem.c:116-144 | cutting a block keeps the physical chain and both lists represented by the headers |
| HeapSurgery.MoveRep | src/mem.c:196-231 | moving a header forward and giving the gap to the previous block keeps all three structures represented |
| HeapSurgery.FreedRep | src/mem.c:265-344 | each coalescing case keeps all three structures represented |
| HeapSurgery.FreeSparesPayloads | src/mem.c:296-349 | a secure free zeroes the freed payload and no header or zeroing write reaches another live payload |
| HeapLayout.SplitKeeps | src/mem.c:106-152 | a split keeps the chain tiling the heap and the two lists partitioning the blocks |
| HeapLayout.AlignKeeps | src/mem.c:154-232 | aligning does, and the aligned block has what the gap leaves of its size |
| HeapLayout.AllocKeeps | src/mem.c:402-524 | an allocation keeps the whole heap invariant, no two free neighbours included |
| HeapLayout.ReleaseKeeps | src/mem.c:234-350 | a free keeps the whole heap invariant in all four coalescing cases |
| HeapRuns.RunKeeps | src/mem.c:56-350 | every sequence of plain and aligned requests and frees keeps the whole heap invariant |
| HeapRuns.BytesConserved | src/mem.c:56-350 | in every such state the sizes of all blocks and headers add up to the size of the heap |
| HeapRuns.AllocGrants | src/mem.c:402-524 | a block of at least the requested size is at the offset returned |
| HeapRuns.AllocFresh | src/mem.c:443-524 | the offset is new, the only one added to the used list, and a multiple of the alignment |
| HeapRuns.AllocSpares | src/mem.c:155-232 | every other live block keeps its address and does not shrink |
| HeapRuns.PayloadsDisjoint | src/mem.c:402-524 | no two blocks share a byte, headers included |
| HeapRuns.NullExactly | src/mem.c:460-523 | NULL is returned exactly if no block passes the gap-plus-size test, and then nothing changes |
| HeapRuns.PlainNullExactly | src/mem.c:415-439 | a plain request fails exactly if every free block is smaller |
| HeapRuns.ReleaseServes | src/mem.c:234-350 | a free removes exactly that block from the live ones |
| HeapRuns.FreeAllRestores | src/mem.c:235-350 | freeing every live block, in any order, leads back to the state HeapCreate made |
| HeapRuns.HistoryThenFreeAll | src/mem.c:364-391 | so it does after any history of plain and aligned requests and frees |
| HeapRuns.SmallFreeBlock | src/mem.c:116 | a history after which a free block has less than MINIMAL_FREE_BLOCK_SIZE bytes: the minimal size is not an invariant |
| HeapRuns.ReleaseRoomyExactly | src/mem.c:268-278 | a free keeps all free blocks at the minimal size if and only if the freed block is of that size or has a free neighbour |
| HeapRuns.AllocRoomy | src/mem.c:402-524 | an allocation always keeps them at the minimal size |
| HeapRuns.RunRoomy | src/mem.c:402-565 | with requests of at least the minimal size they are at it in every run |
| HeapExact.AlignedNullExactly | src/mem.c:460-523 | an aligned request fails exactly if no free block holds a multiple of the alignment above its start with the bytes asked for behind it (40 bytes above the start, in the first block of the heap) |
| HeapExact.AlignedServedFirst | src/mem.c:460-523 | it is served at the least such multiple in the first free block, in list order, that has one |
| HeapExact.PlainServedFirst | src/mem.c:415-439 | a plain request is served by the first free block, in list order, that is large enough |
| HeapExact.AllocExactly | src/mem.c:113-231 | the block granted has exactly the bytes asked for where a header and 16 bytes are left behind it, and then a free block has the rest, else it has all there is; a gap of 40 bytes or more becomes a free block, a smaller one goes to the used block before it; no other live block changes |
| Heap.PowersOfTwo | src/mem.c:455-456 | the alignments accepted are the 32 powers of two |
| Barrier.StepInv | src/sync.c:4-196 | every interlocked step of every thread keeps the invariant: each spin lock held by one thread in its critical section, one token, arrivals and count in step |
| Barrier.RunInv | src/sync.c:105-196 | so every run keeps it, for any number of threads and any reuse |
| Barrier.NobodyLeavesEarly | src/sync.c:146-196 | nobody returns from its j-th barrier call (Enter or Exit) before every thread has begun its own j-th call |
| Barrier.AtMostOneApart | src/sync.c:146-196 | no thread is ever two completed calls ahead of another |
| Barrier.OneToken | src/sync.c:90-196 | the two turnstile counts and the threads between a wait and its signal always make one token |
| Barrier.FlipFindsToken | src/sync.c:161-165 | the last arriver finds the turnstile it closes unlocked and with the token, so its wait never retries |
| Barrier.FlipAdvances | src/sync.c:161-165 | each step of the last arriver brings it nearer to releasing the barrier lock, unless another thread holds the turnstile lock it wants; that thread then releases it within four steps of its own |
| Barrier.LastArrived | src/sync.c:155-161 | the count a thread tests tells that all threads have arrived |
| Barrier.SomeoneReady | src/sync.c:17-127 | in every reachable state some thread can make progress |
| Barrier.RoundCompletes | src/sync.c:146-196 | from every reachable state the threads can finish the round |
| Barrier.NeverStuck | src/sync.c:146-196 | no run deadlocks: it can be continued until every thread has completed any number of calls |
| Mmu.PteRoundTrip | src/mmu.c:99-134 | MmuPteToAddress of MmuAddressToPte is the address rounded down to its page, for every canonical address and self-map index |
| Mmu.PteBounds | src/mmu.c:403-414 | the entry address is 8-aligned and within LowerBound and UpperBound |
| Mmu.PteInjective | src/mmu.c:99-122 | two canonical addresses have the same entry address exactly if they are in one page |
| Mmu.PteOnto | src/mmu.c:124-134 | every aligned address within the bounds, and no other, is the entry address of the page MmuPteToAddress gives |
| Mmu.PagingRangeExactly | src/mmu.c:614-629 | an aligned address passes the paging-range test exactly if it is the entry address of a canonical address |
| Mmu.PteIndices | src/mmu.c:810-826 | the entry address has the self-map index on top and the table indices of the address one level down |
| Mmu.SelfMapTables | src/mmu.c:99-122 | under a self map, the walk of the entry address is one level behind the walk of the address |
| Mmu.SelfMapTheorem | src/mmu.c:99-122 | under a self map, the entry address translates to the physical place of the very level-1 entry that the translation of the address reads, for every address whose upper levels map tables (modulo the bits above the frame number) |
| Mmu.SelfMapFails | src/mmu.c:99-122 | exactly when that translation exists |
| Mmu.PresentExactly | src/mmu.c:677 | an entry counts as present exactly if it is an odd number |
| Mmu.LargePageExactly | src/mmu.c:681 | an upper entry counts as a large page exactly if its bit 7 is set |
| Mmu.UpperExactly | src/mmu.c:662-697 | from CR3 down, an upper entry leads to the table at its frame exactly if it is odd and its bit 7 is clear |
| Mmu.LeafExactly | src/mmu.c:688-692 | an address translates exactly if its level-1 entry is odd, to the page of the entry with the offset of the address |
| Mmu.EntryExactly | src/mmu.c:753-765 | entry i of a table is 8 * i bytes into it |
| Mmu.WordExactly | src/mmu.c:753-765 | an entry is eight bytes, the least significant first |
| Mmu.PtiExactly | src/mmu.c:810-826 | the index of a level is the quotient of the address by what one entry covers, modulo 512 |
| Mmu.PteExactly | src/mmu.c:99-122 | the entry address in numbers: sign bits, self-map index and eight bytes for each page |
| Mmu.SamePage | src/mmu.c:662-697 | addresses of one page are translated alike up to their offset |
| Mapper.PerCpu.MmuAcquireMapping | src/mmu.c:524-545 | the first free slot is taken, or none is free |
| Mapper.PerCpu.MmuGetMappingForVa | src/mmu.c:547-567 | the slot in use for an address, or none |
| Mapper.PerCpu.MmuMapIoPage | src/mmu.c:577-599 | the first free slot then maps the page asked for, with the caching asked for; NULL and no change if none is free |
| Mapper.PerCpu.MmuUnmapIoPage | src/mmu.c:601-612 | the slot of the address is free again and its entry zero; an address that is not mapped changes nothing |
| Mapper.PerCpu.MmuGetPhysicalAddress | src/mmu.c:631-700 | the loop over the levels through one borrowed slot gives the translation defined table by table, 0 for a missing entry, a large page or no free slot; the slots are given back |
| Mapper.EntryWritten | src/mmu.c:577-599 | the entry written has the frame of the page, bits 0, 1, 5 and 6, and bits 3 and 4 exactly for an uncached mapping |
| Mapper.CurrentExactly | src/mmu.c:649-657 | the operating system is asked exactly for CR3 0 and for the CR3 in force, low bits aside |
| Mapper.SettledExactly | src/mmu.c:601-612 | a slot taken and given back is the first free one, and its entry is zero then |
| Mapper.WalkDown | src/mmu.c:662-697 | what one level of the walk decides |
| Mapper.SettledTwice | src/mmu.c:601-612 | giving a slot back leaves which slots are in use, and the entries of those in use, as they were |
| Fetch.VmReadGuestInstruction | src/exits.c:194-278 | with one slot free, the bytes are guest memory read address by address, as many as can be read; success exactly from two on; a page crossing included; the slots are given back on every path |
| Fetch.ReadFirst | src/exits.c:210-228 | the bytes in the first page |
| Fetch.ReadNext | src/exits.c:235-262 | the bytes past the page boundary, although their page is translated at the address three bytes on |
| Fetch.SecondPage | src/exits.c:238-262 | the translation three bytes on succeeds exactly if the bytes past the boundary are mapped |
| Fetch.ShortFetch | src/exits.c:204-262 | two bytes only exactly at page offset 4094, one byte only exactly at 4095, each with the next page unreachable |
| Tsc.Detector.TdProcessTscEvent | src/tsc.c:615-699 | a reading changes the table by `Step`; it is reported exactly if the entry it leads to meets all thresholds |
| Tsc.Detector.TdGetSiblingSlot | src/tsc.c:105-161 | first free slot, else the oldest orphan, else the oldest pair; what is recycled is cleared |
| Tsc.Detector.TdFindSibling | src/tsc.c:166-210 | the first entry of that thread that the address can belong to |
| Tsc.Detector.TdUpdateSibling | src/tsc.c:225-310 | counts, times, order of the pair and average of the chosen entry become those of `Updated`; other entries stay |
| Tsc.Detector.TdIsTimingCandidate | src/tsc.c:321-374 | the verdict on an entry; a failed assessment clears it |
| Tsc.Detector.TdCreateSibling | src/tsc.c:376-391 | a new orphan in the slot chosen |
| Tsc.CandidateExactly | src/tsc.c:335-366 | the thresholds in numbers, for counts below 2^31: average from 1 to 0x50000, at least 256 Before readings, counts one apart at most, skips below a twentieth |
| Tsc.LeftExactly | src/tsc.c:335-366 | a pair with an average is cleared exactly if the average is above 0x50000 or there are 256 Before readings, reported or not; no other entry is |
| Tsc.AveragedExactly | src/tsc.c:276-302 | the first difference, then the mean; a difference of more than two and a half times the average is counted as skipped instead |
| Tsc.UpdatedExactly | src/tsc.c:225-310 | which of the two hits gets the time and the count, when the average changes, and that a reading below the only one turns the pair round |
| Tsc.OldestIs | src/tsc.c:117-143 | the running minimum is the oldest of its kind, and the first of equals |
| Tsc.StepInv | src/tsc.c:615-699 | every reading keeps: free slots all zero, orphans without average, pairs ordered and near, no pair with an average over the count or difference limit |
| Tsc.RunInv | src/tsc.c:615-699 | so does every run from a cleared table |
| Tsc.NearMeans | src/tsc.c:18-20 | what the range test with its cast to int means for any two addresses |
| Tsc.PairDistance | src/tsc.c:188-189 | in every run a pair is less than 0xFF apart if and only if it is less than 2 GB apart |
| Tsc.CompactPairs | src/tsc.c:188-189 | where every thread reads within 2 GB, all pairs are less than 0xFF apart |
| Tsc.FarSiblings | src/tsc.c:18-20 | two readings 4 GB apart become a pair |
| Tsc.ReportsAreBacked | src/tsc.c:335-374 | in every run, a report is backed by at least 511 readings of that thread at the two addresses reported |
| Tsc.ReportsInStep | src/tsc.c:335-374 | in every run of fewer than 2^31 readings, a report means that the two counts are one apart at most and that less than a twentieth of the Before readings was skipped |
| Tsc.RecyclesOldest | src/tsc.c:105-161 | another thread's reading costs an entry only if no slot is free, a pair only if there is no orphan either, and then the oldest of its kind |
| Tsc.SkipsExactly | src/tsc.c:282-300 | of a thread whose deltas are between lo and hi, the extremes skip if and only if 2*hi > 5*lo |
| Tsc.Detection | src/tsc.c:225-374 | a thread reading alternately at two near addresses is reported at its reading 511 if and only if fewer than 12 of its 255 deltas are above 5/2 of hi, never before, and its entry is cleared then (a very first reading at the higher address does not count); the other deltas are within [lo, hi], 0 < lo, 2*hi <= 5*lo, hi <= 0x50000 |
| Tsc.NeverSkipped | src/tsc.c:282-300 | with all deltas within the bounds none is skipped and the running average stays within them |
| Ringbuf.RingBuffer.RtlRingBufferWrite | src/ringbuf.c:64-146 | a write that strictly fits appends exactly its data, across the wrap included; any other empties the ring; an empty buffer is an internal error |
| Ringbuf.RingBuffer.RtlRingBufferRead | src/ringbuf.c:148-226 | a read takes the exact prefix, across the wrap included, and reports its length |
| Ringbuf.RingBuffer.RtlRingBufferGetAvailBytes | src/ringbuf.c:47-62 | the readable bytes are those queued, and there is always between 1 and Size to write |
| Ringbuf.WriteRound | src/ringbuf.c:102-118 | the two copies of a wrapping write append the data |
| Ringbuf.ReadRound | src/ringbuf.c:184-201 | the two copies of a wrapping read take the prefix |
| Mailbox.MailboxState.RtlPostMailboxNotification | src/mailbox.c:391-428 | one whole record is written, or nothing if the data does not fit into it |
| Mailbox.MailboxState.RtlPostMailboxTrace | src/mailbox.c:332-389 | one whole record with the formatted text is written, or nothing if the text does not fit |
| Mailbox.MailboxState.RtlRetrieveMailboxData | src/mailbox.c:430-448 | the record read over one marked empty |
| Mailbox.MailboxState.RtlIsMailboxEmpty | src/mailbox.c:314-330 | true exactly if less than a record is queued |
| Mailbox.RecordReads | src/mailbox.c:401-416 | a reader of a notification record finds the type, size and data posted |
| Mailbox.TraceReads | src/mailbox.c:346-376 | a reader of a trace record finds the type, size, level, area and text posted |
| MailboxRuns.Framing | src/mailbox.c:378-447 | in every interleaving the ring holds whole records, oldest first, and each retrieve yields the next whole record or the type MailboxEmpty, overflows or not |
| MailboxRuns.PostersType | src/mailbox.c:401-416 | a posted notification has type 2, a posted trace type 1 |
| MailboxRuns.RetrievedType | src/mailbox.c:430-448 | in every run the type retrieved is 0 exactly if less than a record was queued, else that of the oldest record waiting |
| MailboxRuns.DeliveredInOrder | src/mailbox.c:430-448 | records are delivered in the order of posting, none twice |
| MailboxRuns.NoLossExactly | src/ringbuf.c:87-98 | no record is lost if and only if at each post (backlog + 1) records were below Size; then the delivered and the waiting ones are all that were posted |
| MailboxRuns.OverflowEmpties | src/ringbuf.c:87-98 | an overflowing post leaves the mailbox empty |
| IdxList.Table.InsertHeadIdxList | src/idxlist.c:147-172 | a new index in front of the active ones with the data under it; 0 exactly if the table is full and cannot grow; other data and the shared empty list stay |
| IdxList.Table.RemoveNodeIdxList | src/idxlist.c:174-202 | the data under an active index, which leaves the list; for any other index nothing happens |
| IdxList.Table.RemoveHeadIdxList | src/idxlist.c:204-210 | the latest data, or nothing from an empty table, whose shared list is not written |
| IdxList.Table.ExtendIdxList | src/idxlist.c:96-145 | a page of new free nodes; every index, the order and all data stay |
| IdxList.Table.LookupNodeIdxList | src/idxlist.c:66-73 | data exactly for active indices |
| IdxList.Table.GetHeadNodeIdxList | src/idxlist.c:75-83 | the data of the first active node, if there is one |
| IdxList.Table.GetNextNodeIdxList | src/idxlist.c:85-94 | the data of the active node after an active one, the first after node 0, none after a free node |
| IdxList.Table.DestroyIdxList | src/idxlist.c:35-48 | the table is empty and shares the empty list again |
| IdxList.InsertedShape | src/idxlist.c:158-170 | an insertion keeps the circular active list and the zero-terminated free list a partition of all nodes but node 0, with data exactly on active nodes |
| IdxList.RemovedShape | src/idxlist.c:189-200 | so does a removal |
| IdxList.GrownShape | src/idxlist.c:120-144 | so does growth |
| IdxList.RemoveUndoesInsert | src/idxlist.c:147-202 | removing what was inserted last brings both lists back |
| Exclusions.ExclusionTable.PmIsThreadExcluded | src/process.c:840-866 | the walk ends and finds the thread exactly if some active entry holds it |
| Exclusions.ExclusionTable.PmExcludeThread | src/process.c:793-838 | the thread joins the excluded ones exactly on success, and every active entry's UniqueId is its index |
| Exclusions.ExclusionTable.PmCleanupThreadExclusionList | src/process.c:772-791 | the loop ends with an empty table, having freed every entry once, latest first |
| Buckets.StepInv | src/channel.c:329-389 | every step of every thread keeps every bucket either free or held by exactly one thread |
| Buckets.Ownership | src/channel.c:329-389 | in every interleaving no bucket is held twice, and free and held ones together are the initial set |
| Buckets.RefusedWhenAllHeld | src/channel.c:361-374 | a call fails only if every bucket was held when it looked |
| Buckets.RetryIsOthersSuccess | src/channel.c:364-368 | a retry is caused by a step of another thread that took the bucket in between |
| Buckets.AcquireAlone | src/channel.c:361-374 | a thread that runs alone takes the highest free bucket within three steps, or is refused within two if none is free |
| Buckets.ReleaseSetsClearBit | src/channel.c:377-389 | the bit a holder sets on release was clear |
| Rendezvous.StepInv | src/smp.c:15-98 | every step keeps counter, calls and error in agreement, before and after the counter is reset |
| Rendezvous.ReturnsWhenAllDone | src/smp.c:15-98 | when the call returns, every callback has run exactly once and every routine is over; the result is success exactly if all succeeded, else the error that reached the compare-exchange first |
| Rendezvous.FirstFailureWins | src/smp.c:33-38 | on every schedule, the processor that makes the first failing compare-exchange determines the error kept and the status returned |
| Rendezvous.NoFailureSucceeds | src/smp.c:33-38 | with no failing one the status returned is success |
| Rendezvous.ErrorSticks | src/smp.c:37 | an error once stored is never replaced |
| Rendezvous.QuietAfterReturn | src/smp.c:76-80 | after the return no step touches the shared structure |
| Rendezvous.CanReturn | src/smp.c:72-80 | from every reachable state the call can still return |

## Left out

- Heap.PrivateHeap.HeapAllocAligned: alignments above PAGE_SIZE, which `mem.h:53` does not promise and for which the arena base is not aligned; 32-bit sums could then wrap.
- Heap.PrivateHeap.HeapFree: an offset that is no block start. After a merge with the previous block the absorbed header still says USED, so the state test does not tell such an offset from a live block; callers pass what an allocation returned.
- Heap: the heap lock, under which every operation runs as a whole; HeapAllocArray, HeapDelete, HeapContains and the arena lookups.
- Barrier: the 64-bit width of the counters, and fairness: the spin locks promise none, so progress is proved as the existence of a continuation and as the number of a thread's own steps.
- Mmu: 5-level paging (marked unfinished at `mmu.c:390`), the 32-bit builds, the set-up of the mapping pages and the read of the self-map index from the current CR3.
- Mapper.PerCpu.MmuGetPhysicalAddress: how the operating system translates an address of the current process is a parameter that maps whole pages; TLB flushes and the competition of two flows for one processor's slots are not modelled.
- Mmu.SelfMapTheorem: the walk keeps bits 52 to 63 of an entry (`mmu.c:691`), so its result is compared after masking to the physical address width.
- Fetch.VmReadGuestInstruction: a translation result of physical address 0 counts as a failure, as in the code, also where a page is mapped there.
- Tsc.RunInv: readings have a non-zero thread hash and address, as those of real threads do; a zero hash would match cleared slots.
- Tsc: TdCopySiblingMemory and the disassembler, whose verdict is a parameter; notifications, trimming of the time slice, emulation of the instruction.
- Mailbox: the format string of a trace is replaced by the text it comes to; the worker thread, its events and dispatching.
- IdxList.Table.InsertHeadIdxList: the 32-bit width of table sizes; data is present by type (a NULL pointer could be inserted but never removed). Whether memory can be had is a parameter.
- Exclusions: the lookup of a thread by its id is a parameter; the list's spin lock, under which each operation runs as a whole.
- Buckets: a thread releases only buckets it holds; events, memory lists and the rundown of a channel.
- Rendezvous: delivery of the queued routines and the interrupt level; the case of one processor, which calls the callback directly.
- VMX launch and exits, emulation of MSR, CPUID, control registers and I/O, IOCTLs, driver entry, registry policy: hardware effects or plumbing, which would add easy members only.

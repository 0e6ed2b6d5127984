# Machine problems: models and proofs

Dafny models of the programs under `mps/`: two dynamic storage allocators and the
trace driver that exercises them, a job-control shell, a cache simulator, a blocked
matrix transpose, a chained hash table and a k-best timing sampler, with proofs of
what they promise and exact statements of where they do not keep it.

`dafny verify dfyconfig.toml` checks everything.

## The parts

**The simulated memory** (`Memlib.dfy`). Addresses are byte offsets from the start
of the 20 MB area; words of eight bytes are stored at multiples of eight, single bytes
are read and written inside them. `mem_sbrk` returns -1 and moves nothing when the
area is used up.

**The boundary-tag allocator** (`FreeLists.dfy`, `MmLayout.dfy`, `MmSteps.dfy`,
`MmSpec.dfy`, `Mm.dfy`, `MmTheorems.dfy`, `MmRuns.dfy`). The heap is a map from header addresses to
blocks and four sequences, one for each circular list. The invariant `Inv` says that
the blocks tile the memory from byte 104 to the epilogue, that header and footer agree
on every block, that the next and prior pointers of each list form a ring, that the
lists hold each free block once and in the list of its size, and that no two
neighbours are both free. `MmSteps` shows for each group of stores that it keeps the
invariant and every allocated payload; the class `Mm.Allocator` performs the stores and
is proved to compute the functions `MallocView`, `FreeView` and `ReallocView` of the
abstract heap. `loose` are the blocks an operation in progress is still working on.
`MmRuns` says what these functions mean: which blocks are allocated after each request
and after whole traces, and which block a request gets.

**The single-list allocator** (`ExplicitSpec.dfy`, `Explicit.dfy`), on the same memory
and the same ring lemmas.

**The driver** (`LinkedLists.dfy`, `Ranges.dfy`, `Traces.dfy`, `Driver.dfy`,
`Utilization.dfy`). The range list with linked nodes, and the two trace interpreters run
on the boundary-tag allocator. `Traces.Replayed` is a trace served by the abstract heap
alone; both interpreters are proved to end as it does, up to the request at which the C
run breaks the heap and is followed no further (`Traces.Verdict`). What a C program gives
to `free` is recorded in order, so that freeing each thing once can be stated.

**The shell** (`JobTable.dfy`, `Shell.dfy`, `ShellTheorems.dfy`, `JobStates.dfy`,
`JobIds.dfy`, `CommandLine.dfy`). The job table is a class. Job control is a step system: the main
loop, the SIGCHLD handler, which preempts it, and the kernel, which holds the state of
each child, the pending bit and the mask, act in any order. The command line is split
in place in a character buffer.

**The cache lab** (`CacheSet.dfy`, `CacheSim.dfy`, `Transpose.dfy`), **the hash table**
(`HashSpec.dfy`, `HashTables.dfy`) and **the sampler** (`Sampler.dfy`).

## What the proofs found

- `free_block <= 0` (mps/05/mm.c:129, 389) does not hold of the `(void *)-1` that
  `mem_sbrk` returns. In `mm_malloc` an exhausted heap therefore ends in a store through
  that pointer, the outcome `Fault`; NULL is returned for size 0 only.
  `MmTheorems.FaultIff` and `ReallocFaultIff` say exactly when, `FaultExample` shows one.
- In case 4 of `mm_realloc` the result of `mem_sbrk` is not used again: the header of the
  last block gets the new size, the epilogue stays where it is, and the block is returned
  as if it had grown, the outcome `Ungrown`; if the footer would lie past the memory
  area, it is `Astray`. `MmTheorems.UngrownIff` says exactly when, `UngrownHeap` that the
  payloads survive but no blocks and lists make a heap of what is left, `UngrownExample`
  shows one. The driver notices it only by the range list, exactly when the request is
  larger than the old block (`Traces.ReallocVerdict`, `UngrownPasses`, `UngrownFails`);
  `eval_mm_util` never does, and can then report a utilization above 1
  (`Utilization.RatioExample`).
- A request above 2^31 - 40 bytes is served as a smaller one, or ends in the store through
  `(void *)-1`, depending on the size it is converted to (`MmTheorems.WideRequest`).
- `next_block_free` (mps/05/mm.c:310) masks the wrong bits and is never true, so cases 2
  and 3 of `mm_realloc` are dead code (`MmSpec.NextNeverFree`).
- The copy in `mm_realloc` (mps/05/mm.c:412) takes the size of the whole old block. It
  runs past the new payload exactly when the new block is less than 32 bytes larger
  than the old one; `MmTheorems.OverrunIff` says for which heaps and requests,
  `OverrunWords` which words of the heap it destroys, and `OverrunExample` is a sequence
  of requests from an empty heap that leads to it.
- `mm_realloc` of the single-list allocator reads the old size with its allocated bit
  and so copies one byte more than the payload; this leaves the memory area only in
  the case of `ExplicitSpec.OverreadIff`, which `OverreadExample` leads to.
- The overlap test of the driver misses exactly the ranges that strictly contain an old
  one (`Ranges.EndInsideExact`), and its data check rejects correct data when a realloc
  is for an id whose low byte is 128 or more, because `char` is signed
  (`Driver.IntactBytes`, `Traces.FalseAlarmExample`).
- In the shell, `fg` on a background job that has already ended waits forever:
  its SIGCHLD was taken while there was no foreground job and the handler reaps the
  foreground job only (`ShellTheorems.FgLosesWakeup`). `FgReturnsIff` gives the condition
  at the command, `NoWaitInVain` shows that there is no other way to wait in vain, and
  `WaitMustEnd` that otherwise the shell is back at the prompt within ten of its steps.
- Job ids can be used twice and can exceed MAXJOBS (`JobIds.IdsRepeatInRun`).
- The simulator's replacement policy is LRU only for one line a set
  (`CacheSet.OldestIffOneLine`): with more lines it can evict the line used last.
- `transpose_submit` for N = 64 needs M = 64: the columns are bounded by N, and with fewer
  than 64 columns it first leaves the arrays at column M of row 0.
- `ht_del` dereferences a null pointer when the bucket of the key is empty
  (`HashSpec.DelCrashesIff`).

## Model

| member | source | states |
|---|---|---|
| `Memlib.Memory.Sbrk` | mps/05/memlib.c:58-69 | fails exactly for a negative increment or one past the limit, and then moves nothing; otherwise returns the old break and moves it by the increment |
| `Memlib.Memory.StoreInArea` | mps/05/mm.c:394-395 | one word of the memory area changes, above the break as well |
| `Memlib.Memory.ResetBrk` | mps/05/memlib.c:48-51 | the heap is empty again |
| `Memlib.Memory.Memcpy` | mps/05/mm.c:412 | the target words become the source words and no other word changes |
| `Memlib.Memory.MemcpyBytes` | mps/05/mm-explicit.c:114 | the target bytes become the source bytes and no other byte changes |
| `Memlib.Memory.Memset` | mps/05/mdriver.c:595 | every byte of the range gets the value and no other byte changes |
| `FreeLists.UnlinkRings` | mps/05/mm.c:168-173 | the two stores take the k-th node out of its ring and leave every other ring as it was |
| `FreeLists.LinkRings` | mps/05/mm.c:277-280 | the four stores put a node that overlaps no other at the front of its ring and leave the others as they were |
| `MmSteps.UnlinkInv` | mps/05/mm.c:168-173 | unlinking a listed block keeps the whole heap invariant and every allocated payload |
| `MmSteps.LinkInv` | mps/05/mm.c:266-281 | linking a free block into the list of its size keeps the invariant and every allocated payload |
| `MmSteps.SplitInv` | mps/05/mm.c:188-201 | the tags written by a split leave two tiled, well tagged blocks and every payload |
| `MmSteps.SplitLeavesNeighbours` | mps/05/mm.c:204-209 | the block after a free block is never free, so a split never joins its remainder with it |
| `MmSteps.MarkInv` | mps/05/mm.c:153-156 | changing the allocated bit in both tags keeps the invariant |
| `MmSteps.MergeInv` | mps/05/mm.c:489-500 | joining a free block with its free successor keeps tiling, tags, lists and payloads |
| `MmSteps.MergeBothInv` | mps/05/mm.c:502-517 | joining three free blocks at once does so too |
| `MmSteps.GrowInv` | mps/05/mm.c:122-146 | the old epilogue becomes the header of a new allocated block and the new epilogue ends the tiling |
| `MmSteps.ExtendInv` | mps/05/mm.c:378-400 | extending the last block moves the epilogue and keeps the invariant and its payload |
| `MmSpec.RequestSizeFits` | mps/05/mm.c:113 | the block size of a request has room for it exactly when the conversion to int does not overflow |
| `MmTheorems.WideRequest` | mps/05/mm.c:108-162 | a larger request for which a negative size is computed stores through (void *)-1; one with a positive size gets what the smaller request of that size gets, so a block without room for it |
| `MmSpec.FirstFitComplete` | mps/05/mm.c:240-261 | the search from the size class on finds a block if and only if some free block anywhere is large enough |
| `MmSpec.CoalesceStep` | mps/05/mm.c:467-476 | the tags before and after a block tell exactly whether its neighbours are free, and where they are |
| `MmSpec.CoalescedShape` | mps/05/mm.c:459-520 | one coalease replaces the free run around the block by one free block with the same extent and changes no other block |
| `MmSpec.CoalescedSeparated` | mps/05/mm.c:459-520 | after one coalease no two neighbours are both free |
| `MmSpec.NextNeverFree` | mps/05/mm.c:307-310 | the masked size after a block is never 0, so next_block_free is always false |
| `MmSpec.MallocKeeps` | mps/05/mm.c:108-162 | mm_malloc keeps every allocated block, returns NULL only for size 0, and otherwise one new allocated block with room for the request |
| `Mm.Allocator.Init` | mps/05/mm.c:65-98 | an empty heap becomes a valid one without blocks, with four empty lists |
| `Mm.Allocator.RemoveFromFreeLists` | mps/05/mm.c:168-173 | the block leaves the list it is on; invariant and payloads are kept |
| `Mm.Allocator.AddToFreeLists` | mps/05/mm.c:266-281 | the block is at the front of the list of its size; invariant and payloads are kept |
| `Mm.Allocator.FindFit` | mps/05/mm.c:240-261 | terminates with the first fitting block of the lists from the size class on, or None |
| `Mm.Allocator.SplitBlock` | mps/05/mm.c:180-217 | splits exactly when more than 72 bytes remain, lists the remainder, and never calls coalease |
| `Mm.Allocator.Malloc` | mps/05/mm.c:108-162 | for every size_t but those that convert to a size from -24 to 32, new heap and result are MallocView of the old heap; the invariant holds unless the heap was exhausted, and no allocated payload changes |
| `Mm.Allocator.Take` | mps/05/mm.c:148-160 | the block found is carved to size, marked and off the lists |
| `Mm.Allocator.Coalease` | mps/05/mm.c:459-520 | blocks and lists become those of the joined run, in all four neighbour cases |
| `Mm.Allocator.Free` | mps/05/mm.c:435-455 | NULL changes nothing; otherwise the heap is FreeView of the old one, valid, with every other payload intact |
| `Mm.Allocator.IsLastBlock` | mps/05/mm.c:424-431 | true exactly for the block that ends at the epilogue |
| `Mm.Allocator.ExtendLast` | mps/05/mm.c:373-403 | the last block grows in place and keeps its payload; when mem_sbrk fails the break stays and memory gets header, footer and epilogue all the same, up to a footer past the area |
| `Mm.Allocator.CopyBlock` | mps/05/mm.c:412 | as many bytes as the old block has are copied to the new payload and nothing else changes; whether they fit |
| `Mm.Allocator.Move` | mps/05/mm.c:405-419 | new block, copy of the old payload, old block freed, every other payload kept; a copy that does not fit is made too, and then what follows is left open |
| `Mm.Allocator.Realloc` | mps/05/mm.c:288-422 | new heap and result are ReallocView of the old heap; the old payload is at the new address and every other payload unchanged; memory after a failed extension or an overrun |
| `MmTheorems.TilingCovers` | mps/05/mm.c:65-162 | every byte between first block and epilogue is in exactly one block |
| `MmTheorems.BytesAddUp` | mps/05/mm.c:65-162 | the block sizes add up to the heap from the first block to the epilogue |
| `MmTheorems.PayloadsIsolated` | mps/05/mm.c:108-162 | payloads are 8-aligned, inside the heap and pairwise disjoint |
| `MmTheorems.GrowsOnlyWhenNothingFits` | mps/05/mm.c:118-126 | mm_malloc asks for more heap if and only if no free block is large enough |
| `MmTheorems.FaultIff` | mps/05/mm.c:118-130 | mm_malloc stores through (void *)-1 if and only if the request is not 0, no free block fits and the area has no room for it |
| `MmTheorems.ReallocFaultIff` | mps/05/mm.c:405-419 | mm_realloc does so if and only if a block that is not the last one must move, no free block fits and the area has no room |
| `MmTheorems.FaultExample` | mps/05/mm.c:118-130 | a request for the whole area on a new heap does so |
| `MmTheorems.FreeUndoesCarve` | mps/05/mm.c:435-455 | freeing a block carved from a free one restores the blocks exactly |
| `MmTheorems.UngrownIff` | mps/05/mm.c:373-403 | the last block is returned without having grown if and only if it is too small, mem_sbrk fails and a block of the new size would end in the memory area; the footer goes past the area if and only if it would not |
| `MmTheorems.UngrownHeap` | mps/05/mm.c:392-400 | then the header reads the new size and the footer lies at or above the epilogue; payloads and all other words are kept, and no choice of blocks and lists satisfies the heap invariant |
| `MmTheorems.UngrownExample` | mps/05/mm.c:373-403 | a malloc of 20971336 bytes on a new heap and a realloc of it to 20971368 lead there |
| `MmTheorems.OverrunIff` | mps/05/mm.c:405-412 | mm_realloc copies past the new payload if and only if the block must move into a free block that is less than 32 bytes larger |
| `MmTheorems.OverrunWords` | mps/05/mm.c:412 | the overrun replaces the footer of the new block, the header after it if the blocks differ by 16 bytes or less, and the next pointer there if by 8, with the words after the old block, and nothing else outside the payload |
| `MmTheorems.OverrunExample` | mps/05/mm.c:405-412 | mallocs of 40, 48 and 8 bytes, a free of the second and a realloc of the first to 72 do so |
| `MmRuns.MallocSound` | mps/05/mm.c:108-162 | mm_malloc keeps the abstract heap tiled, aligned, indexed by the lists and without free neighbours |
| `MmRuns.FreeSound` | mps/05/mm.c:435-455 | so does mm_free |
| `MmRuns.ReallocSound` | mps/05/mm.c:288-422 | and mm_realloc, when it returns NULL or a pointer |
| `MmRuns.MallocUses` | mps/05/mm.c:108-162 | mm_malloc adds one allocated block with 32 bytes more than the request at least, and changes no other |
| `MmRuns.FreeUses` | mps/05/mm.c:435-455 | after mm_free the allocated blocks are the same without the freed one |
| `MmRuns.ReallocUses` | mps/05/mm.c:288-422 | after mm_realloc they are the same without the old block, which is free, and with the one returned |
| `MmRuns.MallocCuts` | mps/05/mm.c:108-217 | the blocks after a request: the free block found is cut when more than 72 bytes are left over, else a block of 24 bytes more than the rounded size is put at the end |
| `MmRuns.FreedIsFirst` | mps/05/mm.c:435-455 | the block that mm_free leaves free contains the freed one and is the first of its list |
| `MmRuns.SizeClasses` | mps/05/mm.c:225-235 | a free block of less than 290 bytes is on the first list and no other, of 290 to 539 on the second, of 540 to 2079 on the third, a larger one on the fourth; only free blocks are listed |
| `MmRuns.FirstFitOrder` | mps/05/mm.c:240-261 | the search returns the first block that is large enough, on the first list that has one |
| `MmRuns.SmallerClassFirst` | mps/05/mm.c:240-261 | a request gets no block of 290, 540 or 2080 bytes or more while a free block below that has room |
| `MmRuns.NothingInUse` | mps/05/mm.c:459-520 | a heap without allocated blocks is empty or one free block |
| `MmRuns.ReplayExact` | mps/05/mdriver.c:568-651 | while a replay is accepted, the allocated blocks are exactly those of the live ids, each with room for the size last requested |
| `MmRuns.AllFreed` | mps/05/mdriver.c:568-651 | a trace that frees all it has allocated leaves one free block that is the whole heap |
| `ExplicitSpec.ListRequestFits` | mps/05/mm-explicit.c:65 | the block size has room for the request exactly when the conversion to int does not overflow |
| `ExplicitSpec.TakeListed` | mps/05/mm-explicit.c:73-77 | marking and unlinking a listed block keeps tiling, headers, the list and all payloads |
| `ExplicitSpec.GrowListed` | mps/05/mm-explicit.c:68-72 | a block at the break keeps them too |
| `ExplicitSpec.FreeListed` | mps/05/mm-explicit.c:94-103 | clearing the bit and linking at the front keeps them too |
| `ExplicitSpec.FailsOnlyWhenFull` | mps/05/mm-explicit.c:63-79 | NULL if and only if no free block fits and the break cannot move; the break moves if and only if it can and no free block fits |
| `ExplicitSpec.ListMallocExact` | mps/05/mm-explicit.c:63-79 | the first listed block that is large enough is handed out whole and leaves the list; if there is none a block of the rounded size is put at the break |
| `ExplicitSpec.ListReallocFrees` | mps/05/mm-explicit.c:105-117 | a block that mm_realloc has moved is free, first of the list, and what the next request that fits gets; every other block but the new one keeps size and bit |
| `ExplicitSpec.MallocUndoesFree` | mps/05/mm-explicit.c:63-103 | a request that fits a block just freed gets it back and restores the heap |
| `ExplicitSpec.OverreadIff` | mps/05/mm-explicit.c:105-117 | the copy reads past the memory area if and only if the old block ends there, is too small, and a free block fits |
| `ExplicitSpec.OverreadExample` | mps/05/mm-explicit.c:105-117 | two mallocs, a free of the first and a realloc of the second do so |
| `ExplicitSpec.ListPayloadsIsolated` | mps/05/mm-explicit.c:63-79 | payloads are 8-aligned, below the break and pairwise disjoint |
| `Explicit.ListAllocator.Init` | mps/05/mm-explicit.c:43-50 | an empty heap becomes a valid one with an empty list |
| `Explicit.ListAllocator.FindFit` | mps/05/mm-explicit.c:81-92 | terminates with the first listed block that is large enough, or None |
| `Explicit.ListAllocator.Malloc` | mps/05/mm-explicit.c:63-79 | always valid; heap and result are ListMalloc of the old heap, payloads are kept, and a failure leaves memory and heap unchanged |
| `Explicit.ListAllocator.Free` | mps/05/mm-explicit.c:94-103 | valid; heap is ListFree of the old one, every other payload kept |
| `Explicit.ListAllocator.Realloc` | mps/05/mm-explicit.c:105-117 | heap and result are ListRealloc of the old heap; the first min(size, old payload) bytes arrive, every other payload is kept, a failure changes nothing |
| `Ranges.EndInsideExact` | mps/05/mdriver.c:378-380 | the test finds every overlap but that of a new range that strictly contains an old one |
| `Ranges.MeetsNone` | mps/05/mdriver.c:377-386 | true exactly when no end of the new range lies in an old one |
| `Ranges.AddRange` | mps/05/mdriver.c:351-399 | accepts exactly aligned ranges inside the heap that pass the test, and puts them in front |
| `Ranges.RemoveRange` | mps/05/mdriver.c:404-419 | the first range that starts at the address leaves the list, the rest stays in order, and exactly its record is freed |
| `Ranges.ClearRanges` | mps/05/mdriver.c:424-434 | the list is empty and each of its records was freed, once, in order |
| `Driver.AddAcceptable` | mps/05/mdriver.c:351-399 | no false alarm: the payload of a new block always passes add_range against the live ones |
| `Driver.Harness.Allocate` | mps/05/mdriver.c:577 | the payload that mm_malloc returns passes add_range and meets no live one; the heap is the abstract one |
| `Driver.Harness.ReplayAlloc` | mps/05/mdriver.c:574-600 | accepted if and only if mm_malloc of the abstract heap succeeds; the ranges are those of the live ids and the new one, and every live payload holds its id byte |
| `Driver.Harness.Reallocate` | mps/05/mdriver.c:605-615 | the payload that mm_realloc returns starts with the old data; once the old range is removed add_range accepts it, unless its block has not grown and is smaller than the request |
| `Driver.Harness.ReplayRealloc` | mps/05/mdriver.c:602-637 | the verdict as a function of what mm_realloc of the abstract heap does: rejected exactly by the false alarm about signed characters or by the range of a block that has not grown; if accepted, the books are kept; a damaged block is recorded and filled |
| `Driver.Harness.CheckBytes` | mps/05/mdriver.c:625-631 | passes if and only if every byte, as a signed character, is the low byte of the id |
| `Driver.IntactBytes` | mps/05/mdriver.c:625-631 | on intact data that is so if and only if this byte is below 128 |
| `Driver.Harness.ReplayFree` | mps/05/mdriver.c:639-645 | exactly the freed id leaves ranges and books, every other payload holds its id byte |
| `Driver.Harness.EvalMmValid` | mps/05/mdriver.c:547-655 | on any well-formed trace the verdict is that of the abstract replay; the return value is 1 when every request is served or the last one passes with a block that has not grown, and 0 when one is rejected; it is left open after a store or copy out of bounds and when requests follow on a damaged heap; if all are served the range list is the extents of exactly the live ids and their payloads hold their id bytes |
| `Driver.Harness.EvalAllocFree` | mps/05/mdriver.c:547-655 | a well-formed trace of allocations and frees is accepted if and only if no allocation finds the heap exhausted, and so whenever the requests together fit |
| `Traces.ReplayStops` | mps/05/mdriver.c:568-651 | a replay that has failed keeps its verdict: it is that of the first failing prefix |
| `Traces.FailedAt` | mps/05/mdriver.c:568-655 | a driver whose replay fails at a request has a known end there only if that request is the last and damages the heap |
| `Traces.AllocFreeVerdict` | mps/05/mdriver.c:568-651 | without reallocs a replay fails exactly by an allocation that exhausts the heap |
| `Traces.FalseAlarmExample` | mps/05/mdriver.c:625-631 | for an allocation for id 128 and its realloc to the same size the driver returns 0 |
| `Traces.UngrownPasses` | mps/05/mdriver.c:602-655 | the trace of UngrownExample ends with a damaged heap and the return value 1 |
| `Traces.UngrownFails` | mps/05/mdriver.c:614-616 | an allocation of 8 bytes and its realloc to nearly the whole area end with 0, but eval_mm_util comes to its end with a heap of 192 bytes |
| `Traces.LatestSize` | mps/05/mdriver.c:598-599 | the size of a live id is that of the last request for it |
| `Utilization.PeakIsHighest` | mps/05/mdriver.c:701-703 | the peak is the largest total of live bytes over all prefixes of the trace, and is reached |
| `Utilization.SumFits` | mps/05/mdriver.c:697-703 | the sizes of the live ids add up to at most the tiled heap |
| `Utilization.UtilHarness.UtilAlloc` | mps/05/mdriver.c:686-704 | succeeds if and only if mm_malloc of the abstract heap does, which is then the heap; block and size are remembered for the id |
| `Utilization.UtilHarness.UtilRealloc` | mps/05/mdriver.c:706-726 | the verdict as a function of what mm_realloc of the abstract heap does, without checks; if it serves the request the id has the new block and size, and a block that has not grown is recorded with the new size |
| `Utilization.UtilHarness.UtilFree` | mps/05/mdriver.c:728-739 | the id is no longer live, the heap is the abstract one without its block and of the same size |
| `Utilization.UtilHarness.UtilNext` | mps/05/mdriver.c:683-745 | one request: total_size stays the sum of the live sizes and max_total_size the peak, if the abstract replay serves it or it damages the heap |
| `Utilization.UtilHarness.EvalMmUtil` | mps/05/mdriver.c:668-748 | on any well-formed trace the result is the peak of the live bytes over the heap size of the abstract replay, when that serves every request, and then lies between 0 and 1, or when its last request damages the heap; otherwise it is left open |
| `Utilization.RatioExample` | mps/05/mdriver.c:706-747 | on the trace of UngrownFails the peak is more than 100000 times the heap size |
| `JobTable.JobList.constructor` | mps/03/tsh.c:472-477 | all slots are clear and the next job id is 1 |
| `JobTable.JobList.AddJob` | mps/03/tsh.c:491-514 | the first clear slot gets the job and the next id, which wraps after MAXJOBS; succeeds exactly for a positive pid and a clear slot |
| `JobTable.JobList.DeleteJob` | mps/03/tsh.c:517-532 | the first slot with the pid is cleared and the next id is one above all ids |
| `JobTable.JobList.Fgpid` | mps/03/tsh.c:535-542 | the pid of the first foreground job, or 0 |
| `JobTable.JobList.GetJobPid` | mps/03/tsh.c:545-554 | the first slot with the pid, or none |
| `JobTable.JobList.GetJobJid` | mps/03/tsh.c:557-567 | the first slot with the job id, or none |
| `JobTable.JobList.Maxjid` | mps/03/tsh.c:480-488 | the largest job id, or 0 |
| `Shell.ListSafe` | mps/03/tsh.c:200-206 | adding the forked child keeps the protocol invariant |
| `Shell.WaitPidSafe` | mps/03/tsh.c:403 | whatever waitpid reports or reaps for the foreground job, the protocol invariant is kept |
| `Shell.RecordSafe` | mps/03/tsh.c:404-418 | recording what waitpid reported keeps the invariant and never dereferences a missing job |
| `Shell.MarkSafe` | mps/03/tsh.c:352-363 | setting the state of the job that bg or fg picked keeps the invariant: fg makes the only foreground job |
| `Shell.WaitSafe` | mps/03/tsh.c:370-385 | the steps of waitfg keep the invariant: it gets to the prompt only when no job is in the foreground |
| `Shell.StepSafe` | mps/03/tsh.c:165-421 | every step of main loop, handler or kernel keeps the safety and the wake-up invariant |
| `Shell.RunSafe` | mps/03/tsh.c:130-149 | so both hold in every state of every run |
| `ShellTheorems.JobControl` | mps/03/tsh.c:27-34 | in every reachable state at most one job is in the foreground, none at the prompt, and listed pids are distinct children not yet reaped, but for one the handler is deleting |
| `ShellTheorems.OnlyForegroundReaped` | mps/03/tsh.c:398-421 | only the foreground job is ever reaped or leaves the table |
| `ShellTheorems.WaitEndsIff` | mps/03/tsh.c:370-385 | when the waited-for child has changed state, waitfg can return by the shell's own steps if and only if a SIGCHLD is pending or its handler still running |
| `ShellTheorems.WaitMustEnd` | mps/03/tsh.c:370-385 | then it must: every run of own steps without idle turns of the busy loop is back at the prompt within ten steps |
| `ShellTheorems.NotIdle` | mps/03/tsh.c:370-421 | and there is always such a step to take |
| `ShellTheorems.FgReturnsIff` | mps/03/tsh.c:354-358 | after fg on a child with a report outstanding, waitfg can return if and only if its SIGCHLD is pending |
| `ShellTheorems.NoWaitInVain` | mps/03/tsh.c:165-220 | a wait for such a child can end, unless fg was applied to a job whose change had already been signalled |
| `ShellTheorems.FgLosesWakeup` | mps/03/tsh.c:354-358 | a run in which fg on a finished background job can never return |
| `ShellTheorems.MaskNeeded` | mps/03/tsh.c:180-207 | without the SIGCHLD mask a foreground job could be waited for in vain |
| `JobStates.EvalLists` | mps/03/tsh.c:200-214 | eval lists the child in a clear slot, in state BG if and only if the job is to run in the background, unblocks SIGCHLD and waits if and only if it is not |
| `JobStates.AnyJobPicked` | mps/03/tsh.c:307-349 | bg and fg can pick any listed job |
| `JobStates.PickedRuns` | mps/03/tsh.c:351-352 | the next step leaves a stopped child running with SIGCHLD pending; any other child and the table are as before |
| `JobStates.ContinuedMarked` | mps/03/tsh.c:354-363 | then exactly the slot of the job changes, to FG or BG, and fg alone goes on to wait |
| `JobStates.MarkedWaits` | mps/03/tsh.c:357 | for the process of that job |
| `JobStates.AskedReports` | mps/03/tsh.c:403 | waitpid reports a stop once and reaps an ended child, of the one process asked for |
| `JobStates.GotRecorded` | mps/03/tsh.c:404-418 | exactly the slot of that process changes: to state ST after a stop, to a clear slot after an end |
| `JobStates.StoppedSince` | mps/03/tsh.c:352-362 | in every run, a child that is stopped when its job is marked BG or FG was stopped by the kernel after the SIGCONT |
| `JobStates.StoppedReported` | mps/03/tsh.c:404-406 | in every run, a job is in state ST only if waitpid has reported a stop of this process, since when the slot has not changed |
| `JobIds.AddKeepsIdsIff` | mps/03/tsh.c:491-514 | addjob keeps the job ids distinct if and only if the next id is not in use |
| `JobIds.DeleteFreesIds` | mps/03/tsh.c:517-532 | after deletejob the next id is larger than all ids in use |
| `JobIds.IdsRepeat` | mps/03/tsh.c:502-504 | filling the table, deleting two jobs and adding two gives two jobs the id 1 and one the id 17 |
| `JobIds.IdsRepeatInRun` | mps/03/tsh.c:165-421 | a run of shell, handler and kernel from the start does that, the two jobs ending in the foreground |
| `CommandLine.ParseUndoesPrint` | mps/03/tsh.c:230-278 | splitting undoes joining: quotable arguments are read back, the last one dropped for a background job when it starts with &; 128 or more do not fit into argv |
| `CommandLine.QuotableIff` | mps/03/tsh.c:245-266 | an argument survives being printed and read if and only if it is quotable |
| `CommandLine.TokensOfQuote` | mps/03/tsh.c:253-267 | a printed argument is read back and reading goes on after its space |
| `CommandLine.TokensOfSpace` | mps/03/tsh.c:239-266 | a space before an argument changes nothing |
| `CommandLine.TokensOfUnclosed` | mps/03/tsh.c:245-253 | an argument without its closing quote is dropped |
| `CommandLine.FindArg` | mps/03/tsh.c:257-266 | start and delimiter of the next argument, or that it has none |
| `CommandLine.ParseLine` | mps/03/tsh.c:230-278 | the pointers in argv are C strings in the buffer, equal to the arguments of the line and ended by NULL; None when argv is too short |
| `Transpose.IsTranspose` | mps/04/trans.c:139-151 | true if and only if B is the transpose of A |
| `Transpose.Trans` | mps/04/trans.c:104-115 | B becomes the transpose of A |
| `Transpose.MoveBlock` | mps/04/trans.c:76-88 | one block is moved, edge blocks included; the delayed diagonal write puts a stale but equal value at worst |
| `Transpose.MoveColumn` | mps/04/trans.c:74-90 | one column of blocks is moved, rows of B below it are untouched and what was moved stays |
| `Transpose.TransposeSubmit` | mps/04/trans.c:23-92 | B becomes the transpose if and only if N is not 64, or M is 64, or M is larger and the rows past 64 were right before; if and only if N is 64 and M smaller an access leaves the arrays, first at column M of row 0, with B as it is then stated cell by cell |
| `CacheSet.AccessKeepsDistinct` | mps/04/csim.c:184-220 | valid lines of a set keep distinct tags |
| `CacheSet.HitLine` | mps/04/csim.c:184-196 | an access hits if and only if a valid line has the tag; then this line alone changes, its count going up by 1 |
| `CacheSet.MissLine` | mps/04/csim.c:197-220 | a miss changes one line: the first invalid one, else the first whose count is no larger than any other's; it gets the tag and a count one above all others |
| `CacheSet.AccessCounts` | mps/04/csim.c:209-220 | exactly a miss without eviction makes one more line valid |
| `CacheSet.SecondAccessHits` | mps/04/csim.c:306-309 | an access that follows one to the same tag hits |
| `CacheSet.FewTagsNeverEvict` | mps/04/csim.c:168-224 | a set that gets no more distinct tags than it has lines never evicts and misses once for each |
| `CacheSet.DirectMapped` | mps/04/csim.c:168-224 | with one line an access hits if and only if the one before had the same tag |
| `CacheSet.OldestIffOneLine` | mps/04/csim.c:187-213 | the line that an eviction replaces is the least recently used one on all access sequences if and only if a set has one line |
| `CacheSim.ShiftsMean` | mps/04/csim.c:175-180 | the shifts compute (address / 2^b) mod 2^s and address / 2^(s+b) |
| `CacheSim.Cache.constructor` | mps/04/csim.c:61-89 | every line of every set is invalid with count and tag 0 |
| `CacheSim.Cache.GetEmptyLine` | mps/04/csim.c:110-122 | the first invalid line, or 0 |
| `CacheSim.Cache.GetLru` | mps/04/csim.c:125-165 | the first line with the least count, that count, and the largest count |
| `CacheSim.Cache.Search` | mps/04/csim.c:184-196 | the one line with the tag counts up and a hit is counted; whether the set is full |
| `CacheSim.Cache.Simulate` | mps/04/csim.c:168-224 | the set of the address becomes what an access makes of it, one counter outcome is counted, other sets are untouched |
| `CacheSim.Replay` | mps/04/csim.c:296-313 | lines and counters after a trace are those of its accesses, I and unknown letters skipped, M twice |
| `CacheSim.SimulateTrace` | mps/04/csim.c:283-317 | the reported totals are those of the trace on an empty cache |
| `CacheSim.HitsAndMisses` | mps/04/csim.c:296-313 | hits and misses add up to the loads and stores and twice the modifies |
| `CacheSim.ModifyHits` | mps/04/csim.c:306-309 | the second access of every modify hits |
| `CacheSim.SameBlockHits` | mps/04/csim.c:296-313 | a load, store or modify of the block that the one before it touched adds no miss |
| `CacheSim.TotalsBySet` | mps/04/csim.c:168-224 | the totals are the sums over the sets of their own histories |
| `CacheSim.MissesLessEvictions` | mps/04/csim.c:197-220 | misses less evictions is the number of valid lines |
| `CacheSim.SmallWorkingSet` | mps/04/csim.c:168-224 | no evictions and one miss for each distinct tag of each set, when no set gets more of them than it has lines |
| `CacheSim.DirectMappedTrace` | mps/04/csim.c:168-224 | with one line a set, an access hits if and only if the latest earlier access to its set had its tag |
| `HashSpec.PutStands` | mps/02/hashtable.c:24-41 | ht_put updates the map and keeps each key once in its bucket |
| `HashSpec.DelStands` | mps/02/hashtable.c:85-107 | ht_del removes the key from the map |
| `HashSpec.PutAllStands` | mps/02/hashtable.c:111-119 | putting entries with new keys never takes the replacing branch |
| `HashSpec.RehashStands` | mps/02/hashtable.c:109-123 | ht_rehash keeps the map, for any positive new size, and frees no key or value |
| `HashSpec.PutConserves` | mps/02/hashtable.c:24-41 | what the table owned and was given is owned or freed afterwards, once |
| `HashSpec.DelConserves` | mps/02/hashtable.c:85-107 | the same for ht_del |
| `HashSpec.RehashConserves` | mps/02/hashtable.c:109-123 | every key string and value survives a rehash, once |
| `HashSpec.RunStands` | mps/02/hashtable.c:24-123 | after any run of puts, deletes and rehashes that does not crash the table stands for the map that they describe |
| `HashSpec.KeysPlaced` | mps/02/hashtable.c:25 | every entry is in the bucket of the hash of its key modulo the table size |
| `HashSpec.DelCrashesIff` | mps/02/hashtable.c:85-88 | ht_del crashes if and only if no key of the map has the same hash modulo the table size |
| `HashSpec.RunConserves` | mps/02/hashtable.c:69-123 | after any run, what was freed and what free_hashtable frees is what was handed over, each as often |
| `HashTables.Search` | mps/02/hashtable.c:43-53 | the first node with the key, or null |
| `HashTables.SearchBefore` | mps/02/hashtable.c:95-106 | the node before the first with the key, or null |
| `HashTables.ItemsFree` | mps/02/hashtable.c:69-80 | the calls for a chain free each key, each value and each node once |
| `HashTables.DelFreed` | mps/02/hashtable.c:85-107 | the strings and values that a delete gives to free are those that the balance of RunConserves counts |
| `HashTables.HashTable.constructor` | mps/02/hashtable.c:17-22 | an empty table of the size |
| `HashTables.HashTable.Get` | mps/02/hashtable.c:43-53 | the value of the key, or none |
| `HashTables.HashTable.Put` | mps/02/hashtable.c:24-41 | the table is that of Put, and so are the calls of free, in order; the chains stay well linked and disjoint |
| `HashTables.HashTable.Del` | mps/02/hashtable.c:85-107 | the table is that of Del; exactly the key, the value and the node that was unlinked are freed, in this order, and the node is in the chain no more; crashes exactly on an empty bucket |
| `HashTables.HashTable.Rehash` | mps/02/hashtable.c:109-123 | the table is rehashed; the calls of free are one for each old node in chain order, then the old array and the new struct, and nothing in use afterwards |
| `HashTables.HashTable.FreeAll` | mps/02/hashtable.c:69-82 | the calls of free are key, value and node of every entry in chain order, each once, and then the array and the table |
| `Sampler.SortedOk` | mps/05/fcyc.c:81-87 | the reference order is an ascending permutation of the samples |
| `Sampler.KeptAreSmallest` | mps/05/fcyc.c:67-88 | what is kept is ascending, part of the samples, and no sample left out is smaller |
| `Sampler.KeptStep` | mps/05/fcyc.c:70-76 | the three cases of add_sample keep the smallest of one more sample |
| `Sampler.BestSamples.Sink` | mps/05/fcyc.c:82-87 | the insertion loop sorts the last value in |
| `Sampler.BestSamples.AddSample` | mps/05/fcyc.c:67-88 | the array holds the min(n, kbest) smallest samples in ascending order |
| `Sampler.KeptAtMost` | mps/05/fcyc.c:67-97 | the last kept sample is at most a bound if and only if kbest of the measurements are |
| `Sampler.Fcyc` | mps/05/fcyc.c:129-168 | returns the smallest measurement; if it stops before maxsamples, kbest of the measurements are within (1 + epsilon) of it, which did not hold at any count before |

## Left out

- Mm.Allocator.Malloc: requests for which the int conversion gives a size from -24 to 32, too small for a block.
- Mm.Allocator.Realloc: requests above 2^31 - 40 bytes, as for both operations of the single-list allocator; what happens after a `Fault`, an `Astray` store or an `Overrun`, and further requests on a heap that an `Ungrown` block has damaged; the bodies of cases 2 and 3, which are never reached.
- Mm.Allocator.SplitBlock: what the unreachable call of coalease would do.
- Explicit.ListAllocator.Realloc: what happens after an `Overread`.
- mm_check and the heap printers: the second walk of mm_check advances by sizes that still carry the allocated bit.
- Driver.Harness.EvalMmValid: the return value after a verdict of Escaped or Smashed, and of Damaged before the last request (after Crashed there is none); error texts, and the driver on any other allocator.
- Utilization.UtilHarness.EvalMmUtil: the same verdicts.
- Trace files, option parsing, printing, timing and the measuring functions of the driver.
- Shell.StepSafe: fork failure, `quit`, `jobs` and output; SIGINT and SIGTSTP, which only make the kernel change a child; the moment between fork and setpgid, in which a child still is in the shell's process group.
- CommandLine.ParseLine: the empty string, and lines of MAXLINE characters or more, which fgets does not return; blank lines and a lone & are parsed, but what eval does with an empty argv is not modelled.
- CacheSim.Cache.Simulate: overflow of the int counters; allocation of the sets and of the pair that get_LRU fills.
- Transpose.TransposeSubmit: the number of cache misses, for which the block sizes were chosen; what happens after the first access outside the arrays for N = 64 and M < 64.
- HashTables.HashTable.Get: a stored NULL value looks like a missing key to a C caller; table sizes above 2^32, where the index is truncated; the hash function itself, which is a parameter; ht_iter.
- Sampler.Fcyc: rounding of doubles, cache clearing and timer compensation.

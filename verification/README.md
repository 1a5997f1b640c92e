# Verified models of five lab programs

This project models the hard parts of the lab code in Dafny and proves what that code is for: a boundary-tag heap
allocator, the smokers monitor, a set-associative LRU cache, sorting in C and in Y86-64 machine code, and the
optimisation of an image mask. `dafny verify dfyconfig.toml` checks everything.

## The parts

**Heap allocator** (`lab5/implicit.c`). `HeapBlocks.dfy` has the allocator as its user sees it, a list of blocks that
tiles the heap, and what malloc and free do to that list. `HeapWords.dfy` has the words of memory and when they
represent a list, `HeapSteps.dfy` what malloc and free write, and that the words then represent the new list.
`HeapPromises.dfy` says in addresses and numbers which block malloc takes, how much of it, and where free leaves the
rover. `HeapStale.dfy` is about next fit with a rover that a free has left inside a block. `HeapMemory.dfy` has the C functions
as methods of a class over one array of 32-bit words, proved to write just that. `HeapRuns.dfy` is about runs: any
sequence of mallocs, frees of live pointers and stores into live payloads. `HeapClient.dfy` joins the two: whatever
requests a user makes of the class, the heap passes through the worlds of a run. `HeapWitnesses.dfy` has runs that go
wrong.

* A request that is no multiple of 8 is rounded up, as the comment above `get_size_to_allocate` asks; the code returns
  no value there. Sizes wrap around at 2^32: a request above 2^32 - 16 gets a block that is too small
  (`SizeToAllocateEnough` says that this is exactly when it happens). One of 2^32 - 15 to 2^32 - 8 bytes wraps to 0
  (`SizeToAllocateWraps`), fits every free block, and sends the footer 2^32 - 4 bytes behind that block, outside the
  heap; `FooterOutside` says so, and that no other request does. `heap_malloc` is specified for all others. Runs consist
  of requests that do not wrap.
* `best_block` is not declared in `malloc_best_fit`; it is a local variable here that starts as `NULL`.
* The heap is smaller than 2^31 bytes, so that sizes fit the `int` of best fit. Pointers are integers.
* `coalesce` overwrites a header before it reads it again for the test of `h->next`. The class has both orders, as
  written and as the comment above `heap_free` intends. First and best fit never use `h->next`, and everything but the
  rover is the same. For next fit, `FreeRover` says exactly when the written order loses the rover, and
  `RoverNeverLost` that the intended order never does.
* **Next fit as written is safe up to the first request that fits a stale header, and no further.** A free may leave the
  rover inside a merged block. From there, headers of blocks that no longer exist lead to the end of that block
  (`RoverTracked`: in every run, also over further frees). `NextMallocSafeIff` is the exact condition: malloc returns
  NULL, or a block that is in use from then on, if and only if the request is larger than all of these headers say; and
  then it does what next fit promises and brings the rover back to a block. Otherwise it hands out memory inside a block
  that is still free. Right after the free there is one such header, the one at `h->next` (`AfterLosingFree`).
  `HeapClient.IsSafe` is this test as a program. Runs consist of mallocs that pass it, so the claims about runs hold
  for the written order too. `RoverLostWitness` is a run of two mallocs and two frees after which the rover is inside
  a block, and `OverlapWitness` two mallocs that do not heed the test and get payloads of which one lies inside the
  other.
* With the intended order, and for first and best fit, there is never a stale header (`NothingStale`).
* `heap_find_avg_free_block_size` divides by zero exactly if all blocks are in use; `FullHeapWitness` gets there with
  one malloc.
* The word before the first block, which `heap_free` reads, is arbitrary.

**Smokers** (`lab8/smoke.c`). `Smokers.dfy` is a step machine: program counters, waiting and woken threads, the owner
of the mutex, and the shared counters. Which thread steps next and which pair the agent picks is arbitrary.
`SmokersProofs.dfy` finds the phase of a round from the state and shows that each step leads to the next phase.
`SmokersTheorems.dfy` has the results, for any number of rounds. `SmokersRuns.dfy` shows that the runs are there to
speak of: who can step (`CanStepIff`), and that every plan of choices and first listeners is a run (`EveryPlanRuns`). Condition variables follow `pthread_cond_wait` and
`pthread_cond_signal` of POSIX.1-2017, but without spurious wakeups: the code has no loop around its waits that would
test for one. Runs start where the agent's own start-up loop wants them to: all six helpers parked.

**Cache** (`lab6/cache.c`, `lab6/cache-test.c`). `CacheLru.dfy` has one set and the textbook LRU stack;
`CacheAddresses.dfy` the split of addresses and the coherence of all sets with memory; `CacheMemory.dfy` the C
functions on line objects and arrays of them; `CacheTraces.dfy` whole traces of reads, also through two caches;
`CacheWalks.dfy` the exact misses of walks over a table whose rows begin with a block, `CacheFits.dfy` those of any walk
over a table that fits, with rows of any length, `CacheSums.dfy` the three traversals of the test program and
`CacheTest.dfy` that program from `cache_new` on. `cache_read` casts the address to `int`, so addresses are below 2^31.

Fresh lines have arbitrary tags, and the search for a tag looks at invalid lines too. What a read returns does not
depend on those tags, nor do the misses of a row-major scan. Which reads hit in general does: `LeftOverTagWitness` is a
trace in which a tag is lost too early. `ExactIffFresh` has the exact condition: reads of a set of tags always hit as
LRU says, if and only if no fresh line but perhaps the last carries one of them; `CacheExactIffFresh` says it of a whole
cache and any set of addresses. The claims about LRU are for such caches (`Fresh`, `FreshCache`); with one line to a set every new cache is one (`DirectMappedIsFresh`).

The C language leaves open in which order the four reads of `sumC` happen; here they happen from left to right.

**Sorting** (`lab3/sort.c`, `lab3/sort.ys`, `lab2/sort_64.ys`). `QuickSort.dfy` has the C quicksort in place on an
array, proved against a function that is proved to sort. `Y86.dfy` is a Y86-64 machine with registers, condition codes
and memory, and the two programs at the addresses that the assembler gives them. `Y86QuickSort.dfy` and
`Y86QuickSortRuns.dfy` show that `quickSort` in machine code returns from every call with what the C function leaves,
`Y86ExchangeSort.dfy` that the exchange sort halts with the sorted array, both within a number of steps. Values are 64-bit
words, subtraction may overflow. `mulq` and `divq` belong to this course's machine; `divq` truncates.

**Mask** (`lab6/timemask.c`, `lab6/mask.c`). `Mask.dfy` says what one pixel of the answer is; `MaskLoops.dfy` has the
reference and both optimised versions as loops over two-dimensional arrays. The passes over neighbours differ only in
bounds, offsets and weight, so each version calls one method for them with the bounds of the source.

`Bits.dfy` (masks, shifts, truncating division), `Products.dfy` (products and quotients) and `Sums.dfy` (totals of a
table) serve several parts.

## Model

| member | source | states |
|---|---|---|
| `HeapBlocks.SizeToAllocateEnough` | lab5/implicit.c:120-129 | the block size is a multiple of 8 and has room for the request and both headers, for exactly the requests that do not wrap around |
| `HeapBlocks.SizeToAllocateWraps` | lab5/implicit.c:125-129 | exactly the requests of 2^32 - 15 to 2^32 - 8 bytes wrap around to a size of less than a block |
| `HeapBlocks.AllocateKeeps` | lab5/implicit.c:131-144 | splitting or taking a free block keeps the tiling and the rule against free neighbours, and adds exactly the taken block to the used ones |
| `HeapBlocks.FreeIsOneMerge` | lab5/implicit.c:97-118 | the two coalesces of a free amount to one merge with whichever neighbours are free |
| `HeapBlocks.FreeKeeps` | lab5/implicit.c:232-238 | free keeps the tiling and leaves no two free neighbours |
| `HeapBlocks.FreeReleasesOne` | lab5/implicit.c:232-238 | free takes exactly the freed block out of the used ones |
| `HeapBlocks.BlocksDisjoint` | lab5/implicit.c:58-61 | different blocks of a tiling do not overlap |
| `HeapBlocks.AllFreeIsOneBlock` | lab5/implicit.c:97-118 | a heap without used blocks and without free neighbours is one block |
| `HeapBlocks.SizesAddUp` | lab5/implicit.c:58-61 | the sizes of the blocks from the start on add up to the size of the heap |
| `HeapBlocks.FreeWithin` | lab5/implicit.c:204-215 | the free bytes never exceed the heap, and there is no free block exactly if all are in use |
| `HeapBlocks.ChosenUnique` | lab5/implicit.c:244-319 | the description of each search policy (first, best with ties to the right, next in cyclic order) picks at most one block |
| `HeapBlocks.StartsAfterCoalesce` | lab5/implicit.c:97-118 | coalescing removes exactly one block start from the heap, that of the second block |
| `HeapBlocks.RoverCoalesced` | lab5/implicit.c:110-114 | one coalesce keeps the rover on a block unless it was on the second block and the header was overwritten first |
| `HeapBlocks.RoverFreed` | lab5/implicit.c:227-238 | free keeps the rover on a block if and only if the order is the intended one or none of three situations holds |
| `HeapWords.HeaderBits` | lab5/implicit.c:8-20 | the header masks give the size and the in-use bit |
| `HeapMemory.Heap.TagRead` | lab5/implicit.c:8-61 | the header macros read back, from any words that represent a block list, the size, the use and the successor of a block |
| `HeapMemory.Heap.PreviousInvertsNext` | lab5/implicit.c:58-71 | get_previous_block inverts get_next_block |
| `HeapMemory.Heap.PreviousOfFirst` | lab5/implicit.c:67-71 | whatever the word before the heap is, the block before the first is out of range or the first itself |
| `HeapMemory.Heap.SetBlockHeader` | lab5/implicit.c:47-53 | header and footer are written and no other word |
| `HeapMemory.Heap.Coalesce` | lab5/implicit.c:97-118 | exactly the two tags of the merged block are written, the words represent the coalesced list, and the rover moves as the chosen order says |
| `HeapMemory.Heap.PrepareBlockForUse` | lab5/implicit.c:136-144 | the words become those with the block taken or split, whatever list they represent or do not |
| `HeapWords.PreparedRepresents` | lab5/implicit.c:136-144 | words that represented a list then represent the list with the block taken or split, and used blocks keep their words |
| `HeapMemory.Heap.HeapFindAvgFreeBlockSize` | lab5/implicit.c:204-225 | the walk finds the average of the free blocks, and divides by zero exactly if all blocks are in use |
| `HeapMemory.Heap.HeapCreate` | lab5/implicit.c:149-181 | one free block fills the aligned rest of the region, fewer than 8 bytes behind it are unused, and the rover is at the start |
| `HeapMemory.Heap.HeapFree` | lab5/implicit.c:232-238 | free is a FreeStep on words: the payload's block is released and merged, with exactly the words that says |
| `HeapMemory.Heap.MallocFirstFit` | lab5/implicit.c:244-258 | malloc takes the first block that fits, or returns NULL if none does |
| `HeapMemory.Heap.MallocBestFit` | lab5/implicit.c:264-286 | malloc takes a smallest block that fits, the last of these |
| `HeapMemory.Heap.MallocNextFit` | lab5/implicit.c:292-319 | wherever frees have left the rover, malloc takes the first header that fits; if no stale one does, that is the first block that fits in cyclic order from the rover, and the rover ends on it |
| `HeapMemory.Heap.NextFitOnWords` | lab5/implicit.c:292-319 | wherever the rover is, malloc takes the first header that fits on the walk from the rover and then from the start, if these walks end |
| `HeapWords.NextFitChooses` | lab5/implicit.c:292-319 | on words that represent a list, that header is the block that next fit promises |
| `HeapPromises.MallocPicks` | lab5/implicit.c:244-319 | malloc takes the lowest block that fits, the smallest and of these the highest, or the first at or behind the rover and else from the start, with the rover on it then; NULL only if none fits, and nothing changes then |
| `HeapPromises.PickUnique` | lab5/implicit.c:244-319 | that describes one block |
| `HeapPromises.MallocSplits` | lab5/implicit.c:131-144 | the block is split if and only if it is more than 128 bytes larger than needed or more than twice as large; otherwise all of it is handed out, and every other block stays |
| `HeapPromises.FreeMovesRover` | lab5/implicit.c:110-114 | exactly when and where to free moves the rover, in each order |
| `HeapPromises.IntendedOnlyOffMerged` | lab5/implicit.c:227-231 | in the intended order free moves the rover only off a block that disappears |
| `HeapPromises.FreeAndUsed` | lab5/implicit.c:204-215 | the bytes of the free blocks are those of the heap that no block in use has |
| `HeapPromises.FreeCounted` | lab5/implicit.c:204-215 | the number by which the average divides is that of the free blocks |
| `HeapSteps.FooterOutside` | lab5/implicit.c:47-53 | the footer of the part that malloc takes goes outside the heap for exactly the requests of 2^32 - 15 to 2^32 - 8 bytes, and they fit every free block |
| `HeapSteps.FreedRepresents` | lab5/implicit.c:232-238 | what free writes represents the list with the block released and merged, and the other used blocks keep their words |
| `HeapStale.FreeKeepsRover` | lab5/implicit.c:110-114 | free leaves the rover on a block or inside a free block to whose end stale headers lead; from a block it gets to one stale header at most |
| `HeapStale.NextFitRefines` | lab5/implicit.c:292-319 | next fit on words does to the list what the policy promises, if no stale header fits, from the first block at the rover or behind it |
| `HeapStale.NextFitSafeIff` | lab5/implicit.c:292-319 | next fit gives NULL or a block of the list if and only if the request is larger than every stale header, and otherwise memory inside a free block |
| `HeapMemory.Heap.HeapMalloc` | lab5/implicit.c:324-335 | malloc is a MallocStep on words for the policy of the heap, unless a stale header fits |
| `HeapWords.InsideSplit` | lab5/implicit.c:136-141 | the remainder of a split is a legal block of at least 16 bytes inside the heap |
| `HeapRuns.CarveServes` | lab5/implicit.c:131-144 | the block handed out is as large as needed, and at most 128 bytes larger and at most twice as large |
| `HeapRuns.MallocInv` | lab5/implicit.c:324-335 | malloc keeps the invariant of runs |
| `HeapRuns.FreeInv` | lab5/implicit.c:232-238 | free of a live pointer keeps the invariant of runs |
| `HeapRuns.StoreInv` | lab5/implicit.c:36-41 | a store into a live payload keeps the invariant of runs: it touches no header and no other payload |
| `HeapRuns.RunInv` | lab5/implicit.c:149-335 | every world of every run satisfies the invariant |
| `HeapRuns.LiveBlock` | lab5/implicit.c:131-144 | the block of a live pointer is still as it was handed out, inside the heap, with an 8-aligned payload |
| `HeapRuns.LiveDisjoint` | lab5/implicit.c:58-61 | live payloads are at least a footer and a header apart |
| `HeapRuns.RunsAreSafe` | lab5/implicit.c:232-335 | in every run live payloads are aligned, inside the heap and disjoint, and every word stored through a live pointer is still there |
| `HeapRuns.RunsTile` | lab5/implicit.c:81-118 | in every run headers and footers describe a tiling of the whole heap without free neighbours |
| `HeapRuns.FreeingAllRestores` | lab5/implicit.c:92-118 | once everything is freed, in any order, the heap is the one free block it started as |
| `HeapRuns.NullIffNothingFits` | lab5/implicit.c:240-319 | malloc returns NULL exactly when no free block is large enough |
| `HeapRuns.MallocKeepsRover` | lab5/implicit.c:292-319 | malloc keeps the rover on a block |
| `HeapRuns.RoverTracked` | lab5/implicit.c:232-319 | in every run the rover is on a block, or headers of free blocks lead from it to the end of the free block it is in |
| `HeapRuns.NextMallocSafeIff` | lab5/implicit.c:292-319 | in every run of next fit, the next malloc is NULL or a block in use from then on if and only if no stale header is as large as the request; then it is a step of the run |
| `HeapRuns.AfterLosingFree` | lab5/implicit.c:110-114 | right after a free has lost the rover, that test is to compare the request with the header at h->next |
| `HeapRuns.NothingStale` | lab5/implicit.c:227-231 | with the intended order, or under first or best fit, every request passes the test |
| `HeapRuns.RoverNeverLost` | lab5/implicit.c:227-231 | with the intended order the rover is on a block in every run |
| `HeapRuns.FreeRover` | lab5/implicit.c:110-114 | free of a live pointer loses the rover if and only if next fit runs in the written order in one of three situations |
| `HeapWitnesses.RoverLostWitness` | lab5/implicit.c:110-114 | a run of two mallocs and two frees after which the written order leaves the rover inside the only block |
| `HeapWitnesses.FullHeapWitness` | lab5/implicit.c:204-224 | a run of one malloc after which every block is in use, so that the average divides by zero |
| `HeapWitnesses.OverlapWitness` | lab5/implicit.c:292-319 | after that run, next fit on the words returns two payloads of which one lies inside the other |
| `HeapClient.ServeAll` | lab5/implicit.c:232-335 | any list of requests to a new heap, with any policy and either order of coalesce: the legal and safe ones are answered in order, and the worlds the heap passes through are a run |
| `HeapClient.IsSafe` | lab5/implicit.c:292-319 | a walk over headers decides whether a request fits a stale header |
| `HeapClient.CreateAndServe` | lab5/implicit.c:149-335 | from heap_create on, whatever is asked for, live payloads are aligned, inside the region and disjoint |
| `HeapClient.NothingRefused` | lab5/implicit.c:232-335 | with the intended order, or under first or best fit, every request of up to 2^32 - 16 bytes, every free of a live pointer and every store of a word into a live payload is served |
| `SmokersProofs.StepAdvances` | lab8/smoke.c:79-204 | from every phase of a round, each possible step leads to the next phase and uses up one of the steps left |
| `SmokersProofs.WaitersAreAtHome` | lab8/smoke.c:103-204 | each thread waits only on its own condition variable |
| `SmokersTheorems.PhaseOf` | lab8/smoke.c:79-204 | every state of every run is in a phase of a round, and after k steps exactly k fewer are left |
| `SmokersTheorems.MutualExclusion` | lab8/smoke.c:74-204 | at most one thread runs, the one that holds the mutex |
| `SmokersTheorems.OneWaiter` | lab8/smoke.c:96-199 | no condition variable ever has two waiters |
| `SmokersTheorems.NoSignalIsLost` | lab8/smoke.c:83-200 | every signal finds the one thread it is meant for waiting, and wakes it |
| `SmokersTheorems.OnlyTheDueSmokerIsWoken` | lab8/smoke.c:103-167 | a smoker is woken only when its resource completes the chosen pair, and its smoke is the only one due |
| `SmokersTheorems.TableAndCounters` | lab8/smoke.c:36-59 | sum is 0 whenever the agent holds the mutex, and at most one resource is one smoke behind its signals |
| `SmokersTheorems.SomeThreadCanStep` | lab8/smoke.c:79-204 | no deadlock: until the agent has returned some thread can step |
| `SmokersTheorems.EveryRunEndsWell` | lab8/smoke.c:228-234 | a run that cannot go on has taken exactly 21 steps a round and 2 more, and the four final assertions hold |
| `SmokersTheorems.AssertionsHoldOnExit` | lab8/smoke.c:229-234 | no run is longer, and the four assertions hold from the moment the agent has returned |
| `SmokersRuns.CanStepIff` | lab8/smoke.c:74-204 | in every phase a thread can step if and only if it holds the mutex, or was signalled and the mutex is free |
| `SmokersRuns.AnyChoice` | lab8/smoke.c:79-82 | at the head of its loop the agent can choose each of the three smokes, and announces that one |
| `SmokersRuns.EitherListener` | lab8/smoke.c:103-167 | when both listeners are woken, each of the two can go first |
| `SmokersRuns.OneOutcome` | lab8/smoke.c:79-204 | apart from the choice, the outcome of a thread's step is determined |
| `SmokersRuns.EveryPlanRuns` | lab8/smoke.c:79-204 | for every sequence of choices and of first listeners there is a run that makes them and ends with as many smokes of each kind as were chosen |
| `CacheLru.ReadKeepsValidFirst` | lab6/cache.c:126-176 | with arbitrary tags in fresh lines, no tag is valid twice and a valid line precedes the invalid ones with its tag |
| `CacheLru.ReadMirrors` | lab6/cache.c:101-158 | a read does to the lines of a set what it does to the textbook LRU stack |
| `CacheLru.ExactLru` | lab6/cache.c:101-158 | if no fresh line but perhaps the last carries a tag of the trace, the valid lines are the most recently used distinct tags, in recency order, before all others |
| `CacheLru.StackDepth` | lab6/cache.c:101-108 | a tag lies as deep in the LRU stack as other tags were used since its last use |
| `CacheLru.HitIffRecentlyUsed` | lab6/cache.c:126-141 | a read hits exactly when its tag was used before and fewer other tags than there are lines since |
| `CacheLru.MoreLinesMissLess` | lab6/cache.c:126-158 | the lines of a smaller set are the first lines of a larger one, which never misses more |
| `CacheLru.LeftOverTagWitness` | lab6/cache.c:133-136 | two fresh lines with tags 7 and 5: after reads of 3 and 7, 3 misses, though only one other tag was used |
| `CacheLru.ExactIffFresh` | lab6/cache.c:126-158 | reads of a set of tags hit as LRU says in every order if and only if no fresh line but perhaps the last carries one of them |
| `CacheLru.ValidWasRead` | lab6/cache.c:163-177 | whatever tags were left over, only tags that were read are ever valid |
| `CacheLru.JustReadHits` | lab6/cache.c:109-141 | whatever tags were left over, the tag read last hits |
| `CacheAddresses.AddressRebuilt` | lab6/cache.c:185-187 | tag, index and offset determine the address, and the index names a set |
| `CacheAddresses.BlockAddressInjective` | lab6/cache.c:28-42 | different pairs of tag and index are different blocks |
| `CacheAddresses.LongReadBack` | lab6/cache.c:95-99 | a long of either sign whose bytes are in memory, the lowest first, is read back |
| `CacheAddresses.ByteIsDigit` | lab6/cache.c:95-99 | these bytes are the digits to base 256 |
| `CacheAddresses.ReadKeepsCoherent` | lab6/cache.c:163-177 | a read keeps every valid line equal to its block in memory |
| `CacheAddresses.FrontHoldsLong` | lab6/cache.c:182-198 | after a read the front line of the set holds the long of the address |
| `CacheMemory.CacheLineMakeMru` | lab6/cache.c:109-121 | the line moves to the front and those before it move down by one, in the array itself |
| `CacheMemory.CacheSetFindMatchingLine` | lab6/cache.c:126-141 | the first line with the tag, valid or not, comes to the front; null, and the lines stay as they are, if there is none |
| `CacheMemory.FindAvailableCacheLine` | lab6/cache.c:148-158 | the last line is evicted |
| `CacheMemory.GetShiftAndMask` | lab6/cache.c:31-42 | shift grows by the whole part of the logarithm of value and mask has that many ones |
| `CacheMemory.CacheSetInit` | lab6/cache.c:12-26 | distinct invalid lines with arbitrary tags |
| `CacheMemory.Cache.CacheNew` | lab6/cache.c:50-79 | a valid cache with num_blocks / associativity sets, none of whose lines is valid |
| `CacheMemory.Cache.CacheSetAdd` | lab6/cache.c:163-177 | the last line becomes the front line and holds the block of the address |
| `CacheMemory.Cache.LookUpInSet` | lab6/cache.c:189-196 | a read changes no other set, and misses exactly when no valid line matches first |
| `CacheMemory.Cache.CacheRead` | lab6/cache.c:182-198 | a read returns the long whose bytes are in memory, changes the sets as the model does, and counts an access and, on a miss only, a miss |
| `CacheTraces.SetsAreIndependent` | lab6/cache.c:185-196 | each set sees only the reads of its own addresses |
| `CacheTraces.DirectMappedIsFresh` | lab6/cache.c:148-158 | with one line to a set, left-over tags never matter |
| `CacheTraces.CacheIsExactLru` | lab6/cache.c:101-121 | in every set of a whole cache the valid lines are the most recently used blocks, in recency order |
| `CacheTraces.ReadHitsIff` | lab6/cache.c:182-198 | a read hits exactly when fewer than associativity other blocks of its set were read since its last use |
| `CacheTraces.Inclusion` | lab6/cache.c:109-158 | with more lines to a set, a cache holds all that the smaller one holds, in the same order in front |
| `CacheTraces.LargerCacheMissesLess` | lab6/cache.c:182-198 | with more lines to a set, a cache never misses more |
| `CacheTraces.CacheExactIffFresh` | lab6/cache.c:131-136 | reads of given addresses hit as the textbook says in every order if and only if, in each set, no fresh line but perhaps the last carries a tag of theirs |
| `CacheTraces.ScanMisses` | lab6/cache-test.c:29-39 | on any new cache, whatever tags were left over, a row-major scan of n longs from a block-aligned base misses once for each block it touches, 8n / block rounded up |
| `CacheTraces.NewBlockMisses` | lab6/cache.c:189-196 | whatever tags were left over, a block that was not read before misses |
| `CacheWalks.LaterRead` | lab6/cache.c:182-198 | a block read before hits exactly if fewer other blocks of its set were read since than the set has lines |
| `CacheWalks.TagsOfRivals` | lab6/cache.c:185-187 | the rows of a block column compete for a set exactly as their distances say, each with one tag |
| `CacheWalks.ColumnWalkMisses` | lab6/cache-test.c:41-51 | column by column over a table of whole blocks to a row: a row misses once a block if at most as many rows share its sets as a set has lines, and every time otherwise |
| `CacheWalks.PairWalkMisses` | lab6/cache-test.c:53-66 | two by two: once a block, once more a pair of columns for crowded rows, and once more for rows that clash with their partner in sets of one line |
| `CacheFits.FittingMisses` | lab6/cache.c:168-209 | a trace that asks no set for more blocks than it has lines misses once for every block it reads |
| `CacheFits.FittingWalkMisses` | lab6/cache-test.c:28-66 | any walk that visits every entry of a table misses once a block, if the table spans at most as many blocks as the cache has lines, wherever it begins and however long its rows are |
| `CacheFits.FittingTable` | lab6/cache-test.c:28-66 | so do the walks column by column and two by two |
| `Sums.SameTotal` | lab6/cache-test.c:29-51 | row by row and column by column give the same total |
| `CacheSums.SumA` | lab6/cache-test.c:29-39 | the total of the array; the reads are the scan of it |
| `CacheSums.ScanCounts` | lab6/cache-test.c:68-89 | after a scan on a new cache the miss counter is the number of blocks, 8n / block rounded up |
| `CacheSums.SumB` | lab6/cache-test.c:41-51 | the same total; the reads are the walk column by column |
| `CacheSums.SumC` | lab6/cache-test.c:53-66 | the same total for even rows and cols, for odd ones that of the array rounded up; the reads are the walk two by two |
| `CacheTest.SumOnNewCache` | lab6/cache-test.c:87-89 | cache_new of any size and shape, then sumA from a block-aligned base: the total, and the number of blocks as miss counter |
| `CacheTest.TestMisses` | lab6/cache-test.c:87-97 | 256 blocks of 64 bytes, one to a set, and 64 by 64 longs: of 4096 reads 512, 4096 and 2048 miss |
| `CacheTest.FilledTotal` | lab6/cache-test.c:19-27 | the 4096 longs that the program fills in and sums up add up to 4720640 |
| `CacheTest.CompareSums` | lab6/cache-test.c:87-97 | the whole program: three new caches, three equal sums, 4720640 for the array as it fills it, and those miss counters |
| `QuickSort.PartitionCorrect` | lab3/sort.c:8-21 | the partition permutes, with nothing above the pivot left of it and everything above it right of it |
| `QuickSort.SortCorrect` | lab3/sort.c:1-25 | the result is sorted and a permutation |
| `QuickSort.PartitionC` | lab3/sort.c:5-21 | the loop partitions the range in place |
| `QuickSort.QuickSortC` | lab3/sort.c:1-25 | exactly the len elements are replaced by what Sort makes of them |
| `Y86.WrapIsModular` | lab2/sort_64.ys:19 | results are words, equal to the exact result modulo 2^64 |
| `Y86.OpExact` | lab2/sort_64.ys:19 | each operation leaves its exact result modulo 2^64; zero and sign flags are those of the result, and addq and subq set the overflow flag if and only if the exact result is no word |
| `Y86.StopsIff` | lab2/sort_64.ys:30 | only halt, a missing address and a division by zero stop the machine, and change nothing else |
| `Y86.StackRoundTrip` | lab3/sort.ys:11-73 | popq undoes pushq and ret undoes call, but for the word below the stack pointer |
| `Y86.SubCompares` | lab2/sort_64.ys:19-20 | after subq the conditional jumps compare exactly, even when the subtraction overflows |
| `Y86QuickSortRuns.LoopRuns` | lab3/sort.ys:52-68 | the loop from LN5 leaves the array and the cursor of the C loop and reaches LN3 |
| `Y86QuickSortRuns.PartsMakeSort` | lab3/sort.ys:29-48 | sorting both sides of the pivot is sorting the whole |
| `Y86QuickSortRuns.QuickSortReturns` | lab3/sort.ys:11-73 | every call returns to its caller with stack pointer and callee-saved registers restored, only the array and the stack below changed, and the array as the C quicksort leaves it, within 7.5 n^2 + 44.5 n + 11 steps |
| `Y86QuickSortRuns.AnyArrayCallable` | lab3/sort.ys:2-11 | every array of words, anywhere behind the code, can be handed to such a call |
| `Y86QuickSortRuns.QuickSortSorts` | lab3/sort.ys:11-73 | the array comes back sorted and with the same elements |
| `Y86ExchangeSort.ExchangeSettles` | lab2/sort_64.ys:14-26 | a pass of the inner loop puts the smallest remaining element in place |
| `Y86ExchangeSort.RoundsSort` | lab2/sort_64.ys:6-29 | all passes sort and permute |
| `Y86ExchangeSort.InnerRuns` | lab2/sort_64.ys:14-29 | the machine code of the inner loop does such a pass in at most 13 steps a comparison |
| `Y86ExchangeSort.OuterRuns` | lab2/sort_64.ys:6-30 | the machine code of both loops does all passes and halts |
| `Y86ExchangeSort.ExchangeSortHalts` | lab2/sort_64.ys:2-30 | from start to halt any array of words is sorted in place, nothing else in memory changes, within 6.5 n^2 + 7.5 n + 8 steps |
| `Mask.WeightIsProduct` | lab6/timemask.c:48-129 | the weight of a pixel is a factor for its row times a factor for its column |
| `Bits.QuotientTruncates` | lab6/timemask.c:134 | the division leaves a remainder smaller than the divisor with the sign of the dividend |
| `Mask.PixelIsMean` | lab6/timemask.c:40-136 | the answer is four times the pixel, twice its sides and once its corners, as far as they exist, divided by the sum of these weights without the remainder, also for negative sums |
| `Mask.MaskKeepsRange` | lab6/timemask.c:131-136 | the answer is within the range of the picture, also with negative pixels and truncating division |
| `Mask.OneColour` | lab6/timemask.c:40-136 | a picture of one colour does not change |
| `Mask.OneAnswer` | lab6/mask.c:4-9 | all versions of the mask agree in every pixel and in the check sum |
| `Mask.NothingOverflows` | lab6/timemask.c:187-227 | for the pixels that reading a picture file can give, also a truncated one, no sum overflows a long |
| `MaskLoops.NextPass` | lab6/timemask.c:55-129 | a pass over one neighbour adds its share to every pixel that has this neighbour and to no other |
| `MaskLoops.BaseMask` | lab6/timemask.c:40-139 | ten passes column by column leave the answer, touch no pixel outside the picture, and return its sum |
| `MaskLoops.Mask1` | lab6/mask.c:45-136 | ten passes row by row leave the same |
| `MaskLoops.MaskPixel` | lab6/mask.c:154-202 | the fused body computes one pixel of the answer |
| `MaskLoops.Mask2` | lab6/mask.c:141-207 | the fused pass leaves the same |

## Left out

- Heap: `sbrk` and its failure, `heap_print`, and what `heap_find_avg_free_block_size` prints. The region that `sbrk`
  returns is an array given to the constructor, large enough for one block.
- HeapMemory.Heap.HeapMalloc: excludes requests whose size wraps around to 0, for which the code writes outside the
  heap.
- HeapMemory.Heap.NextFitOnWords: only while both walks end, as they do in every run.
- HeapMemory.Heap.HeapFree: only for live pointers, as in C; anything else is undefined.
- HeapRuns.RunsAreSafe: for next fit in the written order, only up to the first request that fits a stale header;
  NextMallocSafeIff says exactly which requests do, and OverlapWitness what can follow.
- HeapRuns: user stores are whole aligned words; pointers do not wrap around at 2^64.
- Smokers: thread creation and joining, `random`, printing, the start-up handshake (its wait has no signaller and
  `num_active_threads` is changed without the mutex), spurious wakeups, and helpers that leave their endless loops.
- Cache: `cache_write` (empty) and the policies (never consulted); allocation is done by objects, not by `malloc`; memory
  does not change between reads.
- CacheMemory.Cache.CacheNew: blocks of at least 8 bytes and at least one set, without which a read leaves its line or
  its array. Shifts of an `int` by 32 or more, for caches whose sets times block size reach 2^32, are undefined in C;
  here they give 0.
- CacheMemory.Cache.CacheRead: addresses below 2^31 that are multiples of 8; others do not survive the cast or cross blocks.
- CacheWalks.ColumnWalkMisses: for tables whose rows begin at a block, and so is PairWalkMisses. For rows of any length
  there is a closed number only for tables that fit (FittingWalkMisses), and the condition on each read (ReadHitsIff).
- CacheSums.SumA: adds mathematical integers; the C code needs the total to fit a long.
- CacheSums.SumB: the same.
- CacheSums.SumC: the same, and there the total must fit an int.
- QuickSort.QuickSortC: compares mathematical integers, as no sum of elements is ever computed; its pointers are indices.
- Y86: code is not in the data memory, so a program cannot write over itself; moves with a displacement, which the two
  programs do not use; words at addresses that overlap in part; encodings of instructions, of which only the lengths matter.
- Y86QuickSortRuns.QuickSortReturns: for arrays and stacks apart from the code, and arrays of fewer than 2^59 words below
  address 2^62; the caller in lab3/sort.ys:2-8 is not modelled.
- Mask: reading and writing picture files, timing, the comparison in `main`; loops write through a method for one pixel.
- lab1, lab4, lab7, the other programs of lab2 and lab3, and lab8/traffic.c: unfinished code, file and mount input and
  output, or nothing hard to prove.

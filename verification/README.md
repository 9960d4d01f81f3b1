# A verified model of the kernix kernel

This project models the core of the kernix kernel (a 32-bit x86 hobby kernel in
C++) in Dafny and proves what that code promises: the heap allocator with its
in-band headers and its growth through two-level page tables, the round-robin
scheduler, the scrolling text screen with the shell's line editor, the keyboard
driver, and the exact integer parts of the calculator.

`dafny verify dfyconfig.toml` checks the whole project.

## How the model is laid out

| Module | What it models |
|---|---|
| `Word32` | bytes, little-endian words, the wrapping `align_up` |
| `Paging` | the page directory, the pool of 32 page tables, `map_page`, `unmap_page`, `paging_init` |
| `HeapSpec` | the heap as a value: the list of blocks, and each operation as a function on it |
| `HeapLaws` | what the operations do to the list: invariant, null or granted, freed, resized |
| `HeapCoalescing` | splitting and coalescing undo each other; which operations keep free blocks apart |
| `HeapRoom` | when a request finds room: null answers, growth and moves in terms of addresses |
| `HeapConservation` | the three counters: they balance, and each is the size of a set of blocks |
| `HeapLimits` | when the heap ends where the mapping ends |
| `HeapWrap` | the allocator on every 32-bit size: where its sums wrap, and exactly when it still serves |
| `HeapMemory` | one byte array with the headers inside it, and the stores that rewrite headers |
| `HeapPayloads` | what header stores do to the bytes of live payloads |
| `Heap` | the allocator itself, a class over the byte array and the page tables |
| `HeapRuns` | whole runs of requests on the block list |
| `HeapContents` | the map from live pointers to known bytes that the memory refines |
| `HeapService` | whole runs on the memory: the dispatcher's requests, and the clients' stores between them |
| `Scheduling`, `Tasking` | the tick as a state machine; the task table and the stacks in the heap |
| `TextTape`, `VgaBuffer` | the screen as a window on an unbounded tape; the cell buffer and the cursor |
| `LineEditing`, `Shell` | the edited text and its echo; the shell loop over keys, input buffer and screen |
| `KeyRing`, `Keyboard` | the ring under every interleaving; scan codes, key maps and the driver |
| `Calc`, `CalcText` | checked multiplication and tetration; the parser and the printer |

Where the source updates state in place, so does the model: the heap's headers
live in a byte array and are read and written word by word, the lists are walked
through the `next` words, the page tables, the screen, the ring and the task table
are arrays, and each method is proved against a function on the abstract value
(`View()`). The theorems about runs are then proved about those functions.

## How the heap is modelled

- Memory is one byte array indexed by virtual address up to the heap limit of 64
  megabytes. That is justified inside the model: `Heap.Heap.HeapIsIdentityMapped`
  proves that the page walk is the identity on everything the heap uses.
- A header is five words (20 bytes) in a 24-byte slot. `prev` and `next` are
  addresses, 0 for null.
- `Valid()` ties the headers to a ghost list of blocks: the blocks lie end to end
  from the heap's start, `prev` and `next` are inverse, sizes are positive multiples
  of 8, and the last block ends at the end of the mapped range unless the limit has
  been reached by a growth that stopped half-way.
- The class `Heap` takes sizes up to `MAX_REQUEST` = 0xFFFFEFE8, on which no sum of the
  source wraps. `HeapWrap` has the allocator on the block list for every 32-bit size,
  with the wrapping sums; `HeapWrap.StepAgrees` says that up to `MAX_REQUEST` the two
  are the same.
- A caller of `kfree`, `ksize` and `krealloc` may pass any pointer that is live or
  that the allocator does not take for a live block (`Passable`); among those are
  null, pointers outside the heap, and stale pointers. That pointers once freed stay
  among them is a theorem (`Heap.Heap.StaleStays`, `HeapService.ServeRun`), not an
  assumption.
- The page tables are arrays of their own, while in the kernel they lie in its static
  memory below the heap. That is justified inside the model too: every operation, and
  every run, leaves the bytes outside the heap alone (`Heap.Heap.OutsideKept`, which
  the contracts of `Heap`, `HeapService` and `Tasking` carry).

## What turned out not to hold

- "No two free blocks are neighbours" is not kept by the shrinking path of
  `krealloc`, which splits without coalescing. `HeapCoalescing.ReallocCoalesced` and
  `HeapRuns.StepCoalesced` say exactly when it is kept; `HeapRuns.GapStays` is a run of
  three requests after which nothing is live and the heap is still cut in two.
- "`kfree(kmalloc(n))` restores the heap" holds exactly when the request was served
  without growth from a block that has no free block before it, and none behind it
  unless a remainder was split off in between (`HeapCoalescing.FreeRestores`, for every
  heap). In a heap without adjacent free blocks that means: exactly when no growth was
  needed, and otherwise the result is the grown heap
  (`HeapCoalescing.FreeUndoesAlloc`). Two failing inputs:
  `HeapCoalescing.GrowthIsNotUndone` is a request of 4 megabytes to a fresh heap after
  whose `kfree` the heap is longer than before; `HeapRuns.GapIsNotRestored` is one of 8
  bytes, served without growth from a gap that a shrinking `krealloc` left, after whose
  `kfree` the gap has melted into the block behind it.
- "The heap ends where the mapping ends" fails after a growth that stopped at the
  limit. `HeapLimits.AllocEnds`, `HeapLimits.StepEnds` and `HeapLimits.RunEnds` say
  exactly when it holds: it did before, and no allocation found every block too small,
  its pages past the limit, and pages left to map before it.
  `HeapLimits.HalfwayAtTheLimit` is a request of 64 megabytes that parts the two.
- "`kmalloc` answers null or a block with the bytes asked for, and keeps the heap
  intact" fails near 4 gigabytes, where the sums wrap. `HeapWrap.AllocServes`,
  `HeapWrap.ReallocServes` and `HeapWrap.RunServes` (whole runs) say exactly when it
  holds, for every 32-bit size: a size above 0xFFFFFFF8, which rounds to 0, must meet a
  heap without a free block and without a page left to map; a size from 0xFFFFEFE9 to
  0xFFFFFFE8 must meet a heap whose last block is free; a live block must not be resized
  to more than 0xFFFFFFF8. Two failing inputs: `HeapWrap.GrantOfNothing` (0xFFFFFFFF
  on a fresh heap yields fewer than 32 bytes) and `HeapWrap.GrantOutOfNothing`
  (0xFFFFF000 behind a live last block yields a block for which no page was mapped, and
  a free block inside the live one). `HeapWrap.InitServes` says the same of
  `kmalloc_init`: intact exactly when the kernel ends above 0 and 40 bytes below 4
  gigabytes.
- The repository's own README.md says that there is no scheduler (line 122); the code
  has one, and the model follows the code. Nothing in the repository starts it, though:
  until someone does, `Scheduling.TicksBeforeStart` is what every tick does.
- "The calculator reads the number that is written" holds exactly when that number
  fits int32 (`CalcText.NumeralReadRight`, and for whole expressions
  `CalcText.ExpressionReadRight`); otherwise the number is read wrapped to 32 bits
  (`CalcText.AccumulatedWrapsOnce`). `CalcText.OverflowIsMisread`: 4294967297 is read
  as 1. Up to 2147483647 no step overflows (`CalcText.NoStepOverflows`).

## Model

| member | source | states |
|---|---|---|
| Word32.AlignUpExact | modules/memory/memory.cpp:37-40 | `align_up` is the least multiple not below the value if and only if the 32-bit sum does not wrap |
| Paging.PageTables.AllocPageTable | modules/memory/memory.cpp:52-71 | takes the first unused table and zeroes it; with the pool exhausted answers 0 and changes nothing |
| Paging.PageTables.GetPageTable | modules/memory/memory.cpp:73-80 | the table address under a directory entry, 0 exactly when the entry is not present |
| Paging.PageTables.GetOrCreatePageTable | modules/memory/memory.cpp:82-95 | no translation changes; distinct present entries still point to distinct used tables |
| Paging.PageTables.MapPage | modules/memory/memory.cpp:97-112 | the mapping changes at one page only, to the given frame and flags, or not at all when the pool is exhausted |
| Paging.PageTables.UnmapPage | modules/memory/memory.cpp:114-126 | removes one page from the mapping and keeps every other translation |
| Paging.PageTables.PagingInit | modules/memory/memory.cpp:279-304 | whatever the directory, the tables and the used flags held before, exactly the first four megabytes are mapped, to themselves, present, writable and open to user mode in both levels |
| Paging.PageTables.IdentityGrows | modules/memory/memory.cpp:249-257 | mapping the next page behind an identity-mapped range keeps it the identity and takes page tables in order |
| Paging.PageTables.WalkIsIdentity | modules/memory/memory.cpp:279-295 | the processor's walk through directory and table returns the address itself on an identity-mapped range |
| Paging.PageTables.FlagsGrow | modules/memory/memory.cpp:254-254 | behind a range whose flags are right, mapping the next page writable keeps them right in the directory and in the tables |
| Paging.PageTables.MappingGrows | modules/memory/memory.cpp:249-257 | one turn of the growth loop keeps the identity, the order of the tables and the flags |
| Paging.PageTables.AccessBelow | modules/memory/memory.cpp:254-295 | on the mapped range every page can be written, and user mode reaches exactly the first four megabytes |
| Heap.Heap.HeapIsIdentityMapped | modules/memory/memory.cpp:249-257 | in every valid heap the next physical page equals the mapped end, the walk is the identity below it, every address there can be written, user mode reaches only the first four megabytes, and 16 of the 32 tables are never used |
| Heap.Heap.LastBlock | modules/memory/memory.cpp:149-159 | the walk along `next` ends at the last block of the list |
| HeapSpec.FirstFit | modules/memory/memory.cpp:161-172 | the index found fits and nothing before it does; the length of the list if nothing fits |
| HeapSpec.GrowthBytes | modules/memory/memory.cpp:234-247 | growth is whole pages, at least what the tail lacks and less than one page more |
| Heap.Heap.FindFreeBlock | modules/memory/memory.cpp:161-172 | the walk finds the lowest-addressed free block that fits, or none |
| HeapMemory.Memory.SplitBlock | modules/memory/memory.cpp:174-194 | the headers afterwards describe the list with the block split (or unchanged if the rest is too small); no byte outside headers changes |
| HeapMemory.Memory.HeaderLayout | modules/memory/memory.cpp:18-26 | the words of a header lie in the order of the structure, behind the magic number, in a slot of 20 bytes rounded up to 24 |
| HeapMemory.Memory.CoalesceWithNext | modules/memory/memory.cpp:196-206 | the headers afterwards describe the list with the free successor absorbed; the absorbed header itself is left alone, and no stale header comes to life |
| Heap.Heap.BlockFromPtr | modules/memory/memory.cpp:208-222 | 0 only for pointers that are inert; otherwise the header address, whose free word decides whether the pointer is inert |
| Heap.Heap.MapPages | modules/memory/memory.cpp:249-257 | succeeds exactly when the pages stay below the limit; otherwise the mapped end stops at the limit; every page mapped goes to its own frame, present and writable and closed to user mode |
| Heap.Heap.ExtendHeapToFit | modules/memory/memory.cpp:224-277 | the heap valid at every exit, half-finished growth included, and exactly as `HeapSpec.Grow` says |
| HeapLaws.GrowKeeps | modules/memory/memory.cpp:224-277 | growth keeps the invariant on success and on failure; on success the tail fits the request, so the second search finds it |
| Heap.Heap.KmallocInit | modules/memory/memory.cpp:306-329 | one free block from the aligned end of the kernel to the end of the identity map, or no heap if that does not fit; no byte outside the heap changes |
| Heap.Heap.Kmalloc | modules/memory/memory.cpp:331-352 | new list and answer as `HeapSpec.Alloc` says; no live payload byte and no byte outside the heap changes; no stale pointer but the granted one comes to life |
| HeapLaws.AllocNull | modules/memory/memory.cpp:331-352 | null if and only if the size is 0, there is no heap, or no free block fits and the page-rounded growth would pass the limit; in the last case the mapping is at the limit afterwards, and nothing else ever changes |
| HeapRoom.AllocNullRoom | modules/memory/memory.cpp:331-352 | null if and only if the size is 0 or there is no room: no free block has the rounded size, and all the pages up to the limit, joined to a free last block, would not hold it |
| HeapRoom.AllocGrowsLeast | modules/memory/memory.cpp:231-257 | when no free block fits, the grant lies at the end of the heap and of the pages mapped for it the last one was needed |
| HeapLimits.AllocEnds | modules/memory/memory.cpp:249-276 | after `kmalloc` the heap ends where the mapping ends if and only if it did before and the growth did not stop half-way |
| HeapLimits.StepEnds | modules/memory/memory.cpp:331-441 | the same for every request, a moving `krealloc` included |
| HeapLimits.RunEnds | modules/memory/memory.cpp:331-441 | after any run the heap ends where the mapping ends if and only if it did before and no request stopped half-way |
| HeapWrap.StepAgrees | modules/memory/memory.cpp:331-441 | with the wrapping sums a request up to `MAX_REQUEST` has the effect and the answer of the list model |
| HeapWrap.AllocServes | modules/memory/memory.cpp:331-352 | for every 32-bit size: the heap stays intact and a pointer answered has the bytes asked for, if and only if no sum wraps (stated as a test on the size, the last block and the free blocks) |
| HeapWrap.ReallocServes | modules/memory/memory.cpp:397-441 | the same for `krealloc`, where a live block asked for more than 0xFFFFFFF8 bytes is cut to nothing |
| HeapWrap.StepServes | modules/memory/memory.cpp:331-441 | the same for every request of 32-bit arguments |
| HeapWrap.RunServes | modules/memory/memory.cpp:331-441 | a run of requests with any 32-bit sizes is served throughout if and only if none of them makes a sum wrap |
| HeapWrap.InitServes | modules/memory/memory.cpp:306-329 | `kmalloc_init` yields an intact heap if and only if the kernel ends above 0 and at least 40 bytes below 4 gigabytes |
| HeapWrap.GrantOfNothing | modules/memory/memory.cpp:336-337 | 0xFFFFFFFF bytes from a fresh heap are answered with a live block of less than 32 |
| HeapWrap.GrantOutOfNothing | modules/memory/memory.cpp:246-273 | 0xFFFFF000 bytes behind a live last block are answered without a page mapped, and the rest of the made-up block lies inside the live one |
| HeapLimits.HalfwayAtTheLimit | modules/memory/memory.cpp:249-257 | a request of 64 megabytes to a fresh heap leaves its one block alone and the mapping at the limit |
| HeapLaws.AllocGrants | modules/memory/memory.cpp:331-352 | a grant adds exactly one live block, of at least the size asked for and with less than 32 bytes of slack, and keeps all others |
| HeapLaws.AllocFirstFit | modules/memory/memory.cpp:161-172 | if some free block fits, the grant is the lowest-addressed such block and the heap does not grow |
| HeapLaws.AllocFresh | modules/memory/memory.cpp:331-352 | the pointer granted is none that is live |
| HeapLaws.TakeKeeps | modules/memory/memory.cpp:174-194 | carving a request out of a free block keeps the tiling and exchanges only that block |
| HeapLaws.SplitExchanges | modules/memory/memory.cpp:174-194 | a split keeps the tiling, the range and every other live block |
| HeapLaws.MergeExchanges | modules/memory/memory.cpp:196-206 | absorbing a free successor keeps the tiling, the range and every other live block |
| HeapLaws.ReleaseKeeps | modules/memory/memory.cpp:354-365 | giving a block back keeps the tiling and its range and removes exactly that block from the live ones |
| Heap.Heap.Kfree | modules/memory/memory.cpp:354-365 | new list as `HeapSpec.Free` says; no live payload byte and no byte outside the heap changes; a pointer that is not live changes no byte at all; the pointer is inert afterwards; nothing stale comes to life |
| HeapLaws.FreeReleases | modules/memory/memory.cpp:354-365 | `kfree` keeps the invariant and the heap's range and takes exactly the named block out of the live ones |
| HeapLaws.FreeKeepsOthers | modules/memory/memory.cpp:354-365 | every other live pointer still names the same block |
| Heap.Heap.Ksize | modules/memory/memory.cpp:388-395 | the size of the block of a live pointer, 0 for every other |
| Heap.Heap.Kcalloc | modules/memory/memory.cpp:367-386 | refuses a product above 32 bits; otherwise an allocation whose requested bytes are all 0, with all other live payloads and everything outside the heap unchanged and no stale pointer but the granted one coming to life |
| HeapRoom.CallocNull | modules/memory/memory.cpp:367-386 | null if and only if the product is 0, does not fit 32 bits, or finds no room |
| Heap.Heap.Krealloc | modules/memory/memory.cpp:397-441 | new list and answer as `HeapSpec.Realloc` says; on every success the first min(old, new size) bytes are the old ones; all other live payloads and everything outside the heap are unchanged, and so is the old payload when the answer is null; unless it moves no stale pointer comes to life, and a move spares every one whose header lies clear of the new payload |
| HeapLaws.ReallocResizes | modules/memory/memory.cpp:397-441 | for a live pointer and a size above 0: either the live blocks change in exactly this one, which then has the size asked for and less than 32 bytes more, or the answer is null because there was no room and no block has changed |
| HeapLaws.ReallocInPlace | modules/memory/memory.cpp:412-428 | with room in the block itself or in the free block behind it the pointer stays the same, the heap keeps its range, and what is not needed beyond 31 bytes is given back |
| HeapRoom.ReallocStays | modules/memory/memory.cpp:412-428 | the pointer stays if and only if the rounded size ends by the end of the block or of the free block behind it |
| HeapRoom.ReallocMovesLast | modules/memory/memory.cpp:412-430 | in a heap without adjacent free blocks: the pointer stays if and only if no other live block and not the end of the heap is in the way |
| HeapRoom.ReallocNull | modules/memory/memory.cpp:397-432 | null if and only if the size is 0, the pointer is neither null nor live, or a block has to be found and there is no room |
| Heap.Heap.CopyPayload | modules/memory/memory.cpp:434-437 | the whole old payload is copied; no other payload, no byte outside the heap and no stale header clear of the copy is touched |
| HeapMemory.Memory.CopyBytes | modules/memory/memory.cpp:434-437 | the byte loop, which reads its bound from the header in every turn, copies exactly the payload and changes no other byte |
| HeapMemory.Memory.ZeroBytes | modules/memory/memory.cpp:381-383 | the loop clears exactly the bytes asked for |
| HeapPayloads.HeadersOnlyKeepOutside | modules/memory/memory.cpp:174-206 | a step that writes headers only changes nothing outside the heap |
| HeapPayloads.HeadersOnlyKeepPayloads | modules/memory/memory.cpp:174-206 | a step that writes headers only keeps every byte of every payload that is live before and after |
| Heap.Heap.PokePayload | modules/memory/memory.cpp:138-141 | a client's store inside its payload changes that byte only, keeps the heap valid, and revives no stale pointer whose header lies clear of it |
| HeapMemory.StampsReviveNone | modules/memory/memory.cpp:208-222 | stores into well-formed headers never turn a stale aligned address into something the pointer test takes for live, however the two overlap |
| HeapMemory.Memory.AllocRevivesNone | modules/memory/memory.cpp:331-352 | allocation brings no stale pointer to life but the one it grants |
| HeapMemory.Memory.ReleaseBlock | modules/memory/memory.cpp:360-364 | marking free and merging both ways leaves headers that describe the released list; nothing stale comes to life, although absorbed headers stay in memory |
| Heap.Heap.StaleIsInert | modules/memory/memory.cpp:208-222 | a stale pointer is exactly an aligned heap pointer that `kfree`, `ksize` and `krealloc` ignore, and none is live |
| Heap.Heap.StrayIsInert | modules/memory/memory.cpp:208-222 | null and pointers outside the payload range are ignored and never live |
| Heap.Heap.StaleStays | modules/memory/memory.cpp:208-222 | a stale pointer stays stale across every step that grants no block at its address |
| Heap.Heap.StaleStaysOutside | modules/memory/memory.cpp:434-439 | the same across the copy of a moving `krealloc`, for pointers whose headers lie clear of the new payload |
| HeapMemory.ZerosReviveNone | modules/memory/memory.cpp:381-383 | clearing any part of a payload brings nothing stale to life |
| HeapService.Serve | modules/syscalls/syscalls.cpp:73-84 | each heap request of the dispatcher, also one that names a stale pointer, does one step of the block-list semantics; payloads and the bytes outside the heap are kept, and it says which pointers are stale for sure afterwards |
| HeapService.Poke | modules/memory/memory.cpp:138-141 | a client's store into a live payload changes one byte and no block, and leaves every stale pointer stale whose header lies clear of it |
| HeapContents.RequestHolds | modules/memory/memory.cpp:331-441 | the memory refines a map from live pointers to known bytes: every request takes the map to what the memory then holds (grants unknown, `kcalloc` zero, `krealloc` with the common prefix carried over, `kfree` removed, everything else as it was) |
| HeapContents.RequestRemembers | modules/memory/memory.cpp:331-441 | no request forgets: contents it does not name stay, the bytes of a `kcalloc` are known to be zero, a `krealloc` carries over what both blocks have room for and changes nothing when it answers null |
| HeapContents.StoreHolds | modules/memory/memory.cpp:138-141 | a client's store makes exactly that byte of the map known |
| HeapContents.SnapshotHolds | modules/memory/memory.cpp:138-141 | every heap can be entered into the map with every payload byte known |
| HeapService.UnnamedContents | modules/syscalls/syscalls.cpp:73-84 | over a run, what is known of a block that no request names becomes what was stored there last |
| HeapService.ServeRun | modules/syscalls/syscalls.cpp:73-84 | any run of requests and client stores, from any heap with any known contents and stale pointers, in which clients name only null, live pointers and pointers known to be stale: blocks and answers are those of the block-list semantics; the memory holds what the map of contents says, blocks granted or resized on the way included; every block no request names is still live and holds byte by byte what was stored there last; nothing outside the heap has changed; and the pointers given back and not granted again are still stale unless a store or the copy of a move touched the words under them |
| HeapRuns.RunKeepsInv | modules/memory/memory.cpp:331-441 | every heap reachable by any run of requests satisfies the invariant; the heap's start stays and the mapping never shrinks |
| HeapRuns.RunNeverOverlaps | modules/memory/memory.cpp:331-441 | after any run a live block overlaps no other block, header or payload, and its payload is aligned and inside the mapped range |
| HeapRuns.RunKeepsHandles | modules/memory/memory.cpp:331-441 | over any run the live pointers are exactly those that the clients' own bookkeeping says they hold |
| HeapRuns.StepKeepsHandles | modules/memory/memory.cpp:331-441 | one request changes the live pointers exactly as its answer tells the client, and grants none twice |
| HeapRuns.RunKeepsUnnamed | modules/memory/memory.cpp:331-441 | a block that no request of a run names stays live with its address and size |
| HeapRuns.RunConserves | modules/memory/memory.cpp:443-502 | after any run used + remaining == total, total and 24 bytes per block fill the heap exactly, and no sum reaches 32 bits |
| HeapConservation.Conservation | modules/memory/memory.cpp:443-502 | for any list used + remaining == total, and for a tiled one the payloads and headers add up to its range |
| HeapMemory.Memory.SumSizes | modules/memory/memory.cpp:448-459 | the counter loops compute the sum over the list, without wrap-around |
| Heap.Heap.KmallocTotal | modules/memory/memory.cpp:443-460 | the payload bytes of all blocks |
| Heap.Heap.KmallocRemaining | modules/memory/memory.cpp:462-481 | the payload bytes of the free blocks |
| Heap.Heap.KmallocUsed | modules/memory/memory.cpp:483-502 | the payload bytes of the live blocks |
| HeapConservation.CountersMean | modules/memory/memory.cpp:462-502 | the used bytes are the size of the set of live blocks, the remaining ones that of the set of free blocks |
| HeapConservation.NothingUsed | modules/memory/memory.cpp:462-502 | nothing is used if and only if nothing is live; nothing remains if and only if nothing is free |
| HeapConservation.AllocUses | modules/memory/memory.cpp:331-352 | `kmalloc` raises the used bytes by exactly the size of the block it grants |
| HeapConservation.FreeUses | modules/memory/memory.cpp:354-365 | `kfree` lowers them by exactly the size of the named block, and by nothing if none is live there |
| HeapConservation.ResizeUses | modules/memory/memory.cpp:397-441 | `krealloc` changes them by the difference of the two blocks |
| HeapRuns.StepUses | modules/memory/memory.cpp:331-441 | the same balance for every request |
| HeapRuns.RunUses | modules/memory/memory.cpp:331-441 | over any run the used bytes are those before, plus all that was granted, less all that was taken away |
| HeapCoalescing.ReleaseUndoesTake | modules/memory/memory.cpp:174-206 | releasing what was just carved out restores the list if and only if no free neighbour was there to be merged |
| HeapCoalescing.FreeRestores | modules/memory/memory.cpp:331-365 | in any heap `kfree(kmalloc(n))` gives back the heap from which the request was served if and only if the serving block has no free neighbour left to be merged, and the original heap if and only if, besides, no growth was needed |
| HeapCoalescing.FreeUndoesAlloc | modules/memory/memory.cpp:331-365 | the same in a heap without adjacent free blocks: it always gives back the serving heap, and the original one if and only if no growth was needed |
| HeapRuns.GapIsNotRestored | modules/memory/memory.cpp:354-365 | a heap with a gap left by a shrinking `krealloc`, in which 8 bytes are served without growth and their `kfree` merges more than was split |
| HeapCoalescing.GrowthIsNotUndone | modules/memory/memory.cpp:331-365 | a request of 4 megabytes to a fresh heap: `kfree` leaves one free block, longer than before by the pages that were mapped |
| HeapCoalescing.FreeCoalesced | modules/memory/memory.cpp:354-365 | `kfree` keeps free blocks apart |
| HeapCoalescing.AllocCoalesced | modules/memory/memory.cpp:331-352 | `kmalloc`, with or without growth, keeps free blocks apart |
| HeapCoalescing.ReallocCoalesced | modules/memory/memory.cpp:397-441 | `krealloc` keeps free blocks apart if and only if it does not split a remainder off in front of a free block |
| HeapRuns.StepCoalesced | modules/memory/memory.cpp:331-441 | a request keeps free blocks apart if and only if it is not such a `krealloc` |
| HeapRuns.RunCoalesced | modules/memory/memory.cpp:331-441 | over any run without such a `krealloc` no two free blocks are neighbours |
| HeapRuns.RunEndsInOneBlock | modules/memory/memory.cpp:354-365 | after such a run that has freed everything the heap is one free block that spans it |
| HeapRuns.GapStays | modules/memory/memory.cpp:412-417 | a run with such a `krealloc` after which nothing is live and two free blocks stay apart |
| Scheduling.SearchIsCyclic | modules/tasking/tasking.cpp:101-110 | the search finds the nearest active task behind the current one in cyclic order, or there is none |
| Scheduling.TicksBeforeStart | modules/tasking/tasking.cpp:90-91 | before `tasking_start`, or without a task, every tick of any run answers the stack pointer it was given and changes nothing |
| Scheduling.NextTurn | modules/tasking/tasking.cpp:99-112 | once rotating, a tick goes to the nearest active task in cyclic order, whichever tasks are active; if none is, the interrupted one goes on |
| Scheduling.ResumedWhereInterrupted | modules/tasking/tasking.cpp:99-112 | whichever tasks are active: a task interrupted by tick j is resumed, at its next turn, with exactly the stack pointer of tick j |
| Scheduling.StartedWhereCreated | modules/tasking/tasking.cpp:99-112 | a task that has not run yet starts with the stack pointer it was created with |
| Scheduling.RoundRobin | modules/tasking/tasking.cpp:78-113 | tick k runs task k mod n, which resumes with exactly the stack pointer it last gave up (its initial one in the first round) |
| Scheduling.EveryTaskOnce | modules/tasking/tasking.cpp:88-113 | among any n consecutive ticks every task runs exactly once |
| Tasking.TaskTable.RunTicks | modules/tasking/tasking.cpp:88-113 | a run of ticks on a table just started: tick k answers the initial stack pointer of task k in the first round, and then the one that task gave up last; the last tick leaves the right task current |
| Tasking.TaskTable.RunTicksBeforeStart | modules/tasking/tasking.cpp:88-91 | a run of ticks on a table that has not been started, or is empty: every tick goes back to where it came from, and no slot changes |
| Tasking.TaskTable.TaskingInit | modules/tasking/tasking.cpp:20-35 | an empty table whose slots carry their own numbers |
| Tasking.TaskTable.TaskCreate | modules/tasking/tasking.cpp:37-76 | on success one more task, with a fresh heap block as stack and the initial frame inside it; a size that rounds to 0 is refused; every other task, stack and live payload and everything outside the heap is unchanged; all tasks stay active, and every task created so far keeps its own initial frame in its stack; the failures change no task |
| Tasking.FramesKept | modules/tasking/tasking.cpp:42-73 | an allocation leaves the initial frame of every task created so far intact in its stack |
| Tasking.TaskTable.StacksStay | modules/tasking/tasking.cpp:42-50 | an allocation leaves every task's stack live and large enough and grants none of them again |
| Tasking.StacksApart | modules/tasking/tasking.cpp:42-56 | the stacks of two tasks never overlap |
| Tasking.StackBytes | modules/tasking/tasking.cpp:42 | for every 32-bit size a multiple of 16: at least 1024, at least what was asked for, and beyond 1024 less than 16 more; above 0xFFFFFFF0 it wraps to 0 |
| Tasking.InitialEsp | modules/tasking/tasking.cpp:53-73 | the initial frame lies inside the stack, its top at the highest multiple of 16 |
| Tasking.BuildFrame | modules/tasking/tasking.cpp:56-73 | from the stack pointer upwards: eight zero words, the entry, the code segment, the flags; no other byte changes |
| Tasking.FirstTurnOf | modules/interrupts/interrupts_entry.asm:44-52 | what `popad` and `iretd` load from an initial frame: clean registers, the entry, the kernel code segment, interrupts enabled |
| Tasking.TaskTable.TaskingStart | modules/tasking/tasking.cpp:78-86 | starts at task 0 with the bootstrap switch pending, unless there is no task; a table of active tasks then satisfies the premise of the round-robin theorem, and all initial frames are still in place |
| Tasking.TaskTable.TaskingSchedule | modules/tasking/tasking.cpp:88-113 | one tick of the state machine; of the tasks only the saved stack pointer of the interrupted one changes; before the start the answer is the argument and no slot changes |
| Tasking.TaskTable.NextActive | modules/tasking/tasking.cpp:101-110 | the search loop computes the cyclic search |
| TextTape.PutRefines | modules/vga_buffer/vga_buffer.cpp:111-148 | printing one character on the screen is printing it on the tape: the 2000 cells stay the window of the tape, the cursor its end, and the base row moves by at most one |
| TextTape.RunRefines | modules/vga_buffer/vga_buffer.cpp:111-154 | over any characters, newlines and backspaces the screen is the window of the tape, whose base row never moves back |
| TextTape.ScrollMovesBase | modules/vga_buffer/vga_buffer.cpp:26-46 | scrolling is exactly moving the window down by one row |
| TextTape.BlankBehindCursor | modules/vga_buffer/vga_buffer.cpp:111-148 | every cell from the cursor on is blank |
| TextTape.ClearedShowsEmpty | modules/vga_buffer/vga_buffer.cpp:156-168 | after `clear` the screen is the window of the empty tape |
| VgaBuffer.VGABuffer.ScrollUp | modules/vga_buffer/vga_buffer.cpp:26-46 | the nested loops move every row up and blank the last one |
| VgaBuffer.VGABuffer.AdvanceCursor | modules/vga_buffer/vga_buffer.cpp:48-58 | the cursor goes to the next row, scrolling on the last one; it stays on the screen |
| VgaBuffer.VGABuffer.Putchar | modules/vga_buffer/vga_buffer.cpp:111-148 | the byte stores and cursor updates do what `PutView` says on the abstract screen |
| VgaBuffer.VGABuffer.Print | modules/vga_buffer/vga_buffer.cpp:150-154 | prints all characters in order |
| VgaBuffer.VGABuffer.Clear | modules/vga_buffer/vga_buffer.cpp:156-168 | 2000 blanks and the cursor in the first cell |
| VgaBuffer.VGABuffer.BytesShow | modules/vga_buffer/vga_buffer.cpp:111-148 | a cell is its character byte followed by its colour byte |
| LineEditing.EraseAgrees | kernel.cpp:107-117 | backspace, space, backspace takes exactly the last character off the tape and leaves the base row where it is, across wraps and scrolls |
| LineEditing.EditingAgrees | kernel.cpp:92-123 | whatever the keys between newlines, the tape behind the prompt is exactly the edited text |
| LineEditing.TypingAppends | kernel.cpp:119-123 | printable keys append, up to 1023 characters; the rest is dropped |
| LineEditing.OneKey | kernel.cpp:107-123 | one key: 8 drops the last character, a byte from 32 to 126 is taken while fewer than 1023 are there, every other key is ignored |
| LineEditing.TextIsPrintable | kernel.cpp:92-123 | whatever the keys, the text holds only bytes from 32 to 126, at most 1023 of them |
| LineEditing.TypedIsEntered | kernel.cpp:119-123 | every text of up to 1023 such bytes is entered by typing it |
| LineEditing.BackspaceUndoes | kernel.cpp:107-123 | a character that fits, followed by a backspace, leaves no trace |
| Shell.LineEditor.HandleKey | kernel.cpp:107-123 | one key edits the input buffer and prints its echo |
| Shell.LineEditor.HandleKeys | kernel.cpp:92-124 | the loop over keys: the buffer holds the stack-style edit, the screen has received its echo |
| Shell.LineEditor.Reply | modules/shell/shell.cpp:63-70 | a command's output, text or clearing the screen, reaches the screen in order |
| Shell.ClearForgets | modules/shell/shell.cpp:63-66 | whatever was on the screen and printed before, behind a clear the text stands on a blank screen from the first cell on |
| Shell.LineEditor.Enter | kernel.cpp:97-105 | the line handed over is the edited text, closed by a zero byte inside the buffer; the command may print and clear; the next line starts empty behind the prompt |
| Shell.LineEditor.HandleLine | kernel.cpp:92-124 | one line: what is handed over is the edit of the keys, and the screen has received echo, newline, reply and prompt |
| Shell.LineEditor.Session | kernel.cpp:87-124 | any number of lines: every command gets exactly the edited text of its line |
| Shell.SessionRefines | kernel.cpp:87-124 | over any session, with commands that print or clear, the screen stays the window of the session's tape |
| Shell.SessionAgrees | kernel.cpp:87-124 | after any session and any keys since the last newline the screen shows the session's tape followed by exactly the edited text |
| Shell.ScreenAgrees | kernel.cpp:87-124 | for any keys between two newlines the screen is a window of the tape at the prompt followed by exactly the edited text |
| KeyRing.FullAt255 | modules/keyboard/keyboard.cpp:135-137 | the ring counts as full exactly with 255 characters waiting, and never holds more |
| KeyRing.PushAppends | modules/keyboard/keyboard.cpp:133-141 | a push appends to the queue or, when full, drops the character; no unread slot is overwritten |
| KeyRing.ConsumeTakes | modules/keyboard/keyboard.cpp:143-148 | a consumer step hands out the oldest character or nothing |
| KeyRing.ThreeStepsPop | modules/keyboard/keyboard.cpp:192-203 | check, read and advance without interruption take exactly the oldest character |
| KeyRing.NothingLostOrReordered | modules/keyboard/keyboard.cpp:133-203 | under every interleaving of pushes with the consumer's steps, what was popped followed by what waits is what was accepted, in order |
| KeyRing.NothingLostFromInit | modules/keyboard/keyboard.cpp:133-203 | the same from `keyboard_init` on, whatever the slots held; a run with fewer than 256 typed characters drops none |
| Keyboard.DecodingIgnoresExtended | modules/keyboard/keyboard.cpp:158-190 | over any stream of scan codes the driver types what the ordinary codes type under the shift state of the last shift code; an 0xE0 and the code behind it leave no trace |
| Keyboard.KeyTypes | modules/keyboard/keyboard.cpp:11-131 | each printable character, escape, backspace, tab and newline is typed by the key of a US keyboard it is printed on, with shift exactly where it is needed |
| Keyboard.OtherKeys | modules/keyboard/keyboard.cpp:11-131 | what the remaining keys type, and that modifiers and codes from 58 on type nothing |
| Keyboard.LettersAndShift | modules/keyboard/keyboard.cpp:187-189 | each letter's key types it in lower case without shift and in upper case with shift held |
| Keyboard.NoCapitalsWithoutShift | modules/keyboard/keyboard.cpp:158-190 | a stream of scan codes without a press of shift types no capital |
| Keyboard.TypingIsDecoded | modules/keyboard/keyboard.cpp:158-190 | the driver undoes the typist: pressing and releasing the keys of any text, with shift around those that need it, is decoded to that text |
| Keyboard.TypingIsTyped | modules/keyboard/keyboard.cpp:158-190 | the same in the terms of the ring theorems: what the ring is given is the text |
| Keyboard.CodesReachReader | modules/keyboard/keyboard.cpp:133-203 | from `keyboard_init` on, with scan codes arriving between any two steps of the reader: what was read followed by what waits is in order, and is exactly what the ordinary codes type as long as that is fewer than 256 characters |
| Keyboard.Driver.HandleScancodes | modules/keyboard/keyboard.cpp:158-190 | over a stream of scan codes that nobody reads the ring keeps the first 255 characters of what was waiting and what the ordinary codes type |
| Keyboard.Driver.PushChar | modules/keyboard/keyboard.cpp:133-141 | the queue grows by the character unless 255 wait |
| Keyboard.Driver.PopChar | modules/keyboard/keyboard.cpp:143-148 | takes the oldest character off the queue |
| Keyboard.Driver.KeyboardInit | modules/keyboard/keyboard.cpp:150-156 | empty queue, no shift, no prefix |
| Keyboard.Driver.KeyboardHandleScancode | modules/keyboard/keyboard.cpp:158-190 | flags and queue change as the decoder says, of which the stream and typing theorems speak |
| Keyboard.Driver.KeyboardAvailable | modules/keyboard/keyboard.cpp:192-195 | true exactly when a character waits |
| Calc.CheckedMul | modules/calc/calc.cpp:136-169 | an answer if and only if the true product fits int32, and then the product |
| Calc.CutOffIsSound | modules/calc/calc.cpp:658-662 | with an exponent above 31 every base from 2 on leaves int32 |
| Calc.CalcTetration | modules/calc/calc.cpp:623-679 | for base and height from 0 on the exact tower (with 0^0 = 1) if and only if it fits int32; otherwise "grows too fast" exactly if a lower tower lies above 31 within int32, and overflow if not; the two error messages for negative arguments |
| CalcText.AccumulatedWrapsOnce | modules/calc/calc.cpp:35-40 | the digit loop computes the number the digits denote, wrapped once to 32 bits |
| CalcText.NoStepOverflows | modules/calc/calc.cpp:35-40 | for numbers up to 2147483647 no step of the digit loop overflows |
| CalcText.NumeralReadRight | modules/calc/calc.cpp:17-44 | a numeral is read as the number it spells if and only if that number fits int32 |
| CalcText.ExpressionReadRight | modules/calc/calc.cpp:46-67 | an expression is read as it is written if and only if both operands fit int32 |
| CalcText.TextIsReadWrapped | modules/calc/calc.cpp:35-42 | the decimal text of any natural number is read as that number wrapped to 32 bits |
| CalcText.OverflowIsMisread | modules/calc/calc.cpp:35-42 | 4294967297 times 7 is read as 1 times 7 |
| CalcText.ReadsExactlyTheGrammar | modules/calc/calc.cpp:17-67 | the reader accepts a text if and only if it spells numeral, operator, numeral with optional signs and spacing |
| CalcText.OperatorsAre | modules/calc/calc.cpp:55-59 | between two numerals exactly `+`, `-`, `*` and `/` are taken for an operator |
| CalcText.SpacesAre | modules/calc/calc.cpp:6-15 | in front of an expression exactly blank, tab, newline and carriage return are skipped |
| CalcText.GrammarIsRead | modules/calc/calc.cpp:46-67 | every sentence of that grammar is read as the operands and the operator it denotes |
| CalcText.ParserUndoesPrinter | modules/calc/calc.cpp:17-99 | for all int32 operands, any operator and any spacing, reading the printed text gives back the operands and the operator |
| CalcText.DecimalDenotes | modules/calc/calc.cpp:69-99 | the printed digits denote the number |
| CalcText.DecimalLength | modules/calc/calc.cpp:88-95 | a number below 10^k has at most k digits, so the buffer of eleven is never overrun |
| CalcText.CanonicalIsDecimal | modules/calc/calc.cpp:69-99 | there is exactly one numeral without sign or leading zero for each number, the printed one |
| CalcText.PrintedTextIs | modules/calc/calc.cpp:69-99 | the printed text is exactly that numeral, behind a minus if and only if the value is negative |
| CalcText.SkipSpaces | modules/calc/calc.cpp:11-15 | the cursor moves over exactly the longest run of spaces |
| CalcText.ParseIntToken | modules/calc/calc.cpp:17-44 | value and cursor are those of the reading function; failure exactly when it fails |
| CalcText.ParseExpression | modules/calc/calc.cpp:46-67 | operands and operator are those of the reading function; a null text and everything outside the grammar is an error |
| CalcText.FillDigits | modules/calc/calc.cpp:88-95 | the digit buffer, read backwards, is the decimal text, and no index reaches eleven |
| CalcText.PrintInt32 | modules/calc/calc.cpp:69-99 | prints the decimal text of any int32, INT32_MIN included |

## Left out

- Hardware: `invlpg`, CR0 and CR3, port input and output, `hlt`, `lgdt`, `ltr`, `iret`, the interrupt controller and the timer. The page walk is modelled as a function of the directory and the tables.
- Tables are reached through the identity map: a table's physical address is used as its index in the pool, as the kernel does by casting it to a pointer.
- Page-table entries are `frame * 4096 + flags` instead of a bitwise or; the bits are disjoint (`Paging.EntryFields`).
- Heap.Heap.Kmalloc: sizes above 0xFFFFEFE8, where the rounding sums wrap, are modelled on the block list only (`HeapWrap`), not in memory: there the wrapped sums would store a header past the mapped pages. The same holds for `kcalloc`, `krealloc` and the requests of a run.
- Heap.Heap.ExtendHeapToFit: sizes above 0xFFFFEFE8, as for `kmalloc`.
- Heap.Heap.Kcalloc: products from 0xFFFFEFE9 to 0xFFFFFFFF, as for `kmalloc`.
- Heap.Heap.Kfree: pointers the allocator never granted whose memory looks like the header of a live block (forged pointers).
- Heap.Heap.Ksize: forged pointers, as for `kfree`.
- Heap.Heap.Krealloc: forged pointers, as for `kfree`, and sizes above 0xFFFFEFE8.
- HeapService.Serve: forged pointers, as for `kfree`.
- Clients that write outside their payload.
- HeapService.ServeRun: after a store, or the copy of a `krealloc` that moved, a stale pointer whose header words were overwritten is no longer known to be stale, because a client's bytes may look like the header of a live block; runs that name such a pointer are not covered.
- Heap.Heap.KmallocInit: the end of the kernel is above address 0 and at least 40 bytes below 4 gigabytes, so that the sum of the first test does not wrap; `HeapWrap.InitServes` shows that it is intact exactly then.
- Tasking.TaskTable.TaskCreate: stack sizes from 0xFFFFEFE1 to 0xFFFFFFF0, as for `kmalloc`; and the stacks of earlier tasks are still live, that is, nobody else frees them; the kernel never does.
- Preemption inside the allocator: there is no locking in the source to reason about.
- HeapMemory.Memory.SumSizes: the three counter loops differ only in which blocks they count and are one loop with two flags here.
- Bodies with several loops or exits are cut into helper methods (`Lacking`, `GrowBy`, `Carve`, `GiveBack`, `ParseDigits`, `EmitDigits` and so on); branch conditions and the order of the stores follow the source.
- Shell.LineEditor.Enter: what a command prints, and whether it clears the screen, is a parameter `reply`; which command prints what is not modelled.
- The blocking wait of `keyboard_getchar` (a `hlt` loop); the ring's check, read and advance steps are.
- Cursor blinking and the cursor position sent to the display controller.
- Segment and interrupt descriptor tables, banner and help texts, `enter_ring3` and the user-mode program.
- Fixed-point trigonometry, roots, powers, factorials and Fibonacci numbers of the calculator.
- CalcText.ParserUndoesPrinter: for INT32_MIN the reader passes through 2147483648; the statement takes signed overflow to wrap, which the C++ language leaves undefined. So do the statements about numbers above 2147483647.
- CalcText.PrintInt32: characters go to a returned string instead of to the screen.

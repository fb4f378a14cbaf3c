# Verified memory management of ion-os

A Dafny model of the kernel's memory management and of the byte streams of its driver sockets,
with proofs that its in-memory structures stay consistent over every run.

**The heap.** `mpool` and `mman` are boundary-tag allocators. Memory is one array of 8-byte words,
a pointer is a word index and 0 is NULL. In front of and behind every block stands a tag word,
`8 * words + flags`; two fence words close an area. Free blocks are chained through their first two
payload words into eight size classes and one large list; `heads[8]` is that large list. On top of
the words stands an abstract heap - areas, blocks by address, nine sequences of nodes - and
`Rep(words, heads, heap)` says that the words represent it. The methods of `Blocks`, `FreeLists`,
`Carving`, `MemoryPool` and `MultiAreaManager` work on the words in place, as the source does, and
each is proved to represent the heap a plain function computes (`Heaps`, `Ops`, `ManagerHeaps`). The
theorems about the allocators are lemmas about those functions and about runs of them (`Invariants`,
`Orders`, `Runs`, `ManagerRuns`, `Encoding`); `Orders` determines the free lists node by node. `Undisturbed` and `UsersSame` say that no payload word of
another live block has changed.

**Frames and pages.** `Bitmaps` is the byte-at-a-time bitmap, `Frames` the frame allocator over it.
`PageMapping.PageTable` is the four-level page table: physical memory is an array of words,
`phys_to_virt` followed by a load or store is an access at the physical address, and the ghost map
`at` says which frame holds which table. `Paging` proves what the masks and flags of an entry do to
an address, `PageTrees` that the tables are a tree.

**Slots and streams.** `SizedPools` is the pool of equal slots, `DriverSockets` the two byte streams
of a connected pair over `Klibc.Memcpy` and `Klibc.Memmove`.

Conventions that matter when reading the contracts:

- A plain allocation and one aligned below 16 bytes (also alignment 0) are one case of the search,
  with an alignment gap of 0.
- The kernel sets no growth callback for its heap, so `mpool` is modelled with `cb_reqmem == NULL`.
  For `mman`, `reply` is the address the callback answers with if it is called, 0 for NULL; a reply
  is aligned to its size and unused. `MAIN` stands for the address of `man->main`.
- The pool starts at a byte address that is a multiple of 16. Sums of addresses and alignments fit
  64 bits; `alloced_size` of the pool wraps like a `size_t`, the counters of the manager are
  unbounded.
- Requests go up to 2^64 - 16 bytes: above that `PADDING` wraps to 0 (`Ops.PaddedHolds`). Aligned
  requests stay below 2^63 bytes, because the aligned search compares signed numbers; from there up
  it answers with blocks that are too small (`Ops.MatchesExactly`, `Limits.HugeRequestMatches`).
  Areas are smaller than 2^63 bytes.
- An aligned allocation whose block is 16 bytes short of its aligned payload (`Ops.Separable` says
  that it is not) destroys the tag of the block it hands out. `MemoryPool.Pool.AlignedAlloc` and
  `MultiAreaManager.Manager.AlignedAlloc` cover both cases and tell them apart exactly;
  `Ops.AllocCorrect`, `ManagerHeaps.ManAllocCorrect` and the runs exclude this one.
- `fault` is a use of the null pointer: the copy that `mpool_realloc` makes when it has to move a
  block and no free block is large enough, and in `mman` the cut that follows a second search when
  the new area is too small, which happens for plain requests of 4032 bytes
  (`ManagerHeaps.FreshFits`). The runs exclude calls that fault.
- `mman` requests stay below 16 KiB.
- A failed `alloc_frames` is not noticed, and the page table then goes on in frame 0.
  `PageMapping.PageTable.Map` tells exactly when that happens; ranges need as many free frames as
  they take, which `Needed` counts exactly. Entries of the upper levels carry only low flag bits and no huge
  pages, physical addresses share no bit with the higher-half offset, and bit 63 of that offset is set.
- Frames, slots and live blocks are only released while they are out, and sends fit the buffer: the
  source checks neither.
- Each call is one atomic step, as the locks around them make it.

Where code and comments differ the code is followed. Blocks of exactly 16 KiB count as large,
although a comment speaks of larger ones; `alloced_size` is not brought up to date by a realloc in
place (`Runs.ResizeCounter`); `nalloced` of a slot pool is never changed; and `alloc_frames` passes
the arguments of its search in the wrong order (`Frames.FrameAllocator.AllocFrames`).

## Model

| member | source | states |
|---|---|---|
| Tags.TagBits | kernel/src/include/mm/alloc/block.hpp:10-71 | a tag word gives back the size and each flag that was put into it, and setting or clearing one flag leaves the size and the other flags alone |
| Tags.FlagMasks | kernel/src/include/mm/alloc/block.hpp:10-71 | the readers and setters of a tag are the bitwise operations of the source with the masks 1, 2, 4 and 7 |
| Tags.SizeToIdRange | kernel/src/include/mm/alloc/freelist.hpp:19-28 | the class of a size is between -1 and 7 and -1 exactly from 16384 bytes up; class 0 holds exactly the sizes below 64 bytes, class 1 those from 64 to 255, and from 256 bytes class k exactly the sizes in [64*2^k, 128*2^k) |
| Tags.ClassMonotone | kernel/src/include/mm/alloc/freelist.hpp:19-28 | a larger block is never on an earlier list |
| Heaps.SplitWF | kernel/src/include/mm/alloc/block.hpp:160-172 | cutting an unlisted block leaves blocks that tile every area and lists that hold exactly the free blocks |
| Heaps.JoinWF | kernel/src/include/mm/alloc/block.hpp:110-127 | making one block of an unlisted block and its successor leaves a tiled heap whose lists hold exactly the free blocks |
| Heaps.TakeWF | kernel/src/include/mm/alloc/freelist.hpp:37-69 | taking a listed block off its list leaves a well-formed heap in which that block alone is free and unlisted |
| Heaps.PutWF | kernel/src/mm/heap/pool.cpp:96-102 | marking an allocated block free and listing it under its class leaves a well-formed heap |
| Heaps.PrevUnique | kernel/src/include/mm/alloc/block.hpp:92-106 | a block has one predecessor in its area: the block whose successor it is |
| Reps.PutChain | kernel/src/include/mm/alloc/freelist.hpp:179-210 | the four writes of a put give the doubly linked chain of the list with the new node in front |
| Reps.DetachHead | kernel/src/include/mm/alloc/freelist.hpp:39-40 | moving the head on gives the chain of the rest of the list, although the new head keeps a stale prev word |
| Reps.DetachChain | kernel/src/include/mm/alloc/freelist.hpp:41-45 | unlinking a later node gives the chain of the list without it; exact prev words on the nodes other than the head are enough and are kept |
| Reps.EnlistRep | kernel/src/include/mm/alloc/freelist.hpp:179-210 | a put refines insertion at the front of one of nine lists and disturbs no tag, fence, other list or live payload |
| Reps.TakeRep | kernel/src/include/mm/alloc/freelist.hpp:37-69 | a detach refines removal from one of nine lists and disturbs no tag, fence, other list or live payload |
| Reps.PutTakeRep | kernel/src/mm/heap/mman.cpp:115-177 | listing a fresh block and matching it at once leaves the represented heap as it was |
| Blocks.NextWord | kernel/src/include/mm/alloc/block.hpp:22-31 | the word behind a block is the fence, recognised by AREA_FLAG, exactly for the last block, and otherwise carries the free flag of the successor |
| Blocks.PrevWord | kernel/src/include/mm/alloc/block.hpp:22-31 | the word before a block likewise is the fence exactly for the first block, and otherwise leads to the predecessor and tells whether it is free |
| Blocks.BlkNext | kernel/src/include/mm/alloc/block.hpp:100-106 | the next block of the area, or NULL exactly for the last |
| Blocks.BlkPrev | kernel/src/include/mm/alloc/block.hpp:92-98 | the previous block of the area, or NULL exactly for the first |
| Blocks.BlkSplit | kernel/src/include/mm/alloc/block.hpp:160-172 | the writes of a split represent the cut heap, keep the payload that stays in the first half and every other live payload |
| Encoding.HeapFromWords | kernel/src/include/mm/alloc/block.hpp:10-56 | two well-formed heaps with the same words, list heads and areas are the same: tags, tiling and lists can be read back from memory |
| Encoding.CutSixteen | kernel/src/mm/heap/pool.cpp:156-169 | when the chosen block is 16 bytes short of an aligned payload, the links of the empty front block overwrite the head tag of the block handed out; carried to the end of the call, nothing is cut off behind, 0 bytes are counted, and no well-formed heap with these words has the returned block |
| FreeLists.FreelistPut | kernel/src/include/mm/alloc/freelist.hpp:179-210 | the words represent the heap with the block at the front of the list, no other live payload touched |
| FreeLists.FreelistDetach | kernel/src/include/mm/alloc/freelist.hpp:37-69 | the words represent the heap with the block off its list, no live payload touched |
| FreeLists.Detach | kernel/src/mm/heap/pool.cpp:9-20 | the list found from the block's size is the one the block is on, so the block leaves its list |
| FreeLists.DoFree | kernel/src/mm/heap/pool.cpp:96-102 | the words represent the heap with the block marked free on the list of its class |
| FreeLists.FreelistMatch | kernel/src/include/mm/alloc/freelist.hpp:78-143 | the answer is the node at the first position of the list that passes the test of the search - unsigned for a plain request, signed for an aligned one - no earlier node passing it, and that node is taken off; it is NULL, and nothing changes, exactly when no node passes |
| FreeLists.FreelistsMatch | kernel/src/include/mm/alloc/freelist.hpp:99-169 | a block found is the first passing node of the earliest size class, from the request's own one up, that has one, and is taken off its list |
| FreeLists.Match | kernel/src/mm/heap/pool.cpp:119-147 | the answer is the first passing node of the earliest list, from the request's class up and the large list last, and NULL exactly if there is none |
| Ops.EarliestUnique | kernel/src/include/mm/alloc/freelist.hpp:78-169 | at most one block is the first passing node of the earliest list that has one, so the search order determines the answer |
| Ops.PaddedHolds | kernel/src/include/mm/alloc/block.hpp:16 | padding, with 16 bytes for size 0, gives the least even number of words, two or more, that holds the request, except in the last 15 sizes, where it wraps to 0 |
| Ops.PaddedMask | kernel/src/include/mm/alloc/block.hpp:16 | for every size but 0 padding is the 64-bit sum with 15 masked by the complement of 15 |
| Ops.MatchesExactly | kernel/src/include/mm/alloc/freelist.hpp:118-140 | the signed test of an aligned search tells, for blocks and gaps of every size, whether the block holds the request behind the gap exactly if the request is below 2^63 bytes |
| Limits.HugeRequestMatches | kernel/src/include/mm/alloc/freelist.hpp:135-140 | an aligned request of 2^63 bytes or more on a fresh pool is answered with its one block, which does not hold it, whenever request and gap stay within 2^64 bytes plus that block |
| Ops.SearchComplete | kernel/src/include/mm/alloc/freelist.hpp:78-169 | a plain search, and an aligned one below 2^63 bytes, from the request's class finds nothing exactly when no free block anywhere in the heap holds the request behind its alignment gap; what it finds is a listed free block that does |
| Ops.PadUpBounds | kernel/src/include/mm/alloc/freelist.hpp:116-117 | rounding up gives the least multiple that is not below the address |
| Ops.SkipAligns | kernel/src/mm/heap/pool.cpp:156 | behind the gap the address is a multiple of the alignment, and the gap is a whole number of 16-byte units below the alignment |
| Ops.CarveOutWF | kernel/src/mm/heap/pool.cpp:156-168 | cutting front and rest off the chosen block and handing the middle out keeps the heap well formed |
| Ops.CarveOutCarves | kernel/src/mm/heap/pool.cpp:104-168 | the chosen block becomes a free front, the allocated block and, from 64 bytes left over, a free rest, and nothing else changes |
| Ops.AllocCorrect | kernel/src/mm/heap/pool.cpp:115-170 | an allocation - aligned ones below 2^63 bytes - fails, changing nothing, exactly when no free block holds it; otherwise it makes exactly one new live block, aligned and less than 64 bytes larger than asked, and every other live block stays |
| Ops.MergeNextMerges | kernel/src/include/mm/alloc/block.hpp:119-127 | merging with a free successor covers both blocks, changes no other, and loses SIZE_FLAG exactly when it happens |
| Ops.TryMergeMerges | kernel/src/include/mm/alloc/block.hpp:136-151 | the block and its free neighbours, on either side, become one block with the SIZE_FLAG of the given one; nothing else changes |
| Ops.FreeMerges | kernel/src/mm/heap/pool.cpp:172-181 | after a free one free block covers the freed one and its free neighbours, and nothing else has changed |
| Ops.FreeCorrect | kernel/src/mm/heap/pool.cpp:172-181 | a free keeps the heap well formed and ends exactly one live block |
| Ops.TrimLive | kernel/src/mm/heap/pool.cpp:104-113 | cutting the rest off keeps the heap well formed, every other live block, and at least the requested size |
| Ops.ReallocCorrect | kernel/src/mm/heap/pool.cpp:192-221 | a realloc replaces one live block by one of at least the requested size and less than 64 bytes more and keeps the others; it stays in place exactly when the block or it and its free successor are large enough, and has no block to move to exactly when besides no free block is large enough |
| Orders.AllocPlaced | kernel/src/mm/heap/pool.cpp:115-170 | an allocation takes the first passing block of the earliest list, cuts it into front, block and rest of exact sizes, and puts front and then rest in front of the lists of their classes; no other list or block changes |
| Orders.FreedLists | kernel/src/mm/heap/pool.cpp:172-181 | a free takes the merged neighbours off their lists and puts the merged block in front of the list of its class; no other list changes |
| Orders.FreedFirst | kernel/src/mm/heap/pool.cpp:115-181 | last freed, first reused: a request of the class of the block just freed that it can hold is answered with that block |
| Orders.ReallocPlaced | kernel/src/mm/heap/pool.cpp:192-221 | in place the block gets exactly the requested words, or all if fewer than 8 are left over, and the rest goes in front of the list of its class; otherwise the answer is that of the search and the old block is freed |
| Carving.TrySplitAndFree | kernel/src/mm/heap/pool.cpp:104-113 | the words represent the trimmed heap and the payload that stays is kept |
| Carving.Carve | kernel/src/mm/heap/pool.cpp:156-169 | after the search the front is put back, the rest trimmed and the block marked allocated: the words represent exactly that heap, no live payload touched |
| Carving.BlkMergeNext | kernel/src/include/mm/alloc/block.hpp:119-127 | the successor leaves its list and the words represent the merged block |
| Carving.BlkMergePrev | kernel/src/include/mm/alloc/block.hpp:110-118 | the predecessor leaves its list and the words represent the merged block |
| Carving.BlkTryMerge | kernel/src/include/mm/alloc/block.hpp:136-151 | the reads of the neighbouring words decide both merges correctly, and the words represent the merged heap |
| Carving.Release | kernel/src/mm/heap/pool.cpp:172-181 | merge and list: the words represent the heap of FreeMerges, and no payload but the freed one is touched |
| Carving.CopyPayload | kernel/src/mm/heap/pool.cpp:218 | the copied payload words arrive and nothing outside the target payload changes |
| AllocAreas.FenceBits | kernel/src/include/mm/alloc/area.hpp:12-17 | a fence word carries AREA_FLAG, SIZE_FLAG exactly for 2 MiB, and gives back the descriptor pointer |
| AllocAreas.AllocareaInit | kernel/src/include/mm/alloc/area.hpp:9-31 | fences and tags of one free block that fills the area, and no word outside it is written |
| AllocAreas.AddAreaRep | kernel/src/include/mm/alloc/area.hpp:9-31 | a fresh area joins the heap without disturbing words, lists or live payloads of the others |
| MemoryPool.Pool.Init | kernel/src/mm/heap/pool.cpp:22-41 | succeeds exactly for a non-null pool of a positive multiple of 16 bytes; from 48 bytes up the pool is valid with one free block and counter 0, while a pool of 32 bytes is accepted and listed with its end fence overwritten |
| MemoryPool.Pool.Alloc | kernel/src/mm/heap/pool.cpp:115-135 | the block handed out is the first fitting one of the earliest list, the words represent the heap of AllocCorrect, the counter grows by the block's size, and no live payload changes |
| MemoryPool.Pool.AlignedAlloc | kernel/src/mm/heap/pool.cpp:137-170 | NULL without any change unless the alignment is 0 or a power of two; the pointer returned is a live block of some well-formed heap with these words exactly when the block found is not 16 bytes short of its aligned payload, and then the words represent the heap of AllocCorrect |
| Limits.SixteenReached | kernel/src/mm/heap/pool.cpp:156-162 | a fresh pool at a multiple of 32 is 16 bytes short for every 32-aligned request it can hold |
| MemoryPool.PowerTest | kernel/src/mm/heap/pool.cpp:139 | the bitwise test that rejects alignments lets exactly the powers of two and 0 pass, for every 64-bit alignment |
| MemoryPool.Pool.Free | kernel/src/mm/heap/pool.cpp:172-181 | NULL changes nothing; a live block is freed as in FreeMerges, its size leaves the counter, and no other live payload changes |
| MemoryPool.Pool.Realloc | kernel/src/mm/heap/pool.cpp:192-221 | on all three paths the first min(old, new) payload words are kept and no other live payload changes; the copy through NULL happens exactly when nothing fits; the counter is left alone in place |
| MemoryPool.Pool.ReallocIntoNext | kernel/src/mm/heap/pool.cpp:205-215 | grows in place exactly when the successor is free and both together hold the request, keeping the payload |
| MemoryPool.Pool.ReallocElsewhere | kernel/src/mm/heap/pool.cpp:217-220 | moves the payload into a new block and frees the old one, or changes nothing when no block is found |
| Invariants.AllocCoalesced | kernel/src/mm/heap/pool.cpp:115-170 | allocation never leaves two neighbouring free blocks |
| Invariants.FreeCoalesced | kernel/src/mm/heap/pool.cpp:172-181 | a free never leaves two neighbouring free blocks |
| Invariants.ReallocCoalesced | kernel/src/mm/heap/pool.cpp:192-221 | a realloc leaves no two neighbouring free blocks exactly when it does not shrink, by 64 bytes or more, a block with a free successor |
| Invariants.AllocFlagged | kernel/src/mm/heap/mman.cpp:161-236 | through the splits of an allocation every block of a 2 MiB area, and no other, carries SIZE_FLAG |
| Invariants.FreeFlagged | kernel/src/include/mm/alloc/block.hpp:136-151 | through the merges of a free every block of a 2 MiB area, and no other, carries SIZE_FLAG |
| Invariants.Conservation | kernel/src/include/mm/alloc/area.hpp:9-31 | in every area allocated words, free words, two tags a block and two fences add up to the area's size |
| Runs.Perform | kernel/src/mm/heap/pool.cpp:115-221 | each call of the pool is a step of the runs below: same heap, same counter, same words of live blocks |
| Runs.PerformAll | kernel/src/mm/heap/pool.cpp:115-221 | every sequence of calls, each legal when its turn comes, leaves a valid pool, and its states form a run |
| Runs.RunSafe | kernel/src/mm/heap/pool.cpp:115-221 | over every run words and list heads parse as blocks that tile the area exactly, and the free blocks are exactly the listed ones, each once |
| Runs.RunIsolates | kernel/src/mm/heap/pool.cpp:115-221 | a live block that no call of a run frees or resizes is there at the end, in place, every payload word unchanged |
| Runs.RunRegular | kernel/src/mm/heap/pool.cpp:115-181 | over every run without realloc no two neighbours are free and the counter equals the allocated bytes |
| Runs.ResizeCounter | kernel/src/mm/heap/pool.cpp:199-221 | after a realloc the counter is right exactly when the block had the new size up to 64 bytes, or was too small and could not grow into its successor |
| Limits.ShrinkBesideFree | kernel/src/mm/heap/pool.cpp:199-203 | malloc(128) and a realloc of it to 16 bytes on a fresh pool leave two neighbouring free blocks and a counter of 128 |
| Limits.NullCopyReached | kernel/src/mm/heap/pool.cpp:192-219 | after malloc(128) on a fresh pool, growing the block to the size of the area has no block to move to: the copy goes through the null pointer |
| Runs.RunReturns | kernel/src/mm/heap/pool.cpp:22-181 | freeing everything, in any order, gives back the single block of the initial heap, and the initial heap itself from 16 KiB up, with counter 0 |
| ManagerHeaps.AreaPtrRight | kernel/src/include/mm/alloc/block.hpp:74-84 | masking a block's address by the area size its SIZE_FLAG names gives the area it lies in |
| ManagerHeaps.AreaMask | kernel/src/include/mm/alloc/block.hpp:74-84 | the area address is the byte address masked by the complement of 4095, or of 2097151 |
| ManagerHeaps.AreaForLeast | kernel/src/mm/heap/mman.cpp:83-96 | the area asked for is the smaller of 4 KiB and 2 MiB that holds request, alignment, descriptor and four words |
| ManagerHeaps.FreshFits | kernel/src/mm/heap/mman.cpp:85-117 | the block of a fresh area holds the request exactly when it is not a plain one of 4032 bytes; its alignment gap is never 16 bytes |
| Limits.OverdrawnReached | kernel/src/mm/heap/mman.cpp:173-182 | mman_init on 4 KiB, mman_alloc(32), mman_alloc(4032): the last call asks for a new area and the request does not fit in it |
| ManagerHeaps.ManAllocCorrect | kernel/src/mm/heap/mman.cpp:161-236 | an allocation below 16 KiB keeps the manager's invariant, fails exactly when nothing fits and the callback has no area, and otherwise makes one aligned user block, counted to its own area |
| ManagerHeaps.ManAllocPlaced | kernel/src/mm/heap/mman.cpp:161-236 | the first fitting block of the earliest list is used while there is one; only otherwise an area is asked for, the smaller size that is enough, which joins the chain in front and whose payload starts 64 bytes in or at the alignment if that is larger |
| ManagerHeaps.Emptied | kernel/src/mm/heap/mman.cpp:238-261 | when the last user block of a sub-area is freed the area holds exactly its descriptor block and one merged block that is on no list |
| ManagerHeaps.DropWF | kernel/src/mm/heap/mman.cpp:119-139 | an area none of whose blocks is listed can go: no tag, list or block refers to it any more |
| ManagerHeaps.ManFreeCorrect | kernel/src/mm/heap/mman.cpp:238-261 | a free ends exactly one user block; the sub-area leaves heap and chain exactly when that was its last one and a callback is set |
| ManagerHeaps.ManFreePlaced | kernel/src/mm/heap/mman.cpp:119-261 | the merged block goes in front of the list of its class unless its area goes away; then that area leaves the chain and the others stay in order; no other list changes |
| MultiAreaManager.PoolPtrRight | kernel/src/include/mm/alloc/block.hpp:86-89 | the masked pointer leads to the fence whose descriptor pointer is that of the block's own area |
| MultiAreaManager.FreshArea | kernel/src/mm/heap/mman.cpp:102-113 | fences, descriptor block and free rest of a new area, no live payload disturbed |
| MultiAreaManager.ListAndMatch | kernel/src/mm/heap/mman.cpp:115-177 | the fresh block put on the large list is the one the following search takes off again, and if it is too small the search answers NULL |
| MultiAreaManager.Manager.Init | kernel/src/mm/heap/mman.cpp:23-48 | succeeds exactly for a main area of 4 KiB or 2 MiB and sets up the invariant with all counters 0 |
| MultiAreaManager.Manager.CountUp | kernel/src/mm/heap/mman.cpp:184-186 | the words taken are added to the counter of the block's own area and to the total, disturbing nothing else |
| MultiAreaManager.Manager.CountDown | kernel/src/mm/heap/mman.cpp:249-252 | the words given back are subtracted from the counter of the block's own area and from the total, disturbing nothing else |
| MultiAreaManager.Manager.Unlink | kernel/src/mm/heap/mman.cpp:124-133 | the walk along the next links finds the descriptor and takes exactly it out of the chain |
| MultiAreaManager.Manager.UseFresh | kernel/src/mm/heap/mman.cpp:85-188 | a fresh area is registered, serves the request, and enters size and counters, size by the smaller of 4096 and 2097152 bytes that is enough; the null pointer is used exactly for a plain request of 4032 bytes |
| MultiAreaManager.Manager.AllocWords | kernel/src/mm/heap/mman.cpp:170-235 | the null pointer is used exactly when a plain request of 4032 bytes gets a new area; otherwise the pointer returned is a live block of some well-formed heap with these words exactly when the block found is not 16 bytes short of its aligned payload, and then the words represent the manager of ManAllocCorrect, counters and size stay the sums over the areas, and no user payload changes; size grows exactly when an area was asked for, by the smaller of the two area sizes that is enough |
| MultiAreaManager.Manager.Alloc | kernel/src/mm/heap/mman.cpp:161-188 | the null pointer is used exactly when a request of 4032 bytes gets a new area; otherwise the words represent the manager of ManAllocCorrect, counters and size stay the sums over the areas, and no user payload changes; size grows exactly when an area was asked for, by the smaller of the two area sizes that is enough |
| MultiAreaManager.Manager.AlignedAlloc | kernel/src/mm/heap/mman.cpp:190-236 | NULL without any change unless the alignment is 0 or a power of two; then as AllocWords, whether or not the block found is 16 bytes short of its aligned payload |
| Limits.ManagerSixteenReached | kernel/src/mm/heap/mman.cpp:210-226 | a fresh manager is 16 bytes short for every 32-aligned request its main area can hold, wherever that area lies |
| MultiAreaManager.Manager.GiveBack | kernel/src/mm/heap/mman.cpp:119-139 | the emptied area leaves chain and heap, size shrinks by its bytes, and no user payload changes |
| MultiAreaManager.Manager.Free | kernel/src/mm/heap/mman.cpp:238-261 | the words represent the manager of ManFreeCorrect, counters and size stay the sums over the areas, and no other user payload changes |
| ManagerRuns.EffectOk | kernel/src/mm/heap/mman.cpp:161-261 | every call keeps the invariant of the heap and changes the areas, their sizes and the user words of each of them by exactly what the block allocated or freed says, and no other user block |
| ManagerRuns.Perform | kernel/src/mm/heap/mman.cpp:161-261 | each legal call of mman_alloc, mman_aligned_alloc and mman_free, also of NULL and with rejected alignments, is a step of the runs: words and descriptors represent the new areas, and every counter moves by what the call changes |
| ManagerRuns.PerformAll | kernel/src/mm/heap/mman.cpp:161-261 | a whole legal sequence of calls leaves a valid manager, and its states are a trace |
| ManagerRuns.RunOk | kernel/src/mm/heap/mman.cpp:161-261 | over every run heap, coalescing, SIZE_FLAG and descriptors stay right, and counters that only move by what each call changes stay the sums: each area's of its user blocks, size of the areas, alloced_size of all user blocks |
| ManagerRuns.RunIsolates | kernel/src/mm/heap/mman.cpp:161-261 | a user block that no call of a run frees is there at the end, in place, every payload word unchanged, while areas come and go |
| ManagerRuns.RunReturns | kernel/src/mm/heap/mman.cpp:119-261 | with a callback to hand areas back to, freeing everything in any order hands back every area ever obtained and leaves the main area as one free block with counters 0; with a main area of 2 MiB exactly the initial manager |
| Bitmaps.Bitmap.Init | kernel/src/libs/bitmap.cpp:4-9 | the whole bytes among the first size bits are cleared, the others kept |
| Bitmaps.Bitmap.Get | kernel/src/libs/bitmap.cpp:19-25 | the bit of that number |
| Bitmaps.Bitmap.Set | kernel/src/libs/bitmap.cpp:27-40 | that bit, and no other, takes the value |
| Bitmaps.Bitmap.FindRange | kernel/src/libs/bitmap.cpp:42-97 | the answer is a run of that length, every run met before it overlaps it, and "not found" comes exactly when the bytes as read hold none; for length 0 it is the first byte made up of the value |
| Bitmaps.Bitmap.SetRange | kernel/src/libs/bitmap.cpp:99-132 | exactly the bits from start to end take the value, if start is below the size |
| Bitmaps.FindSetExact | kernel/src/libs/bitmap.cpp:42-97 | for set bits "not found" comes exactly when the whole bytes hold no such run; one bit is found lowest first |
| Bitmaps.FindClearMisses | kernel/src/libs/bitmap.cpp:51-54 | a search for one clear bit in the bytes 0x01, 0xFF can only answer "not found", though seven bits are clear |
| Bitmaps.FindClearExact | kernel/src/libs/bitmap.cpp:51-54 | for clear bits "not found" comes exactly when every such run touches a byte equal to 1 |
| Frames.FrameAllocator.AllocFrames | kernel/src/mm/frame.cpp:78-88 | the lowest free frame and the count-1 frames behind it are claimed, 0 if none is free; a count of 0 claims nothing and answers with the lowest held frame the search sees |
| Frames.FrameAllocator.FreeFrames | kernel/src/mm/frame.cpp:90-94 | exactly the frames named become free, if the first lies within the bitmap |
| Frames.ClaimsFreeExactly | kernel/src/mm/frame.cpp:78-88 | whatever the bitmap, only free frames are claimed exactly for counts up to 1 |
| Frames.Perform | kernel/src/mm/frame.cpp:78-94 | each call with count 1 is a step of the runs below |
| Frames.RunKeeps | kernel/src/mm/frame.cpp:78-94 | over every run free frames and frames handed out are apart and together always the same set |
| Frames.NextIsFresh | kernel/src/mm/frame.cpp:78-94 | after every run the next answer is a frame that is not out, and 0 exactly when all are |
| Frames.FrameZeroReserved | kernel/src/mm/frame.cpp:82-87 | the answer 0 means that nothing is free exactly when frame 0 is not free |
| Masks.Bitwise | kernel/src/arch/x86_64/table.cpp:30-35 | the three mask functions are bitwise and, and-not and or |
| Paging.TableEntry | kernel/src/arch/x86_64/table.cpp:30 | the new entry is the frame address with the three low flags |
| Paging.EntryReads | kernel/src/arch/x86_64/table.cpp:31-35 | both masks, the one of page_table_create and the one of the walk, give back the frame of an entry whatever its low flags |
| Paging.LeafReads | kernel/src/arch/x86_64/table.cpp:53-72 | the page read back from an entry map wrote is the page of the address given to map, for every combination of flags |
| Paging.LeafFlags | kernel/src/arch/x86_64/table.cpp:53-72 | present, writable and user of the new entry are as passed, no-execute is set exactly when executable was not passed, and no other flag bit is |
| Paging.LowOffsetLeaks | kernel/src/arch/x86_64/table.cpp:67-70 | with an offset below bit 63 the page read back is the one mapped exactly for executable pages |
| Paging.HigherHalf | kernel/src/arch/x86_64/table.cpp:31-35 | an offset in the upper half shares no bit with physical addresses below 2^47 |
| PageMapping.Indexes | kernel/src/arch/x86_64/table.cpp:43-46 | the four indexes of a walk are the base-512 digits of the page number |
| PageTrees.EmptyTree | kernel/src/arch/x86_64/table.cpp:17-23 | a cleared level-4 table alone is a tree in which no page has an entry |
| PageTrees.CreateTree | kernel/src/arch/x86_64/table.cpp:25-37 | a cleared table in a free frame, entered in the table above, keeps the tables a tree with a frame each |
| PageTrees.CreateLooks | kernel/src/arch/x86_64/table.cpp:25-37 | a new, cleared table changes the entry of no page |
| PageTrees.LeafWritten | kernel/src/arch/x86_64/table.cpp:72 | a last-level write changes the entry of one page, keeps the tree and every word outside the tables |
| PageTrees.BrokenTree | kernel/src/arch/x86_64/table.cpp:27-34 | once an entry of the tree has been given frame 0, the answer of a failed alloc_frames, no tables can be read from memory below the root |
| PageMapping.PageTable.Create | kernel/src/arch/x86_64/table.cpp:25-37 | the table below exists afterwards at the address returned, taken from a free frame only if it was missing, and no page's entry changes - provided it existed or a frame is free; otherwise the walk goes on in frame 0 and no tree is left below the root |
| PageMapping.PageTable.Map | kernel/src/arch/x86_64/table.cpp:39-75 | tables stand below the root afterwards exactly if as many frames are free as the path lacks tables; then the page has the new entry, every other page its old one, the tables missing on the path - no others - came from free frames, and no word outside the tables changed |
| PageMapping.MapTranslates | kernel/src/arch/x86_64/table.cpp:39-75 | the page translates to the page of phys, all others as before; at most three frames are used and no two tables share one |
| PageMapping.RunTranslates | kernel/src/arch/x86_64/table.cpp:39-75 | over every run of map the tables stay a tree, exactly the pages that had a last-level table or are a neighbour of a mapped page have one, and those pages translate like a plain map in which the last mapping counts and a new table starts at 0 |
| PageMapping.NthPage | kernel/src/arch/x86_64/table.cpp:77-90 | page i of a range is the page of the address i * 4096 further on, wrapping as addresses do |
| PageMapping.PageTable.MapRange | kernel/src/arch/x86_64/table.cpp:77-90 | exactly the pages of the range get new entries, in order, and exactly the missing tables, with base 0 also one frame a page, leave the free frames |
| PageMapping.BasedTranslates | kernel/src/arch/x86_64/table.cpp:86-87 | with a base page i translates to base + i * 4096 |
| PageMapping.FreshTranslates | kernel/src/arch/x86_64/table.cpp:81-84 | with base 0 the pages translate to pairwise different frames that were free, none of them a table's |
| PageMapping.CostBound | kernel/src/arch/x86_64/table.cpp:77-90 | a range never needs more than three tables a page |
| PageMapping.PageTable.TranslateAddr | kernel/src/arch/x86_64/table.cpp:231-246 | the walk over the four levels gives the page of the entry in force |
| SizedPools.SizedPool.Init | kernel/src/mm/heap/sized-pool.cpp:3-16 | the chain lists all slots in order, none is out |
| SizedPools.SizedPool.Alloc | kernel/src/mm/heap/sized-pool.cpp:18-25 | the first free slot, which was not out, is handed out; NULL exactly when all slots are out |
| SizedPools.SizedPool.Free | kernel/src/mm/heap/sized-pool.cpp:27-33 | the slot becomes the first free one and only its first word is written; NULL changes nothing |
| SizedPools.SizedPool.InPool | kernel/src/mm/heap/sized-pool.cpp:35-42 | true exactly between the pool's ends, so for every slot |
| SizedPools.ChainUnique | kernel/src/mm/heap/sized-pool.cpp:3-33 | head and words determine the chain, so it is finite and has no cycle |
| SizedPools.FreedTwice | kernel/src/mm/heap/sized-pool.cpp:27-33 | after a free the words and the head describe a chain exactly if the slot was not on it before |
| SizedPools.Perform | kernel/src/mm/heap/sized-pool.cpp:18-33 | each call is a step of the runs below |
| SizedPools.RunPartition | kernel/src/mm/heap/sized-pool.cpp:3-33 | over every run free slots and slots out share out all len slots, and allocation fails exactly when all len are out |
| Klibc.Memcpy | kernel/src/libs/klibc.cpp:7-18 | the target range holds the source bytes, the rest is kept |
| Klibc.Memmove | kernel/src/libs/klibc.cpp:32-53 | also when the ranges overlap, in either direction, the target range holds the bytes the source range had |
| DriverSockets.Pair.constructor | kernel/src/hel/syscall.cpp:211-218 | two empty 4096-byte buffers |
| DriverSockets.Socket.Send | kernel/src/hel/dsocket.cpp:8-23 | the bytes join the end of the stream to the server, the other stream is kept; without a pair the error |
| DriverSockets.Socket.AcceptSend | kernel/src/hel/dsocket.cpp:25-40 | the bytes join the end of the stream to the client, the other stream is kept; without a pair the error |
| DriverSockets.Socket.Recv | kernel/src/hel/dsocket.cpp:42-59 | up to limit bytes leave the front of the stream to the client, in order, and the answer is limit; without a pair the error |
| DriverSockets.Socket.AcceptRecv | kernel/src/hel/dsocket.cpp:61-78 | up to limit bytes leave the front of the stream to the server, in order, and the answer is limit; without a pair the error |
| DriverSockets.Perform | kernel/src/hel/dsocket.cpp:8-78 | each call at either end is a step of the interleavings below |
| DriverSockets.StreamsKeepOrder | kernel/src/hel/dsocket.cpp:8-78 | in every interleaving bytes received followed by bytes buffered equal the bytes sent in that direction |
| DriverSockets.RecvAnswer | kernel/src/hel/dsocket.cpp:53-58 | the answer counts the bytes that arrived exactly when at least limit bytes were buffered |

## Left out

- Ops.CarveOutWF: does not cover a gap of 16 bytes, which leaves no well-formed heap; Encoding.CutSixteen carries that case to the end of the call.
- Carving.Carve: the same gap, which Encoding.CutSixteen covers; what a later call makes of the destroyed tag is not followed.
- MemoryPool.Pool.Init: does not model a pool of 16 bytes, whose first list node lies behind its end, a start address off a 16-byte boundary, or a pool of 2^63 bytes and more.
- MemoryPool.Pool.Alloc: does not model the last 15 request sizes, where the padded request is 0 and a block without payload is split off.
- MemoryPool.Pool.AlignedAlloc: does not follow the heap after an aligned request of 2^63 bytes and more; Limits.HugeRequestMatches shows what the search then answers.
- ManagerHeaps.ManAllocCorrect: excludes the 16-byte gap and the plain 4032-byte request that gets a new area, which MultiAreaManager.Manager.AllocWords covers, and requests from 16 KiB up.
- MemoryPool.Pool.Realloc: the copy counts whole words; sizes of blocks are multiples of 16 bytes, so no byte is lost.
- MultiAreaManager.Manager.Alloc: does not model 64-bit wrap-around of the manager's counters, which count bytes of areas that exist, nor what happens after the null pointer has been used.
- MultiAreaManager.Manager.AlignedAlloc: excludes alignments from 16 KiB up; the heap after a destroyed tag or the use of the null pointer is not followed.
- MultiAreaManager.Manager.Free: the search for a large block at a page-aligned address finds nothing, because no large block exists in the model.
- PageMapping.PageTable.TranslateAddr: only for pages whose tables exist; for others the source follows entry 0 into physical frame 0.
- PageMapping.PageTable.MapRange: excludes ranges with too few free frames, where a later page walks through what an earlier one wrote into frame 0, and ranges that wrap around all 2^36 pages.
- PageMapping.PageTable.Map: the TLB invalidation is not modelled, and the bitmap's bytes are kept apart from the frames that hold tables.
- SizedPools.SizedPool.Init: slot sizes are whole words; the source allows any size of at least 8 bytes.
- Klibc.Memmove: within one buffer, as the sockets use it.
- DriverSockets.Socket.Send: excludes sends that do not fit the buffer, which the source writes behind it.
- DriverSockets.Socket.AcceptSend: likewise excludes sends that do not fit the buffer.
- Growth of a pool (`mpool_reqmem`): the kernel never sets the callback, and the code compares the returned address with the start of the pool instead of its end.
- `mpool_aligned_realloc`, `mpool_deinit`, `mpool_msize` and the `malloc` wrappers: variants of the calls modelled here.
- Large blocks of `mman` (16 KiB and more): inserting one drops the rest of its bucket.
- `mman_realloc` and `mman_aligned_realloc`: they read block headers that large blocks do not have, and the bare merge in them loses SIZE_FLAG (see Ops.MergeNextMerges).
- `frame::init`: it sizes the bitmap in bytes where the class counts bits, and depends on the boot loader's memory map.
- Page-table `unmap`, copying and freeing: `unmap` clears the level-4 entry and frees frame 0, and the copy tests the wrong condition.
- Connecting, accepting and the backlog of driver sockets: name matching and counters there do not keep a protocol.
- Number formatting and `vsprintf`, scheduler and threads: they would add only easy members.
- Boot code, interrupt controllers, timers, descriptor tables, serial port and spinlock instructions: hardware.

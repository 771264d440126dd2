# Memory_Linked_List, modelled in Dafny

This project models the allocator engine `Memory_Linked_List` of the
Allocators repository (allocator.cpp, allocator.h). It also proves what the
engine promises about its two chunk lists.

Every chunk carries a header (`size`, `used`, `next`), followed by the
user's payload. The engine keeps:

- a **live list** of chunks, with the pointers `m_initial`, `m_start` and
  `m_end`, and a next-fit cursor `m_next_fit_chunk`;
- a **free list**, with `f_list_initial`, `f_list_start` and `f_list_end`,
  used only in free-list mode.

`alloc` rounds the request up with `align`. It then asks the selected
search strategy for a chunk to reuse: first fit, next fit, best fit, or the
free list. On a miss it maps a fresh block and appends its chunk to the
live list. `free` clears `used`; in free-list mode it first moves the chunk
from the live list to the tail of the free list.

Files:

- `wrappers.dfy` (module `Wrappers`): `Option`, `Result` and the two error
  cases.
- `pow2.dfy` (module `PowersOfTwo`): powers of two and the facts the
  doubling loops need.
- `chunk.dfy` (module `ChunkHeader`): the `Chunk` layout on an LP64 target,
  `get_header` and `allocSize`. Addresses are integers, and a header is
  identified by its address.
- `align.dfy` (module `Alignment`): `align` as a loop, its reference
  definition, and the 32-bit defect.
- `lists.dfy` (module `ChunkLists`): the arena `heap: map<Addr, Chunk>`
  keyed by header address. It also holds:
  - what it means for the list pointers and the `next` links to describe a
    list;
  - the partition of the chunks between the two lists;
  - the search rules as reference functions;
  - the list surgery, with the lemmas that it keeps the engine invariant
    `Sound`.
- `engine.dfy` (module `Allocator`): the class `MemoryLinkedList`. Its
  fields are the C++ members. The ghost fields `Live` and `FreeChunks` hold
  the two lists in link order. `Valid()` is the invariant that every public
  operation (`Alloc`, `Free`, `FindChunk`, the four searches and
  `SetSearchMode`) keeps. The step helpers work on parts of the state and
  do not mention it. The invariant says:
  - the pointers and links describe `Live` and `FreeChunks`;
  - the two lists partition all chunks, with none lost or duplicated;
  - every size is a power of two of at least 8;
  - mapped blocks do not overlap;
  - the cursor is null or a chunk.
- `freelist_defect.dfy` (module `FreeListDefect`): the non-head branch of
  `free_list` as written, and what it breaks.

Where the repository's own documentation and its code disagree, the model
follows the code:

- `next_fit` never wraps around to the head. The scan starts at the cursor,
  so its `m_next_fit_chunk == nullptr` branch cannot run.
- allocator.h declares only `m_initial`, `m_start` and `m_end`. The state
  here is the one the constructor in allocator.cpp initialises, plus
  `m_search_mode`.

## Model

| member | source | states |
|---|---|---|
| ChunkHeader.RoundUp | allocator.h:16-40 | a member's offset is the least multiple of its alignment at or after the next free byte |
| ChunkHeader.Offsets | allocator.h:16-40 | members are laid out in declaration order; each starts at a multiple of its alignment, at or after the end of the one before it |
| ChunkHeader.ChunkLayout | allocator.h:16-40 | `size`, `used` and `next` sit at offsets 0, 8 and 16; `data` starts at 24, right after `next`; `sizeof(Chunk)` is 32 and ends where the first payload word ends |
| ChunkHeader.GetHeader | allocator.h:78-81 | the address it returns is the header whose `data` member is at the given payload pointer |
| ChunkHeader.HeaderPayloadRoundTrip | allocator.h:78-81 | `get_header` applied to the payload address of any header gives that header back |
| ChunkHeader.AllocSize | allocator.cpp:77-81 | for every header address, the `allocSize(n)` bytes from the header end exactly where an n-byte payload ends |
| Alignment.Pow2AtLeast | allocator.cpp:64-75 | the aligned size is a power of two, at least 8 and at least the request |
| Alignment.Pow2AtLeastIsAlignment | allocator.cpp:64-75 | that size is the smallest power of two that is at least 8 and at least the request (13 gives 16, 1025 gives 2048) |
| Alignment.AlignmentByHalf | allocator.cpp:70-73 | a power of two of at least 8 and the request, equal to 8 or with a half below the request, is the alignment |
| Alignment.Align | allocator.cpp:64-75 | the doubling loop from 8 returns the smallest power of two that is at least 8 and at least the request, and less than twice the larger of the two |
| Alignment.AlignInt32 | allocator.cpp:67-73 | the int-typed doubling loop of `align` as written: a result is at least the request and fits in an `int`; it reports signed overflow (None) only for requests above 2^30 |
| Alignment.AlignInt32From | allocator.cpp:67-73 | the int-typed loop, from any point it can reach, agrees with the alignment up to 2^30 and overflows above it |
| Alignment.AlignInt32Overflows | allocator.cpp:67-73 | `align` as written equals the intended alignment for requests up to 2^30 and overflows for every larger request |
| ChunkLists.FirstMatchFrom | allocator.cpp:296-309 | the first position from k whose chunk meets the rule; no earlier chunk meets it; none exactly when no chunk from k meets it |
| ChunkLists.MaxSizeOf | allocator.cpp:337-342 | the largest size among the first n chunks: at least every size, attained by one chunk, 0 for none |
| ChunkLists.SmallestFit | allocator.cpp:348-363 | the smallest size of an unused chunk with at least `min` bytes; none exactly when no such chunk exists |
| ChunkLists.BestFitIn | allocator.cpp:332-364 | best fit as a reference: none exactly when no unused chunk is large enough; otherwise an unused, large-enough chunk of the smallest such size, the first of that size in list order |
| ChunkLists.LargestIsPow2 | allocator.cpp:344-359 | when the request fits under the largest size, that size is a power of two, so the doubling reaches it exactly |
| ChunkLists.SmallestFitIs | allocator.cpp:352-357 | an exact unused match at the current class, with every fitting chunk at least that large, is the smallest fitting size |
| ChunkLists.NextClass | allocator.cpp:359-362 | with no unused chunk of the current class, every fitting chunk has at least twice that size, and twice that size is still within the largest size |
| ChunkLists.AboveLargest | allocator.cpp:344-346 | a request larger than every chunk has no best fit |
| ChunkLists.TopClassEmpty | allocator.cpp:359-360 | no unused chunk of the largest size, and every fitting chunk at least that large, means no best fit |
| ChunkLists.MoveHeapSplit | allocator.cpp:260-291 | moving a chunk between lists is unlinking it from its list, then linking it after the other list's tail as the new end |
| ChunkLists.MoveHeapNext | allocator.cpp:267-290 | after a move, only the moved chunk, the other list's old tail and the moved chunk's predecessor have a new `next` |
| ChunkLists.MoveLinksRemoved | allocator.cpp:267-275 | after the unlink, the links of the list the chunk left still follow that list without it |
| ChunkLists.MoveLinksAppended | allocator.cpp:277-290 | after the link, the links of the receiving list follow it with the chunk at its end |
| ChunkLists.MoveKeepsRecords | allocator.cpp:206-294 | a move changes no size, no `used` flag and no set of chunks |
| ChunkLists.MovePartition | allocator.cpp:206-294 | after a move, both lists are duplicate-free and disjoint, and together hold the same chunks as before |
| ChunkLists.MoveEnds | allocator.cpp:209-290 | the head and tail pointer updates name the first and last chunk of both lists after the move |
| ChunkLists.MoveLiveToFree | allocator.cpp:206-294 | moving a live chunk to the free-list tail keeps both lists described by their pointers and the partition intact |
| ChunkLists.MoveFreeToLive | allocator.cpp:115-171 | moving a free chunk to the live-list tail keeps both lists described by their pointers and the partition intact |
| ChunkLists.AppendFreshToLive | allocator.cpp:37-58 | a fresh chunk appended at the live tail keeps both lists described and the partition intact, with the new chunk in the live list |
| ChunkLists.SetUsedKeeps | allocator.cpp:111-112 | flipping `used` keeps both lists described and partitioned |
| ChunkLists.FreshIsNew | allocator.cpp:83-98 | a freshly mapped block that overlaps no chunk starts at an address no chunk has |
| ChunkLists.AppendSizes | allocator.cpp:37-58 | appending keeps every chunk's size and adds exactly the new chunk |
| ChunkLists.AppendKeepsSizes | allocator.cpp:37-58 | appending a fresh power-of-two chunk keeps all sizes powers of two of at least 8 and all blocks apart |
| ChunkLists.SoundMoveFreeToLive | allocator.cpp:123-171 | the free-list-to-live splice keeps the engine invariant and every chunk record |
| ChunkLists.SoundMoveLiveToFree | allocator.cpp:206-294 | the live-to-free-list splice keeps the engine invariant and every chunk record |
| ChunkLists.SoundSetUsed | allocator.cpp:111-112 | setting `used` keeps the engine invariant, and only that chunk's flag changes |
| ChunkLists.SoundAppendFresh | allocator.cpp:37-58 | appending a fresh chunk keeps the engine invariant; the cursor moves to the new chunk when the live list was empty |
| Allocator.MemoryLinkedList.constructor | allocator.cpp:11-19 | a new engine has no chunks and empty lists; `m_start` equals `m_initial`; there is no cursor; the invariant holds |
| Allocator.MemoryLinkedList.SetSearchMode | allocator.cpp:366-368 | selecting the mode `find_chunk` dispatches on changes nothing else and keeps the invariant |
| Allocator.MemoryLinkedList.Scan | allocator.cpp:299-306 | following `next` from the k-th chunk stops at the first chunk that meets the rule, or returns null at the end |
| Allocator.MemoryLinkedList.FirstFitSearch | allocator.cpp:296-309 | returns the earliest live chunk that is unused and large enough; null exactly when there is none; changes nothing |
| Allocator.MemoryLinkedList.NextFitSearch | allocator.cpp:311-330 | returns the first unused, large-enough chunk from the cursor to the end of its list, with no wrap-around; a chunk found becomes the cursor; a miss leaves the cursor unchanged |
| Allocator.MemoryLinkedList.LargestLiveSize | allocator.cpp:334-342 | the first pass returns the largest size in the live list |
| Allocator.MemoryLinkedList.SizeClassSearch | allocator.cpp:348-363 | the doubling pass terminates and returns the best fit of the reference definition |
| Allocator.MemoryLinkedList.BestFitSearch | allocator.cpp:332-364 | returns the best fit of the reference definition; null when the request exceeds the largest live size; changes nothing |
| Allocator.MemoryLinkedList.UnlinkFree | allocator.cpp:123-181 | taking the k-th chunk out of the free list; the head pointers move (all become null when it was the only chunk) or the predecessor skips it and becomes the tail |
| Allocator.MemoryLinkedList.LinkLiveTail | allocator.cpp:127-140 | the chunk goes after the live tail, or starts the live list; it ends with null and becomes `m_end` |
| Allocator.MemoryLinkedList.TakeFree | allocator.cpp:115-171 | the k-th free chunk moves to the live tail and is returned; no chunk is lost or duplicated; the invariant holds |
| Allocator.MemoryLinkedList.FreeListSearch | allocator.cpp:115-204 | returns the first free-list chunk with enough bytes, moved to the live tail; a miss changes nothing |
| Allocator.MemoryLinkedList.UnlinkLive | allocator.cpp:209-275 | taking the k-th chunk out of the live list; `m_initial`/`m_start`/`m_end` or the predecessor's `next` are repaired |
| Allocator.MemoryLinkedList.LinkFreeTail | allocator.cpp:214-227 | the chunk goes after the free-list tail, or starts the free list; it ends with null and becomes `f_list_end` |
| Allocator.MemoryLinkedList.GiveFree | allocator.cpp:206-294 | the k-th live chunk moves to the free-list tail; no chunk is lost or duplicated; the invariant holds |
| Allocator.MemoryLinkedList.FreeListing | allocator.cpp:206-294 | a live chunk leaves the live list and becomes the free-list tail; any other chunk leaves both lists unchanged |
| Allocator.MemoryLinkedList.Free | allocator.cpp:100-113 | the chunk behind the payload pointer ends unused. Outside free-list mode only its flag changes: links, head, tail and cursor stay. In free-list mode it ends in the free list, moved from the live list when it was there |
| Allocator.MemoryLinkedList.FoundFits | allocator.cpp:296-364 | a chunk the selected strategy finds has at least the requested bytes; it is unused outside free-list mode and on the free list in free-list mode |
| Allocator.MemoryLinkedList.FindChunk | allocator.cpp:366-385 | an unselected mode is an error that changes nothing; otherwise it returns what the selected strategy finds, and a miss changes nothing. First fit and best fit change nothing. Next fit changes only the cursor, which moves to the chunk found. A free-list hit moves that chunk from its place in the free list to the live tail and leaves the cursor alone. No size or flag changes |
| Allocator.MemoryLinkedList.PlaceFresh | allocator.cpp:43-58 | the fresh chunk is linked after the live tail and becomes `m_end`; on an empty list it becomes `m_initial`, `m_start` and the cursor |
| Allocator.MemoryLinkedList.AppendMapped | allocator.cpp:37-58 | the fresh chunk gets `size = align(n)`, `used = true` and a null `next`, joins the live tail, and becomes the cursor when the live list was empty; the invariant holds |
| Allocator.MemoryLinkedList.Alloc | allocator.cpp:21-62 | returns the payload of a used chunk with at least the requested bytes. On a hit outside free-list mode, only that chunk's `used` flag changes: lists, links and head and tail pointers stay, and under next fit the cursor becomes that chunk. On a free-list hit, the chunk leaves the free list for the live tail and the cursor stays. On a miss, the fresh chunk is appended as stated above. An unselected mode or a failed mapping is an error that changes nothing |
| FreeListDefect.NonHeadAsWritten | allocator.cpp:173-203 | the branch as written returns null and points `f_list_end` at the chunk it took |
| FreeListDefect.TailLinksOn | allocator.cpp:173-199 | pointers whose tail chunk links on describe no list |
| FreeListDefect.HeadWithoutTail | allocator.cpp:185-195 | pointers with a head but a null tail describe no list |
| FreeListDefect.NonHeadLosesLists | allocator.cpp:173-203 | from any consistent state, taking a fitting non-head free chunk as written returns null and leaves pointers that no pair of lists matches |

## Left out

- `memory_map` and `mmap` are not modelled. `Alloc` takes the mapped
  address as a parameter, `None` standing for `MAP_FAILED`. The block is
  assumed zero-filled, so the new chunk's `next` is null.
- Alloc: a failed mapping returns an `OutOfMemory` error and changes
  nothing. The code dereferences the null chunk instead, which the model
  does not reproduce.
- Alloc: requires the mapped block to overlap no existing chunk, which is
  what `mmap` guarantees.
- Free: requires the pointer to be the payload of a chunk of this engine.
  The code does not check this; any other pointer is undefined behaviour.
- Wrap-around of `std::size_t` is not modelled. Sizes and addresses are
  unbounded integers, so `align` cannot overflow past `SIZE_MAX` and
  `size * multiplier` in `best_fit` cannot wrap.
- BestFitSearch: requires the request to be a power of two. `alloc` always
  passes an aligned size; other requests can make the code loop forever.
- `best_fit`'s `int multiplier` overflow is not modelled: the model's
  multiplier is unbounded.
- An `m_search_mode` that names none of the four strategies is `NoMode`.
  It also stands for the uninitialised member: the constructor never sets
  it, and neither file shown ever assigns it. `SetSearchMode` stands in for
  the code outside the core that assigns it.
- `print_all_memory` and `print_all_free_memory` are console output only.
- The sbrk back end, `m_mmap_mode`, allocator_wrapper.h,
  allocator_wrapper.cpp, Allocation.h, benchmark.cpp and main.cpp are not
  part of this model.
- Payload contents, pointer casts and concurrency are not modelled.
- FreeListSearch models the intended splice for a match that is not the
  free-list head. The code as written is modelled separately, in
  `FreeListDefect`.
- The helpers `UnlinkFree`, `LinkLiveTail`, `UnlinkLive`, `LinkFreeTail`,
  `TakeFree`, `GiveFree`, `PlaceFresh`, `AppendMapped`, `LargestLiveSize`
  and `SizeClassSearch` split the source functions into steps. They keep
  the source's branches and tests, except as the next line says.
- UnlinkFree: a chunk after the free-list head is unlinked in the
  corrected form of the second Findings row. The tail test is against
  `f_list_end`, where allocator.cpp:175 tests `m_end`.

## Findings

| source | as written | input that shows it | evidently intended | confidence | as-written member | corrected member |
|---|---|---|---|---|---|---|
| allocator.cpp:67-73 | `auto i = 8` makes `i` a 32-bit `int`, so doubling it is signed overflow once a request exceeds 2^30 | `align(0x4000_0001)`: `i` reaches 2^30 and the next doubling exceeds `INT_MAX` | `i` of type `std::size_t`, returning the smallest power of two that is at least 8 and at least the request | not executed; high | Alignment.AlignInt32 (Alignment.AlignInt32Overflows) | Alignment.Align (Alignment.Pow2AtLeastIsAlignment) |
| allocator.cpp:173-203 | a fitting free chunk `s` that is not the free-list head: the tail test compares `s` with `m_end` instead of `f_list_end`; `m_end` is never moved to `s`; `f_list_end` is set to `s`; the scan goes on from the null `s->next` and returns nullptr | live list `[a]`, free list `[b, c]`, a request that only `c` fits: `a->next` becomes `c`, `m_end` stays `a`, `f_list_end` becomes `c`, `b->next` is null, and `free_list` returns nullptr | unlink `s` (moving `f_list_end` to its predecessor when `s` was the tail), link it after `m_end`, make it `m_end`, and return it | not executed; high | FreeListDefect.NonHeadAsWritten (FreeListDefect.NonHeadLosesLists) | Allocator.MemoryLinkedList.TakeFree (Allocator.MemoryLinkedList.FreeListSearch) |

# Verified models of the Qnixx kernel

Models, in Dafny 4.11, of five parts of the Qnixx kernel, with proofs of what each of them keeps
and computes. `dafny verify dfyconfig.toml` checks everything.

**The heap allocator** (`sys/mm/tlsf.c`). The two-level segregated-fit allocator works on a
word-addressed memory, so that a free block's `prev_phys_block` really lies in the payload of the
block before it. `Bits` has the C operators and the fls/ffs helpers, `TlsfMapping` the size
arithmetic, `TlsfMemory` memory and the packed size field, `TlsfBlocks` the tiling of the pools,
`TlsfLists` the 800 free lists and the bitmaps, `TlsfHeaders` and `TlsfInvariant` the invariant that
ties them to memory, `Tlsf` the class with the operations, `TlsfRuns` what a client may rely on over
whole runs, `TlsfOversize` what is left when realloc is asked for too much, and `TlsfCheck` what the
integrity checkers notice. The invariant (`TlsfInvariant.HeapInv`): blocks tile each pool up to a zero-size
used sentinel; every header and every `prev_phys_block` of a free block agrees with its block; no
two neighbours are free; the lists hold exactly the free blocks, each in its class; both bitmap
levels are exact. Nothing is assumed of `block_null`'s own links, which insertion and removal
overwrite.

**The hash map** (`sys/include/lib/hashmap.h`). `HashMap` proves that the open-addressing table with
its window of eight slots is a finite map for any hash function and any power-of-two size, through
the mutual recursion of put and rehash, that a table grows only if its keys can fill a window of it,
and that a put fails only if they can fill one of the largest table. `Crc` proves the table-driven
checksum against bitwise division, and that it detects bursts of 32 bits.

**Path lookup** (`sys/fs/vfs.c`). `Paths` is the meaning of paths, `Vfs` the vnodes and the
tokenising loop with its fixed buffer.

**Page tables** (`sys/mm/vmm.c`). `PageTables` has entries, tables and walks in the format of
section 4.5 of the Intel SDM, Volume 3A, `Vmm` the operations: a tree built on demand that is a flat
map from 36-bit page numbers to entries, under roots that share subtrees. The frame allocator is an
assumption: it hands out frames that are page-aligned, not null, in no use as a table and
zero-filled, as `get_next_level` needs, which does not clear them. `vmm_make_pml4` clears 64 entries
and copies 256; only the rest of its frame has to be clear.

**The scheduler** (`sys/sched/sched.c`, `sys/include/sys/queue.h`). `TailQueue` proves the tail
queue's pointer work, `Sched` that the linked structures behave as the sequence machine of `Turns`,
and `Turns` fairness and integrity of contexts over runs.

## Where the code falls short of what it promises

Each of these is kept as it is in the code.

- An adjusted request covers the request if and only if it is at most 2^32 - 8 bytes
  (`TlsfMapping.AdjustCoversRequest`). `tlsf_realloc` of a live block answers null or a block as large
  as the request if and only if the request is that small (`Tlsf.Control.ReallocLive`); where the
  adjusted size is 0 it leaves a block of size 0 behind (`Tlsf.Control.ReallocOversize`, and
  `TlsfRuns.OversizeExample` for 64 bytes resized to 2^32).
- `tlsf_add_pool` admits a pool of exactly 2^32 bytes (`TlsfMapping.PoolAtLimit`), for which
  `mapping_insert` leaves the table; it stays inside if and only if the size is smaller
  (`TlsfMapping.ClassInRange`).
- `tlsf_check` does not notice a first-level bit that is set for a row without a list
  (`TlsfCheck.StrayRowBitPasses`); apart from such bits, a passed check means that the bitmaps are exact
  (`TlsfCheck.PassedBitmaps`). `tlsf_check_pool` does not look at the flags of the header that ends the
  pool (`Tlsf.Control.CheckPool`).
- `tlsf_memalign` leaves room for its gap if and only if the alignment is below 2^63
  (`TlsfMapping.AlignedRequestRoom`).
- A vnode whose name has a slash is not found by its path (`Paths.SlashExample`). Where every vnode has
  one parent, the path of the names on a chain finds its vnode if and only if none of the names has a
  slash (`Paths.PathFindsNode`).
- `hashmap_put` can fail. Among keys of one hash value it succeeds if and only if there are eight of them
  at most (`HashMap.PutColliding`, and `HashMap.NinthPutFails` for a run). In general it fails only if
  eight other keys can fill one key's window in a table of 2^31 slots, or all of that table
  (`HashMap.Table.Put`), and so never with up to eight keys (`HashMap.FewKeysAreNotJammed`).

## Model

| member | source | states |
|---|---|---|
| Bits.FlsGeneric | sys/mm/tlsf.c:149-162 | the portable fls loop of shifts and masks: one more than the index of the highest set bit, 0 for 0 |
| Bits.FfsGeneric | sys/mm/tlsf.c:164-167 | ffs through fls of word & (~word + 1): the index of the lowest set bit, -1 for 0 |
| TlsfMapping.AlignUpIsMask | sys/mm/tlsf.c:467-471 | align_up computed by subtraction is the mask expression (x + (align - 1)) & ~(align - 1), wrap included, for every power of two |
| TlsfMapping.AdjustCoversRequest | sys/mm/tlsf.c:491-505 | an adjusted size covers the request exactly for the requests up to 2^32 - 8; above, adjust_request_size answers 0 or wraps to the minimum |
| TlsfMapping.AdjustIsLeast | sys/mm/tlsf.c:491-505 | for any alignment, where align_up does not wrap: the adjusted size is the least multiple of the alignment that covers the request, or the least block size, and it is 0 exactly if no multiple below 2^32 covers the request |
| TlsfMapping.AdjustFitsBlock | sys/mm/tlsf.c:491-505 | a block is as large as the adjusted request exactly if it is as large as the request |
| TlsfMapping.AdjustWraps | sys/mm/tlsf.c:467-505 | the concrete failing input: a request of 2^64 - 1 bytes is adjusted to 24 |
| TlsfMapping.LargeClass | sys/mm/tlsf.c:512-530 | for large sizes the shift and xor of mapping_insert are exponent and linear subdivision |
| TlsfMapping.ClassMonotone | sys/mm/tlsf.c:512-530 | mapping_insert is monotone in the lexicographic order of (fl, sl) |
| TlsfMapping.ClassOrder | sys/mm/tlsf.c:512-530 | the class of one size is at or above that of another exactly when it is at least the floor of the other's class |
| TlsfMapping.ClassInRange | sys/mm/tlsf.c:512-530 | mapping_insert stays inside blocks[25][32] exactly for the sizes below block_size_max: the bound that line 994 of the pool check misses by one |
| TlsfMapping.GoodFit | sys/mm/tlsf.c:512-540 | the lists from mapping_search on are exactly those of blocks that are large enough for the request; rounding up costs nothing below 256 bytes and at most a thirty-second part above |
| TlsfMapping.PoolAtLimit | sys/mm/tlsf.c:979-994 | the concrete failing input: 2^32 + 16 bytes pass the size check of add_pool as a pool of 2^32, for which mapping_insert answers a row past the table |
| TlsfMapping.PoolBytesExact | sys/mm/tlsf.c:979-994 | pool and overhead are the largest multiple of 8 within the memory given, and the sizes admitted are those from 40 to below 2^32 + 24 |
| TlsfMapping.SearchStart | sys/mm/tlsf.c:532-540 | where a search starts is in the table, or the request is one that no block can meet |
| TlsfMapping.AlignedRequestRoom | sys/mm/tlsf.c:1128-1142 | memalign's enlarged request leaves room for alignment and gap for every power of two but 2^63, where it wraps |
| TlsfMapping.AlignedRequestIsSize | sys/mm/tlsf.c:1128-1142 | what memalign searches for is 0 or a legal block size with the room it needs |
| TlsfMapping.AlignedGap | sys/mm/tlsf.c:1149-1167 | the aligned address is the least one that leaves no gap or one of at least a block header; the gap never exceeds the room reserved, and is 0 for alignments up to 8 |
| TlsfMemory.PackedField | sys/mm/tlsf.c:364-408 | flags and size packed in one word do not disturb each other under any of the six accessors |
| TlsfMemory.BytesAreWord | sys/libkern/string.c:122-129 | a word is its eight bytes, so that what is copied byte by byte is copied word by word |
| Tlsf.Control.Memcpy | sys/libkern/string.c:122-129 | the bytes of the source are at the destination, and nothing else is written |
| TlsfHeaders.CopyStep | sys/libkern/string.c:125-128 | one byte of a forward copy between disjoint ranges keeps what was copied and the source |
| TlsfBlocks.TilingSplit | sys/mm/tlsf.c:646-665 | splitting keeps blocks disjoint, linked to their neighbours and minimal in size |
| TlsfBlocks.TilingMerge | sys/mm/tlsf.c:668-675 | absorbing the next block keeps the tiling |
| TlsfHeaders.SplitHeaders | sys/mm/tlsf.c:646-665 | after a split every header in memory again says what its block is, although prev_phys_block lies in a payload |
| TlsfHeaders.MergeHeaders | sys/mm/tlsf.c:668-675 | after an absorb every header in memory again says what its block is |
| TlsfLists.RemoveKeepsLists | sys/mm/tlsf.c:575-590 | unlinking a block keeps all 800 lists well formed, although block_null is written to |
| TlsfLists.InsertKeepsLists | sys/mm/tlsf.c:604-616 | linking a block in front keeps all lists well formed |
| TlsfLists.SetKeepsBitmaps | sys/mm/tlsf.c:618-622 | the two bits set on insertion keep the two-level bitmap exact |
| TlsfLists.ClearKeepsBitmaps | sys/mm/tlsf.c:586-601 | the bits cleared when a list becomes empty keep the two-level bitmap exact |
| TlsfLists.SearchRow | sys/mm/tlsf.c:548-556 | masking one row of the bitmap finds its first list that is not empty, or none is |
| TlsfLists.SearchRows | sys/mm/tlsf.c:556-566 | masking the first level finds the first row with a list that is not empty, or none is |
| TlsfInvariant.SplitFreeInv | sys/mm/tlsf.c:646-665 | the split of a block with its repairs (flags of the rest, link in the next block) keeps the heap invariant and spares all other payloads |
| TlsfInvariant.SplitUsedInv | sys/mm/tlsf.c:722-733 | the split of a used block with its repairs keeps the heap invariant and the part that stays |
| TlsfInvariant.AbsorbInv | sys/mm/tlsf.c:668-675 | absorbing a free neighbour keeps the heap invariant and writes to no live payload |
| TlsfInvariant.GrowInv | sys/mm/tlsf.c:1249-1254 | growing a used block over its free neighbour keeps the heap invariant and its old payload |
| TlsfInvariant.PoolAttached | sys/mm/tlsf.c:1013-1023 | block and sentinel of a new pool extend the invariant to the pool |
| TlsfInvariant.WithoutPoolInv | sys/mm/tlsf.c:1028-1041 | taking an unused pool away keeps the invariant for the rest |
| TlsfInvariant.NothingFound | sys/mm/tlsf.c:752-770 | if every list from mapping_search on is empty then no free block is large enough |
| TlsfInvariant.EnoughFits | sys/mm/tlsf.c:532-572 | some list is found whenever a free block has the request, and a thirty-second part more from 256 bytes on |
| TlsfInvariant.FoundFits | sys/mm/tlsf.c:752-780 | the block found is at least as large as the request, so the assertion of block_locate_free never fires, and no smaller class has a block that fits |
| TlsfInvariant.PayloadInv | sys/mm/tlsf.c:445-465 | whatever a client writes to its own payload keeps the heap invariant |
| TlsfInvariant.MoveKeeps | sys/mm/tlsf.c:1239-1245 | malloc, copy and free in a row: the new block has the old bytes, every other allocation its own |
| Tlsf.Control.constructor | sys/mm/tlsf.c:796-813 | the empty control structure satisfies the invariant |
| Tlsf.Control.Create | sys/mm/tlsf.c:1075-1094 | null exactly for a misaligned address, otherwise an empty allocator |
| Tlsf.Control.RemoveFreeBlock | sys/mm/tlsf.c:575-601 | lists, heads and both bitmap levels after the removal of one block |
| Tlsf.Control.InsertFreeBlock | sys/mm/tlsf.c:604-622 | lists, heads and both bitmap levels after the insertion of one block |
| Tlsf.Control.BlockRemove | sys/mm/tlsf.c:625-630 | one block leaves its list, the invariant holds with that block apart |
| Tlsf.Control.BlockInsert | sys/mm/tlsf.c:633-638 | one block apart goes on the list of its class, the invariant holds again |
| Tlsf.Control.BlockMarkAsFree | sys/mm/tlsf.c:452-458 | both blocks concerned, and the link between them, say that the block is free |
| Tlsf.Control.BlockMarkAsUsed | sys/mm/tlsf.c:460-465 | both blocks concerned say that the block is used |
| Tlsf.Control.BlockTrimFree | sys/mm/tlsf.c:709-719 | a free block is cut exactly if the rest can stand alone, and the rest is listed |
| Tlsf.Control.BlockTrimFreeLeading | sys/mm/tlsf.c:736-750 | a leading gap of at least a header always splits off |
| Tlsf.Control.BlockTrimUsed | sys/mm/tlsf.c:722-733 | a used block is cut, the rest merged with a free neighbour and listed; the payload that stays is intact, and less than a header is left over |
| Tlsf.Control.BlockMergePrev | sys/mm/tlsf.c:678-690 | coalescing to the left exactly if the neighbour is free |
| Tlsf.Control.BlockMergeNext | sys/mm/tlsf.c:693-706 | coalescing to the right exactly if the neighbour is free |
| Tlsf.Control.SearchSuitableBlock | sys/mm/tlsf.c:542-572 | the first list at or after the starting class that is not empty; 0 only if all of them are empty |
| Tlsf.Control.BlockLocateFree | sys/mm/tlsf.c:752-780 | 0 exactly if the size is 0 or no free block fits; otherwise the head of the list of the least class that fits, off that list |
| Tlsf.Control.BlockPrepareUsed | sys/mm/tlsf.c:782-793 | trimming and handing out a block, and nothing else |
| Tlsf.Control.Malloc | sys/mm/tlsf.c:1114-1120 | null exactly if nothing fits, and then nothing changed; otherwise an aligned live block of the adjusted size, with less than a header to spare, cut from the head of the best-fitting list, all other payloads intact |
| Tlsf.Control.AlignBlock | sys/mm/tlsf.c:1149-1174 | the block moved to an aligned start; the split never fails when there is a gap |
| Tlsf.Control.Memalign | sys/mm/tlsf.c:1122-1177 | as malloc, and the result is the least multiple of the alignment in the block found that leaves no gap or one that can stand alone, with the adjusted size and less than a header to spare |
| Tlsf.Control.Free | sys/mm/tlsf.c:1179-1192 | the block is merged with both neighbours as far as they are free; nothing happens for null |
| Tlsf.Control.ReallocMove | sys/mm/tlsf.c:1237-1246 | the moving path: new place, bytes carried over, old place released, or nothing changed |
| Tlsf.Control.CopyAndFree | sys/mm/tlsf.c:1242-1244 | the bytes are in the new block before the old one is released and coalesced |
| Tlsf.Control.ReallocInPlace | sys/mm/tlsf.c:1249-1259 | the growing and shrinking paths: same address, bytes intact, and whatever is a header or more beyond the adjusted size is given back |
| Tlsf.Control.Realloc | sys/mm/tlsf.c:1207-1263 | on all paths the first min(old block size, request) bytes survive and the block has the adjusted size with less than a header to spare; null exactly if it neither fits in place nor elsewhere, and then the heap and the old payload are unchanged |
| Tlsf.Control.ReallocOversize | sys/mm/tlsf.c:1224-1259 | the failing case, followed to its end: for a request that adjusts to 0, realloc answers the old pointer; a block of 32 bytes or more is left with size 0, its rest is merged, listed and free, and the payloads of other allocations are intact |
| Tlsf.Control.ReallocLive | sys/mm/tlsf.c:1224-1259 | over all sizes: realloc of a live block answers null or a block as large as the request if and only if the request is at most 2^32 - 8 bytes |
| Tlsf.Control.UnlinkBlock | sys/mm/tlsf.c:575-601 | unlinking in terms of the lists alone, where the rest of the invariant may be lost |
| Tlsf.Control.AddPool | sys/mm/tlsf.c:979-1026 | refused exactly for a misaligned address or for less than 40 or at least 2^32 + 24 bytes; otherwise one free block and a sentinel that with their headers fill the memory given up to its last 7 bytes, existing allocations intact |
| Tlsf.Control.RemovePool | sys/mm/tlsf.c:1028-1041 | the assertions hold for a pool without allocations, and the invariant holds without the pool |
| Tlsf.Control.Check | sys/mm/tlsf.c:843-891 | over any bitmaps, headers and links whose lists end: status 0 exactly if each list agrees with its bits and each listed block has a good header, is apart from other free blocks and is in its class |
| Tlsf.Control.IntegrityWalker | sys/mm/tlsf.c:825-841 | status 0 exactly if the header has the size given and its prev-free flag the status of the block before |
| Tlsf.Control.CheckPool | sys/mm/tlsf.c:903-938 | over any headers whose walk ends: status 0 exactly if every prev-free flag before the last header says what the block before it is |
| Tlsf.Control.CheckValid | sys/mm/tlsf.c:843-891 | tlsf_check passes every state that satisfies the invariant |
| Tlsf.Control.CheckPoolValid | sys/mm/tlsf.c:903-938 | tlsf_check_pool passes every pool of such a state |
| TlsfCheck.InvPasses | sys/mm/tlsf.c:843-891 | the invariant implies all that tlsf_check insists on |
| TlsfCheck.PassedBitmaps | sys/mm/tlsf.c:843-891 | what a passed check says: the bitmaps are exact if and only if no first-level bit is set for a row without a list |
| TlsfCheck.StrayRowBitPasses | sys/mm/tlsf.c:843-891 | the concrete input: an empty control structure whose first row is marked passes |
| TlsfCheck.InvPoolPasses | sys/mm/tlsf.c:825-841 | in a state that satisfies the invariant each pool has a walk with the right flags |
| TlsfRuns.LiveAreDisjoint | sys/mm/tlsf.c:445-465 | live allocations are 8-aligned, inside their pool and at least a header word apart |
| TlsfRuns.BlocksFillPool | sys/mm/tlsf.c:646-675 | conservation: from any block on, sizes plus headers add up to the distance to the sentinel |
| TlsfRuns.UnusedPoolIsOneBlock | sys/mm/tlsf.c:678-706 | a pool without a live allocation is one free block of its full size |
| TlsfRuns.ListsAreExact | sys/mm/tlsf.c:604-638 | the list reached from a head is exactly the set of free blocks of its class |
| TlsfRuns.MallocSucceeds | sys/mm/tlsf.c:1114-1120 | malloc answers a block whenever a free block has the bytes asked for, and a thirty-second part more from 249 bytes on |
| TlsfRuns.MallocRefuses | sys/mm/tlsf.c:1114-1120 | malloc answers null for 0 bytes, and whenever no free block has the bytes asked for |
| TlsfRuns.MemalignSucceeds | sys/mm/tlsf.c:1122-1177 | memalign answers an aligned block whenever a free block has the bytes asked for, twice the alignment and a header, and a thirty-second part more of that |
| TlsfRuns.ReallocStays | sys/mm/tlsf.c:1233-1258 | realloc keeps the address exactly if the block, or the block with a free next one and its header, has the bytes asked for |
| TlsfRuns.ReallocSucceeds | sys/mm/tlsf.c:1237-1246 | realloc answers null only if no free block is large enough to move to |
| TlsfRuns.PoolStaysInMemory | sys/mm/tlsf.c:979-1263 | at any time of a run, what a pool gives out lies in the memory that add_pool was given |
| TlsfRuns.DoMalloc | sys/mm/tlsf.c:1114-1120 | malloc takes a legal step of the client-level machine |
| TlsfRuns.DoMemalign | sys/mm/tlsf.c:1122-1177 | memalign takes a legal step |
| TlsfRuns.DoFree | sys/mm/tlsf.c:1179-1192 | free takes a legal step |
| TlsfRuns.DoRealloc | sys/mm/tlsf.c:1207-1263 | realloc takes a legal step |
| TlsfRuns.DoAddPool | sys/mm/tlsf.c:979-1026 | add_pool takes a legal step |
| TlsfRuns.StepKeepsPools | sys/mm/tlsf.c:979-1263 | no operation takes away or resizes a pool |
| TlsfRuns.StoreIsStep | sys/mm/tlsf.c:445-465 | a client's own store into a live payload is a legal step too |
| TlsfRuns.Do | sys/mm/tlsf.c:979-1263 | every operation of the allocator, and every store of its client, takes the allocator from one state of a run to the next |
| TlsfRuns.RunKeepsAccounts | sys/mm/tlsf.c:979-1263 | what each step of Do carries, over a whole run: the invariant holds, the pools are those added, and the live set is what the client still holds |
| TlsfRuns.RunSpares | sys/mm/tlsf.c:1114-1263 | over every run: an allocation that is not named keeps size and contents |
| TlsfRuns.RunCoalesces | sys/mm/tlsf.c:678-706 | after every run that frees all it got, in any order, each pool, old or added, is again one free block of its original size |
| TlsfRuns.FreeUndoesMalloc | sys/mm/tlsf.c:1114-1192 | freeing the block just allocated restores the exact layout before |
| TlsfOversize.OversizeIsNeverCovered | sys/mm/tlsf.c:1224-1259 | no block is as large as a request above 2^32 - 8 bytes, and realloc takes the old one for large enough |
| TlsfOversize.OversizeUnlink | sys/mm/tlsf.c:693-706 | taking the next block off its list leaves the damaged block and all other payloads as they are |
| TlsfOversize.OversizeInsert | sys/mm/tlsf.c:604-638 | listing the rest of the damaged block writes to no other payload |
| TlsfRuns.OversizeExample | sys/mm/tlsf.c:1207-1263 | the concrete failing input: in a heap that satisfies the invariant, a live block of 64 bytes is resized to 2^32, which adjusts to 0, and comes back under its old pointer with size 0 |
| HashMap.TableSizesArePowers | sys/include/lib/hashmap.h:220-222 | the creation test n & (n - 1) passes powers of two only |
| HashMap.PowersAreTableSizes | sys/include/lib/hashmap.h:220-222 | and all of them |
| HashMap.DoubledSize | sys/include/lib/hashmap.h:557-566 | doubling in 32 bits gives a table size, or 0 exactly when it wraps |
| HashMap.KeysFillSlots | sys/include/lib/hashmap.h:234-258 | there are as many keys as slots in use |
| HashMap.PutKeepsTable | sys/include/lib/hashmap.h:244-255 | writing a key in its slot, or a free slot of its window, keeps the correspondence of slots and map |
| HashMap.ClearKeepsTable | sys/include/lib/hashmap.h:295-299 | blanking a slot needs no tombstone: all other keys are still found |
| HashMap.NotInWindow | sys/include/lib/hashmap.h:260-281 | a key that is not in its eight-slot window is not in the table, also for tables of fewer than eight slots |
| HashMap.NoRoomIsJam | sys/include/lib/hashmap.h:496-542 | a table has no room for a key only if it is full, or if eight other keys can fill the key's window, each in its own window |
| HashMap.FewKeysAreNotJammed | sys/include/lib/hashmap.h:234-258 | up to eight keys never do, whatever the hash function, so that no put among so few fails |
| HashMap.CollidersFitWindow | sys/include/lib/hashmap.h:496-542 | no table of any size holds more than eight keys of one hash value |
| HashMap.PutColliding | sys/include/lib/hashmap.h:234-258 | among keys of one hash value a put succeeds if and only if there are eight of them at most |
| HashMap.NinthPutFails | sys/include/lib/hashmap.h:234-258 | the concrete failing run: nine different keys that collide, on a new table, of which eight are put and the ninth is refused |
| HashMap.Table.Create | sys/include/lib/hashmap.h:215-232 | refused exactly for sizes that are not powers of two |
| HashMap.Table.Get | sys/include/lib/hashmap.h:260-281 | the value the plain finite map has, or null |
| HashMap.Table.Remove | sys/include/lib/hashmap.h:283-309 | the plain map without the key; success exactly if it was there |
| HashMap.Table.RemoveAndReturnKey | sys/include/lib/hashmap.h:311-341 | the same, answering the stored key |
| HashMap.Table.FindSlot | sys/include/lib/hashmap.h:496-542 | found exactly if the table is not full and has the key or a free slot in its window |
| HashMap.Table.Put | sys/include/lib/hashmap.h:234-258 | the plain map with the key updated, through any nested growth; no growth exactly if there was room, and no more growth than to twice a size that the keys jam; the recursion ends because each table is larger than the one before; failure only if the keys jam the largest table, and then no entry is invented |
| HashMap.Table.MoveSlot | sys/include/lib/hashmap.h:544-555 | one entry moves from the old table to the new, in one of the two at all times; it stays only if the keys jam the largest table |
| HashMap.Table.MoveAll | sys/include/lib/hashmap.h:358-384 | the iteration moves every entry exactly once, unless the keys jam the largest table |
| HashMap.Table.Rehash | sys/include/lib/hashmap.h:557-582 | the same map in a table of twice the size, or of a larger one half of which the keys jam; failure only at 2^31 slots, where doubling wraps, or if the keys jam a table of that size |
| HashMap.Replay | sys/include/lib/hashmap.h:215-309 | a run on a new table of any size under any hash function answers every lookup as a plain finite map does, and it stops before its end only at a put whose key and the keys before it jam the largest table |
| Crc.ReflectedPolynomial | sys/include/lib/hashmap.h:405-406 | the constant divided by is the CRC32C polynomial 1EDC6F41 of section 12.1 of RFC 3720 with its bits reflected |
| Crc.TableEntry | sys/include/lib/hashmap.h:405-458 | each of the 256 table entries is the remainder of its index under eight bitwise division steps |
| Crc.FeedBits | sys/include/lib/hashmap.h:460-464 | a byte added to the remainder and divided at once is its bits fed in one by one |
| Crc.Crc32 | sys/include/lib/hashmap.h:395-467 | the table-driven loop computes the bit-by-bit reflected division of the whole string, from 0 and without inversion |
| Crc.MessageBits | sys/include/lib/hashmap.h:460-464 | the message that is divided has eight bits for each byte of the string, the lowest first |
| Crc.Crc32Linear | sys/include/lib/hashmap.h:395-467 | the checksum of the bytewise xor of two strings of equal length is the xor of their checksums |
| Crc.CheckedMessage | sys/include/lib/hashmap.h:395-467 | a message followed by its checksum has checksum 0 |
| Crc.BurstsAreDetected | sys/include/lib/hashmap.h:395-467 | messages of one length that differ, and only within 32 bits in a row, have different checksums |
| Paths.TextAt | sys/fs/vfs.c:45-80 | what the scan reads at each position up to the NUL |
| Paths.SplitJoinRoundTrip | sys/fs/vfs.c:45-80 | names come back from the path they make exactly when none of them has a slash |
| Paths.JoinOfSplit | sys/fs/vfs.c:45-80 | splitting a path loses nothing |
| Paths.FollowLongName | sys/fs/vfs.c:48-51 | 255 characters without a slash mean that nothing is found, whatever follows |
| Paths.ChildrenAreAppended | sys/fs/vfs.c:86-96 | with distinct sibling names, the children of a node are exactly those appended to it |
| Paths.PathOfNode | sys/fs/vfs.c:21-116 | the path of the names on a node's chain resolves to that node, the root excepted |
| Paths.SameChain | sys/fs/vfs.c:86-96 | where nodes have one parent, the chain from the root to a node is unique |
| Paths.FollowedChain | sys/fs/vfs.c:45-80 | a lookup that finds a node went along a chain of appended nodes |
| Paths.ResolveFinds | sys/fs/vfs.c:21-83 | what any path finds in a tree built by appending: a node exactly if the path is a slash and the slash-free short names of a chain from the root to that node, the root excepted |
| Paths.PathFindsNode | sys/fs/vfs.c:21-116 | where nodes have one parent, the path of the names on a chain finds its last node if and only if none of the names has a slash |
| Paths.SlashExample | sys/fs/vfs.c:21-116 | the concrete failing input: a node named a/b below the root is not found at /a/b |
| Vfs.MakeVnode | sys/fs/vfs.c:98-116 | null exactly for names of 255 characters or more; otherwise a childless vnode of that name |
| Vfs.FileSystem.constructor | sys/fs/vfs.c:118-123 | a childless root directory, flagged as mount point and root, over the given hash function |
| Vfs.FileSystem.NewVnode | sys/fs/vfs.c:98-116 | the new vnode has the type and flags asked for and no children, and no other vnode changes |
| Vfs.FileSystem.AppendChild | sys/fs/vfs.c:86-96 | the tree with exactly one child entry updated, under the root if no parent is given; success if the parent's table has room and unless the names jam the largest table, and no other vnode changes in any case |
| Vfs.FileSystem.AppendAll | sys/fs/vfs.c:86-96 | any run of appends builds the tree it lists, unless the names below one parent jam the largest table |
| Vfs.FileSystem.Name2Vnode | sys/fs/vfs.c:11-15 | the child of that name |
| Vfs.FileSystem.Path2Vnode | sys/fs/vfs.c:21-83 | for every NUL-terminated buffer the tokenising loop answers what folding child lookup over the components answers, nothing without a leading slash, and never the root; it never leaves its 256-byte buffer |
| Vfs.FileSystem.FindAppended | sys/fs/vfs.c:21-83 | the loop finds, for any path, exactly the vnode the path leads to through what was appended |
| PageTables.AddrOfTableEntry | sys/mm/vmm.c:34-39 | frame address and flags of a table entry do not mix |
| PageTables.EntryOfFrame | sys/include/mm/vmm.h:11-17 | an entry is present if its flags say so, and its address is the frame joined with stray address bits of the flags |
| PageTables.EntryFields | sys/include/mm/vmm.h:11-17 | an entry is present by its lowest bit, and its address is its bits 12 to 51 |
| PageTables.TableEntryIs | sys/mm/vmm.c:34-38 | the entry of a new table is its frame with the present, writable and no-execute bits |
| PageTables.NextOfEntry | sys/mm/vmm.c:22-26 | the table an entry leads to, by the bits of the entry and the higher-half offset |
| PageTables.PageOfAddress | sys/mm/vmm.c:42-47 | a page is 4096 addresses in a row: its number is bits 12 to 47 of the address |
| PageTables.IndexesOfAddress | sys/mm/vmm.c:42-47 | the four indexes of an address are its bits 39, 30, 21 and 12 and the eight above each |
| PageTables.IndexesOfPage | sys/mm/vmm.c:42-47 | shifts and masks find the four nine-bit indexes of the page number |
| PageTables.PageOfIndexes | sys/mm/vmm.c:42-63 | four indexes determine the page |
| PageTables.WalksMeet | sys/mm/vmm.c:42-63 | two walks end in one entry only for the same page below the same top-level table |
| PageTables.LinkKeepsMem | sys/mm/vmm.c:34-39 | a new empty table keeps the tree well formed |
| PageTables.LinkKeepsWalk | sys/mm/vmm.c:34-39 | a new empty table changes no translation under any root |
| PageTables.StoreChangesWalk | sys/mm/vmm.c:68-70 | storing one entry changes exactly one page of exactly the roots that share the table |
| Vmm.NothingToUnmap | sys/mm/vmm.c:77-81 | a page without a page table is unmapped already, under every sharing root |
| Vmm.NewRoot | sys/mm/vmm.c:112-120 | copying the upper half of a root gives the same translations there and changes no other root |
| Vmm.MappedFrame | sys/mm/vmm.c:65-71 | a lookup of the page just mapped gives its frame, exactly if the flags add no address bit |
| Vmm.MappedPage | sys/mm/vmm.c:65-130 | after a map of a page its lookup finds the frame, and the lookup of any other page what it found before |
| Vmm.MapThenLook | sys/mm/vmm.c:65-130 | the same of the code, in addresses: all 4096 addresses of the page find the frame, each other address what it found before |
| Vmm.WalkOfAddress | sys/mm/vmm.c:42-71 | the flat map is the four-level walk by nine bits of the address at a time, from bit 39 down |
| Vmm.Manager.GetNextLevel | sys/mm/vmm.c:20-40 | the table below, made and linked if allowed and missing; no translation changes |
| Vmm.Manager.GetPageTable | sys/mm/vmm.c:42-63 | the page table of the address, up to three tables being added; no translation changes |
| Vmm.Manager.MapPage | sys/mm/vmm.c:65-71 | the flat map of the root, and of each root that shares, with exactly one page updated |
| Vmm.Manager.UnmapPage | sys/mm/vmm.c:74-85 | the same with the page's entry cleared; no table is added |
| Vmm.Manager.GetPhys | sys/mm/vmm.c:123-130 | the address in the flat map's entry; no translation changes although tables may be added |
| Vmm.Manager.MakePml4 | sys/mm/vmm.c:102-121 | a new root with the upper-half entries and translations of the first root ever seen and nothing in the lower half, from a frame of any contents but in the entries 64 to 255 |
| Vmm.Perform | sys/mm/vmm.c:65-130 | each operation of the manager is a step of a run, with its answer: the address found, or the new root and the root it shares the kernel half with |
| Vmm.SharedStaysShared | sys/mm/vmm.c:20-121 | roots that share a present top-level entry at any point of a run translate its pages alike from then on |
| Vmm.MadeRootFollows | sys/mm/vmm.c:102-121 | a root made in the course of a run translates every upper-half page, whose top-level entry was present then, as its model does ever after |
| Vmm.RunIsFlatMap | sys/mm/vmm.c:20-130 | over every run, through any roots, a root is the flat map updated by exactly the stores made through a root that points to the same table for the page |
| Vmm.SeenIsFixed | sys/mm/vmm.c:20-85 | which stores these are is settled by two top-level entries as soon as both are present |
| Vmm.RunIsPlainMap | sys/mm/vmm.c:20-130 | a root that all stores go through, or that shares the entries they go through, is a plain map |
| TailQueue.Queue.constructor | sys/include/sys/queue.h:65-70 | an empty queue whose last points at its own first |
| TailQueue.Queue.InsertHead | sys/include/sys/queue.h:72-80 | the sequence with the element in front, all pointers exact |
| TailQueue.Queue.InsertTail | sys/include/sys/queue.h:82-87 | the sequence with the element at the end, written through the last pointer |
| TailQueue.Queue.Walk | sys/include/sys/queue.h:39-40 | first and next visit the elements in order and end |
| Turns.TurnsAfter | sys/sched/sched.c:66-93 | after t yields the running process and every process's running thread, in closed form |
| Turns.EachThreadOnce | sys/sched/sched.c:130-153 | fairness: in any n * k consecutive yields each thread of a k-thread process gets exactly one turn |
| Turns.NewThreadRuns | sys/sched/sched.c:35-153 | a thread that is added gets exactly one turn in the next n * (k + 1) yields, and starts with the trapframe it came with |
| Turns.StartupIsOnce | sys/sched/sched.c:53-57 | over any events at most the current thread is marked for starting, and none after a yield |
| Turns.ThreadsStay | sys/sched/sched.c:35-58 | arrivals leave every thread in its place, and the turns where they are |
| Turns.ThreadArrives | sys/sched/sched.c:35-58 | a thread is added at the end of its process and a process at the end of its core, marked if it is the first, and nothing else arrives |
| Turns.FirstYieldStarts | sys/sched/sched.c:53-57 | a core given its first process and interrupted runs that very process as it came, and has saved nothing |
| Turns.FrameKept | sys/sched/sched.c:139-151 | a saved trapframe is touched by nothing but its own thread's preemption, whatever arrives or yields |
| Turns.ResumesWherePreempted | sys/sched/sched.c:139-151 | over every run a thread resumes with exactly the trapframe of its last preemption |
| Turns.StartsFromCreation | sys/sched/sched.c:139-151 | a thread that was never preempted runs from its creation trapframe |
| Sched.CreateProcess | sys/sched/process.c:61-90 | a process with its main thread queued and running |
| Sched.Process.NextThread | sys/sched/sched.c:83-93 | the next thread of the queue, cyclically |
| Sched.Process.AddThread | sys/sched/sched.c:35-40 | the thread at the end of the queue, counted |
| Sched.Core.NextProcess | sys/sched/sched.c:66-76 | the next process of the queue, cyclically |
| Sched.Core.SchedYield | sys/sched/sched.c:130-153 | the linked structures after a yield are those of the sequence machine, and so is the trapframe resumed |
| Sched.Core.EnqueueThread | sys/sched/sched.c:35-40 | a step AddThread of the sequence machine, with the thread at the end of its process's queue, other processes untouched |
| Sched.Core.EnqueueProcess | sys/sched/sched.c:47-58 | a step AddProcess of the sequence machine, with the process at the end of the queue; the first process of a core is marked for starting |
| Sched.CoreList.EnqueueProcess | sys/sched/sched.c:47-58 | the process goes to the end of the queue of the core whose turn it is |
| Sched.Do | sys/sched/sched.c:35-153 | whatever happens on a core is the event of the sequence machine it should be, and an interrupt resumes the machine's current trapframe |
| Sched.SchedStart | sys/sched/sched.c:155-165 | the start-up sequence leaves one process of two threads, the first of them marked for starting |

## Left out

- Tlsf.Control.ReallocOversize: states what is in memory and which list the rest is on; no invariant of the allocator holds after it, so that no further operation is modelled.
- Tlsf.Control.Realloc: states the requests that adjust to a block size; a request of a live block that adjusts to 0 is `Tlsf.Control.ReallocOversize`, and `Tlsf.Control.ReallocLive` is over both.
- Tlsf.Control.Memalign: states alignments below 2^63, the ones for which `TlsfMapping.AlignedRequestRoom` says that there is room.
- Tlsf.Control.AddPool: states pools other than 2^32 bytes, the size at which `TlsfMapping.ClassInRange` says that the table is left; the memory must lie within the address space, above address 8, and not overlap other pools or the control structure.
- HashMap.Table.Put: says when a put may fail, not when it must: whether keys that can jam a table do so depends on the order in which they arrived. Of a failed put it says that no entry is invented, since entries may have moved to a table that is then dropped.
- Vmm.Manager.MakePml4: asks for a frame whose entries 64 to 255 are clear; the code clears 64 entries only.
- Sched.Core.EnqueueProcess: treats each core on its own; that two cores share no structure is for the caller to keep.
- Tlsf.Control.Check: goes on counting after a failed condition, where the kernel's assert halts; it needs lists that end, as the code does to return.
- Memory of the heap model is an unbounded map of 64-bit words; contents of words are integers, and a client's bytes are the bytes of the words.
- `Tlsf.Control.RemovePool` keeps the invariant but is not an event of the runs in `TlsfRuns`, whose pools only grow in number.
- The lists of the heap are 800 heads in one array, row by row, and the checksum table is in rows of sixteen.
- Keys of the hash map are compared as values; the code keeps a pointer to the caller's key. A stored null cannot be told from a missing key, as in the code.
- Allocation of hash tables and vnodes succeeds. A freed table is not modelled as freed.
- The mixing of the checksum into a slot number (lines 470-489 of hashmap.h), since the hash map is proved for every hash function; hashmap_iterate, hashmap_destroy, hashmap_num_entries.
- The page-table model has a flat supply of frames instead of `sys/mm/pmm.c`, CR3 as a parameter, no TLB, and no large pages, which the code does not make.
- The spinlock, the timer and the interrupt entry around `sched_yield`; the trapframe is one value. Names, credentials, process identifiers and address spaces of processes.
- Unused macros TAILQ_LAST and TAILQ_PREV, and traversal macros beyond first and next.
- Hardware, boot code, console, formatted output, string routines other than memcpy, the frame allocator and its bitmap.
- Concurrency: operations are steps of a sequential machine.

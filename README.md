# Fixed-block memory pool and block queue

This Dafny project models the memory pool in `3rd/mempool`.

- **Pool (`mempool_t`).** The pool is an arena of `block_count` blocks, at most 256 of them. Each block is `block_size` bytes: the requested data size rounded up to a multiple of 64.
  - A free bitmap of four 64-bit words marks the free blocks.
  - A second bitmap of the same shape marks the blocks handed out "for hardware".
  - `mempool_alloc` takes the lowest-indexed free block.
  - `mempool_free` maps any offset inside the arena back to its block. It does nothing for an offset outside the arena or a block that is already free.
- **Queue (`mempool_queue_t`).** The queue is a bounded ring of (block index, data length) entries over one pool.
  - It keeps `head`, `tail` and `count` cursors.
  - Its own membership bitmap refuses a block that is already queued.

The model is split into modules:

| file | module | contents |
|---|---|---|
| `wrappers.dfy` | `Wrappers` | `Option`, for a result that is either nothing (`NULL`) or one value |
| `config.dfy` | `Config` | the configuration constants of `mempool.h`, `size_t` bounds, `MEMPOOL_MIN` |
| `bits.dfy` | `Words` | 64-bit words as integers, with bits, or, and, complement, shifts, bit scan and popcount |
| `bitmap.dfy` | `Bitmaps` | four-word bitmaps, one bit per block; in-place set, clear and test of one bit |
| `pool.dfy` | `Pool` | block and arena sizes, the initial bitmap, the `MemoryPool` class, `Create` |
| `queue.dfy` | `Queue` | the ring, the `BufferQueue` class and its operations, `Create` |

Modelling choices:

- **Pointers are offsets.** A pointer is an integer offset from the arena base, so block `i` starts at `i * block_size`. A negative offset, an offset past the arena, and `NULL` are all pointers outside the pool.
- **Words are integers.** A 64-bit word (`BITMAP_TYPE`) is the newtype `u64`. Its bit operations are defined bit by bit.
- **Pool state.** A `MemoryPool` keeps its two bitmaps as `array<u64>` and updates them in place. Its invariant `Valid()` ties each bitmap to a ghost set of block indices, using `Mirrors`.
- **Queue state.** A `BufferQueue` keeps `block_indices`, `data_lengths` and `queue_bitmap` as arrays, and `head`, `tail` and `count` as fields. Its ghost `contents` is the sequence of live entries, oldest first.
  - `Valid()` says three things. The ring slots hold `contents`, starting at `head`. `tail == (head + count) % capacity`. The membership bitmap holds exactly the blocks of `contents`, and no block appears twice.
- **`size_t` arithmetic is explicit.** The wrap-around of `size_t` is written out where it matters:
  - the rounding of the block size;
  - the arena size;
  - `block_count - available`.

## Model

| member | source | states |
|---|---|---|
| Config.Min | 3rd/mempool/include/mempool.h:24 | `MEMPOOL_MIN` gives one of its two arguments, and that argument is at most both |
| Words.FindFirstSetBit | 3rd/mempool/src/mempool.c:12-35 | the result is -1 exactly for a zero word. Otherwise it is the position of a set bit with no set bit below it |
| Words.TestBit | 3rd/mempool/src/mempool.c:357 | `w & (1 << k)` is nonzero exactly when bit k of w is set |
| Words.SetBitEffect | 3rd/mempool/src/mempool.c:374 | `w` or-ed with `1 << k` sets bit k and keeps every other bit |
| Words.ClearBitEffect | 3rd/mempool/src/mempool.c:390 | `w & ~(1 << k)` clears bit k and keeps every other bit |
| Words.LowMaskEffect | 3rd/mempool/src/mempool.c:105-107 | the all-ones word masked with `(1 << u) - 1` has exactly the bits below u set |
| Words.AllOnesEffect | 3rd/mempool/src/mempool.c:97 | `(BITMAP_TYPE)(-1)` has exactly the 64 bits of the word set |
| Words.CountBitsOfLowMask | 3rd/mempool/src/mempool.c:105-107 | the masked last word holds `num_blocks % 64` set bits |
| Words.ShrIsDivision | 3rd/mempool/src/mempool.c:354 | `x >> k` is `x / 2^k` |
| Words.AndSixtyThree | 3rd/mempool/src/mempool.c:355 | `x & 63` is `x % 64` |
| Words.AndClearsLowSix | 3rd/mempool/src/mempool.c:67 | `x & ~63` on a 64-bit word rounds x down to a multiple of 64 |
| Words.WordBitsDetermine | 3rd/mempool/include/mempool.h:40 | two 64-bit words that agree on all 64 bits are equal |
| Bitmaps.WordsCoverAllBlocks | 3rd/mempool/include/mempool.h:39-47 | `BITMAP_WORDS * 64 == 256 == MEMPOOL_MAX_BLOCKS` |
| Bitmaps.ShiftMaskAddressing | 3rd/mempool/src/mempool.c:354-355 | `i >> 6 == i / 64` and `i & 63 == i % 64`, as `free` computes them (mempool.c:213-214). For a block index the word index is below `BITMAP_WORDS` |
| Bitmaps.SetFlatBit | 3rd/mempool/src/mempool.c:229 | setting block i's bit sets i and leaves every other block's bit as it was |
| Bitmaps.ClearFlatBit | 3rd/mempool/src/mempool.c:161 | clearing block i's bit clears i and leaves every other block's bit as it was |
| Bitmaps.MirrorsWithBit | 3rd/mempool/src/mempool.c:229 | after setting bit i, the bitmap mirrors the old set plus i |
| Bitmaps.MirrorsWithoutBit | 3rd/mempool/src/mempool.c:161 | after clearing bit i, the bitmap mirrors the old set minus i |
| Bitmaps.AddedIsWithBit | 3rd/mempool/src/mempool.c:229 | a bitmap mirroring `s + {i}` is the old bitmap with only i's bit set |
| Bitmaps.RemovedIsWithoutBit | 3rd/mempool/src/mempool.c:161 | a bitmap mirroring `s - {i}` is the old bitmap with only i's bit cleared |
| Bitmaps.MirrorsEmpty | 3rd/mempool/src/mempool.c:320-322 | the all-zero bitmap mirrors the empty set |
| Bitmaps.PopCountSumIsFlatCount | 3rd/mempool/src/mempool.c:248-251 | adding up the words' popcounts counts the blocks whose bit is set |
| Bitmaps.MirroredCount | 3rd/mempool/src/mempool.c:248-251 | the number of set bits is the size of the mirrored set |
| Bitmaps.MirrorsDetermines | 3rd/mempool/include/mempool.h:55-56 | the mirrored set fixes every word of the bitmap |
| Bitmaps.TestWordBit | 3rd/mempool/src/mempool.c:217 | the test of bit `bitPos` of word `wordIdx` is true exactly when block `64 * wordIdx + bitPos` is marked |
| Bitmaps.SetBit | 3rd/mempool/src/mempool.c:229 | the in-place or-assignment on one word: the array then mirrors the old set plus the block |
| Bitmaps.ClearBit | 3rd/mempool/src/mempool.c:161 | the in-place `&= ~` on one word: the array then mirrors the old set minus the block |
| Pool.AlignUpRoundsDown | 3rd/mempool/src/mempool.c:67 | the rounded size is `s - s % 64` for the wrapped sum `s = (n + 63) mod 2^64` |
| Pool.AlignUpIsCeiling | 3rd/mempool/src/mempool.c:67 | when `n + 63` does not wrap, the block size is the least multiple of 64 that is at least n |
| Pool.AlignUpWrapsToZero | 3rd/mempool/src/mempool.c:67 | for the 63 largest `size_t` values the rounded size is 0 |
| Pool.ArenaSizeWraps | 3rd/mempool/src/mempool.c:79 | a pool of 64 blocks of 2^58 + 64 bytes asks for a 4096-byte arena |
| Pool.BlocksMembers | 3rd/mempool/src/mempool.c:96-110 | `Blocks(n)` holds exactly the indices below n, so it has n members |
| Pool.InitialFreeWordsAsWrittenOvercount | 3rd/mempool/src/mempool.c:96-110 | with one block, the free bitmap as written also marks block 64 free. `available` would be 193 and `used` would wrap to 2^64 - 192 |
| Pool.InitialFreeWordsMirror | 3rd/mempool/src/mempool.c:96-110 | the corrected initial free bitmap marks exactly the blocks below `num_blocks` |
| Pool.InitialFreeWordsCount | 3rd/mempool/src/mempool.c:248-251 | the corrected initial bitmap has `num_blocks` set bits, so a new pool reports `available == num_blocks` |
| Pool.MemoryPool.constructor | 3rd/mempool/src/mempool.c:91-110 | the new pool is valid. Its free set is the blocks below `num_blocks`, its hardware set and bitmap are empty, and it has the rounded block size |
| Pool.MemoryPool.BlockIndex | 3rd/mempool/src/mempool.c:271-281 | `get_block_index` is -1 exactly outside `[0, block_size * block_count)`. Otherwise it is a block index in `[0, block_count)` whose byte range holds the offset |
| Pool.MemoryPool.BlockOffsetIsProduct | 3rd/mempool/src/mempool.c:168 | block i starts at offset `i * block_size` |
| Pool.MemoryPool.BlockIndexRoundTrip | 3rd/mempool/src/mempool.c:271-281 | for every block i, its offset lies in the arena and `get_block_index` maps it back to i |
| Pool.MemoryPool.BlocksDisjoint | 3rd/mempool/src/mempool.c:168 | blocks i < j have disjoint byte ranges |
| Pool.MemoryPool.BlockSize | 3rd/mempool/src/mempool.c:264-268 | `mempool_block_size` is a multiple of 64 within 64 bytes above the data size |
| Pool.MemoryPool.Available | 3rd/mempool/src/mempool.c:235-255 | the popcount loop returns the number of free blocks, at most `block_count` |
| Pool.MemoryPool.Used | 3rd/mempool/src/mempool.c:258-262 | `used == block_count - available`, with no `size_t` wrap |
| Pool.MemoryPool.Alloc | 3rd/mempool/src/mempool.c:129-181 | no block exactly when none is free, with no change. Otherwise the offset of the lowest free block, which leaves the free set and joins the hardware set iff `for_hw`. The `block_idx >= block_count` skip (lines 157-158) never fires under the invariant |
| Pool.MemoryPool.Free | 3rd/mempool/src/mempool.c:184-232 | an allocated block inside the arena becomes free and loses its hardware mark. Any other offset changes nothing, so a second free is a no-op |
| Pool.Create | 3rd/mempool/src/mempool.c:58-113 | no pool exactly for a zero size, zero or more than 256 blocks, or a size that would wrap. Otherwise a valid pool with all blocks free |
| Queue.BlocksOfMembers | 3rd/mempool/src/mempool.c:357-358 | a block is among the queued blocks exactly when some live entry names it |
| Queue.BlocksOfAppend | 3rd/mempool/src/mempool.c:367 | appending an entry adds its block to the queued blocks |
| Queue.BlocksOfTail | 3rd/mempool/src/mempool.c:380 | when entries are distinct, dropping the oldest removes exactly its block |
| Queue.DistinctIsPairwise | 3rd/mempool/src/mempool.c:357-358 | the distinctness kept by the queue means no block sits in two entries (both directions) |
| Queue.DistinctAppend | 3rd/mempool/src/mempool.c:357-367 | appending a block that is not queued keeps the entries distinct |
| Queue.RingSlotIsModulo | 3rd/mempool/src/mempool.c:369 | the ring slot `RingSlot(head, k, capacity)` is `(head + k) % capacity` |
| Queue.NextSlot | 3rd/mempool/src/mempool.c:385 | `(s + 1) % capacity` is `s + 1`, or 0 at the end of the ring |
| Queue.Advance | 3rd/mempool/src/mempool.c:369 | the cursor step `(s + 1) % capacity` stays below capacity and is the next ring slot |
| Queue.MarkQueued | 3rd/mempool/src/mempool.c:372-374 | the shift-and-mask update makes the bitmap mirror the old set plus the block |
| Queue.UnmarkQueued | 3rd/mempool/src/mempool.c:388-390 | the shift-and-mask update makes the bitmap mirror the old set minus the block |
| Queue.RingPush | 3rd/mempool/src/mempool.c:367-368 | writing an entry at the slot after the last live one appends it to the ring |
| Queue.RingPop | 3rd/mempool/src/mempool.c:380-385 | the oldest entry is in slot `head`, and the rest form the ring that starts one slot on |
| Queue.QueuedPush | 3rd/mempool/src/mempool.c:365-375 | appending an unqueued block of the pool keeps the queued blocks distinct and in the pool, and adds that block |
| Queue.QueuedPop | 3rd/mempool/src/mempool.c:378-393 | dropping the oldest entry keeps the rest distinct and in the pool, and removes its block |
| Queue.BufferQueue.TailFollowsHead | 3rd/mempool/src/mempool.c:369-370 | every valid queue has `tail == (head + count) % capacity` and `tail < capacity` |
| Queue.BufferQueue.constructor | 3rd/mempool/src/mempool.c:292-324 | the new queue is valid and empty, with `head == tail == count == 0` and a zero membership bitmap |
| Queue.BufferQueue.ValidateBuffer | 3rd/mempool/src/mempool.c:341-362 | 0 exactly when the ring has room, the offset is in the arena and its block is not queued, with that block's index. Else -1 |
| Queue.BufferQueue.DoEnqueue | 3rd/mempool/src/mempool.c:365-375 | the entry joins the end of `contents`, `tail` moves one slot, `count` rises by one, and the queue stays valid |
| Queue.BufferQueue.DoDequeue | 3rd/mempool/src/mempool.c:378-393 | returns the oldest entry's offset and length and removes it. `head` moves one slot, `count` drops by one, and the queue stays valid |
| Queue.BufferQueue.EnqueueWithLength | 3rd/mempool/src/mempool.c:401-425 | 0 and `(index, length)` appended exactly when `ValidateBuffer` accepts. Else -1 and no change |
| Queue.BufferQueue.Enqueue | 3rd/mempool/src/mempool.c:396-399 | `EnqueueWithLength` with length 0 |
| Queue.BufferQueue.DequeueWithLength | 3rd/mempool/src/mempool.c:434-454 | no block and length 0 on an empty queue, with no change. Else the oldest entry's offset and length, removed (FIFO) |
| Queue.BufferQueue.Dequeue | 3rd/mempool/src/mempool.c:428-432 | `DequeueWithLength` without the length |
| Queue.BufferQueue.Peek | 3rd/mempool/src/mempool.c:457-478 | no block exactly when the queue is empty. Otherwise it gives the oldest entry's block offset, the one a dequeue would return, and changes nothing |
| Queue.BufferQueue.DequeueBatchWithLength | 3rd/mempool/src/mempool.c:481-507 | removes exactly `min(count, max_count)` entries and returns their offsets and lengths, oldest first |
| Queue.BufferQueue.Count | 3rd/mempool/src/mempool.c:510-516 | the number of live entries, at most the capacity |
| Queue.BufferQueue.IsEmpty | 3rd/mempool/src/mempool.c:519-523 | true exactly when no entry is queued |
| Queue.BufferQueue.IsFull | 3rd/mempool/src/mempool.c:526-530 | `count >= capacity` is true exactly when the ring holds `capacity` entries |
| Queue.Create | 3rd/mempool/src/mempool.c:284-325 | no queue exactly when the capacity is 0 or larger than the pool's block count. Otherwise a valid, empty ring on that pool, whose slot arrays and membership bitmap are new (so apart from the pool's bitmaps) |

Details for the members whose contracts are too long for the table:

- **Alloc.** It returns no block exactly when no block is free, and then nothing changes. Otherwise it returns the offset `i * block_size` of the lowest free block i, and:
  - block i leaves the free set, so the free count drops by one;
  - block i joins the hardware set exactly when `for_hw` is set.
- **Free.** The result depends on the block the offset falls in:
  - If the offset is inside the arena and its block is allocated, the block becomes free, the free count rises by one, and the block's hardware mark is dropped.
  - Any other offset changes neither the sets nor the bitmaps. So a second free of the same offset does nothing.
- **Pool.Create.** It returns no pool exactly in these cases:
  - a zero data size;
  - zero blocks;
  - more than 256 blocks;
  - a data size whose rounding would wrap;
  - an arena size that would not fit in `size_t`.

  Otherwise it returns the constructor's pool.
- **ValidateBuffer.** It returns 0 exactly when all three hold: the ring has room, the offset is inside the arena, and its block is not queued. Then it also gives the block index. Otherwise it returns -1.
- **DoEnqueue.** `contents` gains `(index, length)` at its end. `tail` moves one slot round the ring and `count` rises by one. The queue stays valid, including the membership bitmap.
- **DoDequeue.** It returns the oldest entry's block offset and length. `contents` loses that entry, `head` moves one slot on and `count` drops by one. The queue stays valid.
- **EnqueueWithLength.** It returns 0 exactly in the cases `ValidateBuffer` accepts. Then `(index, length)` is appended and `count` rises by one. Otherwise it returns -1 with the queue unchanged.
- **DequeueWithLength.** On an empty queue it returns no block and length 0, with nothing changed. Otherwise it returns the oldest entry's offset and length, and removes that entry: the queue is first in, first out.
- **DequeueBatchWithLength.** It removes exactly `min(count, max_count)` entries: none when `max_count == 0`. It returns their offsets and lengths, oldest first.

## Left out

- Locking (`MEMPOOL_LOCK` / `MEMPOOL_UNLOCK`, the pool mutex) is not modelled: every operation is one sequential step. The `count == 0` tests made before the lock is taken (mempool.c:438, 461) are therefore ordinary tests.
- The RISC-V `bset` branch of `find_first_set_bit` (mempool.c:16-20) is not modelled. The model follows the `__builtin_ffsll` / portable-loop meaning: the lowest set bit.
- The SWAR fallback of `POPCOUNT_LL` (mempool.c:46-53) is not modelled. Popcount is the number of set bits.
- `MEMPOOL_MALLOC`, `MEMPOOL_MEMALIGN` and `MEMPOOL_FREE` are foreign allocator calls, so the model leaves out:
  - their failure paths;
  - the allocation of the arena itself;
  - `mempool_destroy` and `mempool_queue_destroy`, including the queue destroy's failure to free `data_lengths`.
- Block contents are not modelled. Writes through returned pointers reduce to `Pool.MemoryPool.BlocksDisjoint`.
- `mempool_queue_dequeue_batch` is declared in `mempool.h` but defined nowhere, so there is nothing to model.
- `NULL` checks on the pool and queue pointers are preconditions here: a model object always exists. A `NULL` buffer is an offset outside the arena, which every operation already rejects.
- `NULL` out-parameters (`data_length`, `data_lengths`) are left out: the model always returns the lengths. `DequeueBatchWithLength` returns the offsets and lengths as sequences instead of writing them into caller arrays.
- Queue.BufferQueue.constructor: new `block_indices` / `data_lengths` arrays are zero in Dafny, while the C arrays are uninitialised. No live slot is ever read before it is written, so the difference is not observable.
- `DEBUG_PRINT` / `ERROR_PRINT` logging is left out.
- The unused `next` link of `mempool_queue_t` is left out.
- Pool.MemoryPool.Alloc: its contract states the new bitmaps through the sets they mirror, not word by word. `Bitmaps.MirrorsDetermines` shows that the set fixes every word, and `Bitmaps.RemovedIsWithoutBit` and `Bitmaps.AddedIsWithBit` show that only the block's own bits change.
- Pool.MemoryPool.Free: its contract states the new bitmaps through the sets they mirror, in the same way as Alloc's.

## Findings

| source | as written | input that shows it | evidently intended | confidence | as-written member | corrected member |
|---|---|---|---|---|---|---|
| 3rd/mempool/src/mempool.c:96-110 | every free word starts all ones, and only the word of the last block is masked; later words stay all ones | `mempool_create(64, 1)`: blocks 64..255 are also marked free, so `available` is 193 and `used` wraps to 2^64 - 192 | bits at and above `block_count` are zero, so `available == block_count` | not executed | Pool.InitialFreeWordsAsWrittenOvercount | Pool.MemoryPool.constructor |
| 3rd/mempool/src/mempool.c:67 | `(data_size + 63) & ~63` in `size_t` | `data_size = 2^64 - 1` gives block size 0 | a data size whose rounding overflows is refused | not executed | Pool.AlignUpWrapsToZero | Pool.Create |
| 3rd/mempool/src/mempool.c:79 | `aligned_size * num_blocks` in `size_t` | 64 blocks of 2^58 + 64 bytes ask for 4096 bytes, and block 1 starts past the arena | an arena size that overflows `size_t` is refused | not executed | Pool.ArenaSizeWraps | Pool.Create |

The corrected constructor clears the words after the last block's word. `Pool.InitialFreeWordsMirror` proves that the result marks exactly the blocks below `num_blocks`. The corrected `Pool.Create` refuses the two overflowing sizes, and `Pool.AlignUpIsCeiling` holds for every size it accepts.

/**
 * The fixed-block memory pool of 3rd/mempool/src/mempool.c:57-281: an arena
 * of `block_count` blocks of `block_size` bytes, a free bitmap (a set bit is
 * a free block) and an advisory bitmap of blocks handed to hardware.
 *
 * A pointer is an offset from the arena base, so block i starts at
 * `i * block_size`; an offset below 0 or past the arena is a pointer
 * outside the pool.
 */
module Pool {
  import opened Wrappers
  import opened Config
  import opened Words
  import opened Bitmaps

  // ---------------------------------------------------------------------
  // Block size and arena size, in `size_t` arithmetic.

  /** `(data_size + MEMPOOL_ALIGNMENT - 1) & ~(MEMPOOL_ALIGNMENT - 1)`, wrapping like `size_t`. */
  function AlignUp(n: nat): nat
    requires n <= SIZE_MAX
  {
    WordAnd(((n + ALIGNMENT - 1) % SIZE_MOD) as u64, Complement((ALIGNMENT - 1) as u64)) as nat
  }

  /** The mask `~63` clears the six low bits: the sum rounds down to a multiple of 64. */
  lemma AlignUpRoundsDown(n: nat)
    requires n <= SIZE_MAX
    ensures var s := (n + ALIGNMENT - 1) % SIZE_MOD; AlignUp(n) == s - s % ALIGNMENT
  {
    var s := (n + ALIGNMENT - 1) % SIZE_MOD;
    AndClearsLowSix(s);
  }

  /**
   * Since MEMPOOL_ALIGNMENT is a power of two, the rounded size is the least
   * multiple of 64 that holds n bytes, as long as `n + 63` does not wrap.
   */
  lemma AlignUpIsCeiling(n: nat)
    requires n <= SIZE_MAX - (ALIGNMENT - 1)
    ensures AlignUp(n) % ALIGNMENT == 0
    ensures n <= AlignUp(n) < n + ALIGNMENT
    ensures forall m: nat :: m % ALIGNMENT == 0 && n <= m ==> AlignUp(n) <= m
  {
    AlignUpRoundsDown(n);
  }

  /** For the 63 largest `size_t` values, `n + 63` wraps and the rounded size is 0. */
  lemma AlignUpWrapsToZero(n: nat)
    requires SIZE_MAX - (ALIGNMENT - 1) < n <= SIZE_MAX
    ensures AlignUp(n) == 0
  {
    AlignUpRoundsDown(n);
  }

  /** `aligned_size * num_blocks` as `size_t`, the size handed to MEMPOOL_MEMALIGN (mempool.c:79). */
  function ArenaSizeAsWritten(blockSize: nat, numBlocks: nat): nat {
    (blockSize * numBlocks) % SIZE_MOD
  }

  /**
   * A pool of 64 blocks of 2^58 + 64 bytes asks for a 4096-byte arena:
   * the product wraps, and block 1 already starts past the arena's end.
   */
  lemma ArenaSizeWraps()
    ensures AlignUp(0x400_0000_0000_0040) == 0x400_0000_0000_0040
    ensures ArenaSizeAsWritten(AlignUp(0x400_0000_0000_0040), 64) == 4096
    ensures 1 * AlignUp(0x400_0000_0000_0040) > 4096
  {
    AlignUpIsCeiling(0x400_0000_0000_0040);
  }

  // ---------------------------------------------------------------------
  // The initial free bitmap.

  /** The block indices 0 .. n-1. */
  ghost function Blocks(n: nat): set<nat> {
    if n == 0 then {} else Blocks(n - 1) + {n - 1}
  }

  /** Blocks(n) holds the n indices below n. */
  lemma {:induction false} BlocksMembers(n: nat)
    ensures forall i :: i in Blocks(n) <==> 0 <= i < n
    ensures |Blocks(n)| == n
  {
    if n > 0 {
      BlocksMembers(n - 1);
    }
  }

  /**
   * The free bitmap as mempool_create leaves it (mempool.c:96-110): every
   * word all ones, then the word holding the last block masked to its
   * `num_blocks % 64` low bits. Words after that one stay all ones.
   */
  function InitialFreeWordsAsWritten(numBlocks: nat): (r: seq<u64>)
    requires 0 < numBlocks <= MAX_BLOCKS
    ensures IsBitmap(r)
  {
    var words := [ALL_ONES, ALL_ONES, ALL_ONES, ALL_ONES];
    if numBlocks % BITMAP_EACH_NUM != 0 then
      var usedBits := numBlocks % BITMAP_EACH_NUM;
      var lastWord := (numBlocks - 1) / BITMAP_EACH_NUM;
      words[lastWord := WordAnd(words[lastWord], Mask(usedBits) - 1)]
    else
      words
  }

  /**
   * With one block, that block and the 192 blocks of words 1 to 3 are
   * marked free: `mempool_available` would report 193 and `mempool_used`
   * would wrap to 2^64 - 192.
   */
  lemma InitialFreeWordsAsWrittenOvercount()
    ensures IsSet(InitialFreeWordsAsWritten(1), 64)
    ensures PopCountSum(InitialFreeWordsAsWritten(1), BITMAP_WORDS) == 193
    ensures (1 - PopCountSum(InitialFreeWordsAsWritten(1), BITMAP_WORDS)) % SIZE_MOD == SIZE_MOD - 192
  {
    var bm := InitialFreeWordsAsWritten(1);
    IsSetInWord(bm, 1, 0);
    AllOnesEffect(0);
    CountBitsOfAllOnes(BITMAP_EACH_NUM);
    CountBitsOfLowMask(1, BITMAP_EACH_NUM);
    assert PopCount(bm[0]) == 1;
  }

  /**
   * The initial free bitmap with the missing step added: the words after
   * the last block's word are cleared as well.
   */
  function InitialFreeWords(numBlocks: nat): (r: seq<u64>)
    requires 0 < numBlocks <= MAX_BLOCKS
    ensures IsBitmap(r)
  {
    var asWritten := InitialFreeWordsAsWritten(numBlocks);
    seq(BITMAP_WORDS, w requires 0 <= w < BITMAP_WORDS =>
      if w < (numBlocks + BITMAP_EACH_NUM - 1) / BITMAP_EACH_NUM then asWritten[w] else 0)
  }

  /** Exactly the blocks 0 .. numBlocks-1 are free in the corrected initial bitmap. */
  lemma InitialFreeWordsMirror(numBlocks: nat)
    requires 0 < numBlocks <= MAX_BLOCKS
    ensures Mirrors(InitialFreeWords(numBlocks), Blocks(numBlocks))
  {
    var bm := InitialFreeWords(numBlocks);
    var usedWords := (numBlocks + BITMAP_EACH_NUM - 1) / BITMAP_EACH_NUM;
    forall j | 0 <= j < MAX_BLOCKS
      ensures IsSet(bm, j) <==> j < numBlocks
    {
      var w, c := j / BITMAP_EACH_NUM, j % BITMAP_EACH_NUM;
      if w >= usedWords {
        BitOfZero(c);
      } else if numBlocks % BITMAP_EACH_NUM != 0 && w == (numBlocks - 1) / BITMAP_EACH_NUM {
        LowMaskEffect(numBlocks % BITMAP_EACH_NUM, c);
      } else {
        AllOnesEffect(c);
      }
    }
    BlocksMembers(numBlocks);
  }

  /** Hence a new pool has `available == num_blocks`. */
  lemma InitialFreeWordsCount(numBlocks: nat)
    requires 0 < numBlocks <= MAX_BLOCKS
    ensures PopCountSum(InitialFreeWords(numBlocks), BITMAP_WORDS) == numBlocks
  {
    InitialFreeWordsMirror(numBlocks);
    PopCountSumIsFlatCount(InitialFreeWords(numBlocks), BITMAP_WORDS);
    MirroredCount(InitialFreeWords(numBlocks), Blocks(numBlocks));
    BlocksMembers(numBlocks);
  }

  // ---------------------------------------------------------------------
  // The pool (`mempool_t`, mempool.h:49-61).

  class MemoryPool {
    /** `block_size_unaligned`: the requested data size. */
    const blockSizeUnaligned: nat
    /** `block_size`: the data size rounded up to MEMPOOL_ALIGNMENT. */
    const blockSize: nat
    /** `block_count`. */
    const blockCount: nat
    /** `free_bitmap`: a set bit marks a free block. */
    const freeBitmap: array<u64>
    /** `hw_owned_bitmap`: a set bit marks a block allocated for hardware. */
    const hwOwnedBitmap: array<u64>

    /** The free blocks and the blocks marked as hardware-owned. */
    ghost var free: set<nat>
    ghost var hwOwned: set<nat>

    /** The sizes fixed at creation. */
    predicate Geometry() {
      0 < blockSizeUnaligned <= blockSize < blockSizeUnaligned + ALIGNMENT &&
      blockSize % ALIGNMENT == 0 &&
      0 < blockCount <= MAX_BLOCKS &&
      blockSize * blockCount <= SIZE_MAX
    }

    ghost predicate Valid()
      reads this, freeBitmap, hwOwnedBitmap
    {
      Geometry() &&
      freeBitmap.Length == BITMAP_WORDS && hwOwnedBitmap.Length == BITMAP_WORDS &&
      freeBitmap != hwOwnedBitmap &&
      Mirrors(freeBitmap[..], free) && Mirrors(hwOwnedBitmap[..], hwOwned) &&
      (forall i :: i in free ==> i < blockCount) &&
      (forall i :: i in hwOwned ==> i < blockCount && i !in free)
    }

    /**
     * The body of mempool_create after its checks (mempool.c:91-110), with
     * the words after the last block's word cleared.
     */
    constructor (dataSize: nat, numBlocks: nat)
      requires 0 < dataSize <= SIZE_MAX - (ALIGNMENT - 1)
      requires 0 < numBlocks <= MAX_BLOCKS
      requires AlignUp(dataSize) * numBlocks <= SIZE_MAX
      ensures Valid() && fresh(freeBitmap) && fresh(hwOwnedBitmap)
      ensures blockSizeUnaligned == dataSize && blockSize == AlignUp(dataSize) && blockCount == numBlocks
      ensures freeBitmap[..] == InitialFreeWords(numBlocks) && hwOwnedBitmap[..] == [0, 0, 0, 0]
      ensures free == Blocks(numBlocks) && hwOwned == {}
    {
      AlignUpIsCeiling(dataSize);
      blockSizeUnaligned := dataSize;
      blockSize := AlignUp(dataSize);
      blockCount := numBlocks;
      freeBitmap := new u64[BITMAP_WORDS];
      hwOwnedBitmap := new u64[BITMAP_WORDS];
      new;
      for i := 0 to BITMAP_WORDS
        invariant forall k :: 0 <= k < i ==> freeBitmap[k] == ALL_ONES && hwOwnedBitmap[k] == 0
      {
        freeBitmap[i] := ALL_ONES;
        hwOwnedBitmap[i] := 0;
      }
      if numBlocks % BITMAP_EACH_NUM != 0 {
        var usedBits := numBlocks % BITMAP_EACH_NUM;
        var lastWord := (numBlocks - 1) / BITMAP_EACH_NUM;
        freeBitmap[lastWord] := WordAnd(freeBitmap[lastWord], Mask(usedBits) - 1);
      }
      assert freeBitmap[..] == InitialFreeWordsAsWritten(numBlocks);
      for i := (numBlocks + BITMAP_EACH_NUM - 1) / BITMAP_EACH_NUM to BITMAP_WORDS
        invariant forall k :: 0 <= k < BITMAP_WORDS ==>
          freeBitmap[k] == (if k < i then InitialFreeWords(numBlocks)[k] else InitialFreeWordsAsWritten(numBlocks)[k])
        invariant forall k :: 0 <= k < BITMAP_WORDS ==> hwOwnedBitmap[k] == 0
      {
        freeBitmap[i] := 0;
      }
      assert freeBitmap[..] == InitialFreeWords(numBlocks);
      assert hwOwnedBitmap[..] == [0, 0, 0, 0];
      free := Blocks(numBlocks);
      hwOwned := {};
      InitialFreeWordsMirror(numBlocks);
      MirrorsEmpty();
      BlocksMembers(numBlocks);
    }

    /**
     * `get_block_index` (mempool.c:271-281): the block holding the byte at
     * offset ptr, or -1 when ptr lies outside the arena.
     */
    function BlockIndex(ptr: int): (r: int)
      ensures r == -1 <==> !(0 <= ptr < blockSize * blockCount)
      ensures r != -1 ==> 0 <= r < blockCount && r * blockSize <= ptr < r * blockSize + blockSize
    {
      if ptr < 0 || ptr >= blockSize * blockCount then -1
      else
        DivBelow(ptr, blockSize, blockCount);
        ptr / blockSize
    }

    /**
     * The offset of block i from the arena base: i blocks of blockSize
     * bytes, summed so that no product reaches the solver.
     */
    function BlockOffset(i: nat): nat {
      if i == 0 then 0 else BlockOffset(i - 1) + blockSize
    }

    /** Block i starts at `i * block_size` (mempool.c:168, 392). */
    lemma {:induction false} BlockOffsetIsProduct(i: nat)
      ensures BlockOffset(i) == i * blockSize
    {
      if i > 0 {
        BlockOffsetIsProduct(i - 1);
      }
    }

    /** Block i's offset lies in the arena and maps back to i. */
    lemma BlockIndexRoundTrip(i: nat)
      requires Geometry() && i < blockCount
      ensures BlockOffset(i) < blockSize * blockCount
      ensures BlockIndex(BlockOffset(i)) == i
    {
      BlockOffsetIsProduct(i);
      MulMonotone(blockSize, i + 1, blockCount);
      DivModUnique(i * blockSize, blockSize, i, 0);
    }

    /** Distinct blocks occupy disjoint byte ranges. */
    lemma BlocksDisjoint(i: nat, j: nat)
      requires Geometry() && i < j
      ensures i * blockSize + blockSize <= j * blockSize
    {
      MulMonotone(blockSize, i + 1, j);
    }

    /** `mempool_block_size`: the aligned block size, the least multiple of 64 holding the data size. */
    method BlockSize() returns (r: nat)
      requires Geometry()
      ensures r == blockSize
      ensures r % ALIGNMENT == 0 && blockSizeUnaligned <= r < blockSizeUnaligned + ALIGNMENT
    {
      r := blockSize;
    }

    /** `mempool_available` (mempool.c:235-255): sums the free words' bit counts. */
    method Available() returns (count: nat)
      requires Valid()
      ensures count == |free|
      ensures count <= blockCount
    {
      count := 0;
      for i := 0 to BITMAP_WORDS
        invariant count == PopCountSum(freeBitmap[..], i)
      {
        count := count + PopCount(freeBitmap[i]);
      }
      PopCountSumIsFlatCount(freeBitmap[..], BITMAP_WORDS);
      MirroredCount(freeBitmap[..], free);
      BoundedSetSize(free, blockCount);
    }

    /** `mempool_used` (mempool.c:258-262): `block_count - available` in `size_t`, which never wraps. */
    method Used() returns (used: nat)
      requires Valid()
      ensures used == blockCount - |free|
    {
      var available := Available();
      DivModUnique(blockCount - available, SIZE_MOD, 0, blockCount - available);
      used := (blockCount - available) % SIZE_MOD;
    }

    /**
     * `mempool_alloc` (mempool.c:129-181): takes the lowest free block,
     * clears its free bit and, for hardware, sets its hardware bit.
     */
    method Alloc(forHw: bool) returns (block: Option<nat>)
      requires Valid()
      modifies this, freeBitmap, hwOwnedBitmap
      ensures Valid()
      ensures block.None? <==> old(free) == {}
      ensures block.None? ==>
        free == old(free) && hwOwned == old(hwOwned) &&
        freeBitmap[..] == old(freeBitmap[..]) && hwOwnedBitmap[..] == old(hwOwnedBitmap[..])
      ensures block.Some? ==>
        var i := BlockIndex(block.value);
        i >= 0 && block.value == BlockOffset(i) &&
        i in old(free) && (forall j :: j in old(free) ==> i <= j) &&
        free == old(free) - {i} && |free| == |old(free)| - 1 &&
        hwOwned == (if forHw then old(hwOwned) + {i} else old(hwOwned))
    {
      var i := 0;
      while i < BITMAP_WORDS
        invariant 0 <= i <= BITMAP_WORDS
        invariant forall j :: j in free ==> BITMAP_EACH_NUM * i <= j
        invariant free == old(free) && hwOwned == old(hwOwned)
        invariant freeBitmap[..] == old(freeBitmap[..]) && hwOwnedBitmap[..] == old(hwOwnedBitmap[..])
      {
        var bitmap := freeBitmap[i];
        if bitmap == 0 {
          forall j | BITMAP_EACH_NUM * i <= j < BITMAP_EACH_NUM * i + BITMAP_EACH_NUM
            ensures j !in free
          {
            IsSetInWord(freeBitmap[..], i, j - BITMAP_EACH_NUM * i);
            BitOfZero(j - BITMAP_EACH_NUM * i);
          }
        } else {
          var bitPos := FindFirstSetBit(bitmap);
          var blockIdx := i * BITMAP_EACH_NUM + bitPos;
          IsSetInWord(freeBitmap[..], i, bitPos);
          // The masking invariant: a set free bit always names a block of the pool.
          assert blockIdx < blockCount;
          if blockIdx < blockCount {
            forall j | BITMAP_EACH_NUM * i <= j < blockIdx
              ensures j !in free
            {
              IsSetInWord(freeBitmap[..], i, j - BITMAP_EACH_NUM * i);
            }
            ClearBit(freeBitmap, i, bitPos, free, free - {blockIdx});
            if forHw {
              SetBit(hwOwnedBitmap, i, bitPos, hwOwned, hwOwned + {blockIdx});
              hwOwned := hwOwned + {blockIdx};
            }
            free := free - {blockIdx};
            BlockIndexRoundTrip(blockIdx);
            return Some(BlockOffset(blockIdx));
          }
        }
        i := i + 1;
      }
      return None;
    }

    /**
     * `mempool_free` (mempool.c:184-232): an offset inside the arena whose
     * block is allocated frees that block and drops its hardware mark; any
     * other offset changes nothing, so freeing twice is freeing once.
     */
    method Free(ptr: int)
      requires Valid()
      modifies this, freeBitmap, hwOwnedBitmap
      ensures Valid()
      ensures var i := BlockIndex(ptr);
        if i >= 0 && i !in old(free) then
          free == old(free) + {i} && |free| == |old(free)| + 1 && hwOwned == old(hwOwned) - {i}
        else
          free == old(free) && hwOwned == old(hwOwned) &&
          freeBitmap[..] == old(freeBitmap[..]) && hwOwnedBitmap[..] == old(hwOwnedBitmap[..])
    {
      // The range check and `offset / block_size` are those of get_block_index;
      // the later `block_idx >= block_count` check cannot fire after them.
      var index := BlockIndex(ptr);
      if index < 0 {
        return;
      }
      var blockIdx: nat := index;
      var wordIdx := blockIdx / BITMAP_EACH_NUM;
      var bitPos := blockIdx % BITMAP_EACH_NUM;
      var isFree := TestWordBit(freeBitmap, wordIdx, bitPos);
      if isFree {
        return;
      }
      var isHw := TestWordBit(hwOwnedBitmap, wordIdx, bitPos);
      if isHw {
        ClearBit(hwOwnedBitmap, wordIdx, bitPos, hwOwned, hwOwned - {blockIdx});
      } else {
        assert hwOwned - {blockIdx} == hwOwned;
      }
      SetBit(freeBitmap, wordIdx, bitPos, free, free + {blockIdx});
      free := free + {blockIdx};
      hwOwned := hwOwned - {blockIdx};
    }
  }

  /**
   * `mempool_create` (mempool.c:58-113). No pool for a zero data size, a
   * zero block count or more than MEMPOOL_MAX_BLOCKS blocks, nor when the
   * rounded block size or the arena size would not fit in `size_t`.
   */
  method Create(dataSize: nat, numBlocks: nat) returns (pool: Option<MemoryPool>)
    requires dataSize <= SIZE_MAX && numBlocks <= SIZE_MAX
    ensures pool.None? <==>
      dataSize == 0 || numBlocks == 0 || numBlocks > MAX_BLOCKS ||
      dataSize > SIZE_MAX - (ALIGNMENT - 1) || AlignUp(dataSize) * numBlocks > SIZE_MAX
    ensures pool.Some? ==>
      var p := pool.value;
      fresh(p) && fresh(p.freeBitmap) && fresh(p.hwOwnedBitmap) && p.Valid() &&
      p.blockSizeUnaligned == dataSize && p.blockSize == AlignUp(dataSize) && p.blockCount == numBlocks &&
      p.free == Blocks(numBlocks) && p.hwOwned == {}
  {
    if dataSize == 0 || numBlocks == 0 || numBlocks > MAX_BLOCKS {
      return None;
    }
    var alignedSize := AlignUp(dataSize);
    if dataSize > SIZE_MAX - (ALIGNMENT - 1) || alignedSize * numBlocks > SIZE_MAX {
      return None;
    }
    var p := new MemoryPool(dataSize, numBlocks);
    return Some(p);
  }
}

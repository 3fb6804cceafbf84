/**
 * Compile-time configuration of the pool (3rd/mempool/include/mempool.h):
 * alignment, the block ceiling, the bitmap geometry it selects, the integer
 * widths and the `MEMPOOL_MIN` macro.
 */
module Config {

  /** `MEMPOOL_ALIGNMENT`: block size and arena base are multiples of this. */
  const ALIGNMENT: nat := 64
  /** `MEMPOOL_MAX_BLOCKS`: the largest block count a pool may have. */
  const MAX_BLOCKS: nat := 256
  /** With 256 blocks the header selects four 64-bit bitmap words. */
  const BITMAP_WORDS: nat := 4
  /** `MEMPOOL_BITMAP_EACH_NUM`: bits per bitmap word, `sizeof(uint64_t) * 8`. */
  const BITMAP_EACH_NUM: nat := 64
  /** `LOG2_MEMPOOL_BITMAP_EACH_NUM`. */
  const LOG2_BITMAP_EACH_NUM: nat := 6

  /** `size_t` is 64 bits wide: values live in [0, SIZE_MOD). */
  const SIZE_MOD: nat := 0x1_0000_0000_0000_0000
  const SIZE_MAX: nat := SIZE_MOD - 1

  /** The queue stores block indices as `uint16_t`. */
  newtype u16 = x: int | 0 <= x < 0x1_0000

  /** `BITMAP_TYPE`, `uint64_t` for a 256-block ceiling. */
  newtype u64 = x: int | 0 <= x < 0x1_0000_0000_0000_0000

  /** `MEMPOOL_MIN(a, b)`. */
  function Min(a: int, b: int): (r: int)
    ensures r <= a && r <= b
    ensures r == a || r == b
  {
    if a < b then a else b
  }
}

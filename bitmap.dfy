/**
 * The block bitmaps of mempool.h:55-56 and 73: BITMAP_WORDS words of 64
 * bits, one bit per block index. Block i is bit i % 64 of word i / 64 (the
 * addressing of mempool.c:213-214); the queue computes the same position
 * with a shift and a mask (mempool.c:354-355).
 */
module Bitmaps {
  import opened Config
  import opened Words

  lemma WordsCoverAllBlocks()
    ensures BITMAP_WORDS * BITMAP_EACH_NUM == MAX_BLOCKS
  {
  }

  /**
   * `i >> LOG2_MEMPOOL_BITMAP_EACH_NUM` and `i & (MEMPOOL_BITMAP_EACH_NUM - 1)`
   * are the word index and bit position `i / 64` and `i % 64`, and for a
   * block index the word index is one of the BITMAP_WORDS words.
   */
  lemma ShiftMaskAddressing(i: nat)
    ensures Shr(i, LOG2_BITMAP_EACH_NUM) == i / BITMAP_EACH_NUM
    ensures And(i, BITMAP_EACH_NUM - 1) == i % BITMAP_EACH_NUM
    ensures i < MAX_BLOCKS ==> i / BITMAP_EACH_NUM < BITMAP_WORDS
  {
    Pow2Of64();
    ShrIsDivision(i, LOG2_BITMAP_EACH_NUM);
    AndSixtyThree(i);
  }

  predicate IsBitmap(bm: seq<u64>) {
    |bm| == BITMAP_WORDS
  }

  /** Block i's bit in bitmap bm. */
  predicate IsSet(bm: seq<u64>, i: nat)
    requires IsBitmap(bm) && i < MAX_BLOCKS
  {
    WordBit(bm[i / BITMAP_EACH_NUM], i % BITMAP_EACH_NUM)
  }

  /** The bitmap bm has exactly the members of s set. */
  ghost predicate Mirrors(bm: seq<u64>, s: set<nat>) {
    IsBitmap(bm) &&
    (forall i :: i in s ==> i < MAX_BLOCKS) &&
    (forall i :: 0 <= i < MAX_BLOCKS ==> (IsSet(bm, i) <==> i in s))
  }

  /** Block i's bit as its word and bit position see it. */
  lemma IsSetInWord(bm: seq<u64>, w: nat, c: nat)
    requires IsBitmap(bm) && w < BITMAP_WORDS && c < BITMAP_EACH_NUM
    ensures IsSet(bm, BITMAP_EACH_NUM * w + c) <==> WordBit(bm[w], c)
  {
    var i := BITMAP_EACH_NUM * w + c;
    assert i / BITMAP_EACH_NUM == w && i % BITMAP_EACH_NUM == c;
  }

  /** The bitmap with block i's bit set (`bm[i/64] |= 1 << i%64`). */
  function WithBit(bm: seq<u64>, i: nat): (r: seq<u64>)
    requires IsBitmap(bm) && i < MAX_BLOCKS
    ensures IsBitmap(r)
  {
    bm[i / BITMAP_EACH_NUM := WordOr(bm[i / BITMAP_EACH_NUM], Mask(i % BITMAP_EACH_NUM))]
  }

  /** The bitmap with block i's bit cleared (`bm[i/64] &= ~(1 << i%64)`). */
  function WithoutBit(bm: seq<u64>, i: nat): (r: seq<u64>)
    requires IsBitmap(bm) && i < MAX_BLOCKS
    ensures IsBitmap(r)
  {
    bm[i / BITMAP_EACH_NUM := WordAnd(bm[i / BITMAP_EACH_NUM], Complement(Mask(i % BITMAP_EACH_NUM)))]
  }

  /** Setting block i's bit sets i and leaves every other block's bit as it was. */
  lemma {:induction false} SetFlatBit(bm: seq<u64>, i: nat, j: nat)
    requires IsBitmap(bm) && i < MAX_BLOCKS && j < MAX_BLOCKS
    ensures IsSet(WithBit(bm, i), j) <==> j == i || IsSet(bm, j)
  {
    if j / BITMAP_EACH_NUM == i / BITMAP_EACH_NUM {
      SetBitEffect(bm[i / BITMAP_EACH_NUM], i % BITMAP_EACH_NUM, j % BITMAP_EACH_NUM);
    }
  }

  /** Clearing block i's bit clears i and leaves every other block's bit as it was. */
  lemma {:induction false} ClearFlatBit(bm: seq<u64>, i: nat, j: nat)
    requires IsBitmap(bm) && i < MAX_BLOCKS && j < MAX_BLOCKS
    ensures IsSet(WithoutBit(bm, i), j) <==> j != i && IsSet(bm, j)
  {
    if j / BITMAP_EACH_NUM == i / BITMAP_EACH_NUM {
      ClearBitEffect(bm[i / BITMAP_EACH_NUM], i % BITMAP_EACH_NUM, j % BITMAP_EACH_NUM);
    }
  }

  /** Setting block i's bit adds i to the mirrored set. */
  lemma MirrorsWithBit(bm: seq<u64>, s: set<nat>, i: nat)
    requires Mirrors(bm, s) && i < MAX_BLOCKS
    ensures Mirrors(WithBit(bm, i), s + {i})
  {
    forall j | 0 <= j < MAX_BLOCKS
      ensures IsSet(WithBit(bm, i), j) <==> j in s + {i}
    {
      SetFlatBit(bm, i, j);
    }
  }

  /** Clearing block i's bit removes i from the mirrored set. */
  lemma MirrorsWithoutBit(bm: seq<u64>, s: set<nat>, i: nat)
    requires Mirrors(bm, s) && i < MAX_BLOCKS
    ensures Mirrors(WithoutBit(bm, i), s - {i})
  {
    forall j | 0 <= j < MAX_BLOCKS
      ensures IsSet(WithoutBit(bm, i), j) <==> j in s - {i}
    {
      ClearFlatBit(bm, i, j);
    }
  }

  /** The all-zero bitmap mirrors the empty set. */
  lemma MirrorsEmpty()
    ensures Mirrors([0, 0, 0, 0], {})
  {
    forall j | 0 <= j < MAX_BLOCKS
      ensures !IsSet([0, 0, 0, 0], j)
    {
      BitOfZero(j % BITMAP_EACH_NUM);
    }
  }

  /** Number of set bits among block indices below k. */
  function FlatCount(bm: seq<u64>, k: nat): nat
    requires IsBitmap(bm) && k <= MAX_BLOCKS
  {
    if k == 0 then 0 else FlatCount(bm, k - 1) + (if IsSet(bm, k - 1) then 1 else 0)
  }

  /** Counting through word w adds that word's own count of set bits. */
  lemma {:induction false} FlatCountThroughWord(bm: seq<u64>, w: nat, c: nat)
    requires IsBitmap(bm) && w < BITMAP_WORDS && c <= BITMAP_EACH_NUM
    ensures FlatCount(bm, BITMAP_EACH_NUM * w + c)
         == FlatCount(bm, BITMAP_EACH_NUM * w) + CountBits(bm[w] as nat, c)
  {
    if c > 0 {
      FlatCountThroughWord(bm, w, c - 1);
      IsSetInWord(bm, w, c - 1);
    }
  }

  /** `POPCOUNT_LL` summed over the first k words (the loop of mempool.c:248-251). */
  function PopCountSum(bm: seq<u64>, k: nat): nat
    requires IsBitmap(bm) && k <= BITMAP_WORDS
  {
    if k == 0 then 0 else PopCountSum(bm, k - 1) + PopCount(bm[k - 1])
  }

  /** Summing the words' bit counts counts the blocks whose bit is set. */
  lemma {:induction false} PopCountSumIsFlatCount(bm: seq<u64>, k: nat)
    requires IsBitmap(bm) && k <= BITMAP_WORDS
    ensures PopCountSum(bm, k) == FlatCount(bm, BITMAP_EACH_NUM * k)
  {
    if k > 0 {
      PopCountSumIsFlatCount(bm, k - 1);
      FlatCountThroughWord(bm, k - 1, BITMAP_EACH_NUM);
    }
  }

  /** The members of s below k. */
  ghost function Below(s: set<nat>, k: nat): set<nat> {
    set i | i in s && i < k
  }

  /** Below(s, k) gains k - 1 over Below(s, k - 1) exactly when k - 1 is in s. */
  lemma BelowStep(s: set<nat>, k: nat)
    requires k > 0
    ensures Below(s, k) == Below(s, k - 1) + (if k - 1 in s then {k - 1} else {})
    ensures k - 1 !in Below(s, k - 1)
  {
  }

  /** The set bits below k of a bitmap that mirrors s are the members of s below k. */
  lemma {:induction false} FlatCountIsCardinality(bm: seq<u64>, s: set<nat>, k: nat)
    requires Mirrors(bm, s) && k <= MAX_BLOCKS
    ensures FlatCount(bm, k) == |Below(s, k)|
  {
    if k == 0 {
      assert Below(s, 0) == {};
    } else {
      FlatCountIsCardinality(bm, s, k - 1);
      BelowStep(s, k);
    }
  }

  /** The number of set bits of a bitmap is the size of the set it mirrors. */
  lemma MirroredCount(bm: seq<u64>, s: set<nat>)
    requires Mirrors(bm, s)
    ensures FlatCount(bm, MAX_BLOCKS) == |s|
  {
    FlatCountIsCardinality(bm, s, MAX_BLOCKS);
    assert Below(s, MAX_BLOCKS) == s;
  }

  /** A set of indices below n has at most n members. */
  lemma {:induction false} BoundedSetSize(s: set<nat>, n: nat)
    requires forall i :: i in s ==> i < n
    ensures |s| <= n
  {
    if n > 0 {
      BoundedSetSize(s - {n - 1}, n - 1);
    } else {
      assert s == {};
    }
  }

  /** A bitmap is determined by the set it mirrors. */
  lemma MirrorsDetermines(bm1: seq<u64>, bm2: seq<u64>, s: set<nat>)
    requires Mirrors(bm1, s) && Mirrors(bm2, s)
    ensures bm1 == bm2
  {
    forall w | 0 <= w < BITMAP_WORDS
      ensures bm1[w] == bm2[w]
    {
      forall c | 0 <= c < BITMAP_EACH_NUM
        ensures WordBit(bm1[w], c) <==> WordBit(bm2[w], c)
      {
        IsSetInWord(bm1, w, c);
        IsSetInWord(bm2, w, c);
      }
      WordBitsDetermine(bm1[w], bm2[w]);
    }
  }

  /**
   * A bitmap that mirrors s + {i} is the old one with only i's bit set:
   * every other block keeps its bit (with SetFlatBit).
   */
  lemma AddedIsWithBit(bm: seq<u64>, bm': seq<u64>, s: set<nat>, i: nat)
    requires Mirrors(bm, s) && Mirrors(bm', s + {i}) && i < MAX_BLOCKS
    ensures bm' == WithBit(bm, i)
  {
    MirrorsWithBit(bm, s, i);
    MirrorsDetermines(bm', WithBit(bm, i), s + {i});
  }

  /**
   * A bitmap that mirrors s - {i} is the old one with only i's bit cleared:
   * every other block keeps its bit (with ClearFlatBit).
   */
  lemma RemovedIsWithoutBit(bm: seq<u64>, bm': seq<u64>, s: set<nat>, i: nat)
    requires Mirrors(bm, s) && Mirrors(bm', s - {i}) && i < MAX_BLOCKS
    ensures bm' == WithoutBit(bm, i)
  {
    MirrorsWithoutBit(bm, s, i);
    MirrorsDetermines(bm', WithoutBit(bm, i), s - {i});
  }

  // ---------------------------------------------------------------------
  // In-place updates of a bitmap array, one word at a time. The caller
  // passes the word index and bit position it computed for the block, and
  // the sets the bitmap mirrors before and after; by MirrorsDetermines the
  // set after fixes every word of the new bitmap.

  /** `bm[wordIdx] |= (BITMAP_TYPE)1 << bitPos`: adds block 64 * wordIdx + bitPos. */
  method SetBit(bm: array<u64>, wordIdx: nat, bitPos: nat, ghost s: set<nat>, ghost s': set<nat>)
    requires bm.Length == BITMAP_WORDS && wordIdx < BITMAP_WORDS && bitPos < BITMAP_EACH_NUM
    requires Mirrors(bm[..], s) && s' == s + {BITMAP_EACH_NUM * wordIdx + bitPos}
    modifies bm
    ensures Mirrors(bm[..], s')
  {
    ghost var i := BITMAP_EACH_NUM * wordIdx + bitPos;
    assert i / BITMAP_EACH_NUM == wordIdx && i % BITMAP_EACH_NUM == bitPos;
    MirrorsWithBit(bm[..], s, i);
    bm[wordIdx] := WordOr(bm[wordIdx], Mask(bitPos));
    assert bm[..] == WithBit(old(bm[..]), i);
  }

  /** `bm[wordIdx] &= ~((BITMAP_TYPE)1 << bitPos)`: removes block 64 * wordIdx + bitPos. */
  method ClearBit(bm: array<u64>, wordIdx: nat, bitPos: nat, ghost s: set<nat>, ghost s': set<nat>)
    requires bm.Length == BITMAP_WORDS && wordIdx < BITMAP_WORDS && bitPos < BITMAP_EACH_NUM
    requires Mirrors(bm[..], s) && s' == s - {BITMAP_EACH_NUM * wordIdx + bitPos}
    modifies bm
    ensures Mirrors(bm[..], s')
  {
    ghost var i := BITMAP_EACH_NUM * wordIdx + bitPos;
    assert i / BITMAP_EACH_NUM == wordIdx && i % BITMAP_EACH_NUM == bitPos;
    MirrorsWithoutBit(bm[..], s, i);
    bm[wordIdx] := WordAnd(bm[wordIdx], Complement(Mask(bitPos)));
    assert bm[..] == WithoutBit(old(bm[..]), i);
  }

  /** `(bm[wordIdx] & ((BITMAP_TYPE)1 << bitPos)) != 0`: whether block 64 * wordIdx + bitPos is set. */
  method TestWordBit(bm: array<u64>, wordIdx: nat, bitPos: nat) returns (b: bool)
    requires bm.Length == BITMAP_WORDS && wordIdx < BITMAP_WORDS && bitPos < BITMAP_EACH_NUM
    ensures b == IsSet(bm[..], BITMAP_EACH_NUM * wordIdx + bitPos)
  {
    IsSetInWord(bm[..], wordIdx, bitPos);
    TestBit(bm[wordIdx], bitPos);
    b := WordAnd(bm[wordIdx], Mask(bitPos)) != 0;
  }
}

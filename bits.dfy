/**
 * `uint64_t` / `size_t` arithmetic used by 3rd/mempool/src/mempool.c:
 * bitwise `|`, `&`, `~`, `1 << k`, `>>`, `find_first_set_bit` and
 * `POPCOUNT_LL`. A 64-bit word is a natural number below 2^64; the bitwise
 * operators are defined bit by bit (least significant bit first), and the
 * lemmas below say what each does to every bit.
 */
module Words {
  import opened Config

  /** 2^k. */
  function Pow2(k: nat): (r: nat)
    ensures r >= 1
  {
    if k == 0 then 1 else 2 * Pow2(k - 1)
  }

  /** Bit k of w (bit 0 is the least significant). */
  predicate Bit(w: nat, k: nat) {
    if k == 0 then w % 2 == 1 else Bit(w / 2, k - 1)
  }

  /** Bitwise or, `a | b`. */
  function Or(a: nat, b: nat): nat
    decreases a + b
  {
    if a == 0 && b == 0 then 0
    else 2 * Or(a / 2, b / 2) + (if a % 2 == 1 || b % 2 == 1 then 1 else 0)
  }

  /** Bitwise and, `a & b`. */
  function And(a: nat, b: nat): nat
    decreases a + b
  {
    if a == 0 || b == 0 then 0
    else 2 * And(a / 2, b / 2) + (if a % 2 == 1 && b % 2 == 1 then 1 else 0)
  }

  /** Logical right shift, `x >> k`: drops the k low bits. */
  function Shr(x: nat, k: nat): nat {
    if k == 0 then x else Shr(x / 2, k - 1)
  }

  /** Bit k of a 64-bit word. */
  predicate WordBit(w: u64, k: nat) {
    Bit(w as nat, k)
  }

  /** `(BITMAP_TYPE)(-1)`: all 64 bits set. */
  const ALL_ONES: u64 := 0xFFFF_FFFF_FFFF_FFFF

  /** `~a` on a 64-bit word. */
  function Complement(a: u64): u64 {
    ALL_ONES - a
  }

  /** `a | b` on 64-bit words. */
  function WordOr(a: u64, b: u64): u64 {
    Pow2Of64();
    OrBelow(a as nat, b as nat, 64);
    Or(a as nat, b as nat) as u64
  }

  /** `a & b` on 64-bit words. */
  function WordAnd(a: u64, b: u64): u64 {
    AndAtMost(a as nat, b as nat);
    And(a as nat, b as nat) as u64
  }

  /** `(BITMAP_TYPE)1 << k`. */
  function Mask(k: nat): u64
    requires k < 64
  {
    Pow2Monotone(k, 64);
    Pow2Of64();
    Pow2(k) as u64
  }

  // ---------------------------------------------------------------------
  // Powers of two.

  lemma {:induction false} Pow2Add(a: nat, b: nat)
    ensures Pow2(a + b) == Pow2(a) * Pow2(b)
  {
    if b > 0 {
      Pow2Add(a, b - 1);
      assert Pow2(a + b) == 2 * Pow2(a + b - 1);
      assert Pow2(a) * Pow2(b) == Pow2(a) * (2 * Pow2(b - 1));
    }
  }

  lemma Pow2Of16()
    ensures Pow2(16) == 0x1_0000
  {
    assert Pow2(8) == 256;
    Pow2Add(8, 8);
  }

  lemma Pow2Of32()
    ensures Pow2(32) == 0x1_0000_0000
  {
    Pow2Of16();
    Pow2Add(16, 16);
  }

  /** A word has 64 bits, and a bitmap word holds BITMAP_EACH_NUM = 2^6 of them. */
  lemma Pow2Of64()
    ensures Pow2(64) == SIZE_MOD
    ensures Pow2(LOG2_BITMAP_EACH_NUM) == BITMAP_EACH_NUM
  {
    Pow2Of32();
    Pow2Add(32, 32);
  }

  lemma {:induction false} Pow2Monotone(j: nat, k: nat)
    requires j < k
    ensures Pow2(j) < Pow2(k)
  {
    if j < k - 1 {
      Pow2Monotone(j, k - 1);
    }
  }

  // ---------------------------------------------------------------------
  // What the operators do to each bit.

  lemma {:induction false} BitOfZero(k: nat)
    ensures !Bit(0, k)
  {
    if k > 0 {
      BitOfZero(k - 1);
    }
  }

  lemma {:induction false} BitOfOr(a: nat, b: nat, k: nat)
    ensures Bit(Or(a, b), k) <==> Bit(a, k) || Bit(b, k)
    decreases k
  {
    if a == 0 && b == 0 {
      BitOfZero(k);
    } else if k > 0 {
      BitOfOr(a / 2, b / 2, k - 1);
    }
  }

  lemma {:induction false} BitOfAnd(a: nat, b: nat, k: nat)
    ensures Bit(And(a, b), k) <==> Bit(a, k) && Bit(b, k)
    decreases k
  {
    if a == 0 || b == 0 {
      BitOfZero(k);
    } else if k > 0 {
      BitOfAnd(a / 2, b / 2, k - 1);
    }
  }

  /** 2^j has exactly bit j set. */
  lemma {:induction false} BitOfPow2(j: nat, k: nat)
    ensures Bit(Pow2(j), k) <==> k == j
  {
    if j == 0 {
      if k > 0 {
        BitOfZero(k - 1);
      }
    } else if k > 0 {
      BitOfPow2(j - 1, k - 1);
    }
  }

  /** 2^u - 1 has exactly the bits below u set. */
  lemma {:induction false} BitOfLowMask(u: nat, k: nat)
    ensures Bit(Pow2(u) - 1, k) <==> k < u
  {
    if u == 0 {
      BitOfZero(k);
    } else if k > 0 {
      BitOfLowMask(u - 1, k - 1);
    }
  }

  /** Within n bits, 2^n - 1 - a flips every bit of a. */
  lemma {:induction false} BitOfComplementIn(a: nat, n: nat, k: nat)
    requires a < Pow2(n) && k < n
    ensures Bit(Pow2(n) - 1 - a, k) <==> !Bit(a, k)
  {
    if k > 0 {
      BitOfComplementIn(a / 2, n - 1, k - 1);
    }
  }

  /** A nonzero word below 2^n has a set bit below n. */
  lemma {:induction false} SomeBitBelow(w: nat, n: nat)
    requires 0 < w < Pow2(n)
    ensures exists k :: 0 <= k < n && Bit(w, k)
  {
    if w % 2 == 1 {
      assert Bit(w, 0);
    } else {
      SomeBitBelow(w / 2, n - 1);
      var k :| 0 <= k < n - 1 && Bit(w / 2, k);
      assert Bit(w, k + 1);
    }
  }

  // ---------------------------------------------------------------------
  // Bounds: the operators stay within the word.

  lemma {:induction false} OrBelow(a: nat, b: nat, n: nat)
    requires a < Pow2(n) && b < Pow2(n)
    ensures Or(a, b) < Pow2(n)
  {
    if n > 0 && !(a == 0 && b == 0) {
      OrBelow(a / 2, b / 2, n - 1);
    }
  }

  lemma {:induction false} AndAtMost(a: nat, b: nat)
    ensures And(a, b) <= a
    decreases a + b
  {
    if a != 0 && b != 0 {
      AndAtMost(a / 2, b / 2);
    }
  }

  // ---------------------------------------------------------------------
  // The word operations of the pool, bit by bit.

  /** Two numbers below 2^n that agree on their n low bits are equal. */
  lemma {:induction false} BitsDetermine(a: nat, b: nat, n: nat)
    requires a < Pow2(n) && b < Pow2(n)
    requires forall k :: 0 <= k < n ==> (Bit(a, k) <==> Bit(b, k))
    ensures a == b
  {
    if n > 0 {
      forall k | 0 <= k < n - 1
        ensures Bit(a / 2, k) <==> Bit(b / 2, k)
      {
        assert Bit(a, k + 1) <==> Bit(b, k + 1);
      }
      BitsDetermine(a / 2, b / 2, n - 1);
      assert Bit(a, 0) <==> Bit(b, 0);
    }
  }

  /** A 64-bit word is determined by its 64 bits. */
  lemma WordBitsDetermine(a: u64, b: u64)
    requires forall k :: 0 <= k < 64 ==> (WordBit(a, k) <==> WordBit(b, k))
    ensures a == b
  {
    Pow2Of64();
    var x, y := a as nat, b as nat;
    forall k | 0 <= k < 64
      ensures Bit(x, k) <==> Bit(y, k)
    {
      assert WordBit(a, k) <==> WordBit(b, k);
    }
    BitsDetermine(x, y, 64);
  }

  /** `w & (1 << k)` is nonzero exactly when bit k of w is set. */
  lemma {:induction false} TestBit(w: u64, k: nat)
    requires k < 64
    ensures WordAnd(w, Mask(k)) != 0 <==> WordBit(w, k)
  {
    var v := And(w as nat, Pow2(k));
    if v == 0 {
      BitOfAnd(w as nat, Pow2(k), k);
      BitOfPow2(k, k);
      BitOfZero(k);
    } else {
      Pow2Of64();
      AndAtMost(w as nat, Pow2(k));
      SomeBitBelow(v, 64);
      var c :| 0 <= c < 64 && Bit(v, c);
      BitOfAnd(w as nat, Pow2(k), c);
      BitOfPow2(k, c);
    }
  }

  /** `w | (1 << k)` sets bit k and keeps every other bit. */
  lemma {:induction false} SetBitEffect(w: u64, k: nat, j: nat)
    requires k < 64
    ensures WordBit(WordOr(w, Mask(k)), j) <==> j == k || WordBit(w, j)
  {
    BitOfOr(w as nat, Pow2(k), j);
    BitOfPow2(k, j);
  }

  /** `w & ~(1 << k)` clears bit k and keeps every other bit of the word. */
  lemma {:induction false} ClearBitEffect(w: u64, k: nat, j: nat)
    requires k < 64 && j < 64
    ensures WordBit(WordAnd(w, Complement(Mask(k))), j) <==> j != k && WordBit(w, j)
  {
    Pow2Of64();
    BitOfAnd(w as nat, Complement(Mask(k)) as nat, j);
    BitOfComplementIn(Pow2(k), 64, j);
    BitOfPow2(k, j);
  }

  /** `ALL_ONES & ((1 << u) - 1)` keeps exactly the bits below u. */
  lemma {:induction false} LowMaskEffect(u: nat, j: nat)
    requires 0 < u < 64
    ensures WordBit(WordAnd(ALL_ONES, Mask(u) - 1), j) <==> j < u
  {
    Pow2Of64();
    BitOfAnd(ALL_ONES as nat, Pow2(u) - 1, j);
    BitOfLowMask(64, j);
    BitOfLowMask(u, j);
  }

  /** ALL_ONES has all 64 bits set, and no bit beyond. */
  lemma {:induction false} AllOnesEffect(j: nat)
    ensures WordBit(ALL_ONES, j) <==> j < 64
  {
    Pow2Of64();
    BitOfLowMask(64, j);
  }

  /** A nonzero word has a set bit among its 64. */
  lemma NonzeroHasBit(w: u64)
    requires w != 0
    ensures exists c :: 0 <= c < 64 && WordBit(w, c)
  {
    Pow2Of64();
    SomeBitBelow(w as nat, 64);
    var c :| 0 <= c < 64 && Bit(w as nat, c);
    assert WordBit(w, c);
  }

  /**
   * `find_first_set_bit` (mempool.c:12-35, the portable loop of lines
   * 30-32): -1 for a zero word, otherwise the position of the lowest set bit.
   */
  method FindFirstSetBit(w: u64) returns (r: int)
    ensures w == 0 <==> r == -1
    ensures w != 0 ==> 0 <= r < 64 && WordBit(w, r)
    ensures w != 0 ==> forall c :: 0 <= c < r ==> !WordBit(w, c)
  {
    if w == 0 {
      return -1;
    }
    NonzeroHasBit(w);
    var i := 0;
    TestBit(w, i);
    while WordAnd(w, Mask(i)) == 0
      invariant 0 <= i < 64
      invariant WordAnd(w, Mask(i)) != 0 <==> WordBit(w, i)
      invariant forall c :: 0 <= c < i ==> !WordBit(w, c)
      invariant exists c :: i <= c < 64 && WordBit(w, c)
      decreases 64 - i
    {
      i := i + 1;
      TestBit(w, i);
    }
    r := i;
  }

  // ---------------------------------------------------------------------
  // Population count.

  /** Number of set bits of w among positions below k. */
  function CountBits(w: nat, k: nat): nat {
    if k == 0 then 0 else CountBits(w, k - 1) + (if Bit(w, k - 1) then 1 else 0)
  }

  /** `POPCOUNT_LL`: the number of set bits of a 64-bit word. */
  function PopCount(w: u64): nat {
    CountBits(w as nat, 64)
  }

  /** Counting bits below k of the low mask of u gives min(u, k). */
  lemma {:induction false} CountBitsOfLowMask(u: nat, k: nat)
    requires 0 < u < 64
    ensures CountBits(WordAnd(ALL_ONES, Mask(u) - 1) as nat, k) == Min(u, k)
  {
    if k > 0 {
      CountBitsOfLowMask(u, k - 1);
      LowMaskEffect(u, k - 1);
    }
  }

  lemma {:induction false} CountBitsOfAllOnes(k: nat)
    requires k <= 64
    ensures CountBits(ALL_ONES as nat, k) == k
    ensures CountBits(0, k) == 0
  {
    if k > 0 {
      CountBitsOfAllOnes(k - 1);
      AllOnesEffect(k - 1);
      BitOfZero(k - 1);
    }
  }

  // ---------------------------------------------------------------------
  // Shift and mask versus division and remainder.

  lemma MulAtLeast(d: int, z: int)
    requires d > 0 && z >= 1
    ensures d * z >= d
  {
    assert d * z == d * (z - 1) + d;
  }

  /** Division with remainder is unique. */
  lemma DivModUnique(x: int, d: int, q: int, r: int)
    requires d > 0 && x == d * q + r && 0 <= r < d
    ensures x / d == q && x % d == r
  {
    var q0, r0 := x / d, x % d;
    assert d * q0 + r0 == x;
    if q > q0 {
      MulAtLeast(d, q - q0);
    } else if q < q0 {
      MulAtLeast(d, q0 - q);
    }
  }

  /** Multiplying by a positive factor keeps an order. */
  lemma MulMonotone(d: nat, a: nat, b: nat)
    requires a <= b
    ensures d * a <= d * b
  {
    assert d * b == d * a + d * (b - a);
  }

  /**
   * For x below d * n, the quotient x / d is below n, and x lies in the
   * quotient's stretch [q * d, q * d + d).
   */
  lemma DivBelow(x: nat, d: nat, n: nat)
    requires x < d * n
    ensures d > 0
    ensures x / d < n
    ensures (x / d) * d <= x < (x / d) * d + d
  {
    if d > 0 {
      var q := x / d;
      assert x == d * q + x % d;
      if q >= n {
        MulMonotone(d, n, q);
      }
    }
  }

  /** Quotient and remainder by 2p, from those of x / 2 by p. */
  lemma DivModDouble(x: nat, p: nat)
    requires p > 0
    ensures x / (2 * p) == (x / 2) / p
    ensures x % (2 * p) == 2 * ((x / 2) % p) + x % 2
  {
    var q, s := (x / 2) / p, (x / 2) % p;
    assert x == (2 * p) * q + (2 * s + x % 2);
    DivModUnique(x, 2 * p, q, 2 * s + x % 2);
  }

  /** `x >> k` is division by 2^k. */
  lemma {:induction false} ShrIsDivision(x: nat, k: nat)
    ensures Shr(x, k) == x / Pow2(k)
  {
    if k > 0 {
      ShrIsDivision(x / 2, k - 1);
      DivModDouble(x, Pow2(k - 1));
    }
  }

  /** With an odd mask 2p - 1, bit 0 of x survives and the rest shifts. */
  lemma AndOddMask(x: nat, p: nat)
    requires p > 0
    ensures And(x, 2 * p - 1) == 2 * And(x / 2, p - 1) + x % 2
  {
    assert (2 * p - 1) / 2 == p - 1 && (2 * p - 1) % 2 == 1;
  }

  /** `x & (2^k - 1)` keeps an x below 2^k. */
  lemma {:induction false} AndLowMaskKeeps(x: nat, k: nat)
    requires x < Pow2(k)
    ensures And(x, Pow2(k) - 1) == x
  {
    if k > 0 {
      var p := Pow2(k - 1);
      AndLowMaskKeeps(x / 2, k - 1);
      AndOddMask(x, p);
    }
  }

  /** `x & 63` is the remainder modulo 64: the six low bits, one halving at a time. */
  lemma AndSixtyThree(x: nat)
    ensures And(x, 63) == x % 64
  {
    var x1 := x / 2;
    var x2 := x1 / 2;
    var x3 := x2 / 2;
    var x4 := x3 / 2;
    var x5 := x4 / 2;
    var x6 := x5 / 2;
    AndOddMask(x, 32);
    AndOddMask(x1, 16);
    AndOddMask(x2, 8);
    AndOddMask(x3, 4);
    AndOddMask(x4, 2);
    AndOddMask(x5, 1);
    assert And(x6, 0) == 0;
    var low := 32 * (x5 % 2) + 16 * (x4 % 2) + 8 * (x3 % 2) + 4 * (x2 % 2) + 2 * (x1 % 2) + x % 2;
    assert And(x, 63) == low;
    DivModUnique(x, 64, x6, low);
  }

  /** With an even mask, bit 0 of `x & mask` is clear and the rest shifts. */
  lemma AndEvenMask(x: nat, mask: nat)
    requires mask % 2 == 0
    ensures And(x, mask) == 2 * And(x / 2, mask / 2)
  {
  }

  /**
   * `x & ~63` on a 64-bit word (the mask 2^64 - 64) rounds x down to a
   * multiple of 64: six halvings move the mask onto the 58-bit all-ones
   * mask, which keeps x / 64.
   */
  lemma AndClearsLowSix(x: nat)
    requires x < SIZE_MOD
    ensures And(x, SIZE_MOD - 64) == x - x % 64
  {
    var x1 := x / 2;
    var x2 := x1 / 2;
    var x3 := x2 / 2;
    var x4 := x3 / 2;
    var x5 := x4 / 2;
    var x6 := x5 / 2;
    AndEvenMask(x, 0xFFFF_FFFF_FFFF_FFC0);
    AndEvenMask(x1, 0x7FFF_FFFF_FFFF_FFE0);
    AndEvenMask(x2, 0x3FFF_FFFF_FFFF_FFF0);
    AndEvenMask(x3, 0x1FFF_FFFF_FFFF_FFF8);
    AndEvenMask(x4, 0x0FFF_FFFF_FFFF_FFFC);
    AndEvenMask(x5, 0x07FF_FFFF_FFFF_FFFE);
    var low := 32 * (x5 % 2) + 16 * (x4 % 2) + 8 * (x3 % 2) + 4 * (x2 % 2) + 2 * (x1 % 2) + x % 2;
    assert x == 64 * x6 + low;
    Pow2Of64();
    Pow2Add(58, 6);
    AndLowMaskKeeps(x6, 58);
    DivModUnique(x, 64, x6, low);
  }
}

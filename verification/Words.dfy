/** Machine words and the bit operations of the C source, on mathematical integers.
    Fields and locals of a word type are proved to stay in range wherever they are
    assigned; the one word that is meant to wrap, the decoder's head index, wraps
    explicitly. */
module Words {
  type uint8 = x: int | 0 <= x < 0x100
  type uint16 = x: int | 0 <= x < 0x1_0000
  type int16 = x: int | -0x8000 <= x < 0x8000

  /** v << k */
  function ShiftLeft(v: nat, k: nat): nat {
    if k == 0 then v else 2 * ShiftLeft(v, k - 1)
  }

  /** v >> k */
  function ShiftRight(v: nat, k: nat): nat {
    if k == 0 then v else ShiftRight(v / 2, k - 1)
  }

  /** 1 << k */
  function Pow2(k: nat): (r: nat)
    ensures r >= 1
  {
    if k == 0 then 1 else 2 * Pow2(k - 1)
  }

  /** a & b */
  function And(a: nat, b: nat): nat {
    if a == 0 || b == 0 then 0
    else 2 * And(a / 2, b / 2) + (if a % 2 == 1 && b % 2 == 1 then 1 else 0)
  }

  /** a | b */
  function Or(a: nat, b: nat): nat {
    if a == 0 then b
    else if b == 0 then a
    else 2 * Or(a / 2, b / 2) + (if a % 2 == 1 || b % 2 == 1 then 1 else 0)
  }

  /** The low k bits of v, in other words v modulo 2^k. */
  function LowBits(v: nat, k: nat): (r: nat)
    ensures r < Pow2(k)
  {
    if k == 0 then 0 else 2 * LowBits(v / 2, k - 1) + v % 2
  }

  /** The bit pattern of a 32-bit C `int`, for masking a difference that may be negative. */
  function IntPattern(x: int): nat
    requires -0x8000_0000 <= x < 0x8000_0000
  {
    if x < 0 then x + 0x1_0000_0000 else x
  }

  /** ++ on a uint16_t */
  function Increment16(x: uint16): uint16 {
    if x == 0xFFFF then 0 else x + 1
  }

  lemma {:induction false} Pow2Monotone(a: nat, b: nat)
    requires a <= b
    ensures Pow2(a) <= Pow2(b)
    decreases b
  {
    if a < b {
      Pow2Monotone(a, b - 1);
    }
  }

  lemma Pow2Values()
    ensures Pow2(3) == 8 && Pow2(4) == 16 && Pow2(8) == 0x100
    ensures Pow2(14) == 0x4000 && Pow2(15) == 0x8000 && Pow2(16) == 0x1_0000
    ensures Pow2(32) == 0x1_0000_0000
  {
    assert Pow2(2) == 4;
    assert Pow2(4) == 16;
    assert Pow2(6) == 0x40;
    assert Pow2(8) == 0x100;
    assert Pow2(10) == 0x400;
    assert Pow2(12) == 0x1000;
    assert Pow2(14) == 0x4000;
    assert Pow2(16) == 0x1_0000;
    assert Pow2(18) == 0x4_0000;
    assert Pow2(20) == 0x10_0000;
    assert Pow2(22) == 0x40_0000;
    assert Pow2(24) == 0x100_0000;
    assert Pow2(26) == 0x400_0000;
    assert Pow2(28) == 0x1000_0000;
    assert Pow2(30) == 0x4000_0000;
  }

  lemma {:induction false} ShiftRightOnce(v: nat, k: nat)
    ensures ShiftRight(v, k) / 2 == ShiftRight(v, k + 1)
  {
    if k != 0 {
      ShiftRightOnce(v / 2, k - 1);
    }
  }

  lemma ShiftNothing(v: nat)
    ensures ShiftRight(v, 0) == v
  {}

  /** Shifting up multiplies; shifting down cuts off the low bits. */
  lemma {:induction false} ShiftMeaning(v: nat, k: nat)
    ensures ShiftLeft(v, k) == v * Pow2(k)
    ensures ShiftLeft(ShiftRight(v, k), k) + LowBits(v, k) == v
  {
    if k != 0 {
      ShiftMeaning(v, k - 1);
      ShiftMeaning(v / 2, k - 1);
    }
  }

  /** `&` and `|` work bit by bit. */
  lemma {:induction false} AndOrAt(a: nat, b: nat, i: nat)
    ensures ShiftRight(And(a, b), i) % 2 == 1 <==> ShiftRight(a, i) % 2 == 1 && ShiftRight(b, i) % 2 == 1
    ensures ShiftRight(Or(a, b), i) % 2 == 1 <==> ShiftRight(a, i) % 2 == 1 || ShiftRight(b, i) % 2 == 1
  {
    if a == 0 || b == 0 {
      ShiftRightZero(i);
    } else if i != 0 {
      AndOrAt(a / 2, b / 2, i - 1);
    }
  }

  lemma {:induction false} ShiftLeftOnce(v: nat, k: nat)
    ensures ShiftLeft(2 * v, k) == ShiftLeft(v, k + 1)
  {
    if k != 0 {
      ShiftLeftOnce(v, k - 1);
    }
  }

  lemma {:induction false} ShiftLeftBound(v: nat, k: nat, m: nat)
    requires v < Pow2(k)
    ensures ShiftLeft(v, m) <= Pow2(k + m) - Pow2(m)
  {
    if m != 0 {
      ShiftLeftBound(v, k, m - 1);
      assert k + m - 1 == k + (m - 1);
    }
  }

  /** `x & (1 << k)` tests bit k. */
  lemma {:induction false} AndBit(x: nat, k: nat)
    ensures And(x, Pow2(k)) != 0 <==> ShiftRight(x, k) % 2 == 1
  {
    if x == 0 {
      ShiftRightZero(k);
    } else if k == 0 {
      assert And(x, 1) == 2 * And(x / 2, 0) + x % 2;
    } else {
      AndBit(x / 2, k - 1);
    }
  }

  lemma {:induction false} ShiftRightZero(k: nat)
    ensures ShiftRight(0, k) == 0
  {
    if k != 0 {
      ShiftRightZero(k - 1);
    }
  }

  /** `x & ((1 << k) - 1)` keeps the low k bits. */
  lemma {:induction false} AndMask(x: nat, k: nat)
    ensures And(x, Pow2(k) - 1) == LowBits(x, k)
  {
    if x == 0 {
      LowBitsZero(k);
    } else if k != 0 {
      AndMask(x / 2, k - 1);
    }
  }

  lemma {:induction false} LowBitsZero(k: nat)
    ensures LowBits(0, k) == 0
  {
    if k != 0 {
      LowBitsZero(k - 1);
    }
  }

  /** Setting the bit just below a shifted value appends a one to it. */
  lemma {:induction false} OrBitBelow(v: nat, k: nat)
    ensures Or(ShiftLeft(v, k + 1), Pow2(k)) == ShiftLeft(2 * v + 1, k)
  {
    if k == 0 {
      assert ShiftLeft(v, 1) == 2 * v;
      assert Or(2 * v, 1) == if v == 0 then 1 else 2 * Or(v, 0) + 1;
    } else {
      OrBitBelow(v, k - 1);
      OrDouble(ShiftLeft(v, k), Pow2(k - 1));
    }
  }

  lemma OrDouble(a: nat, b: nat)
    ensures Or(2 * a, 2 * b) == 2 * Or(a, b)
  {
    assert 2 * a / 2 == a && 2 * b / 2 == b;
  }

  lemma OrOne(a: nat)
    ensures Or(2 * a, 1) == 2 * a + 1
  {
    assert Or(2 * a, 1) == if a == 0 then 1 else 2 * Or(a, 0) + 1;
  }

  /** `(a << k) | b` is a sum when b fits in the vacated bits. */
  lemma {:induction false} OrVacated(a: nat, b: nat, k: nat)
    requires b < Pow2(k)
    ensures Or(ShiftLeft(a, k), b) == ShiftLeft(a, k) + b
  {
    if k != 0 && b != 0 && ShiftLeft(a, k) != 0 {
      OrVacated(a, b / 2, k - 1);
      assert ShiftLeft(a, k) / 2 == ShiftLeft(a, k - 1);
    }
  }

  lemma {:induction false} LowBitsSmall(v: nat, k: nat)
    requires v < Pow2(k)
    ensures LowBits(v, k) == v
  {
    if k != 0 {
      LowBitsSmall(v / 2, k - 1);
    }
  }

  lemma {:induction false} LowBitsSuccessor(v: nat, k: nat)
    ensures LowBits(v + 1, k) == if LowBits(v, k) == Pow2(k) - 1 then 0 else LowBits(v, k) + 1
  {
    if k != 0 {
      LowBitsSuccessor(v / 2, k - 1);
      assert (v + 1) / 2 == if v % 2 == 1 then v / 2 + 1 else v / 2;
    }
  }

  /** Adding a multiple of 2^k, here a larger power of two, keeps the low k bits. */
  lemma {:induction false} LowBitsPlusPow2(v: nat, k: nat, m: nat)
    requires k <= m
    ensures LowBits(v + Pow2(m), k) == LowBits(v, k)
  {
    if k != 0 {
      assert (v + Pow2(m)) / 2 == v / 2 + Pow2(m - 1);
      LowBitsPlusPow2(v / 2, k - 1, m - 1);
    }
  }

  lemma {:induction false} LowBitsNested(v: nat, k: nat, m: nat)
    requires k <= m
    ensures LowBits(LowBits(v, m), k) == LowBits(v, k)
  {
    if k != 0 {
      LowBitsNested(v / 2, k - 1, m - 1);
      assert LowBits(v, m) / 2 == LowBits(v / 2, m - 1);
    }
  }

  /** Stepping back by the same amount keeps two numbers congruent. */
  lemma {:induction false} LowBitsCancel(a: nat, b: nat, c: nat, k: nat)
    requires LowBits(a + c, k) == LowBits(b + c, k)
    ensures LowBits(a, k) == LowBits(b, k)
  {
    if c != 0 {
      LowBitsSuccessor(a + (c - 1), k);
      LowBitsSuccessor(b + (c - 1), k);
      LowBitsCancel(a, b, c - 1, k);
    }
  }

  /** Equal low bits mean a whole number of periods apart. */
  lemma {:induction false} SameLowBits(i: nat, j: nat, k: nat)
    requires i < j && LowBits(i, k) == LowBits(j, k)
    ensures i + Pow2(k) <= j
  {
    if k != 0 {
      SameLowBits(i / 2, j / 2, k - 1);
    }
  }

  /** A 16-bit counter that wraps agrees with the unbounded count on the low bits. */
  lemma Increment16IsLowBits(n: nat)
    ensures LowBits(n, 16) < 0x1_0000 && Increment16(LowBits(n, 16)) == LowBits(n + 1, 16)
  {
    Pow2Values();
    LowBitsSuccessor(n, 16);
  }

  lemma PatternPlusBack(head: uint16, back: uint16, k: nat)
    requires k <= 32
    ensures LowBits(IntPattern(head - back) + back, k) == LowBits(head, k)
  {
    if head < back {
      Pow2Values();
      LowBitsPlusPow2(head, k, 32);
    }
  }

  /** `(head - back) & mask`, with head a wrapped 16-bit counter that agrees with the count n
      below 2^k and the difference possibly negative, still addresses the right ring slot. */
  lemma MaskedDifference(n: nat, head: uint16, back: uint16, k: nat)
    requires LowBits(head, k) == LowBits(n, k) && k <= 16 && back <= n
    ensures And(IntPattern(head - back), Pow2(k) - 1) == LowBits(n - back, k)
  {
    AndMask(IntPattern(head - back), k);
    PatternPlusBack(head, back, k);
    LowBitsCancel(IntPattern(head - back), n - back, back, k);
  }
}

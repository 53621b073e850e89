/** Shifts, masks and powers of two on unsigned words, stated by repeated halving. */
module Bits {
  import opened Basics

  function Pow2(k: nat): (p: nat)
    ensures p >= 1
  {
    if k == 0 then 1 else 2 * Pow2(k - 1)
  }

  /** `x >> k`. */
  function ShiftRight(x: nat, k: nat): nat {
    if k == 0 then x else ShiftRight(x / 2, k - 1)
  }

  /** `(x >> k) & 1 == 1`. */
  predicate BitSet(x: nat, k: nat) {
    ShiftRight(x, k) % 2 == 1
  }

  /** `x | (1 << k)`. */
  function SetBit(x: nat, k: nat): nat {
    if BitSet(x, k) then x else x + Pow2(k)
  }

  /** The low `k` bits of `x`. */
  function LowBits(x: nat, k: nat): nat {
    if k == 0 then 0 else x % 2 + 2 * LowBits(x / 2, k - 1)
  }

  lemma {:induction false} ShiftRightNext(x: nat, k: nat)
    ensures ShiftRight(x, k + 1) == ShiftRight(x, k) / 2
  {
    if k > 0 {
      ShiftRightNext(x / 2, k - 1);
    }
  }

  lemma {:induction false} ShiftRightSmall(x: nat, k: nat)
    requires x < Pow2(k)
    ensures ShiftRight(x, k) == 0
  {
    if k > 0 {
      ShiftRightSmall(x / 2, k - 1);
    }
  }

  lemma {:induction false} LowBitsNext(x: nat, k: nat)
    ensures LowBits(x, k + 1) == LowBits(x, k) + (if BitSet(x, k) then Pow2(k) else 0)
  {
    if k > 0 {
      LowBitsNext(x / 2, k - 1);
    }
  }

  lemma {:induction false} LowBitsSmall(x: nat, k: nat)
    ensures LowBits(x, k) < Pow2(k)
    ensures x < Pow2(k) ==> LowBits(x, k) == x
  {
    if k > 0 {
      LowBitsSmall(x / 2, k - 1);
    }
  }

  lemma {:induction false} Pow2Monotone(j: nat, k: nat)
    requires j <= k
    ensures Pow2(j) <= Pow2(k)
    decreases k
  {
    if j < k {
      Pow2Monotone(j, k - 1);
    }
  }

  lemma {:induction false} ShiftRightSum(x: nat, a: nat, b: nat)
    ensures ShiftRight(x, a + b) == ShiftRight(ShiftRight(x, a), b)
    decreases a
  {
    if a > 0 {
      ShiftRightSum(x / 2, a - 1, b);
    }
  }

  /** Setting bit `k` sets that bit and no other. */
  lemma {:induction false} SetBitSetsOne(x: nat, k: nat, j: nat)
    ensures BitSet(SetBit(x, k), j) <==> BitSet(x, j) || j == k
    decreases k
  {
    var y := SetBit(x, k);
    if k == 0 {
      assert y / 2 == x / 2 && y % 2 == 1;
    } else {
      assert Pow2(k) == 2 * Pow2(k - 1);
      assert y / 2 == SetBit(x / 2, k - 1) && y % 2 == x % 2;
      if j > 0 {
        SetBitSetsOne(x / 2, k - 1, j - 1);
      }
    }
  }

  /** What is added above bit `k` does not change the bits below it. */
  lemma {:induction false} LowBitKept(x: nat, y: nat, k: nat, j: nat)
    requires j < k
    ensures BitSet(x + Pow2(k) * y, j) == BitSet(x, j)
  {
    MulTwice(Pow2(k - 1), y);
    if j > 0 {
      LowBitKept(x / 2, y, k - 1, j - 1);
    }
  }

  lemma {:induction false} HighPart(x: nat, y: nat, k: nat)
    ensures ShiftRight(x + Pow2(k) * y, k) == ShiftRight(x, k) + y
  {
    if k > 0 {
      MulTwice(Pow2(k - 1), y);
      HighPart(x / 2, y, k - 1);
    }
  }

  /** `n` bits read off a 64-bit word whose shift amount wraps at 64. */
  function Unrolled(word: Word64, n: nat): nat {
    if n <= 64 then word else word + (U64_MAX + 1) * Unrolled(word, n - 64)
  }

  /** Reading the unrolled bits is masking the shift amount. */
  lemma {:induction false} UnrolledBit(word: Word64, n: nat, level: nat)
    requires level < n
    ensures BitSet(Unrolled(word, n), level) == BitSet(word, level % 64)
    decreases n
  {
    if n > 64 {
      var rest, whole := Unrolled(word, n - 64), Unrolled(word, n);
      WordSizes();
      assert whole == word + Pow2(64) * rest;
      hide Pow2, ShiftRight, Unrolled;
      if level < 64 {
        LowBitKept(word, rest, 64, level);
      } else {
        HighPart(word, rest, 64);
        ShiftRightSmall(word, 64);
        ShiftRightSum(whole, 64, level - 64);
        UnrolledBit(word, n - 64, level - 64);
        assert level % 64 == (level - 64) % 64;
      }
    }
  }

  lemma WordSizes()
    ensures Pow2(20) == 1048576 && Pow2(64) == U64_MAX + 1
  {
    assert Pow2(4) == 16;
    hide Pow2;
    SumSize(4, 4, 16, 16);
    SumSize(8, 8, 256, 256);
    SumSize(16, 4, 65536, 16);
    SumSize(16, 16, 65536, 65536);
    SumSize(32, 32, 4294967296, 4294967296);
  }

  lemma {:induction false} SumSize(a: nat, b: nat, p: nat, q: nat)
    requires Pow2(a) == p && Pow2(b) == q
    ensures Pow2(a + b) == p * q
  {
    Pow2Sum(a, b);
  }

  lemma {:induction false} Pow2Sum(a: nat, b: nat)
    ensures Pow2(a + b) == Pow2(a) * Pow2(b)
    decreases a
  {
    if a > 0 {
      Pow2Sum(a - 1, b);
      MulTwice(Pow2(a - 1), Pow2(b));
    }
  }

  /** The number of halvings (rounding up) that bring `n` nodes down to one. */
  function Depth(n: nat): nat {
    if n <= 1 then 0 else 1 + Depth((n + 1) / 2)
  }

  /** `n` halved `k` times, rounding up. */
  function CeilShift(n: nat, k: nat): nat {
    if k == 0 then n else CeilShift((n + 1) / 2, k - 1)
  }

  function PopCount(x: nat): nat {
    if x == 0 then 0 else x % 2 + PopCount(x / 2)
  }

  /** `Depth(n)` is the ceiling of the base-2 logarithm. */
  lemma {:induction false} DepthIsCeilLog2(n: nat, d: nat)
    requires n >= 1
    ensures n <= Pow2(d) <==> Depth(n) <= d
    decreases d
  {
    if d == 0 {
    } else {
      DepthIsCeilLog2((n + 1) / 2, d - 1);
    }
  }

  lemma MulTwice(p: nat, c: int)
    ensures (2 * p) * c == 2 * (p * c)
  {
  }

  /** `CeilShift(n, k)` is the ceiling of `n / 2^k`. */
  lemma {:induction false} CeilShiftIsCeilDiv(n: nat, k: nat)
    requires n >= 1
    ensures var c := CeilShift(n, k); c >= 1 && Pow2(k) * (c - 1) < n <= Pow2(k) * c
  {
    if k > 0 {
      var h := (n + 1) / 2;
      CeilShiftIsCeilDiv(h, k - 1);
      var c, p := CeilShift(n, k), Pow2(k - 1);
      MulTwice(p, c - 1);
      MulTwice(p, c);
    }
  }

  lemma {:induction false} DepthAfter(n: nat, k: nat)
    requires n >= 1 && k <= Depth(n)
    ensures CeilShift(n, k) >= 1
    ensures Depth(CeilShift(n, k)) == Depth(n) - k
  {
    if k > 0 {
      DepthAfter((n + 1) / 2, k - 1);
    }
  }
}

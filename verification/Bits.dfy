/** Bitwise operators on natural numbers, digit by digit, and the arithmetic facts about
    power-of-two masks that the allocators rely on. */
module Bits {
  const PAGE: nat := 4096
  const PAGE_SHIFT: nat := 12
  const WORD: int := 0x1_0000_0000

  /** Conversion to a 32-bit unsigned number. */
  function U32(x: int): (r: int)
    ensures 0 <= r < WORD
    ensures 0 <= x < WORD ==> r == x
    ensures x < 0 <= x + WORD ==> r == x + WORD
  {
    x % WORD
  }

  function Min(a: int, b: int): int {
    if a <= b then a else b
  }

  function Pow2(n: nat): (r: nat)
    ensures r >= 1
  {
    if n == 0 then 1 else 2 * Pow2(n - 1)
  }

  /** n << o, without truncation */
  function Shl(n: int, o: nat): int {
    if o == 0 then n else 2 * Shl(n, o - 1)
  }

  lemma {:induction false} ShlStep(n: int, o: nat)
    ensures Shl(n + 1, o) == Shl(n, o) + Pow2(o)
  {
    if o > 0 {
      ShlStep(n, o - 1);
    }
  }

  lemma {:induction false} ShlZero(o: nat)
    ensures Shl(0, o) == 0
  {
    if o > 0 {
      ShlZero(o - 1);
    }
  }

  lemma {:induction false} ShlMonotone(m: int, n: int, o: nat)
    requires m <= n
    ensures Shl(m, o) <= Shl(n, o)
  {
    if o > 0 {
      ShlMonotone(m, n, o - 1);
    }
  }

  /** n >> o */
  function Shr(n: int, o: nat): int {
    if o == 0 then n else Shr(n, o - 1) / 2
  }

  /** True of 1, 2, 4, 8, ... */
  predicate IsPow2(a: nat) {
    a == 1 || (a > 1 && a % 2 == 0 && IsPow2(a / 2))
  }

  /** x & y */
  function And(x: nat, y: nat): nat {
    if x == 0 then 0 else (if x % 2 == 1 && y % 2 == 1 then 1 else 0) + 2 * And(x / 2, y / 2)
  }

  /** x & ~y */
  function AndNot(x: nat, y: nat): nat {
    if x == 0 then 0 else (if x % 2 == 1 && y % 2 == 0 then 1 else 0) + 2 * AndNot(x / 2, y / 2)
  }

  /** x ^ y */
  function Xor(x: nat, y: nat): nat
    decreases x + y
  {
    if x == 0 && y == 0 then 0
    else (if x % 2 != y % 2 then 1 else 0) + 2 * Xor(x / 2, y / 2)
  }

  /** Bit o of x. */
  predicate Bit(x: nat, o: nat) {
    if o == 0 then x % 2 == 1 else Bit(x / 2, o - 1)
  }

  /** The low o bits of x are zero. */
  predicate Aligned(x: nat, o: nat) {
    o == 0 || (x % 2 == 0 && Aligned(x / 2, o - 1))
  }

  /** The kernel's ALIGN(x, a): (x + a - 1) & ~(a - 1). */
  function AlignUp(x: nat, a: nat): nat
    requires a > 0
  {
    AndNot(x + a - 1, a - 1)
  }

  lemma {:induction false} MulMonotone(a: int, b: int, k: nat)
    requires a <= b
    ensures a * k <= b * k
  {
  }

  lemma {:induction false} Pow2Add(m: nat, n: nat)
    ensures Pow2(m + n) == Pow2(m) * Pow2(n)
  {
    if m > 0 {
      Pow2Add(m - 1, n);
      assert m + n - 1 == (m - 1) + n;
    }
  }

  lemma {:induction false} Pow2Monotone(m: nat, n: nat)
    requires m <= n
    ensures Pow2(m) <= Pow2(n)
  {
    if m < n {
      Pow2Monotone(m, n - 1);
    }
  }

  lemma {:induction false} Pow2IsPow2(n: nat)
    ensures IsPow2(Pow2(n))
  {
    if n > 0 {
      Pow2IsPow2(n - 1);
    }
  }

  lemma {:induction false} PageIsPow2()
    ensures Pow2(PAGE_SHIFT) == PAGE && IsPow2(PAGE)
  {
    assert Pow2(4) == 16;
    Pow2Add(4, 4);
    Pow2Add(8, 4);
    Pow2IsPow2(PAGE_SHIFT);
  }

  /** x = q * d + r with 0 <= r < d determines q and r. */
  lemma {:induction false} DivModUnique(x: int, d: int, q: int, r: int)
    requires d > 0 && x == q * d + r && 0 <= r < d
    ensures x / d == q && x % d == r
  {
    var q', r' := x / d, x % d;
    assert x == q' * d + r';
    assert (q - q') * d == r' - r by {
      assert (q - q') * d == q * d - q' * d;
    }
    if q > q' {
      MulMonotone(1, q - q', d);
    } else if q < q' {
      MulMonotone(q - q', -1, d);
    }
  }

  /** Halving commutes with division and remainder by an even divisor. */
  lemma {:induction false} HalfDivMod(x: nat, d: nat)
    requires d > 0
    ensures x / (2 * d) == (x / 2) / d
    ensures x % (2 * d) == x % 2 + 2 * ((x / 2) % d)
  {
    var h := x / 2;
    assert h == (h / d) * d + h % d;
    DivModUnique(x, 2 * d, h / d, x % 2 + 2 * (h % d));
  }

  /** Flipping one bit adds or subtracts its weight. */
  lemma {:induction false} XorPow2(x: nat, o: nat)
    ensures Xor(x, Pow2(o)) == if Bit(x, o) then x - Pow2(o) else x + Pow2(o)
  {
    if o == 0 {
      XorZero(x / 2);
    } else {
      XorPow2(x / 2, o - 1);
      assert Pow2(o) % 2 == 0 && Pow2(o) / 2 == Pow2(o - 1);
      assert Xor(x, Pow2(o)) == x % 2 + 2 * Xor(x / 2, Pow2(o - 1));
    }
  }

  lemma {:induction false} XorZero(x: nat)
    ensures Xor(x, 0) == x
  {
    if x > 0 {
      XorZero(x / 2);
    }
  }

  /** Clearing one bit subtracts its weight when it was set. */
  lemma {:induction false} AndNotPow2(x: nat, o: nat)
    ensures AndNot(x, Pow2(o)) == if Bit(x, o) then x - Pow2(o) else x
  {
    if x == 0 {
      ZeroHasNoBits(o);
    } else if o == 0 {
      AndNotZero(x / 2);
    } else {
      AndNotPow2(x / 2, o - 1);
      assert Pow2(o) % 2 == 0 && Pow2(o) / 2 == Pow2(o - 1);
      assert AndNot(x, Pow2(o)) == x % 2 + 2 * AndNot(x / 2, Pow2(o - 1));
    }
  }

  lemma {:induction false} ZeroHasNoBits(o: nat)
    ensures !Bit(0, o) && Aligned(0, o)
  {
    if o > 0 {
      ZeroHasNoBits(o - 1);
    }
  }

  /** Masking digit by digit. */
  lemma {:induction false} MaskStep(x: nat, n: nat)
    requires x > 0 && n > 0
    ensures var r := And(x, Pow2(n) - 1); r % 2 == x % 2 && r / 2 == And(x / 2, Pow2(n - 1) - 1)
    ensures AndNot(x, Pow2(n) - 1) == 2 * AndNot(x / 2, Pow2(n - 1) - 1)
  {
    var m := Pow2(n) - 1;
    assert m == 2 * (Pow2(n - 1) - 1) + 1;
    assert m / 2 == Pow2(n - 1) - 1 && m % 2 == 1;
  }

  /** Keeping the low n bits does not touch them. */
  lemma {:induction false} MaskKeepsLowBits(x: nat, n: nat, o: nat)
    ensures o < n ==> Bit(And(x, Pow2(n) - 1), o) == Bit(x, o)
    ensures o <= n ==> Aligned(And(x, Pow2(n) - 1), o) == Aligned(x, o)
  {
    if x > 0 && n > 0 {
      MaskStep(x, n);
      if o > 0 {
        MaskKeepsLowBits(x / 2, n - 1, o - 1);
      }
    }
  }

  /** A value has no low bits exactly when masking them gives zero. */
  lemma {:induction false} AlignedTest(x: nat, o: nat)
    ensures And(x, Pow2(o) - 1) == 0 <==> Aligned(x, o)
  {
    if x == 0 {
      ZeroHasNoBits(o);
    } else if o == 0 {
      AndZero(x / 2);
    } else {
      MaskStep(x, o);
      AlignedTest(x / 2, o - 1);
    }
  }

  /** Aligned means divisible by 2^o. */
  lemma {:induction false} AlignedIsMultiple(x: nat, o: nat)
    ensures Aligned(x, o) <==> x % Pow2(o) == 0
  {
    if o > 0 {
      AlignedIsMultiple(x / 2, o - 1);
      HalfDivMod(x, Pow2(o - 1));
    }
  }

  lemma {:induction false} AndNotZero(x: nat)
    ensures AndNot(x, 0) == x
  {
    if x > 0 {
      AndNotZero(x / 2);
    }
  }

  lemma {:induction false} AndZero(x: nat)
    ensures And(x, 0) == 0
  {
    if x > 0 {
      AndZero(x / 2);
    }
  }

  /** The number made of the low n bits. */
  function Low(x: nat, n: nat): nat {
    if n == 0 then 0 else x % 2 + 2 * Low(x / 2, n - 1)
  }

  lemma {:induction false} LowIsMod(x: nat, n: nat)
    ensures Low(x, n) == x % Pow2(n)
  {
    if n > 0 {
      LowIsMod(x / 2, n - 1);
      HalfDivMod(x, Pow2(n - 1));
    }
  }

  lemma {:induction false} ClearsLow(x: nat, n: nat)
    ensures AndNot(x, Pow2(n) - 1) == x - Low(x, n)
  {
    if x == 0 {
      LowIsMod(0, n);
      DivModUnique(0, Pow2(n), 0, 0);
    } else if n == 0 {
      AndNotZero(x);
    } else {
      ClearsLow(x / 2, n - 1);
      MaskStep(x, n);
    }
  }

  /** Clearing the low n bits rounds down. */
  lemma {:induction false} AndNotMask(x: nat, n: nat)
    ensures AndNot(x, Pow2(n) - 1) == x - x % Pow2(n)
  {
    ClearsLow(x, n);
    LowIsMod(x, n);
  }

  /** x is a multiple of the power of two a. */
  predicate MultipleOf(x: nat, a: nat)
    requires IsPow2(a)
  {
    a == 1 || (x % 2 == 0 && MultipleOf(x / 2, a / 2))
  }

  lemma {:induction false} MultipleIsMod(x: nat, a: nat)
    requires IsPow2(a)
    ensures MultipleOf(x, a) <==> x % a == 0
  {
    if a > 1 {
      MultipleIsMod(x / 2, a / 2);
      HalfDivMod(x, a / 2);
    }
  }

  lemma {:induction false} AlignUpHalf(x: nat, a: nat)
    requires IsPow2(a) && a > 1
    ensures AlignUp(x, a) == 2 * AlignUp((x + 1) / 2, a / 2)
  {
    assert (x + a - 1) / 2 == (x + 1) / 2 + a / 2 - 1 && (a - 1) / 2 == a / 2 - 1 && (a - 1) % 2 == 1;
  }

  /** ALIGN yields the least multiple of a power of two that is not below x. */
  lemma {:induction false} AlignUpIsLeast(x: nat, a: nat)
    requires IsPow2(a)
    ensures MultipleOf(AlignUp(x, a), a) && x <= AlignUp(x, a) < x + a
    ensures forall m: nat :: MultipleOf(m, a) && x <= m ==> AlignUp(x, a) <= m
  {
    if a == 1 {
      AndNotZero(x);
    } else {
      var h := (x + 1) / 2;
      AlignUpIsLeast(h, a / 2);
      AlignUpHalf(x, a);
      forall m: nat | MultipleOf(m, a) && x <= m
        ensures AlignUp(x, a) <= m
      {
        assert MultipleOf(m / 2, a / 2) && h <= m / 2;
      }
    }
  }

  /** A value that is already aligned is left alone. */
  lemma {:induction false} AlignUpFixed(x: nat, a: nat)
    requires IsPow2(a) && MultipleOf(x, a)
    ensures AlignUp(x, a) == x
  {
    AlignUpIsLeast(x, a);
  }

  lemma {:induction false} MultipleAdd(x: nat, y: nat, a: nat)
    requires IsPow2(a) && MultipleOf(x, a) && MultipleOf(y, a)
    ensures MultipleOf(x + y, a) && (x >= y ==> MultipleOf(x - y, a))
  {
    if a > 1 {
      MultipleAdd(x / 2, y / 2, a / 2);
      assert (x + y) / 2 == x / 2 + y / 2;
    }
  }

  lemma {:induction false} MultipleSelf(a: nat)
    requires IsPow2(a)
    ensures MultipleOf(a, a) && MultipleOf(0, a)
  {
    if a > 1 {
      MultipleSelf(a / 2);
    }
  }

  /** Whatever is a multiple of the larger power of two is one of the smaller. */
  lemma {:induction false} MultipleTrans(x: nat, b: nat, a: nat)
    requires IsPow2(a) && IsPow2(b) && a <= b && MultipleOf(x, b)
    ensures MultipleOf(x, a)
  {
    if a > 1 {
      MultipleTrans(x / 2, b / 2, a / 2);
    }
  }

  /** A positive multiple is at least the power itself. */
  lemma {:induction false} MultipleAtLeast(x: nat, a: nat)
    requires IsPow2(a) && MultipleOf(x, a) && x > 0
    ensures x >= a
  {
    if a > 1 {
      MultipleAtLeast(x / 2, a / 2);
    }
  }

  /** k * a is a multiple of a. */
  lemma {:induction false} MultipleTimes(k: nat, a: nat)
    requires IsPow2(a)
    ensures k * a >= 0 && MultipleOf(k * a, a)
  {
    if k == 0 {
      MultipleSelf(a);
    } else {
      MultipleTimes(k - 1, a);
      MultipleSelf(a);
      MultipleAdd((k - 1) * a, a, a);
    }
  }

  /** Masking a multiple of a power of two with that power less one gives zero. */
  lemma {:induction false} MultipleMask(x: nat, a: nat)
    requires IsPow2(a) && MultipleOf(x, a)
    ensures And(x, a - 1) == 0
  {
    if a == 1 {
      AndZero(x);
    } else if x > 0 {
      assert (a - 1) / 2 == a / 2 - 1;
      MultipleMask(x / 2, a / 2);
    }
  }
}

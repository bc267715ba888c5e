/** Unsigned bit arithmetic on natural numbers: the shifts, the bitwise or and the
    single-bit tests that the codec performs on 32-bit and 64-bit words. */
module Bits {

  const TWO_31: nat := 0x8000_0000
  const TWO_32: nat := 0x1_0000_0000
  const TWO_63: nat := 0x8000_0000_0000_0000
  const TWO_64: nat := 0x1_0000_0000_0000_0000

  function Pow2(n: nat): (p: nat)
    ensures p >= 1
  {
    if n == 0 then 1 else 2 * Pow2(n - 1)
  }

  /** `x << n` before truncation. */
  function Shl(x: nat, n: nat): nat {
    x * Pow2(n)
  }

  /** Bitwise or, digit by digit. */
  function BitOr(a: nat, b: nat): nat
    decreases a + b
  {
    if a == 0 then b
    else if b == 0 then a
    else (if a % 2 == 1 || b % 2 == 1 then 1 else 0) + 2 * BitOr(a / 2, b / 2)
  }

  /** Bit `k` of `w`. */
  predicate Bit(w: nat, k: nat) {
    if k == 0 then w % 2 == 1 else Bit(w / 2, k - 1)
  }

  lemma Pow2Seven(n: nat)
    ensures Pow2(n + 7) == 128 * Pow2(n)
  {
    assert Pow2(n + 7) == 2 * Pow2(n + 6);
    assert Pow2(n + 5) == 2 * Pow2(n + 4);
    assert Pow2(n + 3) == 2 * Pow2(n + 2);
  }

  lemma {:induction false} Pow2Add(m: nat, n: nat)
    ensures Pow2(m + n) == Pow2(m) * Pow2(n)
  {
    if m > 0 {
      Pow2Add(m - 1, n);
      assert Pow2(m - 1 + n) == Pow2(m - 1) * Pow2(n);
      assert m + n - 1 == m - 1 + n;
    }
  }

  /** The powers at the byte positions of a varint. */
  lemma Pow2Table()
    ensures Pow2(7) == 0x80 && Pow2(14) == 0x4000 && Pow2(21) == 0x20_0000
    ensures Pow2(28) == 0x1000_0000 && Pow2(35) == 0x8_0000_0000 && Pow2(42) == 0x400_0000_0000
    ensures Pow2(49) == 0x2_0000_0000_0000 && Pow2(56) == 0x100_0000_0000_0000
    ensures Pow2(63) == TWO_63 && Pow2(32) == TWO_32
  {
    Pow2Seven(0);
    Pow2Seven(7);
    Pow2Seven(14);
    Pow2Seven(21);
    Pow2Seven(28);
    Pow2Seven(35);
    Pow2Seven(42);
    Pow2Seven(49);
    Pow2Seven(56);
    assert Pow2(32) == 2 * Pow2(31) && Pow2(30) == 2 * Pow2(29) && Pow2(29) == 2 * Pow2(28);
  }

  /** Or-ing a value into bits that are still clear adds it. */
  lemma {:induction false} OrDisjoint(a: nat, b: nat, k: nat)
    requires a < Pow2(k)
    ensures BitOr(a, Shl(b, k)) == a + Shl(b, k)
    decreases k
  {
    if a != 0 && b != 0 {
      var half := Shl(b, k - 1);
      assert Shl(b, k) == 2 * half by {
        assert b * (2 * Pow2(k - 1)) == 2 * (b * Pow2(k - 1));
      }
      OrDisjoint(a / 2, b, k - 1);
      MulPositive(b, Pow2(k - 1));
    }
  }

  lemma MulPositive(a: nat, b: nat)
    requires a >= 1 && b >= 1
    ensures a * b >= 1
  {
    assert a * b >= 1 * b;
  }

  lemma {:induction false} OrBit(w: nat, j: nat, k: nat)
    ensures Bit(BitOr(w, Pow2(j)), k) <==> Bit(w, k) || j == k
    decreases j + k
  {
    if w == 0 {
      ZeroBit(k);
      Pow2Bit(j, k);
    } else if j == 0 {
      OrZero(w / 2);
    } else if k > 0 {
      OrBit(w / 2, j - 1, k - 1);
    }
  }

  lemma OrZero(a: nat)
    ensures BitOr(a, 0) == a
  {}

  lemma {:induction false} ZeroBit(k: nat)
    ensures !Bit(0, k)
  {
    if k > 0 { ZeroBit(k - 1); }
  }

  lemma {:induction false} Pow2Bit(j: nat, k: nat)
    ensures Bit(Pow2(j), k) <==> j == k
    decreases j + k
  {
    if k == 0 {
    } else if j == 0 {
      ZeroBit(k - 1);
    } else {
      Pow2Bit(j - 1, k - 1);
    }
  }

  lemma {:induction false} OrBound(a: nat, b: nat, n: nat)
    requires a < Pow2(n) && b < Pow2(n)
    ensures BitOr(a, b) < Pow2(n)
  {
    if a != 0 && b != 0 {
      OrBound(a / 2, b / 2, n - 1);
    }
  }

  /** Among its `m` low bits, `w` has exactly the lowest `n`. */
  ghost predicate HasLowBits(w: nat, n: nat, m: nat) {
    forall k: nat :: k < m ==> (Bit(w, k) <==> k < n)
  }

  /** A word of `m` bits is the mask of its `n` low bits exactly when those are the bits it has. */
  lemma MaskIsLowBits(w: nat, n: nat, m: nat)
    requires n <= m && w < Pow2(m)
    ensures w == Pow2(n) - 1 <==> HasLowBits(w, n, m)
  {
    if w == Pow2(n) - 1 {
      forall k: nat | k < m
        ensures Bit(w, k) <==> k < n
      {
        MaskBit(n, k);
      }
    }
    if HasLowBits(w, n, m) {
      LowBitsAreMask(w, n, m);
    }
  }

  lemma {:induction false} MaskBit(n: nat, k: nat)
    ensures Bit(Pow2(n) - 1, k) <==> k < n
    decreases n
  {
    if n == 0 {
      ZeroBit(k);
    } else if k > 0 {
      assert (Pow2(n) - 1) / 2 == Pow2(n - 1) - 1;
      MaskBit(n - 1, k - 1);
    }
  }

  lemma {:induction false} LowBitsAreMask(w: nat, n: nat, m: nat)
    requires n <= m && w < Pow2(m)
    requires HasLowBits(w, n, m)
    ensures w == Pow2(n) - 1
    decreases m
  {
    if m > 0 {
      var h := if n > 0 then n - 1 else 0;
      assert Bit(w, 0) <==> 0 < n;
      forall k: nat | k < m - 1
        ensures Bit(w / 2, k) <==> k < h
      {
        assert Bit(w, k + 1) <==> k + 1 < n;
      }
      LowBitsAreMask(w / 2, h, m - 1);
    }
  }

  /** `allbits >> (32 - n)` is the mask of the `n` low bits. */
  lemma ShiftedMask(n: nat)
    requires 0 < n < 32
    ensures (TWO_32 - 1) / Pow2(32 - n) == Pow2(n) - 1
  {
    Pow2Table();
    Pow2Add(n, 32 - n);
    hide Pow2;
    OneLess(Pow2(n), Pow2(32 - n));
  }

  lemma OneLess(a: nat, d: nat)
    requires a >= 1 && d >= 1 && a * d == TWO_32
    ensures (TWO_32 - 1) / d == a - 1
  {
    assert (a - 1) * d == a * d - d;
    QuotientIs(TWO_32 - 1, d, a - 1);
  }

  lemma QuotientIs(a: nat, d: nat, q: nat)
    requires d > 0 && q * d <= a < q * d + d
    ensures a / d == q
  {
    var x := a / d;
    assert x < q ==> (x + 1) * d <= q * d;
    assert x > q ==> (q + 1) * d <= x * d;
  }
}

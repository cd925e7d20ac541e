/** Fixed-width arithmetic on naturals: shifts, single bits and bitwise OR.
    A C word of n bits is a natural below Pow2(n). `& (2^k - 1)` is `% 2^k`; `<<` and `>>` are Shl and Shr,
    and a left shift into an n-bit word keeps the result modulo 2^n. */
module Bits {

  datatype Option<+T> = None | Some(value: T)

  type byte = b: int | 0 <= b < 256

  const TWO31: int := 0x8000_0000
  const TWO32: int := 0x1_0000_0000
  const TWO63: int := 0x8000_0000_0000_0000
  const TWO64: int := 0x1_0000_0000_0000_0000

  function Shl(x: nat, n: nat): nat
  {
    if n == 0 then x else 2 * Shl(x, n - 1)
  }

  function Shr(x: nat, n: nat): nat
  {
    if n == 0 then x else Shr(x, n - 1) / 2
  }

  function Pow2(n: nat): nat
  {
    Shl(1, n)
  }

  predicate Bit(w: nat, k: nat)
  {
    Shr(w, k) % 2 == 1
  }

  /** Bitwise OR. */
  function Or(a: nat, b: nat): nat
  {
    if a == 0 then b
    else if b == 0 then a
    else (if a % 2 == 1 || b % 2 == 1 then 1 else 0) + 2 * Or(a / 2, b / 2)
  }

  // ---------------------------------------------------------------- shifts

  lemma {:induction false} ShlAdds(a: nat, b: nat, n: nat)
    ensures Shl(a + b, n) == Shl(a, n) + Shl(b, n)
  {
    if n > 0 { ShlAdds(a, b, n - 1); }
  }

  lemma {:induction false} ShlShl(x: nat, m: nat, n: nat)
    ensures Shl(Shl(x, m), n) == Shl(x, m + n)
  {
    if n > 0 { ShlShl(x, m, n - 1); }
  }

  lemma {:induction false} ShlMonotone(a: nat, b: nat, n: nat)
    requires a < b
    ensures Shl(a, n) + Pow2(n) <= Shl(b, n)
  {
    if n > 0 { ShlMonotone(a, b, n - 1); }
  }

  lemma {:induction false} Pow2Monotone(m: nat, n: nat)
    requires m <= n
    ensures 1 <= Pow2(m) <= Pow2(n)
  {
    if m < n { Pow2Monotone(m, n - 1); }
    else if m > 0 { Pow2Monotone(m - 1, m - 1); }
  }

  lemma ShlBy7(x: nat, n: nat)
    ensures Shl(x, n + 7) == 128 * Shl(x, n)
  {
    assert Shl(x, n + 1) == 2 * Shl(x, n);
    assert Shl(x, n + 2) == 2 * Shl(x, n + 1);
    assert Shl(x, n + 3) == 2 * Shl(x, n + 2);
    assert Shl(x, n + 4) == 2 * Shl(x, n + 3);
    assert Shl(x, n + 5) == 2 * Shl(x, n + 4);
    assert Shl(x, n + 6) == 2 * Shl(x, n + 5);
  }

  lemma ShlBy8(x: nat, n: nat)
    ensures Shl(x, n + 8) == 256 * Shl(x, n)
  {
    ShlBy7(x, n);
  }

  lemma ShlBy32(x: nat)
    ensures Shl(x, 31) == TWO31 * x && Shl(x, 32) == TWO32 * x
  {
    ShlBy8(x, 0); ShlBy8(x, 8); ShlBy8(x, 16);
    ShlBy7(x, 24);
  }

  lemma ShlBy64(x: nat)
    ensures Shl(x, 63) == TWO63 * x && Shl(x, 64) == TWO64 * x
  {
    ShlBy32(x);
    ShlBy8(x, 32); ShlBy8(x, 40); ShlBy8(x, 48);
    ShlBy7(x, 56);
  }

  lemma {:induction false} ShrShr(x: nat, m: nat, n: nat)
    ensures Shr(Shr(x, m), n) == Shr(x, m + n)
  {
    if n > 0 { ShrShr(x, m, n - 1); }
  }

  lemma ShrBy4(x: nat)
    ensures Shr(x, 4) == x / 16
  {
    assert Shr(x, 1) == x / 2;
    assert Shr(x, 2) == x / 4;
    assert Shr(x, 3) == x / 8;
  }

  lemma ShrBy7(x: nat)
    ensures Shr(x, 7) == x / 128
  {
    ShrBy4(x);
    assert Shr(x, 5) == x / 32;
    assert Shr(x, 6) == x / 64;
  }

  lemma {:induction false} ShrPositive(x: nat, n: nat)
    ensures Shr(x, n) >= 1 <==> x >= Pow2(n)
  {
    if n == 0 {
    } else {
      ShrHalf(x, n);
      ShrPositive(x / 2, n - 1);
    }
  }

  lemma {:induction false} ShrHalf(x: nat, n: nat)
    requires n > 0
    ensures Shr(x, n) == Shr(x / 2, n - 1)
  {
    ShrShr(x, 1, n - 1);
    assert Shr(x, 1) == x / 2;
  }

  /** Shifting a number that is all ones from bit k up to bit m leaves only ones. */
  lemma {:induction false} ShrOnes(x: nat, k: nat, m: nat, n: nat)
    requires k <= n <= m && Pow2(m) - Pow2(k) <= x < Pow2(m)
    ensures Shr(x, n) == Pow2(m - n) - 1
  {
    if n == 0 {
    } else {
      ShrHalf(x, n);
      ShrOnes(x / 2, if k > 0 then k - 1 else 0, m - 1, n - 1);
    }
  }

  /** Any number splits at bit k. */
  lemma {:induction false} SplitAt(x: nat, k: nat) returns (low: nat, high: nat)
    ensures x == low + Shl(high, k) && low < Pow2(k)
  {
    if k == 0 {
      low, high := 0, x;
    } else {
      var l, h := SplitAt(x / 2, k - 1);
      low, high := 2 * l + x % 2, h;
    }
  }

  // ---------------------------------------------------------------- OR

  /** ORing two words whose bits do not overlap is adding them. */
  lemma {:induction false} OrDisjoint(a: nat, c: nat, k: nat)
    requires a < Pow2(k)
    ensures Or(a, Shl(c, k)) == a + Shl(c, k)
  {
    if k == 0 {
    } else {
      OrDisjoint(a / 2, c, k - 1);
    }
  }

  /** A bit of an OR is the OR of the bits. */
  lemma {:induction false} OrBit(a: nat, b: nat, k: nat)
    ensures Bit(Or(a, b), k) <==> Bit(a, k) || Bit(b, k)
  {
    if a == 0 || b == 0 {
      ZeroBit(k);
    } else if k > 0 {
      ShrHalf(Or(a, b), k);
      ShrHalf(a, k);
      ShrHalf(b, k);
      OrBit(a / 2, b / 2, k - 1);
    }
  }

  lemma {:induction false} ZeroBit(k: nat)
    ensures Shr(0, k) == 0
  {
    if k > 0 { ZeroBit(k - 1); }
  }

  lemma {:induction false} Pow2Bit(j: nat, k: nat)
    ensures Bit(Pow2(j), k) <==> j == k
  {
    if k == 0 {
    } else {
      ShrHalf(Pow2(j), k);
      if j == 0 {
        ZeroBit(k - 1);
      } else {
        Pow2Bit(j - 1, k - 1);
      }
    }
  }

  lemma {:induction false} OrBound(a: nat, b: nat, n: nat)
    requires a < Pow2(n) && b < Pow2(n)
    ensures Or(a, b) < Pow2(n)
  {
    if n == 0 {
    } else {
      OrBound(a / 2, b / 2, n - 1);
    }
  }

  /** A word of n bits is all ones exactly when each of its bits is set. */
  lemma {:induction false} AllOnes(w: nat, n: nat)
    requires w < Pow2(n)
    ensures w == Pow2(n) - 1 <==> forall k: nat :: k < n ==> Bit(w, k)
  {
    if n == 0 {
    } else {
      AllOnes(w / 2, n - 1);
      forall k: nat | 1 <= k < n ensures Bit(w / 2, k - 1) == Bit(w, k) {
        ShrHalf(w, k);
      }
      assert Bit(w, 0) <==> w % 2 == 1;
      if forall k: nat :: k < n ==> Bit(w, k) {
        forall k: nat | k < n - 1 ensures Bit(w / 2, k) {
          assert Bit(w, k + 1);
        }
      }
    }
  }

  /** A word with no bit at or above n is below Pow2(n). */
  lemma {:induction false} NoHighBits(w: nat, n: nat, m: nat)
    requires n <= m && w < Pow2(m)
    requires forall k: nat :: n <= k < m ==> !Bit(w, k)
    ensures w < Pow2(n)
    decreases m - n
  {
    if n == m {
    } else {
      NoHighBits(w, n + 1, m);
      assert !Bit(w, n);
      ShrPositive(w, n);
      ShrPositive(w, n + 1);
    }
  }
}

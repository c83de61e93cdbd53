/**
 Shifts, masks and single bits of natural numbers, written as the C operators act on
 non-negative operands: `Shl(x, r)` is x << r, `Shr(x, r)` is x >> r and `Low(x, r)`
 is x & rmask[r], the low r bits.
 */
module Bits {

  type Byte = x: int | 0 <= x < 256

  function Pow2(n: nat): (p: nat)
    ensures p >= 1
  {
    if n == 0 then 1 else 2 * Pow2(n - 1)
  }

  function Shl(x: nat, r: nat): nat {
    if r == 0 then x else 2 * Shl(x, r - 1)
  }

  function Shr(x: nat, r: nat): nat {
    if r == 0 then x else Shr(x / 2, r - 1)
  }

  function Low(x: nat, r: nat): nat {
    if r == 0 then 0 else x % 2 + 2 * Low(x / 2, r - 1)
  }

  /** Bit j of x, counted from the least significant. */
  predicate Bit(x: nat, j: nat) {
    if j == 0 then x % 2 == 1 else Bit(x / 2, j - 1)
  }

  lemma DoubleProduct(p: int, h: int)
    ensures 2 * (p * h) == (2 * p) * h
  {
  }

  /** Shifting and masking split a number the way division by a power of two does. */
  lemma {:induction false} SplitValue(x: nat, r: nat)
    ensures x == Low(x, r) + Pow2(r) * Shr(x, r)
    ensures Low(x, r) < Pow2(r)
  {
    if r != 0 {
      SplitValue(x / 2, r - 1);
      DoubleProduct(Pow2(r - 1), Shr(x / 2, r - 1));
    }
  }

  lemma {:induction false} ShlValue(x: nat, r: nat)
    ensures Shl(x, r) == x * Pow2(r)
  {
    if r != 0 {
      ShlValue(x, r - 1);
      DoubleProduct(Pow2(r - 1), x);
    }
  }

  lemma {:induction false} Pow2Monotone(m: nat, n: nat)
    requires m <= n
    ensures Pow2(m) <= Pow2(n)
  {
    if m < n {
      Pow2Monotone(m, n - 1);
    }
  }

  lemma {:induction false} LowIsSmall(x: nat, r: nat)
    ensures Low(x, r) < Pow2(r)
  {
    if r != 0 {
      LowIsSmall(x / 2, r - 1);
    }
  }

  lemma {:induction false} LowOfSmall(x: nat, r: nat)
    requires x < Pow2(r)
    ensures Low(x, r) == x
  {
    if r != 0 {
      LowOfSmall(x / 2, r - 1);
    }
  }

  lemma {:induction false} LowBits(x: nat, r: nat, j: nat)
    ensures Bit(Low(x, r), j) == (j < r && Bit(x, j))
  {
    if r == 0 {
      ZeroBits(j);
    } else {
      assert Low(x, r) % 2 == x % 2 && Low(x, r) / 2 == Low(x / 2, r - 1);
      if j != 0 {
        LowBits(x / 2, r - 1, j - 1);
      }
    }
  }

  lemma {:induction false} ZeroBits(j: nat)
    ensures !Bit(0, j)
  {
    if j != 0 {
      ZeroBits(j - 1);
    }
  }

  lemma {:induction false} ShrBits(x: nat, r: nat, j: nat)
    ensures Bit(Shr(x, r), j) == Bit(x, j + r)
  {
    if r != 0 {
      ShrBits(x / 2, r - 1, j);
    }
  }

  /** A number below 2^r and a number shifted past it do not overlap, so their sum is their `|`. */
  lemma {:induction false} JoinBits(a: nat, b: nat, r: nat, j: nat)
    requires a < Pow2(r)
    ensures Bit(a + Shl(b, r), j) == if j < r then Bit(a, j) else Bit(b, j - r)
  {
    if r != 0 {
      assert (a + Shl(b, r)) / 2 == a / 2 + Shl(b, r - 1);
      assert (a + Shl(b, r)) % 2 == a % 2;
      if j != 0 {
        JoinBits(a / 2, b, r - 1, j - 1);
      }
    }
  }

  lemma {:induction false} JoinIsSmall(a: nat, b: nat, r: nat, n: nat, m: nat)
    requires a < Pow2(r) && b < Pow2(n) && m == r + n
    ensures a + Shl(b, r) < Pow2(m)
    decreases r
  {
    if r != 0 {
      JoinIsSmall(a / 2, b, r - 1, n, m - 1);
    }
  }

  lemma {:induction false} ShrIsSmall(x: nat, r: nat, n: nat)
    requires x < Pow2(r + n)
    ensures Shr(x, r) < Pow2(n)
    decreases r
  {
    if r != 0 {
      ShrIsSmall(x / 2, r - 1, n);
    }
  }

  /** Numbers of n bits that agree on every bit are equal. */
  lemma {:induction false} BitsDetermine(x: nat, y: nat, n: nat)
    requires x < Pow2(n) && y < Pow2(n)
    requires forall j: nat :: j < n ==> Bit(x, j) == Bit(y, j)
    ensures x == y
  {
    if n != 0 {
      forall j: nat | j < n - 1 ensures Bit(x / 2, j) == Bit(y / 2, j) {
        assert Bit(x, j + 1) == Bit(y, j + 1);
      }
      BitsDetermine(x / 2, y / 2, n - 1);
      assert Bit(x, 0) == Bit(y, 0);
    }
  }

  lemma PowersOfTwo()
    ensures Pow2(8) == 256 && Pow2(9) == 512 && Pow2(10) == 1024 && Pow2(12) == 4096 && Pow2(16) == 65536
  {
  }

  /** x ^ y. */
  function Xor(x: nat, y: nat): nat
    decreases x + y
  {
    if x == 0 && y == 0 then 0 else
      (if x % 2 != y % 2 then 1 else 0) + 2 * Xor(x / 2, y / 2)
  }

  lemma {:induction false} XorBits(x: nat, y: nat, j: nat)
    ensures Bit(Xor(x, y), j) == (Bit(x, j) != Bit(y, j))
    decreases j
  {
    if x == 0 && y == 0 {
      ZeroBits(j);
    } else if j != 0 {
      XorBits(x / 2, y / 2, j - 1);
    }
  }

  lemma {:induction false} XorIsSmall(x: nat, y: nat, n: nat)
    requires x < Pow2(n) && y < Pow2(n)
    ensures Xor(x, y) < Pow2(n)
    decreases n
  {
    if n != 0 {
      XorIsSmall(x / 2, y / 2, n - 1);
    }
  }

  /** Bit j of a byte string, least significant bit of the first byte first. */
  predicate BitAt(s: seq<Byte>, j: nat)
    requires j < 8 * |s|
  {
    Bit(s[j / 8], j % 8)
  }
}

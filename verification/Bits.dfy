/** Bitwise operations of C on unsigned values, defined on natural numbers from the lowest bit up. */
module Bits {

  /** Bit k of x, bit 0 being the lowest. */
  predicate Bit(x: nat, k: nat) {
    if k == 0 then x % 2 == 1 else Bit(x / 2, k - 1)
  }

  /** The lowest w bits are all set. */
  ghost predicate BitsBelow(x: nat, w: nat) {
    forall k: nat :: k < w ==> Bit(x, k)
  }

  /** x & y */
  function And(x: nat, y: nat): nat {
    if x == 0 || y == 0 then 0
    else (if x % 2 == 1 && y % 2 == 1 then 1 else 0) + 2 * And(x / 2, y / 2)
  }

  /** x | y */
  function Or(x: nat, y: nat): nat
    decreases x + y
  {
    if x == 0 && y == 0 then 0
    else (if x % 2 == 1 || y % 2 == 1 then 1 else 0) + 2 * Or(x / 2, y / 2)
  }

  /** x ^ y */
  function Xor(x: nat, y: nat): nat
    decreases x + y
  {
    if x == 0 && y == 0 then 0
    else (if x % 2 != y % 2 then 1 else 0) + 2 * Xor(x / 2, y / 2)
  }

  /** x << n, without any truncation */
  function Shl(x: nat, n: nat): nat {
    if n == 0 then x else 2 * Shl(x, n - 1)
  }

  /** x >> n */
  function Shr(x: nat, n: nat): nat {
    if n == 0 then x else Shr(x / 2, n - 1)
  }

  /** The low w bits of x: what is left when x is stored in a w-bit unsigned variable. */
  function Trunc(x: nat, w: nat): nat {
    if w == 0 then 0 else x % 2 + 2 * Trunc(x / 2, w - 1)
  }

  lemma {:induction false} BitZero(k: nat)
    ensures !Bit(0, k)
  {
    if k != 0 { BitZero(k - 1); }
  }

  lemma {:induction false} BitAnd(x: nat, y: nat, k: nat)
    ensures Bit(And(x, y), k) == (Bit(x, k) && Bit(y, k))
    decreases k
  {
    if x == 0 || y == 0 {
      BitZero(k);
    } else if k != 0 {
      BitAnd(x / 2, y / 2, k - 1);
    }
  }

  lemma {:induction false} BitOr(x: nat, y: nat, k: nat)
    ensures Bit(Or(x, y), k) == (Bit(x, k) || Bit(y, k))
    decreases k
  {
    if x == 0 && y == 0 {
      BitZero(k);
    } else if k != 0 {
      BitOr(x / 2, y / 2, k - 1);
    }
  }

  lemma {:induction false} BitXor(x: nat, y: nat, k: nat)
    ensures Bit(Xor(x, y), k) == (Bit(x, k) != Bit(y, k))
    decreases k
  {
    if x == 0 && y == 0 {
      BitZero(k);
    } else if k != 0 {
      BitXor(x / 2, y / 2, k - 1);
    }
  }

  lemma {:induction false} BitShl(x: nat, n: nat, k: nat)
    ensures Bit(Shl(x, n), k) == (k >= n && Bit(x, k - n))
    decreases n
  {
    if n != 0 {
      if k != 0 {
        BitShl(x, n - 1, k - 1);
      }
    }
  }

  lemma {:induction false} BitShr(x: nat, n: nat, k: nat)
    ensures Bit(Shr(x, n), k) == Bit(x, k + n)
    decreases n
  {
    if n != 0 { BitShr(x / 2, n - 1, k); }
  }

  lemma {:induction false} BitTrunc(x: nat, w: nat, k: nat)
    ensures Bit(Trunc(x, w), k) == (k < w && Bit(x, k))
    decreases w
  {
    if w == 0 {
      BitZero(k);
    } else if k != 0 {
      BitTrunc(x / 2, w - 1, k - 1);
    }
  }

  /** Two numbers with the same bits are the same number. */
  lemma {:induction false} SameBits(x: nat, y: nat)
    requires forall k: nat :: Bit(x, k) == Bit(y, k)
    ensures x == y
    decreases x + y
  {
    assert Bit(x, 0) == Bit(y, 0);
    if x != 0 || y != 0 {
      forall k: nat ensures Bit(x / 2, k) == Bit(y / 2, k) {
        assert Bit(x, k + 1) == Bit(y, k + 1);
      }
      SameBits(x / 2, y / 2);
    }
  }

  lemma {:induction false} XorNothing(x: nat)
    ensures Xor(x, 0) == x
  {
    if x != 0 { XorNothing(x / 2); }
  }

  lemma {:induction false} XorZero(x: nat, y: nat)
    ensures Xor(x, y) == 0 <==> x == y
    decreases x + y
  {
    if x != 0 || y != 0 { XorZero(x / 2, y / 2); }
  }

  lemma {:induction false} AndComm(x: nat, y: nat)
    ensures And(x, y) == And(y, x)
  {
    if x != 0 && y != 0 { AndComm(x / 2, y / 2); }
  }

  lemma AndZero(x: nat)
    ensures And(x, 0) == 0 && And(0, x) == 0
  {}

  lemma {:induction false} OrZero(x: nat)
    ensures Or(x, 0) == x && Or(0, x) == x
  {
    if x != 0 { OrZero(x / 2); }
  }

  lemma {:induction false} OrSame(x: nat)
    ensures Or(x, x) == x
  {
    if x != 0 { OrSame(x / 2); }
  }

  lemma {:induction false} XorAssoc(x: nat, y: nat, z: nat)
    ensures Xor(Xor(x, y), z) == Xor(x, Xor(y, z))
    decreases x + y + z
  {
    if x != 0 || y != 0 || z != 0 { XorAssoc(x / 2, y / 2, z / 2); }
  }

  /** 2 to the power n */
  function Pow2(n: nat): (p: nat)
    ensures p >= 1
  {
    if n == 0 then 1 else 2 * Pow2(n - 1)
  }

  /** Exactly the numbers below 2^w keep their value in w bits. */
  lemma {:induction false} TruncFits(x: nat, w: nat)
    ensures Trunc(x, w) < Pow2(w)
    ensures Trunc(x, w) == x <==> x < Pow2(w)
  {
    if w != 0 { TruncFits(x / 2, w - 1); }
  }

  lemma {:induction false} TruncMod(x: nat, w: nat)
    ensures Trunc(x, w) == x % Pow2(w)
  {
    if w != 0 {
      TruncMod(x / 2, w - 1);
      ModDouble(x, Pow2(w - 1));
    }
  }

  lemma ModDouble(x: nat, d: nat)
    requires d > 0
    ensures x % (2 * d) == x % 2 + 2 * (x / 2 % d)
  {
    var q, r := x / 2 / d, x / 2 % d;
    assert x / 2 == q * d + r;
    assert x == 2 * (q * d) + (2 * r + x % 2);
    assert 2 * (q * d) == q * (2 * d);
    DivMod(x, 2 * d, q, 2 * r + x % 2);
  }

  /** The quotient and the remainder are unique. */
  lemma DivMod(x: int, d: int, q: int, r: int)
    requires d > 0 && 0 <= r < d && x == q * d + r
    ensures x / d == q && x % d == r
  {
    var q', r' := x / d, x % d;
    assert (q - q') * d == r' - r;
    SmallMultiple(q - q', d);
  }

  /** A multiple of d strictly between -d and d is zero. */
  lemma SmallMultiple(k: int, d: int)
    requires -d < k * d < d
    ensures k == 0
  {
    if k >= 1 {
      MulMono(1, k, d);
    } else if k <= -1 {
      MulMono(k, -1, d);
    }
  }

  lemma {:induction false} MulMono(a: int, b: int, d: int)
    requires a <= b && d >= 0
    ensures a * d <= b * d
    decreases d
  {
    if d > 0 {
      MulMono(a, b, d - 1);
    }
  }

  lemma {:induction false} TruncOnes(x: nat, w: nat)
    ensures Trunc(x, w) == Pow2(w) - 1 <==> BitsBelow(x, w)
  {
    if w != 0 {
      TruncOnes(x / 2, w - 1);
      TruncFits(x / 2, w - 1);
      if BitsBelow(x, w) {
        assert Bit(x, 0);
        forall k: nat | k < w - 1 ensures Bit(x / 2, k) { assert Bit(x, k + 1); }
      } else if x % 2 == 1 {
        assert !BitsBelow(x / 2, w - 1) by {
          if BitsBelow(x / 2, w - 1) {
            forall k: nat | k < w ensures Bit(x, k) { assert k > 0 ==> Bit(x / 2, k - 1); }
          }
        }
      } 
    }
  }

  /** The all-ones mask of width w has exactly the bits below w. */
  lemma {:induction false} BitOnes(w: nat, k: nat)
    ensures Bit(Pow2(w) - 1, k) == (k < w)
    decreases w
  {
    if w == 0 {
      BitZero(k);
    } else if k != 0 {
      BitOnes(w - 1, k - 1);
      assert (Pow2(w) - 1) / 2 == Pow2(w - 1) - 1;
    }
  }

  /** A mask of ones keeps any number that fits. */
  lemma {:induction false} AndOnes(x: nat, w: nat)
    requires x < Pow2(w)
    ensures And(x, Pow2(w) - 1) == x && And(Pow2(w) - 1, x) == x
  {
    AndComm(x, Pow2(w) - 1);
    if w != 0 && x != 0 {
      assert (Pow2(w) - 1) / 2 == Pow2(w - 1) - 1;
      AndOnes(x / 2, w - 1);
    }
  }

  /** The complement of a w-bit number. */
  function Not(x: nat, w: nat): nat
    requires x < Pow2(w)
  {
    Pow2(w) - 1 - x
  }

  lemma {:induction false} BitNot(x: nat, w: nat, k: nat)
    requires x < Pow2(w)
    ensures Bit(Not(x, w), k) == (k < w && !Bit(x, k))
    decreases w
  {
    if w == 0 {
      BitZero(k);
    } else {
      assert (Pow2(w) - 1 - x) / 2 == Pow2(w - 1) - 1 - x / 2;
      if k != 0 { BitNot(x / 2, w - 1, k - 1); }
    }
  }

  lemma Pow2Next(k: nat)
    ensures Pow2(0) == 1 && Pow2(k + 1) == 2 * Pow2(k)
  {}

  lemma Pow2Values()
    ensures Pow2(7) == 0x80 && Pow2(8) == 0x100 && Pow2(16) == 0x1_0000 && Pow2(24) == 0x100_0000
    ensures Pow2(31) == 0x8000_0000 && Pow2(32) == 0x1_0000_0000
    ensures Pow2(63) == 0x8000_0000_0000_0000 && Pow2(64) == 0x1_0000_0000_0000_0000
  {
    assert Pow2(8) == 0x100;
    assert Pow2(16) == 0x1_0000;
    assert Pow2(24) == 0x100_0000;
    assert Pow2(32) == 0x1_0000_0000;
    assert Pow2(40) == 0x100_0000_0000;
    assert Pow2(48) == 0x1_0000_0000_0000;
    assert Pow2(56) == 0x100_0000_0000_0000;
  }

  lemma {:induction false} XorFits(x: nat, y: nat, w: nat)
    requires x < Pow2(w) && y < Pow2(w)
    ensures Xor(x, y) < Pow2(w)
  {
    if w != 0 && (x != 0 || y != 0) { XorFits(x / 2, y / 2, w - 1); }
  }

  lemma {:induction false} OrFits(x: nat, y: nat, w: nat)
    requires x < Pow2(w) && y < Pow2(w)
    ensures Or(x, y) < Pow2(w)
  {
    if w != 0 && (x != 0 || y != 0) { OrFits(x / 2, y / 2, w - 1); }
  }

  lemma {:induction false} AndFits(x: nat, y: nat, w: nat)
    requires x < Pow2(w)
    ensures And(x, y) < Pow2(w)
  {
    if w != 0 && x != 0 && y != 0 { AndFits(x / 2, y / 2, w - 1); }
  }
}

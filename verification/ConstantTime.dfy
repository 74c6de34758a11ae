/** The branch-free comparisons of s3_cbc.c on 32-bit unsigned integers. */
module ConstantTime {
  import opened Bits
  import opened Bytes

  const U32 := 0x1_0000_0000
  const ONES := 0xffff_ffff

  type u32 = x: int | 0 <= x < U32

  /** a - b with the wrap-around of unsigned int. */
  function Sub(a: u32, b: u32): u32 {
    (a - b) % U32
  }

  /** An arithmetic shift right by 31: the top bit is copied to every bit. */
  function DuplicateMsb(x: u32): u32 {
    if x >= 0x8000_0000 then ONES else 0
  }

  function Lt(a: u32, b: u32): u32 {
    DuplicateMsb(Sub(a, b))
  }

  function Ge(a: u32, b: u32): u32 {
    DuplicateMsb(ONES - Sub(a, b))
  }

  /** The mask is stored in an unsigned char. */
  function Eq8(a: u32, b: u32): nat {
    assert Xor(a, b) < U32 by { Pow2Values(); XorFits(a, b, 32); }
    DuplicateMsb(Sub(Xor(a, b), 1)) % 256
  }

  /** Lt and Ge compare exactly those operands whose difference fits a signed int. */
  lemma ComparisonsExact(a: u32, b: u32)
    ensures (Lt(a, b) == if a < b then ONES else 0) <==> -0x8000_0000 <= a - b < 0x8000_0000
    ensures (Ge(a, b) == if a >= b then ONES else 0) <==> -0x8000_0000 <= a - b < 0x8000_0000
  {
    assert Sub(a, b) == if a >= b then a - b else a - b + U32;
  }

  /** Eq8 tells equality exactly on operands that do not differ in the top bit and another one. */
  lemma EqualityExact(a: u32, b: u32)
    ensures (Eq8(a, b) == if a == b then 0xff else 0) <==> Xor(a, b) <= 0x8000_0000
  {
    XorZero(a, b);
    assert Xor(a, b) < U32 by { Pow2Values(); XorFits(a, b, 32); }
  }

  /** Operands for which the comparisons are wrong; no caller passes operands this large. */
  lemma ComparisonsFail()
    ensures Lt(0, 0x8000_0001) == 0 && Ge(0x8000_0000, 0) == 0 && Eq8(0x8000_0001, 0) == 0xff
  {
    hide Xor;
    XorNothing(0x8000_0001);
  }

  /** On numbers below 2^31 all three are what they are named. */
  lemma ComparisonsBelow31Bits(a: u32, b: u32)
    requires a < 0x8000_0000 && b < 0x8000_0000
    ensures Lt(a, b) == if a < b then ONES else 0
    ensures Ge(a, b) == if a >= b then ONES else 0
    ensures Eq8(a, b) == if a == b then 0xff else 0
  {
    ComparisonsExact(a, b);
    EqualityExact(a, b);
    Pow2Values();
    XorFits(a, b, 31);
  }

  /** A truth value as a byte mask. */
  function Mask(b: bool): byte {
    if b then 0xff else 0
  }

  lemma MaskOps(x: byte, p: bool, q: bool)
    ensures And(x, Mask(p)) == And(Mask(p), x) == if p then x else 0
    ensures And(Mask(p), Mask(q)) == Mask(p && q)
    ensures Or(Mask(p), Mask(q)) == Mask(p || q)
    ensures And(Mask(p), ONES) == Mask(p) && And(Mask(p), 0) == 0
    ensures Or(x, 0) == Or(0, x) == x
  {
    hide And, Or;
    Pow2Values();
    AndOnes(x, 8);
    AndOnes(0xff, 8);
    AndOnes(0xff, 32);
    AndOnes(0, 32);
    AndZero(x);
    AndZero(0);
    AndZero(0xff);
    OrZero(x);
    OrZero(0xff);
    OrZero(0);
    assert Or(0xff, 0xff) == 0xff by { OrSame(0xff); }
  }
}

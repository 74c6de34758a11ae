/** Removal of the explicit IV and of the CBC padding (s3_cbc.c). */
module CbcPadding {
  import opened Bits
  import opened Bytes
  import opened ConstantTime

  /** The fields of SSL3_RECORD_INTERNAL that change; data and input are offsets into one buffer. */
  class Record {
    const buf: array<byte>
    var data: nat
    var input: nat
    var length: nat
    var padding_length: nat

    constructor (buf: array<byte>, data: nat, length: nat)
      ensures this.buf == buf && this.data == data && this.length == length
    {
      this.buf := buf;
      this.data, this.input, this.length, this.padding_length := data, data, length, 0;
    }

    ghost predicate Valid()
      reads this
    {
      data + length <= buf.Length
    }

    ghost function Contents(): (s: bytes)
      reads this, buf
      requires Valid()
    {
      buf[data..data + length]
    }
  }

  /** Section 6.2.3.2 of RFC 5246: the last byte p is preceded by p bytes with the same value, and the
      padding leaves room for the MAC. */
  predicate PaddingOk(s: bytes, macSize: nat) {
    && |s| > 0
    && var p := s[|s| - 1];
    && macSize + 1 + p <= |s|
    && forall i :: |s| - 1 - p <= i < |s| ==> s[i] == p
  }

  /** How many bytes at the end of s are padding, the length byte included. */
  function PaddingSize(s: bytes, macSize: nat): (n: nat)
    ensures n <= |s| && n <= 256
  {
    if PaddingOk(s, macSize) then var p: nat := s[|s| - 1]; p + 1 else 0
  }

  lemma PaddingSizeValue(s: bytes, macSize: nat)
    requires |s| > 0
    ensures PaddingSize(s, macSize) == if PaddingOk(s, macSize) then (s[|s| - 1] as int) + 1 else 0
  {}

  /** The low eight bits are all set. */
  predicate AllLow(x: nat) {
    x % 256 == 255
  }

  lemma AllLowBits(x: nat)
    ensures AllLow(x) <==> BitsBelow(x, 8)
  {
    Pow2Values();
    TruncMod(x, 8);
    TruncOnes(x, 8);
  }

  lemma AllLowConstants()
    ensures AllLow(ONES) && !AllLow(0)
  {}

  /** good &= ~(mask & (padding_length ^ b)) keeps the low byte full exactly when the test passes. */
  lemma CheckStep(good: u32, test: bool, p: byte, b: byte)
    ensures var m := And(if test then 0xff else 0, Xor(p, b));
            && m < U32
            && And(good, ONES - m) < U32
            && (AllLow(And(good, ONES - m)) <==> AllLow(good) && (test ==> p == b))
  {
    hide And, Xor, Pow2;
    Pow2Values();
    AndZero(Xor(p, b));
    XorFits(p, b, 8);
    AndOnes(Xor(p, b), 8);
    XorZero(p, b);
    var m := if test then Xor(p, b) else 0;
    AndFits(good, ONES - m, 32);
    AndNotLow(good, m);
  }

  lemma AndNotLow(good: u32, m: byte)
    ensures AllLow(And(good, ONES - m)) <==> AllLow(good) && m == 0
  {
    Pow2Values();
    AllLowBits(good);
    AllLowBits(And(good, ONES - m));
    forall k: nat | k < 8
      ensures Bit(And(good, ONES - m), k) == (Bit(good, k) && !Bit(m, k))
    {
      BitAnd(good, ONES - m, k);
      BitNot(m, 32, k);
    }
    if AllLow(And(good, ONES - m)) {
      forall k: nat ensures Bit(m, k) == Bit(0, k) {
        BitZero(k);
        TruncFits(m, 8);
        BitTrunc(m, 8, k);
        assert k < 8 ==> Bit(And(good, ONES - m), k);
      }
      SameBits(m, 0);
      assert BitsBelow(good, 8);
    } else if AllLow(good) && m == 0 {
      var g := And(good, ONES - m);
      forall k: nat | k < 8 ensures Bit(g, k) {
        BitZero(k);
        assert Bit(good, k);
      }
    }
  }

  lemma FoldBit(g: nat, n: nat, k: nat)
    ensures Bit(And(g, Shr(g, n)), k) == (Bit(g, k) && Bit(g, k + n))
  {
    BitAnd(g, Shr(g, n), k);
    BitShr(g, n, k);
  }

  /** The end of ssl3_cbc_remove_padding: the low eight bits are ANDed together into bit 0, which is then
      copied to every bit. */
  method DuplicateLowBits(bits: u32) returns (good: u32)
    ensures good == if AllLow(bits) then ONES else 0
  {
    hide And, Shr, Shl, Trunc, Pow2, AllLow;
    Pow2Values();
    AndFits(bits, Shr(bits, 4), 32);
    var g1: u32 := And(bits, Shr(bits, 4));
    AndFits(g1, Shr(g1, 2), 32);
    var g2: u32 := And(g1, Shr(g1, 2));
    AndFits(g2, Shr(g2, 1), 32);
    var g3: u32 := And(g2, Shr(g2, 1));
    FoldedBit(bits);
    ShiftToTop(g3);
    good := DuplicateMsb(Trunc(Shl(g3, 31), 32));
  }

  lemma FoldedBit(bits: nat)
    ensures var g1 := And(bits, Shr(bits, 4));
            var g2 := And(g1, Shr(g1, 2));
            Bit(And(g2, Shr(g2, 1)), 0) == AllLow(bits)
  {
    hide And, Shr, AllLow;
    var g1 := And(bits, Shr(bits, 4));
    var g2 := And(g1, Shr(g1, 2));
    FoldBit(bits, 4, 0);
    FoldBit(bits, 4, 1);
    FoldBit(bits, 4, 2);
    FoldBit(bits, 4, 3);
    FoldBit(g1, 2, 0);
    FoldBit(g1, 2, 1);
    FoldBit(g2, 1, 0);
    AllLowBits(bits);
  }

  lemma ShiftToTop(g: nat)
    ensures Trunc(Shl(g, 31), 32) == if Bit(g, 0) then 0x8000_0000 else 0
  {
    var want: nat := if Bit(g, 0) then 0x8000_0000 else 0;
    forall k: nat ensures Bit(Trunc(Shl(g, 31), 32), k) == Bit(want, k) {
      BitTrunc(Shl(g, 31), 32, k);
      BitShl(g, 31, k);
      BitZero(k);
      BitTop(k);
    }
    SameBits(Trunc(Shl(g, 31), 32), want);
  }

  lemma BitTop(k: nat)
    ensures Bit(0x8000_0000, k) == (k == 31)
  {
    Pow2Values();
    OneBit(31, k);
  }

  lemma {:induction false} OneBit(n: nat, k: nat)
    ensures Bit(Pow2(n), k) == (k == n)
  {
    if n == 0 {
      if k != 0 { BitZero(k - 1); }
    } else if k != 0 {
      OneBit(n - 1, k - 1);
    }
  }

  /** ssl3_cbc_remove_padding. */
  method RemovePadding(rec: Record, eivLen: nat, macSize: nat) returns (r: int)
    requires rec.Valid() && rec.length < 0x8000_0000 && macSize + eivLen < 0x7fff_fe00
    modifies rec
    ensures rec.Valid()
    ensures r == 0 <==> 1 + macSize + eivLen > old(rec.length)
    ensures r == 0 ==> unchanged(rec)
    ensures r != 0 ==>
              var body := old(rec.Contents())[eivLen..];
              var pad := PaddingSize(body, macSize);
              && r == (if PaddingOk(body, macSize) then 1 else -1)
              && rec.data == old(rec.data) + eivLen
              && rec.input == old(rec.input) + eivLen
              && rec.padding_length == pad
              && rec.Contents() == body[..|body| - pad]
  {
    hide Record.Contents, PaddingOk, PaddingSize;
    var overhead := 1 + macSize;
    if overhead + eivLen > rec.length {
      return 0;
    }
    SkipIv(rec, eivLen);
    r := RemoveTail(rec, macSize);
  }

  /** The part of ssl3_cbc_remove_padding behind the explicit IV. */
  method RemoveTail(rec: Record, macSize: nat) returns (r: int)
    requires rec.Valid() && 1 + macSize <= rec.length < 0x8000_0000 && macSize < 0x7fff_fe00
    modifies rec`padding_length, rec`length
    ensures rec.Valid()
    ensures var body := old(rec.Contents());
            var pad := PaddingSize(body, macSize);
            && r == (if PaddingOk(body, macSize) then 1 else -1)
            && rec.padding_length == pad
            && rec.Contents() == body[..|body| - pad]
  {
    hide And, PaddingOk, PaddingSize, AllLow;
    var p: nat := rec.buf[rec.data + rec.length - 1];
    assert p == rec.Contents()[rec.length - 1];
    var good := CheckPadding(rec, 1 + macSize);
    PaddingSizeValue(rec.Contents(), macSize);
    good := DuplicateLowBits(good);
    SelectOrClear(good, p + 1);
    Shorten(rec, And(good, p + 1));
    r := ReturnCode(good);
  }

  method SkipIv(rec: Record, eivLen: nat)
    requires rec.Valid() && eivLen <= rec.length
    modifies rec`data, rec`input, rec`length
    ensures rec.Valid() && rec.data == old(rec.data) + eivLen && rec.input == old(rec.input) + eivLen
    ensures rec.length == old(rec.length) - eivLen && rec.Contents() == old(rec.Contents())[eivLen..]
  {
    rec.data := rec.data + eivLen;
    rec.input := rec.input + eivLen;
    rec.length := rec.length - eivLen;
  }

  method Shorten(rec: Record, n: nat)
    requires rec.Valid() && n <= rec.length
    modifies rec`padding_length, rec`length
    ensures rec.Valid() && rec.padding_length == n && rec.Contents() == old(rec.Contents())[..old(rec.length) - n]
  {
    rec.padding_length := n;
    rec.length := rec.length - n;
  }

  /** The part of ssl3_cbc_remove_padding that looks at the bytes: the low byte of good stays full exactly
      when the padding is right. */
  method CheckPadding(rec: Record, overhead: nat) returns (good: u32)
    requires rec.Valid() && 1 <= overhead <= rec.length < 0x8000_0000 && overhead < 0x7fff_ff00
    ensures AllLow(good) <==> PaddingOk(rec.Contents(), overhead - 1)
  {
    hide And, Xor, Ge, AllLow, TailMatches, PaddingOk;
    ghost var body := rec.Contents();
    AllLowConstants();
    TailMatchesNone(rec.Contents(), rec.Contents()[rec.length - 1]);
    ghost var n := |body|;
    var p: nat := rec.buf[rec.data + rec.length - 1];
    good := Ge(rec.length, overhead + p);
    ComparisonsBelow31Bits(rec.length, overhead + p);
    var toCheck := 256;
    if toCheck > rec.length {
      toCheck := rec.length;
    }
    var i := 0;
    while i < toCheck
      invariant 0 <= i <= toCheck
      invariant AllLow(good) <==> n >= overhead + p && TailMatches(body, p, i)
    {
      var mask := Ge(p, i) % 256;
      ComparisonsBelow31Bits(p, i);
      var b := rec.buf[rec.data + rec.length - 1 - i];
      TailMatchesNext(body, p, i);
      CheckStep(good, p >= i, p, b);
      good := And(good, ONES - And(mask, Xor(p, b)));
      i := i + 1;
    }
    TailMatchesAll(body, p, i, overhead);
  }

  /** Among the last i bytes, those that are padding if p is the length byte have the value p. */
  ghost predicate TailMatches(s: bytes, p: byte, i: nat) {
    i <= |s| && forall k :: |s| - i <= k < |s| && |s| - 1 - p <= k ==> s[k] == p
  }

  lemma TailMatchesNone(s: bytes, p: byte)
    ensures TailMatches(s, p, 0)
  {}

  lemma TailMatchesNext(s: bytes, p: byte, i: nat)
    requires i < |s|
    ensures TailMatches(s, p, i + 1) <==> TailMatches(s, p, i) && (p >= i ==> p == s[|s| - 1 - i])
  {}

  lemma TailMatchesAll(s: bytes, p: byte, i: nat, overhead: nat)
    requires |s| > 0 && p == s[|s| - 1] && i <= |s| && (i == |s| || i == 256) && overhead >= 1
    ensures PaddingOk(s, overhead - 1) <==> |s| >= overhead + p && TailMatches(s, p, i)
  {}

  /** (int)((good & 1) | (~good & -1)) */
  method ReturnCode(good: u32) returns (r: int)
    requires good == 0 || good == ONES
    ensures r == if good == ONES then 1 else -1
  {
    hide And, Or, Pow2;
    Pow2Values();
    AndOnes(1, 32);
    AndOnes(ONES - good, 32);
    AndZero(1);
    OrZero(1);
    OrZero(ONES);
    var u := Or(And(good, 1), And(ONES - good, ONES));
    r := if u < 0x8000_0000 then u else u - U32;
  }

  /** A mask of ones selects, a mask of zeros clears. */
  lemma SelectOrClear(good: u32, n: nat)
    requires n <= 256 && (good == 0 || good == ONES)
    ensures And(good, n) == if good == ONES then n else 0
  {
    hide And;
    Pow2Values();
    AndOnes(n, 32);
    AndZero(n);
  }
}

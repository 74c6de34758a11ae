/** The replay window of d1_pkt.c. */
module ReplayWindow {
  import opened Bits
  import opened Bytes
  import opened RecordStates

  // 32-bit signed integers as their values; the bit operations work on the two's complement.

  function U32(x: int): (u: nat)
    ensures u < 0x1_0000_0000
  {
    x % 0x1_0000_0000
  }

  function S32(u: nat): int {
    if u < 0x8000_0000 then u else u - 0x1_0000_0000
  }

  function IntOr(x: int, y: int): int { S32(Or(U32(x), U32(y))) }

  function IntAnd(x: int, y: int): int { S32(And(U32(x), U32(y))) }

  function IntNot(x: int): int { -x - 1 }

  /** x >> 8, arithmetically: the quotient rounded down. */
  function Sar8(x: int): int { x / 256 }

  /** Shl(x, 8) for the two values it is used on */
  function Shl8(x: int): int { x * 256 }

  lemma {:induction false} TruncOr(x: nat, y: nat, w: nat)
    ensures Trunc(Or(x, y), w) == 0 <==> Trunc(x, w) == 0 && Trunc(y, w) == 0
    decreases w
  {
    if w != 0 {
      TruncOr(x / 2, y / 2, w - 1);
    }
  }

  lemma {:induction false} AndMask(x: nat, w: nat)
    ensures And(x, Pow2(w) - 1) == Trunc(x, w)
    decreases w
  {
    if w != 0 && x != 0 {
      AndMask(x / 2, w - 1);
      assert Pow2(w) - 1 == 2 * (Pow2(w - 1) - 1) + 1;
    } else if x == 0 {
      TruncFits(0, w);
    }
  }

  lemma SameLowByte(x: int, u: nat)
    ensures U32(x) % 256 == x % 256 && S32(u) % 256 == u % 256
  {
    var q, r := x / 0x1_0000_0000, x % 0x1_0000_0000;
    assert x == 256 * (0x100_0000 * q + r / 256) + r % 256;
  }

  lemma LowByte(x: int)
    ensures IntAnd(x, 0xff) == x % 256
  {
    hide And, Or, Trunc, Pow2;
    Pow2Values();
    AndMask(U32(x), 8);
    TruncMod(U32(x), 8);
    assert U32(0xff) == 0xff;
    SameLowByte(x, 0);
  }

  /** The low octet of an or is zero exactly when both low octets are. */
  lemma LowByteOr(x: int, y: int)
    ensures IntOr(x, y) % 256 == 0 <==> x % 256 == 0 && y % 256 == 0
  {
    hide And, Or, Trunc, Pow2, U32, S32;
    var u := Or(U32(x), U32(y));
    Pow2Values();
    TruncMod(U32(x), 8);
    TruncMod(U32(y), 8);
    TruncMod(u, 8);
    TruncOr(U32(x), U32(y), 8);
    SameLowByte(x, u);
    SameLowByte(y, u);
  }

  lemma {:induction false} AndPow2(x: nat, k: nat)
    ensures And(x, Pow2(k)) == if Bit(x, k) then Pow2(k) else 0
    decreases k
  {
    if x == 0 {
      BitZero(k);
    } else if k != 0 {
      AndPow2(x / 2, k - 1);
    } else {
      assert And(x / 2, 0) == 0;
    }
  }

  lemma DivTwice(x: nat, d: nat)
    requires d > 0
    ensures x / (2 * d) == x / 2 / d
  {
    var q, r := x / 2 / d, x / 2 % d;
    assert x / 2 == q * d + r;
    assert 2 * (q * d) == q * (2 * d);
    DivMod(x, 2 * d, q, 2 * r + x % 2);
  }

  lemma {:induction false} BitDiv(x: nat, k: nat)
    ensures Bit(x, k) <==> x / Pow2(k) % 2 == 1
    decreases k
  {
    hide Pow2;
    if k == 0 {
      Pow2Next(0);
    } else {
      Pow2Next(k - 1);
      BitDiv(x / 2, k - 1);
      DivTwice(x, Pow2(k - 1));
    }
  }

  /** Numbers without common bits add up. */
  lemma {:induction false} OrAbove(a: nat, b: nat, w: nat)
    requires b < Pow2(w)
    ensures Or(a * Pow2(w), b) == a * Pow2(w) + b
    decreases w
  {
    hide Pow2, Or;
    if w == 0 {
      Pow2Next(0);
      OrZero(a);
    } else {
      var p := a * Pow2(w - 1);
      Pow2Next(w - 1);
      OrAbove(a, b / 2, w - 1);
      assert a * Pow2(w) == 2 * p;
      OrEven(p, b);
    }
  }

  lemma OrEven(p: nat, b: nat)
    ensures Or(2 * p, b) == 2 * Or(p, b / 2) + b % 2
  {
    var r := Or(p, b / 2);
    assert 2 * p / 2 == p;
  }

  /** The test of bit 7. */
  lemma HighBit(x: int)
    ensures IntAnd(x, 0x80) != 0 <==> x % 256 >= 128
  {
    hide And, Pow2, Bit;
    Pow2Values();
    AndPow2(U32(x), 7);
    BitDiv(U32(x), 7);
    assert U32(0x80) == 0x80;
    SameLowByte(x, 0);
  }

  /** The saturated result. */
  lemma Saturated()
    ensures IntOr(0, 0x80) == 128 && IntOr(-256, 0x80) == -128
  {
    hide Or, Pow2;
    Pow2Values();
    OrAbove(0xffffff, 0x80, 8);
    OrZero(0x80);
    assert U32(-256) == 0xffffff00;
  }

  function Minus(x: byte, y: byte): int {
    var a: int, b: int := x, y;
    a - b
  }

  /** The difference so far: a borrow of 0 or -1, the octets above the lowest one, and the lowest one. */
  ghost predicate Borrowed(a: bytes, b: bytes, brw: int, digits: nat, low: nat) {
    && |a| == |b| > 0 && -1 <= brw <= 0 && low < 256 && digits < Pow256(|a| - 1)
    && FromBe(a) - FromBe(b) == brw * Pow256(|a|) + digits * 256 + low
  }

  lemma BorrowStart(x: byte, y: byte)
    ensures Borrowed([x], [y], Sar8(Minus(x, y)), 0, Minus(x, y) % 256)
  {
    FromBeHead([x]);
    FromBeHead([y]);
    assert Pow256(0) == 1 && Pow256(1) == 256;
    assert [x][1..] == [] && [y][1..] == [];
  }

  lemma Pow256Twice(n: nat)
    ensures Pow256(n + 1) == 256 * Pow256(n) && Pow256(n + 2) == 256 * (256 * Pow256(n))
  {}

  /** One more octet. */
  lemma BorrowStep(x: byte, a: bytes, y: byte, b: bytes, brw: int, digits: nat, low: nat) returns (more: nat)
    requires Borrowed(a, b, brw, digits, low)
    ensures var d := Minus(x, y);
            && Borrowed([x] + a, [y] + b, Sar8(brw + d), more, low)
            && (more == 0 <==> digits == 0 && (brw + d) % 256 == 0)
            && (more == Pow256(|a|) - 1 <==> digits == Pow256(|a| - 1) - 1 && (brw + d) % 256 == 255)
  {
    hide FromBe, Pow256;
    var d := brw + Minus(x, y);
    var q, digit, p := Sar8(d), d % 256, Pow256(|a| - 1);
    Pow256Twice(|a| - 1);
    FromBeHead([x] + a);
    FromBeHead([y] + b);
    assert ([x] + a)[1..] == a && ([y] + b)[1..] == b;
    more := digit * p + digits;
    DigitPlaced(digit, digits, p);
    BorrowSum(x, y, FromBe(a) - FromBe(b), brw, digits, low, q, digit, p);
  }

  lemma BorrowSum(x: int, y: int, diff: int, brw: int, digits: int, low: int, q: int, digit: int, p: int)
    requires x - y + brw == 256 * q + digit
    requires diff == brw * (256 * p) + digits * 256 + low
    ensures x * (256 * p) - y * (256 * p) + diff == q * (256 * (256 * p)) + (digit * p + digits) * 256 + low
  {
    Distribute(x, y, brw, q, digit, 256 * p);
    assert digit * (256 * p) == 256 * (digit * p);
    assert q * (256 * (256 * p)) == 256 * q * (256 * p);
  }

  lemma DigitPlaced(digit: nat, digits: nat, p: nat)
    requires digit < 256 && digits < p
    ensures digit * p + digits < 256 * p
    ensures digit * p + digits == 0 <==> digit == 0 && digits == 0
    ensures digit * p + digits == 256 * p - 1 <==> digit == 255 && digits == p - 1
  {
    MulMono(digit, 255, p);
    if digit <= 254 {
      MulMono(digit, 254, p);
    }
    if digit >= 1 {
      MulMono(1, digit, p);
    }
  }

  lemma Distribute(x: int, y: int, brw: int, q: int, digit: int, p: int)
    requires x - y + brw == 256 * q + digit
    ensures x * p - y * p + brw * p == 256 * q * p + digit * p
  {
    assert x * p - y * p + brw * p == (x - y + brw) * p;
    assert (256 * q + digit) * p == 256 * q * p + digit * p;
  }

  /** What the final borrow, the octets above the lowest one and the lowest one say of the difference. */
  lemma BorrowEnd(v1: bytes, v2: bytes, brw: int, digits: nat, low: nat)
    requires |v1| == 8 && Borrowed(v1, v2, brw, digits, low)
    ensures FromBe(v1) - FromBe(v2) == brw * 0x1_0000_0000_0000_0000 + digits * 256 + low
    ensures digits < 0x100_0000_0000_0000 && low < 256 && -1 <= brw <= 0
  {
    hide FromBe;
    Pow256Values();
  }

  /** satsub64be, the byte-wise loop */
  method SatSub64Be(v1: bytes, v2: bytes) returns (r: int)
    requires |v1| == 8 && |v2| == 8
    ensures var d: int := FromBe(v1) - FromBe(v2);
            && (-128 <= d <= 128 ==> r == d)
            && (d > 128 ==> 128 <= r <= 255)
            && (d < -128 ==> -256 <= r <= -128)
  {
    hide IntAnd, IntOr, FromBe, Pow256, Borrowed;
    Pow256Values();
    var ret := Minus(v1[7], v2[7]);
    var sat: int := 0;
    var brw: int := Sar8(ret);
    ghost var low, digits: nat := ret % 256, 0;
    HighBit(ret);
    BorrowStart(v1[7], v2[7]);
    assert v1[7..] == [v1[7]] && v2[7..] == [v2[7]];
    if IntAnd(ret, 0x80) != 0 {
      for i := 7 downto 0
        invariant Borrowed(v1[i..], v2[i..], brw, digits, low)
        invariant sat % 256 == 0 <==> digits == Pow256(7 - i) - 1
      {
        assert v1[i..] == [v1[i]] + v1[i + 1..] && v2[i..] == [v2[i]] + v2[i + 1..];
        digits := BorrowStep(v1[i], v1[i + 1..], v2[i], v2[i + 1..], brw, digits, low);
        brw := brw + Minus(v1[i], v2[i]);
        LowByteOr(sat, IntNot(brw));
        sat := IntOr(sat, IntNot(brw));
        brw := Sar8(brw);
      }
    } else {
      for i := 7 downto 0
        invariant Borrowed(v1[i..], v2[i..], brw, digits, low)
        invariant sat % 256 == 0 <==> digits == 0
      {
        assert v1[i..] == [v1[i]] + v1[i + 1..] && v2[i..] == [v2[i]] + v2[i + 1..];
        digits := BorrowStep(v1[i], v1[i + 1..], v2[i], v2[i + 1..], brw, digits, low);
        brw := brw + Minus(v1[i], v2[i]);
        LowByteOr(sat, brw);
        sat := IntOr(sat, brw);
        brw := Sar8(brw);
      }
    }
    assert v1[0..] == v1 && v2[0..] == v2;
    BorrowEnd(v1, v2, brw, digits, low);
    Pow256Values();
    LowByte(sat);
    LowByte(ret);
    Saturated();
    brw := Shl8(brw);
    if IntAnd(sat, 0xff) != 0 {
      return IntOr(brw, 0x80);
    } else {
      return brw + IntAnd(ret, 0xff);
    }
  }

  // The bitmap.

  lemma {:induction false} ShlOne(n: nat)
    ensures Shl(1, n) == Pow2(n)
  {
    if n != 0 {
      ShlOne(n - 1);
    }
  }

  lemma BitOfOne(k: nat)
    ensures Bit(1, k) <==> k == 0
  {
    if k != 0 {
      BitZero(k - 1);
    }
  }

  /** Numbers up to max of which k below the maximum is marked by bit k. */
  ghost predicate Marks(width: nat, window: nat, max: int, received: set<int>) {
    && (forall x <- received :: x <= max)
    && (forall k: nat :: k < width ==> (Bit(window, k) <==> max - k in received))
  }

  /** The window moves up to a new maximum. */
  lemma MarkNew(width: nat, window: nat, max: int, received: set<int>, shift: nat)
    requires Marks(width, window, max, received) && shift > 0
    ensures Marks(width, Or(Trunc(Shl(window, shift), width), 1), max + shift, received + {max + shift})
    ensures shift >= width ==> Marks(width, 1, max + shift, received + {max + shift})
  {
    hide Bit, Or, Trunc, Shl;
    forall k: nat | k < width
      ensures Bit(Or(Trunc(Shl(window, shift), width), 1), k) <==> max + shift - k in received + {max + shift}
      ensures shift >= width ==> (Bit(1, k) <==> max + shift - k in received + {max + shift})
    {
      BitOr(Trunc(Shl(window, shift), width), 1, k);
      BitTrunc(Shl(window, shift), width, k);
      BitShl(window, shift, k);
      BitOfOne(k);
      if k >= shift {
        assert max - (k - shift) == max + shift - k;
        assert Bit(window, k - shift) <==> max - (k - shift) in received;
      }
    }
  }

  /** A number inside the window is marked. */
  lemma MarkOld(width: nat, window: nat, max: int, received: set<int>, shift: nat)
    requires Marks(width, window, max, received) && shift < width
    ensures Marks(width, Or(window, Shl(1, shift)), max, received + {max - shift})
  {
    hide Bit, Or, Shl;
    forall k: nat | k < width
      ensures Bit(Or(window, Shl(1, shift)), k) <==> max - k in received + {max - shift}
    {
      BitOr(window, Shl(1, shift), k);
      BitShl(1, shift, k);
      if k >= shift {
        BitOfOne(k - shift);
      }
    }
  }

  /** DTLS1_BITMAP, with the numbers ever marked in it */
  class Bitmap {
    // sizeof(bitmap->map) * 8: 64, or 32 where an unsigned long has 32 bits
    const width: nat
    var window: nat
    var maxSeqNum: bytes
    ghost var received: set<int>

    ghost predicate Valid()
      reads this
    {
      width <= 128 && |maxSeqNum| == 8 && Marks(width, window, Max(), received)
    }

    ghost function Max(): int
      reads this
    {
      FromBe(maxSeqNum)
    }

    /** The numbers marked as a value */
    ghost function View(): Window
      reads this
    {
      Window(Max(), received)
    }

    /** memset(bitmap, 0, sizeof(DTLS1_BITMAP)) */
    method Clear()
      requires width <= 128
      modifies `window, `maxSeqNum, `received
      ensures Valid() && View() == EMPTY
    {
      hide Bit, FromBe;
      window, maxSeqNum, received := 0, Zeros(8), {};
      forall k: nat { BitZero(k); }
      assert FromBe(Zeros(8)) == 0 by {
        ToBeZero(8);
        Pow256Values();
        FromToBe(0, 8);
      }
    }

    constructor (width: nat)
      requires width <= 128
      ensures Valid() && View() == EMPTY && this.width == width
    {
      this.width := width;
      window, maxSeqNum, received := 0, Zeros(8), {};
      new;
      Clear();
    }

    /** memcpy(bitmap, other, sizeof(DTLS1_BITMAP)) */
    method Assign(other: Bitmap)
      requires other.Valid() && other.width == width
      modifies `window, `maxSeqNum, `received
      ensures Valid() && View() == old(other.View())
    {
      window, maxSeqNum, received := other.window, other.maxSeqNum, other.received;
    }

    /** dtls1_record_replay_check */
    method ReplayCheck(number: bytes) returns (ok: bool)
      requires Valid() && |number| == 8
      ensures ok <==> Fresh(width, View(), FromBe(number))
      ensures ok ==> FromBe(number) !in received
    {
      hide FromBe, Bit, And, Shl;
      var cmp := SatSub64Be(number, maxSeqNum);
      if cmp > 0 {
        return true;
      }
      var shift := -cmp;
      if shift >= width {
        return false;
      }
      ShlOne(shift);
      AndPow2(window, shift);
      if And(window, Shl(1, shift)) != 0 {
        return false;
      }
      return true;
    }

    /** dtls1_record_bitmap_update */
    method Update(number: bytes)
      requires Valid() && |number| == 8
      modifies `window, `maxSeqNum, `received
      ensures Valid() && View() == Mark(old(View()), FromBe(number))
    {
      hide FromBe, Bit, Or, Trunc, Shl;
      var cmp := SatSub64Be(number, maxSeqNum);
      ghost var n: int := FromBe(number);
      if cmp > 0 {
        var shift := cmp;
        MarkNew(width, window, Max(), received, n - Max());
        if shift < width {
          window := Trunc(Shl(window, shift), width);
          window := Or(window, 1);
        } else {
          window := 1;
        }
        maxSeqNum := number;
      } else {
        var shift := -cmp;
        if shift < width {
          MarkOld(width, window, Max(), received, shift);
          window := Or(window, Shl(1, shift));
        }
      }
      received := received + {n};
    }
  }
}

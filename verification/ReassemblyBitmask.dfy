/** The bitmask of d1_both.c that records which octets of a handshake message have arrived. */
module ReassemblyBitmask {
  import opened Bits
  import opened Bytes

  /** RSMBLY_BITMASK_SIZE */
  function MaskSize(msgLen: nat): nat { (msgLen + 7) / 8 }

  const START_VALUES: bytes := [0xff, 0xfe, 0xfc, 0xf8, 0xf0, 0xe0, 0xc0, 0x80]
  const END_VALUES: bytes := [0xff, 0x01, 0x03, 0x07, 0x0f, 0x1f, 0x3f, 0x7f]

  /** Bit k of octet b of the mask stands for octet 8b + k of the message. */
  ghost predicate Marked(mask: bytes, b: nat, k: nat)
    requires b < |mask|
  {
    Bit(mask[b], k)
  }

  /** The octets an interval covers are marked in addition to those marked before. */
  ghost predicate MarkedAlso(before: bytes, after: bytes, start: int, end: int) {
    && |after| == |before|
    && forall b: nat, k: nat :: b < |after| && k < 8 ==>
         (Marked(after, b, k) <==> Marked(before, b, k) || start <= 8 * b + k < end)
  }

  lemma OrByte(x: byte, y: byte)
    ensures Or(x, y) < 256
  {
    hide Or, Pow2;
    Pow2Values();
    OrFits(x, y, 8);
  }

  lemma OneOnly(j: nat, k: nat)
    ensures k >= j ==> (Bit(1, k - j) <==> k == j)
  {
    if k > j {
      BitZero(k - j - 1);
    }
  }

  lemma TableBits(j: nat, k: nat)
    requires j < 8 && k < 8
    ensures Bit(START_VALUES[j], k) <==> j <= k
    ensures Bit(END_VALUES[j], k) <==> k < j || j == 0
    ensures Bit(Shl(1, j), k) <==> k == j
    ensures Shl(1, j) < 256
  {
    hide Bit;
    OneOnly(j, k);
    var p := Pow2(j);
    assert Pow2(8) == 256 && p == [1, 2, 4, 8, 16, 32, 64, 128][j];
    assert START_VALUES[j] == Not(p - 1, 8);
    BitNot(p - 1, 8, k);
    BitOnes(j, k);
    BitOnes(8, k);
    assert END_VALUES[j] == if j == 0 then Pow2(8) - 1 else p - 1;
    BitShl(1, j, k);
    assert Shl(1, j) == p;
  }

  /** One octet of the mask gets the bits of a value in addition to its own. */
  lemma MarkOctet(before: bytes, mid: bytes, at: nat, value: byte, start: int, end: int, more: int)
    requires MarkedAlso(before, mid, start, end) && at < |mid|
    requires start <= end <= more && 8 * at <= end && more <= 8 * at + 8
    requires forall k: nat :: k < 8 ==> (Bit(value, k) ==> start <= 8 * at + k < more)
    requires forall k: nat :: k < 8 ==> (end <= 8 * at + k < more ==> Bit(value, k))
    ensures Or(mid[at], value) < 256
    ensures MarkedAlso(before, mid[at := Or(mid[at], value)], start, more)
  {
    hide Bit, Or;
    OrByte(mid[at], value);
    var after := mid[at := Or(mid[at], value)];
    forall b: nat, k: nat | b < |after| && k < 8
      ensures Marked(after, b, k) <==> Marked(before, b, k) || start <= 8 * b + k < more
    {
      assert Marked(mid, b, k) <==> Marked(before, b, k) || start <= 8 * b + k < end;
      BitOr(mid[at], value, k);
    }
  }

  /** RSMBLY_BITMASK_MARK */
  method MarkInterval(mask: array<byte>, start: nat, end: nat)
    requires start <= end <= 8 * mask.Length
    modifies mask
    ensures MarkedAlso(old(mask[..]), mask[..], start, end)
  {
    hide Bit, Or, Shl;
    ghost var before := mask[..];
    if end - start <= 8 {
      for ii := start to end
        invariant MarkedAlso(before, mask[..], start, ii)
      {
        MarkOne(before, mask[..], start, ii);
        mask[ii / 8] := Or(mask[ii / 8], Shl(1, ii % 8));
      }
    } else {
      MarkFirst(before, start, end);
      mask[start / 8] := Or(mask[start / 8], START_VALUES[start % 8]);
      for ii := start / 8 + 1 to (end - 1) / 8
        invariant MarkedAlso(before, mask[..], start, 8 * ii)
      {
        MarkWhole(before, mask[..], start, ii);
        mask[ii] := 0xff;
      }
      MarkLast(before, mask[..], start, end);
      mask[(end - 1) / 8] := Or(mask[(end - 1) / 8], END_VALUES[end % 8]);
    }
  }

  lemma MarkOne(before: bytes, mid: bytes, start: nat, i: nat)
    requires MarkedAlso(before, mid, start, i) && start <= i < 8 * |mid|
    ensures Shl(1, i % 8) < 256 && Or(mid[i / 8], Shl(1, i % 8)) < 256
    ensures MarkedAlso(before, mid[i / 8 := Or(mid[i / 8], Shl(1, i % 8))], start, i + 1)
  {
    hide Bit, Or, Shl;
    forall k: nat | k < 8 { TableBits(i % 8, k); }
    TableBits(i % 8, 0);
    MarkOctet(before, mid, i / 8, Shl(1, i % 8), start, i, i + 1);
  }

  lemma MarkFirst(before: bytes, start: nat, end: nat)
    requires start + 8 < end <= 8 * |before|
    ensures Or(before[start / 8], START_VALUES[start % 8]) < 256
    ensures MarkedAlso(before, before[start / 8 := Or(before[start / 8], START_VALUES[start % 8])], start,
                        8 * (start / 8 + 1))
  {
    hide Bit, Or;
    forall k: nat | k < 8 { TableBits(start % 8, k); }
    MarkOctet(before, before, start / 8, START_VALUES[start % 8], start, start, 8 * (start / 8 + 1));
  }

  lemma MarkWhole(before: bytes, mid: bytes, start: nat, i: nat)
    requires MarkedAlso(before, mid, start, 8 * i) && start <= 8 * i && i < |mid|
    ensures MarkedAlso(before, mid[i := 0xff], start, 8 * (i + 1))
  {
    hide Bit;
    var after := mid[i := 0xff];
    forall b: nat, k: nat | b < |after| && k < 8
      ensures Marked(after, b, k) <==> Marked(before, b, k) || start <= 8 * b + k < 8 * (i + 1)
    {
      assert Marked(mid, b, k) <==> Marked(before, b, k) || start <= 8 * b + k < 8 * i;
      TableBits(0, k);
      assert Bit(0xff, k);
    }
  }

  lemma MarkLast(before: bytes, mid: bytes, start: nat, end: nat)
    requires MarkedAlso(before, mid, start, 8 * ((end - 1) / 8)) && start + 8 < end <= 8 * |mid|
    ensures Or(mid[(end - 1) / 8], END_VALUES[end % 8]) < 256
    ensures MarkedAlso(before, mid[(end - 1) / 8 := Or(mid[(end - 1) / 8], END_VALUES[end % 8])], start, end)
  {
    hide Bit, Or;
    hide MarkedAlso;
    var e, t: nat := (end - 1) / 8, end % 8;
    assert 8 * e <= end - 1 < 8 * e + 8 && start <= 8 * e;
    assert end == 8 * e + if t == 0 then 8 else t;
    forall k: nat | k < 8
      ensures Bit(END_VALUES[t], k) <==> 8 * e + k < end
    {
      TableBits(t, k);
    }
    MarkOctet(before, mid, e, END_VALUES[end % 8], start, 8 * e, end);
  }

  /** Every octet of a message of this length is marked and nothing else. */
  ghost predicate Full(mask: bytes, msgLen: nat) {
    forall b: nat, k: nat :: b < |mask| && k < 8 ==> (Marked(mask, b, k) <==> 8 * b + k < msgLen)
  }

  lemma {:induction false} SameByte(x: byte, y: byte)
    requires forall k: nat :: k < 8 ==> (Bit(x, k) <==> Bit(y, k))
    ensures x == y
  {
    hide Bit;
    forall k: nat
      ensures Bit(x, k) == Bit(y, k)
    {
      if k >= 8 {
        HighBitsZero(x, k);
        HighBitsZero(y, k);
      }
    }
    SameBits(x, y);
  }

  lemma HighBitsZero(x: byte, k: nat)
    requires k >= 8
    ensures !Bit(x, k)
  {
    hide Bit, Pow2, Trunc;
    Pow2Values();
    TruncFits(x, 8);
    BitTrunc(x, 8, k);
  }

  /** RSMBLY_BITMASK_IS_COMPLETE */
  method MaskComplete(mask: array<byte>, msgLen: nat) returns (complete: bool)
    requires msgLen > 0 && mask.Length == MaskSize(msgLen)
    ensures complete <==> Full(mask[..], msgLen)
  {
    hide Bit;
    var last := (msgLen - 1) / 8;
    forall b: nat | b < mask.Length { FullOctet(mask[..], msgLen, b); }
    complete := mask[last] == END_VALUES[msgLen % 8];
    if complete {
      for ii := last downto 0
        invariant forall b: nat :: ii <= b <= last ==> OctetFull(mask[..], msgLen, b)
      {
        if mask[ii] != 0xff {
          assert !OctetFull(mask[..], msgLen, ii);
          return false;
        }
      }
    }
  }

  ghost predicate OctetFull(mask: bytes, msgLen: nat, b: nat)
    requires b < |mask|
  {
    forall k: nat :: k < 8 ==> (Marked(mask, b, k) <==> 8 * b + k < msgLen)
  }

  /** What the octets of a full mask look like. */
  lemma FullOctet(mask: bytes, msgLen: nat, b: nat)
    requires msgLen > 0 && |mask| == MaskSize(msgLen) && b < |mask|
    ensures OctetFull(mask, msgLen, b) <==> mask[b] == if b == (msgLen - 1) / 8 then END_VALUES[msgLen % 8] else 0xff
  {
    hide Bit;
    var e := if b == (msgLen - 1) / 8 then END_VALUES[msgLen % 8] else 0xff;
    forall k: nat | k < 8
      ensures Bit(e, k) <==> 8 * b + k < msgLen
    {
      TableBits(msgLen % 8, k);
      TableBits(0, k);
    }
    if OctetFull(mask, msgLen, b) {
      forall k: nat | k < 8
        ensures Bit(mask[b], k) <==> Bit(e, k)
      {
        assert Marked(mask, b, k) <==> 8 * b + k < msgLen;
      }
      SameByte(mask[b], e);
    }
  }

  /** Some interval contains i. */
  ghost predicate Covered(intervals: seq<(nat, nat)>, i: int) {
    exists v <- intervals :: v.0 <= i < v.1
  }

  lemma CoveredMore(intervals: seq<(nat, nat)>, v: (nat, nat), i: int)
    ensures Covered(intervals + [v], i) <==> Covered(intervals, i) || v.0 <= i < v.1
  {
    assert v in intervals + [v];
    if Covered(intervals, i) {
      var u :| u in intervals && u.0 <= i < u.1;
      assert u in intervals + [v];
    }
  }

  lemma CoveredBelow(intervals: seq<(nat, nat)>, n: nat)
    requires forall v <- intervals :: v.1 <= n
    ensures forall i :: Covered(intervals, i) ==> i < n
  {}

  /** A bitmask and the intervals marked in it so far */
  class Reassembly {
    const msgLen: nat
    const mask: array<byte>
    ghost var intervals: seq<(nat, nat)>

    ghost predicate Valid()
      reads this, mask
    {
      && mask.Length == MaskSize(msgLen)
      && (forall v <- intervals :: v.1 <= msgLen)
      && forall b: nat, k: nat :: b < |mask[..]| && k < 8 ==>
           (Marked(mask[..], b, k) <==> Covered(intervals, 8 * b + k))
    }

    /** calloc(1, RSMBLY_BITMASK_SIZE(frag_len)) */
    constructor (msgLen: nat)
      ensures Valid() && fresh(mask) && this.msgLen == msgLen && intervals == []
    {
      hide Bit;
      this.msgLen, intervals := msgLen, [];
      mask := new byte[MaskSize(msgLen)](_ => 0);
      new;
      forall k: nat { BitZero(k); }
    }

    method Mark(start: nat, end: nat)
      requires Valid() && start <= end <= msgLen
      modifies this, mask
      ensures Valid() && intervals == old(intervals) + [(start, end)]
    {
      hide Covered, Marked;
      MarkInterval(mask, start, end);
      forall i { CoveredMore(intervals, (start, end), i); }
      intervals := intervals + [(start, end)];
    }

    method IsComplete() returns (complete: bool)
      requires Valid() && msgLen > 0
      ensures complete <==> forall i :: 0 <= i < msgLen ==> Covered(intervals, i)
    {
      hide Covered, Marked;
      CoveredBelow(intervals, msgLen);
      complete := MaskComplete(mask, msgLen);
      forall i | 0 <= i < msgLen
        ensures complete ==> Covered(intervals, i)
      {
        assert complete ==> Marked(mask[..], i / 8, i % 8);
      }
    }
  }
}

/** Extraction of the MAC from a record whose length is secret (s3_cbc.c). */
module CbcCopyMac {
  import opened Bits
  import opened Bytes
  import opened ConstantTime

  /** Position t of the MAC in the rotated buffer when its first byte landed at r. */
  function Slot(r: nat, t: nat, size: nat): nat {
    if r + t < size then r + t else r + t - size
  }

  function Residue(n: nat, size: nat): (r: nat)
    requires size > 0
    ensures r < size
  {
    n % size
  }

  /** The running index that is reset to zero at size counts modulo size. */
  lemma NextIndex(n: nat, j: nat, size: nat)
    requires 0 < size && j == Residue(n, size)
    ensures (if j + 1 < size then j + 1 else 0) == Residue(n + 1, size)
  {
    var q := n / size;
    assert n == q * size + j;
    if j + 1 < size {
      DivMod(n + 1, size, q, j + 1);
    } else {
      assert n + 1 == (q + 1) * size;
      DivMod(n + 1, size, q + 1, 0);
    }
  }

  lemma ResidueZero(size: nat)
    requires size > 0
    ensures Residue(0, size) == 0
  {}

  /** Adding the multiple of md_size called div_spoiler does not change the remainder. */
  lemma SpoilerIsMultiple(size: nat, x: nat)
    requires 0 < size <= 64 && size % 2 == 0
    ensures (size / 2) * 0x100_0000 + x < U32 ==> ((size / 2) * 0x100_0000 + x) % size == x % size
  {
    var q, r := x / size, x % size;
    assert x == q * size + r;
    assert (size / 2) * 0x100_0000 + x == (q + 0x80_0000) * size + r by {
      assert (q + 0x80_0000) * size == q * size + 0x80_0000 * size;
    }
    DivMod((size / 2) * 0x100_0000 + x, size, q + 0x80_0000, r);
  }

  /** rotated_mac[j] |= b & mac_started & ~mac_ended, all three operands being bytes. */
  function Masked(prev: byte, b: byte, started: byte, ended: byte): nat {
    Or(prev, And(And(b, started), 0xff - ended))
  }

  lemma MaskedSelects(prev: byte, b: byte, started: bool, ended: bool)
    ensures Masked(prev, b, Mask(started), Mask(ended)) == if started && !ended then Or(prev, b) else prev
  {
    hide And, Or;
    MaskOps(b, started, true);
    MaskOps(if started then b else 0, !ended, true);
    OrZero(prev);
  }

  /** j &= constant_time_lt(j, size) */
  lemma Wrap(j: nat, size: nat)
    requires j <= size < 0x8000_0000
    ensures And(j, Lt(j, size)) == if j < size then j else 0
  {
    ComparisonsBelow31Bits(j, size);
    Pow2Values();
    AndOnes(j, 32);
  }

  /** The first loop of ssl3_cbc_copy_mac: every byte from scanStart on passes over the rotating buffer, and
      only those of the MAC stay. */
  method ScanRecord(data: array<byte>, scanStart: nat, macStart: nat, size: nat, origLen: nat, ghost r: nat)
    returns (rotated: array<byte>)
    requires 0 < size <= 64 && scanStart <= macStart && r == Residue(macStart - scanStart, size)
    requires macStart + size <= origLen <= data.Length && origLen < 0x8000_0000
    ensures fresh(rotated) && rotated.Length == size
    ensures forall t :: 0 <= t < size ==>
      rotated[Slot(r, t, size)] == data[macStart + t]
  {
    hide And, Or, Masked, Lt, Ge, Residue;
    rotated := new byte[size](_ => 0);
    var i, j := scanStart, 0;
    ResidueZero(size);
    while i < origLen
      invariant scanStart <= i <= origLen
      invariant j == Residue(i - scanStart, size)
      invariant macStart <= i < macStart + size ==> j == Slot(r, i - macStart, size)
      invariant forall t :: 0 <= t < size ==>
        rotated[Slot(r, t, size)] == if macStart + t < i then data[macStart + t] else 0
    {
      var started := Ge(i, macStart) % 256;
      var ended := Ge(i, macStart + size) % 256;
      ComparisonsBelow31Bits(i, macStart);
      ComparisonsBelow31Bits(i, macStart + size);
      var b := data[i];
      MaskedSelects(rotated[j], b, i >= macStart, i >= macStart + size);
      OrZero(b);
      rotated[j] := Masked(rotated[j], b, started, ended);
      NextIndex(i - scanStart, j, size);
      Wrap(j + 1, size);
      j := And(j + 1, Lt(j + 1, size));
      i := i + 1;
    }
  }

  /** ssl3_cbc_copy_mac. The data read is data[..origLen]; the MAC ends at length. */
  method CopyMac(out: array<byte>, data: array<byte>, length: nat, size: nat, origLen: nat)
    requires 0 < size <= 64 && size % 2 == 0 && size <= out.Length && out != data
    requires size <= length <= origLen <= data.Length && origLen <= length + 256
    requires origLen < 0x8000_0000
    modifies out
    ensures out[..size] == data[length - size..length]
    ensures out[size..] == old(out[size..])
  {
    hide And, Or, Masked, Lt, Ge;
    var macStart := length - size;
    var scanStart := 0;
    if origLen > size + 255 + 1 {
      scanStart := origLen - (size + 255 + 1);
    }
    var divSpoiler := (size / 2) * 0x100_0000;
    SpoilerIsMultiple(size, macStart - scanStart);
    var rotateOffset := (divSpoiler + macStart - scanStart) % size;
    ghost var r := rotateOffset;
    var rotated := ScanRecord(data, scanStart, macStart, size, origLen, r);

    var j := 0;
    for i := 0 to size
      invariant j == i
      invariant rotateOffset < size
      invariant forall t :: 0 <= t < size ==> rotated[Slot(r, t, size)] == data[macStart + t]
      invariant i < size ==> rotateOffset == Slot(r, i, size)
      invariant out[..i] == data[macStart..macStart + i]
      invariant out[size..] == old(out[size..])
    {
      out[j] := rotated[rotateOffset];
      j := j + 1;
      Wrap(rotateOffset + 1, size);
      rotateOffset := And(rotateOffset + 1, Lt(rotateOffset + 1, size));
    }
  }
}

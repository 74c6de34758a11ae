/** The MAC of a decrypted, padded CBC record whose length is secret (s3_cbc.c). */
module CbcDigest {
  import opened Bits
  import opened Bytes
  import opened ConstantTime
  import opened Hmac

  const HEADER := 13
  const VARIANCE_BLOCKS := 6
  const MAX_HASH_BLOCK_SIZE := 128

  /** Where byte j of block i of header || data stands relative to the end of the message, the 0x80 byte and
      the length field. */
  lemma Place(end: nat, block: nat, len: nat, i: nat, j: nat)
    requires (block == 64 && len == 8) || (block == 128 && len == 16)
    requires j < block
    ensures var a, b := end / block, (end + len) / block;
            var pos := Off(i, block) + j;
            && a <= b <= a + 1
            && (i < a ==> pos < end)
            && (i == a ==> pos - end == j - end % block)
            && (i > a ==> pos > end)
            && (i <= b ==> (pos >= Off(b + 1, block) - len <==> i == b && j >= block - len))
            && (i == b ==> pos - (Off(b + 1, block) - len) == j - (block - len))
  {
    if block == 64 {} else {}
  }

  /** The hash blocks that do not depend on the padding lie before the end of every possible message, and the
      last block of every possible message is among the variance blocks that follow. */
  lemma WindowBound(size: nat, block: nat, len: nat, secretSize: nat, publicSize: nat)
    requires (block == 64 && len == 8) || (block == 128 && len == 16)
    requires size <= secretSize <= publicSize <= secretSize + 256 && size < publicSize
    ensures var end := secretSize + HEADER - size;
            var starting := StartingBlocks(publicSize + HEADER - size - 1, block, len);
            && starting <= end / block <= (end + len) / block <= starting + VARIANCE_BLOCKS
            && Off(starting, block) <= end
  {
    if block == 64 {} else {}
  }

  /** num_starting_blocks */
  function StartingBlocks(maxMacBytes: nat, block: nat, len: nat): nat
    requires block > 0
  {
    var numBlocks := (maxMacBytes + 1 + len + block - 1) / block;
    if numBlocks > VARIANCE_BLOCKS then numBlocks - VARIANCE_BLOCKS else 0
  }

  /** The bytes of a padded message. */
  lemma PadAt<S>(h: Hash<S>, m: bytes, q: nat)
    requires 0 <= h.lengthSize < h.block && q < |Pad(h, m)|
    ensures var tail := |Pad(h, m)| - h.lengthSize;
            && tail > |m|
            && Pad(h, m)[q] == (if q < |m| then m[q] else if q == |m| then 0x80 else if q < tail then 0
                                else LengthField(h, 8 * |m|)[q - tail])
  {
    PaddingFits(|m| + h.lengthSize, h.block);
  }

  /** The masking of one byte: past c becomes 0x80 then 0, the extra length-only block becomes 0, and the
      last bytes of block b become the length. */
  function MaskedByte(b: byte, isA: byte, isB: byte, pastC: byte, pastC1: byte, inTail: bool, length: byte): nat {
    var b := Or(And(b, 0xff - pastC), And(0x80, pastC));
    var b := And(b, 0xff - pastC1);
    var b := And(b, Or(0xff - isB, isA));
    if inTail then Or(And(b, 0xff - isB), And(isB, length)) else b
  }

  lemma MaskedByteMeans(b: byte, isA: bool, isB: bool, pastC: bool, pastC1: bool, inTail: bool, length: byte)
    ensures MaskedByte(b, Mask(isA), Mask(isB), Mask(pastC), Mask(pastC1), inTail, length) ==
            if inTail && isB then length
            else if (isB && !isA) || pastC1 then 0
            else if pastC then 0x80 else b
  {
    hide And, Or;
    var b1 := if pastC then 0x80 else b;
    assert Or(And(b, 0xff - Mask(pastC)), And(0x80, Mask(pastC))) == b1 by {
      MaskOps(b, !pastC, true);
      MaskOps(0x80, pastC, true);
    }
    var b2 := if pastC1 then 0 else b1;
    MaskOps(b1, !pastC1, true);
    MaskOps(0, !isB, isA);
    var b3 := if isB && !isA then 0 else b2;
    MaskOps(b2, !isB || isA, true);
    MaskOps(b3, !isB, true);
    MaskOps(length, isB, true);
  }

  /** length_bytes: the 32-bit count of bits inside an otherwise zero field. */
  method LengthBytes<S>(h: Hash<S>, bits: u32) returns (f: bytes)
    requires (h.lengthSize == 8) || (h.lengthSize == 16 && h.bigEndian)
    ensures f == LengthField(h, bits)
    ensures forall k: nat :: k < h.lengthSize ==>
              f[if h.bigEndian then h.lengthSize - 1 - k else k] == bits / Pow256(k) % 256
  {
    hide Pow256, Zeros;
    LengthOctets(h, bits);
    var o := Octets4(bits);
    WideField(bits, h.lengthSize - 4);
    if h.bigEndian {
      f := Zeros(h.lengthSize - 4) + o;
    } else {
      f := [o[3], o[2], o[1], o[0]] + Zeros(h.lengthSize - 4);
    }
  }

  /** hmac_pad, first masked for the inner hash. */
  method MaskKey<S>(h: Hash<S>, key: bytes) returns (pad: array<byte>)
    requires |key| <= h.block
    ensures fresh(pad) && pad[..] == MaskedKey(h, key, 0x36)
  {
    pad := new byte[h.block](i requires 0 <= i < h.block => if i < |key| then key[i] else 0);
    for i := 0 to h.block
      invariant forall t :: 0 <= t < i ==> pad[t] == MaskedKey(h, key, 0x36)[t]
      invariant forall t :: i <= t < h.block ==> pad[t] == (key + Zeros(h.block - |key|))[t]
    {
      pad[i] := XorByte(pad[i], 0x36);
    }
  }

  /** hmac_pad[i] ^= 0x6a turns the inner mask into the outer one. */
  lemma OuterMask(k: byte)
    ensures XorByte(XorByte(k, 0x36), 0x6a) == XorByte(k, 0x5c)
  {
    hide Xor;
    XorAssoc(k, 0x36, 0x6a);
    MaskConstants();
  }

  lemma MaskConstants()
    ensures Xor(0x36, 0x6a) == 0x5c
  {
    assert Xor(0x1, 0x3) == 0x2;
    assert Xor(0x6, 0xd) == 0xb;
    assert Xor(0x1b, 0x35) == 0x2e;
  }

  method RemaskKey<S>(h: Hash<S>, key: bytes, pad: array<byte>)
    requires |key| <= h.block && pad[..] == MaskedKey(h, key, 0x36)
    modifies pad
    ensures pad[..] == MaskedKey(h, key, 0x5c)
  {
    ghost var k0 := key + Zeros(h.block - |key|);
    assert pad.Length == h.block;
    for i := 0 to h.block
      invariant forall t :: 0 <= t < i ==> pad[t] == MaskedKey(h, key, 0x5c)[t]
      invariant forall t :: i <= t < h.block ==> pad[t] == MaskedKey(h, key, 0x36)[t]
    {
      OuterMask(k0[i]);
      pad[i] := XorByte(pad[i], 0x6a);
    }
  }

  /** A byte of header || data, or zero past its end. */
  function PlainByte(header: bytes, data: bytes, publicSize: nat, k: nat): byte
    requires |header| == HEADER && publicSize <= |data|
  {
    if k < HEADER then header[k]
    else if k < publicSize + HEADER then data[k - HEADER]
    else 0
  }

  /** The message whose inner hash is taken: the masked key and header || data[..n]. */
  function Inner<S>(h: Hash<S>, key: bytes, header: bytes, data: bytes, n: nat): bytes
    requires |key| <= h.block && n <= |data|
  {
    InnerMessage(h, key, header + data[..n])
  }

  /** Byte j of block i as the loop computes it is byte j of block i + 1 of the padded inner message. */
  lemma BlockByteCorrect<S>(h: Hash<S>, key: bytes, header: bytes, data: bytes, n: nat, publicSize: nat,
                            i: nat, j: nat)
    requires (h.block == 64 && h.lengthSize == 8) || (h.block == 128 && h.lengthSize == 16)
    requires |key| <= h.block && |header| == HEADER && n <= publicSize <= |data|
    requires var end := n + HEADER; i <= (end + h.lengthSize) / h.block && j < h.block
    ensures var end := n + HEADER;
            var m := Inner(h, key, header, data, n);
            var isA, isB := i == end / h.block, i == (end + h.lengthSize) / h.block;
            var c := end % h.block;
            var inTail := j >= h.block - h.lengthSize;
            && Off(i + 1, h.block) + j < |Pad(h, m)|
            && Pad(h, m)[Off(i + 1, h.block) + j] ==
               if inTail && isB then LengthField(h, 8 * |m|)[j - (h.block - h.lengthSize)]
               else if (isB && !isA) || (isA && j >= c + 1) then 0
               else if isA && j >= c then 0x80
               else PlainByte(header, data, publicSize, Off(i, h.block) + j)
  {
    var end := n + HEADER;
    var m := Inner(h, key, header, data, n);
    hide Off, LengthField, Pad;
    Place(end, h.block, h.lengthSize, i, j);
    assert |m| == h.block + end;
    PaddedInner(end, h.block, h.lengthSize, i, j);
    var q := Off(i + 1, h.block) + j;
    PadAt(h, m, q);
    if q < |m| {
      assert m[q] == (header + data[..n])[q - h.block];
    }
  }

  /** With the key block in front, every position moves by one block. */
  lemma PaddedInner(end: nat, block: nat, len: nat, i: nat, j: nat)
    requires (block == 64 && len == 8) || (block == 128 && len == 16)
    requires i <= (end + len) / block && j < block
    ensures var b := (end + len) / block;
            && PaddedBlocks(block + end, block, len) == b + 2
            && Off(i + 1, block) == Off(i, block) + block
            && Off(i + 1, block) + j < Off(b + 2, block) == Off(b + 1, block) + block
  {
    if block == 64 {} else {}
  }

  /** is_block_a & constant_time_ge(j, c) */
  lemma PastMask(isA: bool, j: nat, c: nat)
    requires j < 0x8000_0000 && c < 0x8000_0000
    ensures And(Mask(isA), Ge(j, c)) == Mask(isA && j >= c)
  {
    hide And;
    ComparisonsBelow31Bits(j, c);
    MaskOps(0, isA, true);
  }

  /** The places of the 0x80 octet and the length field of a message of n octets behind its header */
  ghost predicate Places<S>(h: Hash<S>, n: nat, indexA: nat, indexB: nat, c: nat) {
    && ((h.block == 64 && h.lengthSize == 8) || (h.block == 128 && h.lengthSize == 16))
    && indexA == (n + HEADER) / h.block && indexB == (n + HEADER + h.lengthSize) / h.block
    && c == (n + HEADER) % h.block
  }

  lemma PlacesBounded<S>(h: Hash<S>, n: nat, indexA: nat, indexB: nat, c: nat)
    requires Places(h, n, indexA, indexB, c) && n < 1024 * 1024
    ensures h.block == 64 || h.block == 128
    ensures h.lengthSize < h.block && c < h.block && indexA < 0x4000_0000 && indexB < 0x4000_0000
  {}

  lemma ByteInPlace<S>(h: Hash<S>, key: bytes, header: bytes, data: bytes, n: nat, publicSize: nat, i: nat, j: nat,
                       indexA: nat, indexB: nat, c: nat)
    requires Places(h, n, indexA, indexB, c) && i <= indexB && j < h.block
    requires |key| <= h.block && |header| == HEADER && n <= publicSize <= |data|
    ensures var m := Inner(h, key, header, data, n);
            var inTail := j >= h.block - h.lengthSize;
            && Off(i + 1, h.block) + j < |Pad(h, m)|
            && Pad(h, m)[Off(i + 1, h.block) + j] ==
               if inTail && i == indexB then LengthField(h, 8 * |m|)[j - (h.block - h.lengthSize)]
               else if (i == indexB && i != indexA) || (i == indexA && j >= c + 1) then 0
               else if i == indexA && j >= c then 0x80
               else PlainByte(header, data, publicSize, Off(i, h.block) + j)
  {
    hide Off, LengthField, Pad, Inner, PlainByte;
    BlockByteCorrect(h, key, header, data, n, publicSize, i, j);
  }

  /** The body of the inner loop of ssl3_cbc_digest_record: octet j of a block, built under masks. */
  method BuildByte<S>(h: Hash<S>, header: bytes, data: bytes, publicSize: nat, k: nat, j: nat, c: nat,
                      lengthBytes: bytes, isA: byte, isB: byte, ghost atA: bool, ghost atB: bool)
    returns (b: byte)
    requires |header| == HEADER && publicSize <= |data| && h.lengthSize <= h.block <= 128 && j < h.block
    requires c < h.block && |lengthBytes| == h.lengthSize && isA == Mask(atA) && isB == Mask(atB)
    ensures var inTail := j >= h.block - h.lengthSize;
            b == if inTail && atB then lengthBytes[j - (h.block - h.lengthSize)]
                 else if (atB && !atA) || (atA && j >= c + 1) then 0
                 else if atA && j >= c then 0x80
                 else PlainByte(header, data, publicSize, k)
  {
    hide MaskedByte, And, Ge, PlainByte;
    var plain := PlainByte(header, data, publicSize, k);
    PastMask(atA, j, c);
    PastMask(atA, j, c + 1);
    var pastC, pastC1 := And(isA, Ge(j, c)), And(isA, Ge(j, c + 1));
    var inTail := j >= h.block - h.lengthSize;
    var length := if inTail then lengthBytes[j - (h.block - h.lengthSize)] else 0;
    MaskedByteMeans(plain, atA, atB, atA && j >= c, atA && j >= c + 1, inTail, length);
    b := MaskedByte(plain, isA, isB, pastC, pastC1, inTail, length);
  }

  /** The inner loop of ssl3_cbc_digest_record: block i of the message. */
  method BuildBlock<S>(h: Hash<S>, header: bytes, data: bytes, publicSize: nat, i: nat,
                       indexA: nat, indexB: nat, c: nat, lengthBytes: bytes, ghost key: bytes, ghost n: nat)
    returns (block: array<byte>)
    requires Places(h, n, indexA, indexB, c)
    requires |header| == HEADER && n <= publicSize <= |data| && publicSize < 1024 * 1024 && |key| <= h.block
    requires i < 0x4000_0000
    requires lengthBytes == LengthField(h, 8 * |Inner(h, key, header, data, n)|)
    ensures fresh(block) && block.Length == h.block
    ensures i <= indexB ==>
              var p := Pad(h, Inner(h, key, header, data, n));
              Off(i + 2, h.block) <= |p| && block[..] == p[Off(i + 1, h.block)..Off(i + 2, h.block)]
  {
    hide Eq8, Pad, Inner, Off, LengthField, PlainByte, Places;
    PlacesBounded(h, n, indexA, indexB, c);
    block := new byte[h.block](_ => 0);
    ghost var p := Pad(h, Inner(h, key, header, data, n));
    var isA, isB := Eq8(i, indexA), Eq8(i, indexB);
    ComparisonsBelow31Bits(i, indexA);
    ComparisonsBelow31Bits(i, indexB);
    var k := Off(i, h.block);
    if i <= indexB {
      ByteInPlace(h, key, header, data, n, publicSize, i, 0, indexA, indexB, c);
    }
    for j := 0 to h.block
      invariant k == Off(i, h.block) + j
      invariant i <= indexB ==> Off(i + 1, h.block) + j <= |p|
      invariant i <= indexB ==> forall t :: 0 <= t < j ==> block[t] == p[Off(i + 1, h.block) + t]
    {
      var b := BuildByte(h, header, data, publicSize, k, j, c, lengthBytes, isA, isB, i == indexA, i == indexB);
      block[j] := b;
      k := k + 1;
      if i <= indexB {
        ByteInPlace(h, key, header, data, n, publicSize, i, j, indexA, indexB, c);
      }
    }
    if i <= indexB {
      ByteInPlace(h, key, header, data, n, publicSize, i, h.block - 1, indexA, indexB, c);
      OffNext(i + 1, h.block);
    }
  }

  /** mac_out[j] |= block[j] & is_block_b */
  method CopyIfLast<S>(h: Hash<S>, macOut: array<byte>, raw: bytes, last: bool, isB: byte)
    requires |raw| >= h.size && macOut.Length == h.size && isB == Mask(last)
    requires last ==> macOut[..] == Zeros(h.size)
    modifies macOut
    ensures macOut[..] == if last then raw[..h.size] else old(macOut[..])
  {
    hide And, Or;
    for j := 0 to h.size
      invariant macOut[j..] == old(macOut[j..])
      invariant macOut[..j] == if last then raw[..j] else old(macOut[..j])
    {
      MaskOps(raw[j], last, true);
      MaskOps(macOut[j], last, true);
      macOut[j] := Or(macOut[j], And(raw[j], isB));
    }
  }

  lemma AbsorbNext<S>(h: Hash<S>, m: bytes, n: nat)
    requires h.block > 0 && Off(n + 1, h.block) <= |m|
    ensures Off(n, h.block) <= Off(n + 1, h.block)
    ensures Absorb(h, m, n + 1) == h.transform(Absorb(h, m, n), m[Off(n, h.block)..Off(n + 1, h.block)])
  {
    OffNext(n, h.block);
  }

  /** The blocks of the padded inner message that hold only the key or only header and data. */
  lemma PlainBlocks<S>(h: Hash<S>, key: bytes, header: bytes, data: bytes, n: nat, i: nat)
    requires (h.block == 64 && h.lengthSize == 8) || (h.block == 128 && h.lengthSize == 16)
    requires |header| == HEADER && n <= |data| && |key| <= h.block && Off(i, h.block) <= n + HEADER
    ensures Off(0, h.block) == 0 && (i > 0 ==> Off(i, h.block) == Off(i - 1, h.block) + h.block)
    ensures var p := Pad(h, Inner(h, key, header, data, n));
            && Off(i, h.block) <= Off(i + 1, h.block) <= |p|
            && p[Off(i, h.block)..Off(i + 1, h.block)] ==
               if i == 0 then MaskedKey(h, key, 0x36)
               else (header + data[..n])[Off(i - 1, h.block)..Off(i, h.block)]
  {
    hide Off;
    var m := Inner(h, key, header, data, n);
    var p := Pad(h, m);
    PaddingFits(|m| + h.lengthSize, h.block);
    OffNext(i, h.block);
    assert p[..|m|] == m;
    assert p[Off(i, h.block)..Off(i + 1, h.block)] == m[Off(i, h.block)..Off(i + 1, h.block)];
    if i >= 1 {
      OffNext(i - 1, h.block);
    }
  }

  /** The blocks hashed straight away: the masked key, the first block made of header and data, and then
      whole blocks of data. */
  method HashStartingBlocks<S>(h: Hash<S>, header: bytes, data: bytes, pad: array<byte>, starting: nat,
                               ghost key: bytes, ghost n: nat)
    returns (state: S)
    requires (h.block == 64 && h.lengthSize == 8) || (h.block == 128 && h.lengthSize == 16)
    requires |header| == HEADER && n <= |data| && |key| <= h.block && pad[..] == MaskedKey(h, key, 0x36)
    requires Off(starting, h.block) <= n + HEADER
    ensures var p := Pad(h, Inner(h, key, header, data, n));
            Off(starting + 1, h.block) <= |p| && state == Absorb(h, p, starting + 1)
  {
    hide Pad, Inner, MaskedKey, Off;
    ghost var p := Pad(h, Inner(h, key, header, data, n));
    ghost var text := header + data[..n];
    OffNext(0, h.block);
    PlainBlocks(h, key, header, data, n, 0);
    state := h.transform(h.init, pad[..]);
    AbsorbNext(h, p, 0);
    if starting > 0 {
      OffMono(1, starting, h.block);
      var first := header + data[..h.block - HEADER];
      PlainBlocks(h, key, header, data, n, 1);
      assert text[Off(0, h.block)..Off(1, h.block)] == first;
      state := h.transform(state, first);
      AbsorbNext(h, p, 1);
      var at := h.block - HEADER;
      for i := 1 to starting
        invariant at == Off(i, h.block) - HEADER
        invariant Off(i + 1, h.block) <= |p| && state == Absorb(h, p, i + 1)
      {
        OffMono(i + 1, starting, h.block);
        OffMono(1, i, h.block);
        PlainBlocks(h, key, header, data, n, i + 1);
        var chunk := data[at..at + h.block];
        assert text[Off(i, h.block)..Off(i + 1, h.block)] == chunk;
        state := h.transform(state, chunk);
        AbsorbNext(h, p, i + 1);
        at := at + h.block;
      }
    }
  }

  /** The MAC in terms of the padded inner message. */
  lemma MacOfInner<S(!new)>(h: Hash<S>, key: bytes, header: bytes, data: bytes, n: nat)
    requires Supported(h) && |header| == HEADER && n <= |data| && |key| <= h.block
    ensures var m := Inner(h, key, header, data, n);
            var indexB := (n + HEADER + h.lengthSize) / h.block;
            && |m| == h.block + n + HEADER
            && Off(indexB + 2, h.block) == |Pad(h, m)|
            && Mac(h, key, header + data[..n]) ==
               Digest(h, MaskedKey(h, key, 0x5c) + h.finalRaw(Absorb(h, Pad(h, m), indexB + 2))[..h.size])
  {
    hide Pad, MaskedKey, Absorb, Off;
    PaddedInner(n + HEADER, h.block, h.lengthSize, 0, 0);
  }

  /** The second part of ssl3_cbc_digest_record: seven blocks at most are hashed, and the state is copied
      out after the one that ends the message. */
  method HashVariableBlocks<S(!new)>(h: Hash<S>, header: bytes, data: bytes, publicSize: nat, starting: nat,
                                     start: S, indexA: nat, indexB: nat, c: nat, lengthBytes: bytes,
                                     ghost key: bytes, ghost n: nat)
    returns (mac: bytes)
    requires Supported(h) && |header| == HEADER && |key| <= h.block
    requires n <= publicSize <= |data| && publicSize < 1024 * 1024
    requires indexA == (n + HEADER) / h.block && indexB == (n + HEADER + h.lengthSize) / h.block
    requires c == (n + HEADER) % h.block
    requires starting <= indexB <= starting + VARIANCE_BLOCKS
    requires var m := Inner(h, key, header, data, n);
             && lengthBytes == LengthField(h, 8 * |m|)
             && |Pad(h, m)| == Off(indexB + 2, h.block)
             && Off(starting + 1, h.block) <= |Pad(h, m)|
             && start == Absorb(h, Pad(h, m), starting + 1)
    ensures mac == h.finalRaw(Absorb(h, Pad(h, Inner(h, key, header, data, n)), indexB + 2))[..h.size]
  {
    hide Pad, Absorb, Eq8, Off, Inner, LengthField;
    ghost var p := Pad(h, Inner(h, key, header, data, n));
    assert indexB < 0x2000_0000;
    var state := start;
    var macOut := new byte[h.size](_ => 0);
    assert macOut[..] == Zeros(h.size);
    var i := starting;
    while i <= starting + VARIANCE_BLOCKS
      invariant starting <= i <= starting + VARIANCE_BLOCKS + 1
      invariant i <= indexB + 1 ==> Off(i + 1, h.block) <= |p| && state == Absorb(h, p, i + 1)
      invariant macOut[..] == if i <= indexB then Zeros(h.size)
                              else h.finalRaw(Absorb(h, p, indexB + 2))[..h.size]
    {
      var block := BuildBlock(h, header, data, publicSize, i, indexA, indexB, c, lengthBytes, key, n);
      state := h.transform(state, block[..]);
      if i <= indexB {
        AbsorbNext(h, p, i + 1);
      }
      ComparisonsBelow31Bits(i, indexB);
      CopyIfLast(h, macOut, h.finalRaw(state), i == indexB, Eq8(i, indexB));
      i := i + 1;
    }
    mac := macOut[..];
  }

  /** ssl3_cbc_digest_record. Digest stands for the complete hash that EVP_Digest computes at the end. Of a key longer
      than a block the octets of the first block are used; such a key is not hashed as HMAC has it. */
  method DigestRecord<S(!new)>(h: Hash<S>, header: bytes, data: bytes, secretSize: nat, publicSize: nat,
                               macSecret: bytes)
    returns (md: bytes)
    requires Supported(h) && |header| == 13 && |macSecret| <= 128
    requires h.size <= secretSize <= publicSize <= secretSize + 256
    requires h.size < publicSize <= |data| && publicSize < 1024 * 1024
    ensures var key := if |macSecret| <= h.block then macSecret else macSecret[..h.block];
            md == Mac(h, key, header + data[..secretSize - h.size])
  {
    hide Pad, MaskedKey, Absorb, StartingBlocks, Off, Inner, Digest, Mac, LengthField;
    ghost var n := secretSize - h.size;
    var key := if |macSecret| <= h.block then macSecret else macSecret[..h.block];

    var maxMacBytes := publicSize + HEADER - h.size - 1;
    var starting := StartingBlocks(maxMacBytes, h.block, h.lengthSize);
    var macEndOffset := secretSize + HEADER - h.size;
    var c := macEndOffset % h.block;
    var indexA := macEndOffset / h.block;
    var indexB := (macEndOffset + h.lengthSize) / h.block;
    WindowBound(h.size, h.block, h.lengthSize, secretSize, publicSize);
    MacOfInner(h, key, header, data, n);

    var bits := 8 * macEndOffset + 8 * h.block;
    var pad := MaskKey(h, key);
    var lengthBytes := LengthBytes(h, bits);
    var state := HashStartingBlocks(h, header, data, pad, starting, key, n);
    var mac := HashVariableBlocks(h, header, data, publicSize, starting, state, indexA, indexB, c, lengthBytes,
                                  key, n);
    RemaskKey(h, key, pad);
    md := Digest(h, pad[..] + mac);
  }
}

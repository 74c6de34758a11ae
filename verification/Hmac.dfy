/** Merkle-Damgard hashes over an arbitrary compression function, and HMAC (section 2 of RFC 2104). */
module Hmac {
  import opened Bits
  import opened Bytes

  /** What ssl3_cbc_digest_record selects by the digest type. */
  datatype Hash<!S> = Hash(
    init: S,
    transform: (S, bytes) -> S,
    finalRaw: S -> bytes,
    size: nat,
    block: nat,
    lengthSize: nat,
    bigEndian: bool)

  /** Block and length-field sizes of the six supported digests; the serialised state may be longer than
      the digest. */
  ghost predicate Supported<S(!new)>(h: Hash<S>) {
    && ((h.block == 64 && h.lengthSize == 8) || (h.block == 128 && h.lengthSize == 16 && h.bigEndian))
    && 0 < h.size <= 64
    && forall s :: |h.finalRaw(s)| >= h.size
  }

  /** Where block i starts. */
  function Off(i: nat, block: nat): nat {
    i * block
  }

  lemma OffNext(i: nat, block: nat)
    ensures Off(0, block) == 0 && Off(i + 1, block) == Off(i, block) + block
  {}

  lemma OffMono(i: nat, j: nat, block: nat)
    requires i <= j
    ensures Off(i, block) <= Off(j, block)
  {
    MulMono(i, j, block);
  }

  /** The state after the first n blocks of m. */
  function Absorb<S>(h: Hash<S>, m: bytes, n: nat): S
    requires Off(n, h.block) <= |m|
  {
    if n == 0 then h.init
    else
      OffNext(n - 1, h.block);
      h.transform(Absorb(h, m, n - 1), m[Off(n - 1, h.block)..Off(n, h.block)])
  }

  function LengthField<S>(h: Hash<S>, bits: nat): (f: bytes)
    ensures |f| == h.lengthSize
  {
    if h.bigEndian then ToBe(bits, h.lengthSize) else ToLe(bits, h.lengthSize)
  }

  /** The octet of weight 256^k is the last but k where the length is big-endian, and the first but k otherwise. */
  lemma LengthOctets<S>(h: Hash<S>, bits: nat)
    ensures forall k: nat :: k < h.lengthSize ==>
              LengthField(h, bits)[if h.bigEndian then h.lengthSize - 1 - k else k] == bits / Pow256(k) % 256
  {
    forall k: nat | k < h.lengthSize
      ensures LengthField(h, bits)[if h.bigEndian then h.lengthSize - 1 - k else k] == bits / Pow256(k) % 256
    {
      OctetAt(bits, h.lengthSize, k);
    }
  }

  /** The number of blocks of a padded message of n bytes. */
  function PaddedBlocks(n: nat, block: nat, lengthSize: nat): nat
    requires block > 0
  {
    (n + lengthSize) / block + 1
  }

  /** The message, 0x80, as few zeros as possible, and the length in bits, filling whole blocks. */
  function Pad<S>(h: Hash<S>, m: bytes): (p: bytes)
    requires 0 <= h.lengthSize < h.block
    ensures |p| == Off(PaddedBlocks(|m|, h.block, h.lengthSize), h.block)
  {
    var total := Off(PaddedBlocks(|m|, h.block, h.lengthSize), h.block);
    PaddingFits(|m| + h.lengthSize, h.block);
    m + [0x80] + Zeros(total - |m| - 1 - h.lengthSize) + LengthField(h, 8 * |m|)
  }

  /** The padding octet by octet: the message, 0x80 and zeros as far as the length, which fills the last block; and no
      smaller number of blocks would do. */
  lemma PadOctets<S>(h: Hash<S>, m: bytes)
    requires 0 <= h.lengthSize < h.block
    ensures var p, tail := Pad(h, m), |Pad(h, m)| - h.lengthSize;
            && |p| % h.block == 0 && |m| < tail <= |m| + h.block && p[..|m|] == m && p[|m|] == 0x80
            && (forall q :: |m| < q < tail ==> p[q] == 0)
            && forall k: nat :: k < h.lengthSize ==>
                 p[if h.bigEndian then |p| - 1 - k else tail + k] == 8 * |m| / Pow256(k) % 256
  {
    hide LengthField, Pow256;
    PaddingFits(|m| + h.lengthSize, h.block);
    LengthOctets(h, 8 * |m|);
    var p, tail := Pad(h, m), |Pad(h, m)| - h.lengthSize;
    Blocks(PaddedBlocks(|m|, h.block, h.lengthSize), h.block);
    assert p[tail..] == LengthField(h, 8 * |m|);
    forall k: nat | k < h.lengthSize
      ensures p[if h.bigEndian then |p| - 1 - k else tail + k] == 8 * |m| / Pow256(k) % 256
    {
      assert p[tail..][if h.bigEndian then h.lengthSize - 1 - k else k] == 8 * |m| / Pow256(k) % 256;
    }
  }

  lemma Blocks(n: nat, block: nat)
    requires block > 0
    ensures Off(n, block) % block == 0
  {
    assert n * block % block == 0 by {
      DivMod(n * block, block, n, 0);
    }
  }

  lemma PaddingFits(n: nat, block: nat)
    requires block > 0
    ensures n + 1 <= Off(n / block + 1, block) <= n + block
  {
    var q := n / block;
    assert n == q * block + n % block;
    assert (q + 1) * block == q * block + block;
  }

  function Digest<S(!new)>(h: Hash<S>, m: bytes): (d: bytes)
    requires 0 <= h.lengthSize < h.block && forall s :: |h.finalRaw(s)| >= h.size
    ensures |d| == h.size
  {
    h.finalRaw(Absorb(h, Pad(h, m), PaddedBlocks(|m|, h.block, h.lengthSize)))[..h.size]
  }

  function MaskedKey<S>(h: Hash<S>, key: bytes, mask: byte): (k: bytes)
    requires |key| <= h.block
    ensures |k| == h.block
  {
    Pow2Values();
    var k0 := key + Zeros(h.block - |key|);
    seq(h.block, i requires 0 <= i < h.block => XorByte(k0[i], mask))
  }

  function XorByte(a: byte, b: byte): byte {
    Pow2Values(); XorFits(a, b, 8);
    Xor(a, b)
  }

  function InnerMessage<S>(h: Hash<S>, key: bytes, text: bytes): bytes
    requires |key| <= h.block
  {
    MaskedKey(h, key, 0x36) + text
  }

  /** H(K ^ opad, H(K ^ ipad, text)) for a key no longer than a block. */
  function Mac<S(!new)>(h: Hash<S>, key: bytes, text: bytes): (d: bytes)
    requires 0 <= h.lengthSize < h.block && (forall s :: |h.finalRaw(s)| >= h.size) && |key| <= h.block
    ensures |d| == h.size
  {
    Digest(h, MaskedKey(h, key, 0x5c) + Digest(h, InnerMessage(h, key, text)))
  }
}

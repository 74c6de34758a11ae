/** Identifier and length octets (bs_cbs.c, bs_cbb.c): the parser accepts exactly the headers that the
    builder writes. */
module Der {
  import opened Bytes
  import opened Wrappers

  const MAX_BUILT := 0xffff_fffe
  const MAX_PARSED := 0xffff_ffff

  /** An element as found at the front of some input: whole is header and contents, rest what follows. */
  datatype Element = Element(tag: byte, headerLen: nat, whole: bytes, rest: bytes) {
    function Contents(): bytes
      requires headerLen <= |whole|
    {
      whole[headerLen..]
    }
  }

  /** Long-form identifier octets are not supported. */
  predicate TagOk(tag: int) {
    0 <= tag < 256 && tag % 32 != 31
  }

  predicate IsConstructed(tag: byte) {
    tag / 32 % 2 == 1
  }

  /** The number of length octets CBB_flush settles on. */
  function LengthSize(n: nat): nat {
    if n > 0xff_ffff then 5 else if n > 0xffff then 4 else if n > 0xff then 3 else if n > 0x7f then 2 else 1
  }

  /** The length octets CBB_flush writes. */
  function LengthOctets(n: nat): (s: bytes)
    ensures |s| == LengthSize(n)
  {
    if LengthSize(n) == 1 then [n] else [0x80 + (LengthSize(n) - 1)] + ToBe(n, LengthSize(n) - 1)
  }

  /** Identifier and length octets of an element. */
  function Header(tag: byte, n: nat): (s: bytes)
    ensures |s| == 1 + LengthSize(n)
  {
    [tag] + LengthOctets(n)
  }

  /** cbs_get_any_asn1_element_internal */
  function GetAny(s: bytes, strict: bool): (r: Option<Element>)
    ensures r.Some? ==> var e := r.value;
                        && 2 <= e.headerLen <= |e.whole| && |e.whole| + |e.rest| == |s|
                        && s == e.whole + e.rest && TagOk(e.tag) && e.tag == s[0]
  {
    if |s| < 2 || s[0] % 32 == 31 then None
    else if s[1] < 0x80 then Take(s, s[0], 2, s[1] + 2)
    else
      var numBytes := s[1] - 0x80;
      if numBytes == 0x7f then None
      else if numBytes == 0 then
        if strict || !IsConstructed(s[0]) then None else Take(s, s[0], 2, 2)
      else if numBytes > 4 || |s| < 2 + numBytes then None
      else
        var n := FromBe(s[2..2 + numBytes]);
        if n < 128 || n < Pow256(numBytes - 1) then None
        else Take(s, s[0], 2 + numBytes, n + 2 + numBytes)
  }

  /** CBS_get_bytes on the whole element. */
  function Take(s: bytes, tag: byte, headerLen: nat, n: nat): (r: Option<Element>)
    ensures r.Some? ==> var e := r.value;
                        && e.tag == tag && e.headerLen == headerLen && |e.whole| == n
                        && |e.whole| + |e.rest| == |s| && s == e.whole + e.rest
  {
    if n > |s| then None else Some(Element(tag, headerLen, s[..n], s[n..]))
  }

  /** The length octets determine how many of them there are. */
  lemma LengthForm(n: nat, size: nat)
    requires n <= MAX_PARSED && 1 <= size <= 4
    ensures n >= 128 && Pow256(size - 1) <= n < Pow256(size) <==> n >= 128 && LengthSize(n) == size + 1
  {
    Pow256Values();
  }

  /** An element written by the builder is read back, whatever follows it. */
  lemma ParseBuilt(tag: byte, contents: bytes, rest: bytes, strict: bool)
    requires TagOk(tag) && |contents| <= MAX_PARSED
    ensures var h := Header(tag, |contents|);
            GetAny(h + contents + rest, strict) == Some(Element(tag, |h|, h + contents, rest))
  {
    var n := |contents|;
    var h := Header(tag, n);
    var s := h + contents + rest;
    assert s[0] == tag;
    assert s[..|h| + n] == h + contents && s[|h| + n..] == rest;
    if n >= 128 {
      var size := LengthSize(n) - 1;
      LengthForm(n, size);
      assert s[1] == 0x80 + size;
      assert s[2..2 + size] == ToBe(n, size);
      FromToBe(n, size);
    }
  }

  /** What strict parsing of a long form has checked makes the length octets those of the builder. */
  lemma LongFormMinimal(octets: bytes)
    requires 1 <= |octets| <= 4
    requires FromBe(octets) >= 128 && FromBe(octets) >= Pow256(|octets| - 1)
    ensures FromBe(octets) <= MAX_PARSED
    ensures LengthOctets(FromBe(octets)) == [0x80 + |octets|] + octets
  {
    hide FromBe, ToBe, Pow256;
    var n, size := FromBe(octets), |octets|;
    FromBeBound(octets);
    Pow256Values();
    assert Pow256(size) <= 0x1_0000_0000;
    LengthForm(n, size);
    ToFromBe(octets);
  }

  /** Strict parsing accepts nothing but minimal headers (section 10.1 of X.690): the header of every
      accepted element is the one the builder writes for its contents. */
  lemma ParseCanonical(s: bytes)
    requires GetAny(s, true).Some?
    ensures var e := GetAny(s, true).value;
            |e.Contents()| <= MAX_PARSED && e.whole == Header(e.tag, |e.Contents()|) + e.Contents()
  {
    hide FromBe, ToBe, Pow256;
    var e := GetAny(s, true).value;
    if s[1] < 0x80 {
      assert e.whole == ([s[0]] + [s[1]]) + e.Contents();
      assert LengthOctets(|e.Contents()|) == [s[1]];
    } else {
      var octets := s[2..2 + (s[1] - 0x80)];
      LongFormMinimal(octets);
      assert s[..2 + |octets|] == [s[0]] + ([s[1]] + octets);
      assert e.whole == s[..2 + |octets|] + e.Contents();
    }
  }

  /** The strict parser accepts exactly the inputs that start with a built element. */
  lemma StrictIffBuilt(s: bytes)
    ensures GetAny(s, true).Some? <==>
            exists tag: byte, n: nat :: TagOk(tag) && n <= MAX_PARSED && StartsWithElement(s, tag, n)
  {
    hide GetAny, Header, StartsWithElement;
    if GetAny(s, true).Some? {
      ParsedStarts(s);
    } else {
      forall tag: byte, n: nat | TagOk(tag) && n <= MAX_PARSED ensures !StartsWithElement(s, tag, n) {
        if StartsWithElement(s, tag, n) { StartsParsed(s, tag, n); }
      }
    }
  }

  lemma ParsedStarts(s: bytes)
    requires GetAny(s, true).Some?
    ensures var e := GetAny(s, true).value;
            TagOk(e.tag) && |e.Contents()| <= MAX_PARSED && StartsWithElement(s, e.tag, |e.Contents()|)
  {
    hide GetAny, Header;
    ParseCanonical(s);
  }

  lemma StartsParsed(s: bytes, tag: byte, n: nat)
    requires TagOk(tag) && n <= MAX_PARSED && StartsWithElement(s, tag, n)
    ensures GetAny(s, true).Some?
  {
    hide GetAny, Header;
    var h := Header(tag, n);
    ParseBuilt(tag, s[|h|..|h| + n], s[|h| + n..], true);
    assert s == h + s[|h|..|h| + n] + s[|h| + n..];
  }

  ghost predicate StartsWithElement(s: bytes, tag: byte, n: nat) {
    var h := Header(tag, n);
    |h| + n <= |s| && s[..|h|] == h
  }

  /** Without strictness only the indefinite form of a constructed element is accepted in addition. */
  lemma LaxIffStrictOrIndefinite(s: bytes)
    ensures GetAny(s, false) ==
            if |s| >= 2 && s[0] % 32 != 31 && s[0] / 32 % 2 == 1 && s[1] == 0x80
            then Some(Element(s[0], 2, s[..2], s[2..])) else GetAny(s, true)
  {}

  /** The contents octets of a non-negative INTEGER (section 8.3 of X.690). */
  function UintOctets(v: nat): (s: bytes)
    ensures s != []
  {
    if v == 0 then [0]
    else if MinBe(v)[0] >= 0x80 then [0] + MinBe(v)
    else MinBe(v)
  }

  /** v without leading zero octets. */
  function MinBe(v: nat): (s: bytes)
    ensures v > 0 ==> s != [] && s[0] != 0
    ensures v == 0 ==> s == []
  {
    if v == 0 then [] else MinBe(v / 256) + [v % 256]
  }

  const U64 := 0x1_0000_0000_0000_0000

  /** CBS_get_asn1_uint64 on the contents octets. */
  function GetUint(c: bytes): Option<nat> {
    if c == [] || c[0] >= 0x80 || (c[0] == 0 && |c| > 1 && c[1] < 0x80) || FromBe(c) >= U64 then None
    else Some(FromBe(c))
  }

  lemma {:induction false} FromMinBe(v: nat)
    ensures FromBe(MinBe(v)) == v
  {
    if v != 0 {
      FromMinBe(v / 256);
      FromBeSnoc(MinBe(v / 256), v % 256);
    }
  }

  lemma {:induction false} MinFromBe(s: bytes)
    requires s == [] || s[0] != 0
    ensures MinBe(FromBe(s)) == s
  {
    if s != [] {
      var t := s[..|s| - 1];
      MinFromBe(t);
      assert s == t + [s[|s| - 1]];
      assert FromBe(s) / 256 == FromBe(t) && FromBe(s) % 256 == s[|s| - 1];
      assert t == [] ==> FromBe(s) == s[0];
    }
  }

  lemma LeadingZero(s: bytes)
    ensures FromBe([0] + s) == FromBe(s)
  {
    FromBeConcat([0], s);
    FromBeSnoc([], 0);
  }

  /** Every uint64 is read back from its octets, and octets that are accepted are the only ones for their
      value (section 8.3.2 of X.690). */
  lemma UintRoundTrip(c: bytes, v: nat)
    requires v < U64
    ensures GetUint(c) == Some(v) <==> c == UintOctets(v)
  {
    FromMinBe(v);
    LeadingZero(MinBe(v));
    FromBeSnoc([], 0);
    if GetUint(c) == Some(v) {
      if c[0] != 0 {
        MinFromBe(c);
      } else {
        LeadingZero(c[1..]);
        assert c == [0] + c[1..];
        MinFromBe(c[1..]);
      }
    }
  }

  lemma {:induction false} MinBeLength(v: nat, n: nat)
    requires v < Pow256(n)
    ensures |MinBe(v)| <= n
  {
    if v != 0 { MinBeLength(v / 256, n - 1); }
  }

  /** At most eight octets and a leading zero. */
  lemma UintOctetsLength(v: nat)
    requires v < U64
    ensures |UintOctets(v)| <= 9
  {
    Pow256Values();
    MinBeLength(v, 8);
  }

  /** Another octet behind a non-zero value. */
  lemma UintOctetsSnoc(p: nat, b: byte)
    ensures p != 0 ==> UintOctets(p * 256 + b) == UintOctets(p) + [b]
    ensures p == 0 && b != 0 ==> UintOctets(b) == if b >= 0x80 then [0] + [b] else [b]
  {
    assert (p * 256 + b) / 256 == p && (p * 256 + b) % 256 == b;
    assert MinBe(0) == [];
  }

  const INTEGER: byte := 0x02
  const OCTET_STRING: byte := 0x04
  const SEQUENCE: byte := 0x30

  /** What was read and what remains. */
  datatype Read<+T> = Read(value: T, rest: bytes)

  /** CBS_get_asn1: the contents of an element with the given tag. */
  function GetAsn1(s: bytes, tag: int): Option<Read<bytes>> {
    match GetAny(s, true)
    case Some(e) => if e.tag == tag then Some(Read(e.Contents(), e.rest)) else None
    case None => None
  }

  /** CBS_get_asn1_uint64 */
  function GetAsn1Uint(s: bytes): Option<Read<nat>> {
    match GetAsn1(s, INTEGER)
    case Some(r) => (match GetUint(r.value) case Some(v) => Some(Read(v, r.rest)) case None => None)
    case None => None
  }

  /** CBS_peek_asn1_tag */
  predicate PeekTag(s: bytes, tag: int) {
    s != [] && TagOk(tag) && s[0] == tag
  }

  /** CBS_get_optional_asn1: absent is a success that consumes nothing. */
  function GetOptional(s: bytes, tag: int): Option<Read<Option<bytes>>> {
    if !PeekTag(s, tag) then Some(Read(None, s))
    else match GetAsn1(s, tag)
         case Some(r) => Some(Read(Some(r.value), r.rest))
         case None => None
  }

  /** CBS_get_optional_asn1_octet_string: an explicitly tagged OCTET STRING and nothing after it. */
  function GetOptionalOctets(s: bytes, tag: int): Option<Read<Option<bytes>>> {
    match GetOptional(s, tag)
    case None => None
    case Some(Read(None, rest)) => Some(Read(None, rest))
    case Some(Read(Some(child), rest)) =>
      match GetAsn1(child, OCTET_STRING)
      case Some(r) => if r.rest == [] then Some(Read(Some(r.value), rest)) else None
      case None => None
  }

  /** CBS_get_optional_asn1_uint64: an explicitly tagged INTEGER and nothing after it, or the default. */
  function GetOptionalUint(s: bytes, tag: int, default: nat): Option<Read<nat>> {
    match GetOptional(s, tag)
    case None => None
    case Some(Read(None, rest)) => Some(Read(default, rest))
    case Some(Read(Some(child), rest)) =>
      match GetAsn1Uint(child)
      case Some(r) => if r.rest == [] then Some(Read(r.value, rest)) else None
      case None => None
  }
}

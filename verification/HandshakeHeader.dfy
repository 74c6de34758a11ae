/** The header of a DTLS handshake fragment, section 4.2.2 of RFC 6347. */
module HandshakeHeader {
  import opened Bytes
  import opened ByteBuilder
  import opened ByteReader

  const HEADER_LENGTH: nat := 12

  /** hm_header_st, the part that is sent */
  datatype Header = Header(kind: nat, msgLen: nat, number: nat, fragOff: nat, fragLen: nat) {
    /** Every field has room in its octets. */
    predicate Fits() {
      kind < 0x100 && msgLen < 0x100_0000 && number < 0x1_0000 && fragOff < 0x100_0000 && fragLen < 0x100_0000
    }

    /** The octets of the header. */
    function Octets(): (s: bytes)
      ensures |s| == HEADER_LENGTH
    {
      ToBe(kind, 1) + ToBe(msgLen, 3) + ToBe(number, 2) + ToBe(fragOff, 3) + ToBe(fragLen, 3)
    }
  }

  /** dtls1_get_message_header */
  method GetMessageHeader(cbs: Cbs) returns (ok: bool, h: Header)
    modifies cbs
    ensures ok <==> |old(cbs.data)| >= HEADER_LENGTH
    ensures ok ==>
              h.Fits() && h.Octets() == old(cbs.data)[..HEADER_LENGTH] && cbs.data == old(cbs.data)[HEADER_LENGTH..]
  {
    hide FromBe, ToBe, Pow256;
    ghost var s := cbs.data;
    var kind, msgLen, number, fragOff, fragLen;
    h := Header(0, 0, 0, 0, 0);
    ok, kind := cbs.GetU(1);
    if !ok {
      return;
    }
    ok, msgLen := cbs.GetU(3);
    if !ok {
      return;
    }
    ok, number := cbs.GetU(2);
    if !ok {
      return;
    }
    ok, fragOff := cbs.GetU(3);
    if !ok {
      return;
    }
    ok, fragLen := cbs.GetU(3);
    if !ok {
      return;
    }
    h := Header(kind, msgLen, number, fragOff, fragLen);
    Pow256Values();
    ToFromBe(s[..1]);
    ToFromBe(s[1..4]);
    ToFromBe(s[4..6]);
    ToFromBe(s[6..9]);
    ToFromBe(s[9..12]);
    assert s[1..][..3] == s[1..4] && s[1..][3..] == s[4..] && s[4..][..2] == s[4..6] && s[4..][2..] == s[6..];
    assert s[6..][..3] == s[6..9] && s[6..][3..] == s[9..] && s[9..][..3] == s[9..12] && s[9..][3..] == s[12..];
    assert s[..12] == s[..1] + s[1..4] + s[4..6] + s[6..9] + s[9..12];
  }

  /** Headers that fit have different octets. */
  lemma OctetsInjective(g: Header, h: Header)
    requires g.Fits() && h.Fits() && g.Octets() == h.Octets()
    ensures g == h
  {
    hide FromBe, ToBe, Pow256;
    Pow256Values();
    OctetsParts(g);
    OctetsParts(h);
  }

  lemma OctetsParts(h: Header)
    requires h.Fits()
    ensures var s := h.Octets();
            && h.kind == FromBe(s[0..1]) && h.msgLen == FromBe(s[1..4]) && h.number == FromBe(s[4..6])
            && h.fragOff == FromBe(s[6..9]) && h.fragLen == FromBe(s[9..12])
  {
    hide FromBe, ToBe, Pow256;
    Pow256Values();
    var s := h.Octets();
    assert s[0..1] == ToBe(h.kind, 1) && s[1..4] == ToBe(h.msgLen, 3) && s[4..6] == ToBe(h.number, 2);
    var e := ToBe(h.fragLen, 3);
    var d := ToBe(h.kind, 1) + ToBe(h.msgLen, 3) + ToBe(h.number, 2) + ToBe(h.fragOff, 3);
    assert s == d + e && |d| == 9;
    assert |s| == 12 && |e| == 3;
    forall i | 0 <= i < 3
      ensures s[9..12][i] == e[i]
    {
      assert s[9 + i] == e[i];
    }
    assert s[9..12] == e;
    assert s[6..9] == ToBe(h.fragOff, 3);
    FromToBe(h.kind, 1);
    FromToBe(h.msgLen, 3);
    FromToBe(h.number, 2);
    FromToBe(h.fragOff, 3);
    FromToBe(h.fragLen, 3);
  }

  lemma OneOctetOf(v: nat)
    requires v < 0x100
    ensures ToBe(v, 1) == [v]
  {}

  /** The octets that are looked at without parsing. */
  lemma FirstOctets(h: Header)
    requires h.Fits()
    ensures h.Octets()[0] == h.kind
    ensures h.msgLen == 0 <==> h.Octets()[1] == 0 && h.Octets()[2] == 0 && h.Octets()[3] == 0
  {
    hide FromBe, ToBe;
    Pow256Values();
    var k, m := ToBe(h.kind, 1), ToBe(h.msgLen, 3);
    OneOctetOf(h.kind);
    assert h.Octets()[1] == m[0] && h.Octets()[2] == m[1] && h.Octets()[3] == m[2];
    ToBeZero(3);
    FromToBe(h.msgLen, 3);
    FromToBe(0, 3);
    if m[0] == 0 && m[1] == 0 && m[2] == 0 {
      assert m == Zeros(3);
    }
  }

  /** dtls1_write_message_header */
  method WriteMessageHeader(h: Header, fragOff: nat, fragLen: nat, p: array<byte>, at: nat) returns (ok: bool)
    requires at + HEADER_LENGTH <= p.Length
    modifies p
    ensures ok <==> h.(fragOff := fragOff, fragLen := fragLen).Fits()
    ensures ok ==> forall i :: at <= i < at + HEADER_LENGTH ==>
                     p[i] == h.(fragOff := fragOff, fragLen := fragLen).Octets()[i - at]
    ensures forall i :: 0 <= i < p.Length && !(at <= i < at + HEADER_LENGTH) ==> p[i] == old(p[i])
  {
    hide ToBe, Pow256;
    ok := false;
    if h.kind > 0xff {
      return;
    }
    var _ := WriteBe(p, at, 1, h.kind);
    if h.msgLen > 0xffffff {
      return;
    }
    var _ := WriteBe(p, at + 1, 3, h.msgLen);
    if h.number > 0xffff {
      return;
    }
    var _ := WriteBe(p, at + 4, 2, h.number);
    if fragOff > 0xffffff {
      return;
    }
    var _ := WriteBe(p, at + 6, 3, fragOff);
    if fragLen > 0xffffff {
      return;
    }
    var _ := WriteBe(p, at + 9, 3, fragLen);
    ok := true;
  }
}

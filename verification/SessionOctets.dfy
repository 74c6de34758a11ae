/** The octets of an encoded session, element by element. */
module SessionOctets {
  import opened Bytes
  import opened Der
  import opened SessionCodec
  import opened WriteTree
  import opened Wrappers

  /** An element with a definite length */
  function Elem(tag: byte, contents: bytes): bytes {
    Header(tag, |contents|) + contents
  }

  /** An optional INTEGER under its own tag, left out when zero */
  function Number(tag: byte, value: nat): bytes {
    if value == 0 then [] else Elem(tag, Elem(2, UintOctets(value)))
  }

  /** An optional OCTET STRING under its own tag */
  function Text(tag: byte, value: Option<bytes>): bytes {
    if value.None? then [] else Elem(tag, Elem(4, value.value))
  }

  /** Version of the format, version of the protocol, cipher, session id and master key; under tags 1 to 6 time,
      timeout, certificate, session id context, verify result and hostname, under 9 the lifetime hint and under 10 the
      ticket. */
  function Elements(v: Fields, ticketEncoding: bool): seq<bytes>
    requires Typed(v) && Encodable(v)
  {
    [ Elem(2, UintOctets(1)),
      Elem(2, UintOctets(v.version)),
      Elem(4, [v.cipher / 256, v.cipher % 256]),
      Elem(4, if ticketEncoding then [] else v.sessionId),
      Elem(4, v.masterKey),
      Number(0xa1, v.time),
      Number(0xa2, v.timeout),
      if v.cert.None? then [] else Elem(0xa3, v.cert.value),
      Elem(0xa4, Elem(4, v.sidCtx)),
      Number(0xa5, v.verifyResult),
      Text(0xa6, v.hostname),
      Number(0xa9, v.lifetime),
      Text(0xaa, v.ticket) ]
  }

  function Together(parts: seq<bytes>): bytes {
    if parts == [] then [] else parts[0] + Together(parts[1..])
  }

  lemma NestedOctets(tag: byte, children: seq<Node>, c: bytes)
    requires Ser(children) == c
    ensures SerNode(Nested(Asn1(tag), children)) == Elem(tag, c)
    ensures Ser([Nested(Asn1(tag), children)]) == Elem(tag, c)
  {
    hide Ser, Header;
    SerOne(Nested(Asn1(tag), children));
  }

  lemma UintNodeOctets(value: nat)
    ensures Ser([UintNode(value)]) == Elem(2, UintOctets(value))
  {
    hide Ser, UintOctets, RawEach, Elem;
    SerRawEach(UintOctets(value));
    NestedOctets(2, RawEach(UintOctets(value)), UintOctets(value));
  }

  lemma OctetsNodeOctets(data: bytes)
    ensures Ser([OctetsNode(data)]) == Elem(4, data)
  {
    hide Ser, Elem;
    SerOne(Raw(data));
    NestedOctets(4, [Raw(data)], data);
  }

  lemma NumberOctets(tag: byte, value: nat)
    ensures Ser(OptionalUint(tag, value)) == Number(tag, value)
  {
    hide Elem, UintOctets;
    if value != 0 {
      UintNodeOctets(value);
      NestedOctets(tag, [UintNode(value)], Elem(2, UintOctets(value)));
    }
  }

  lemma TextOctets(tag: byte, value: Option<bytes>)
    ensures Ser(OptionalOctets(tag, value)) == Text(tag, value)
  {
    hide Elem;
    if value.Some? {
      OctetsNodeOctets(value.value);
      NestedOctets(tag, [OctetsNode(value.value)], Elem(4, value.value));
    }
  }

  lemma RawOctets(tag: byte, value: Option<bytes>)
    ensures Ser(OptionalRaw(tag, value)) == if value.None? then [] else Elem(tag, value.value)
  {
    hide Elem;
    if value.Some? {
      SerOne(Raw(value.value));
      NestedOctets(tag, [Raw(value.value)], value.value);
    }
  }

  lemma CipherOctets(cipher: nat)
    requires cipher < 0x1_0000
    ensures ToBe(cipher, 2) == [cipher / 256, cipher % 256]
  {
    ToBeStep(cipher, 1);
    ToBeStep(cipher / 256, 0);
  }

  lemma PartOctets(v: Fields, ticketEncoding: bool, i: nat)
    requires Typed(v) && Encodable(v) && i < 13
    ensures Ser(Parts(v, ticketEncoding)[i]) == Elements(v, ticketEncoding)[i]
  {
    hide Ser, Elem, UintOctets, Number, Text, OptionalUint, OptionalOctets, OptionalRaw, ToBe;
    UintNodeOctets(1);
    UintNodeOctets(v.version);
    CipherOctets(v.cipher);
    OctetsNodeOctets(ToBe(v.cipher, 2));
    OctetsNodeOctets(if ticketEncoding then [] else v.sessionId);
    OctetsNodeOctets(v.masterKey);
    NumberOctets(0xa1, v.time);
    NumberOctets(0xa2, v.timeout);
    RawOctets(0xa3, v.cert);
    OctetsNodeOctets(v.sidCtx);
    NestedOctets(0xa4, [OctetsNode(v.sidCtx)], Elem(4, v.sidCtx));
    NumberOctets(0xa5, v.verifyResult);
    TextOctets(0xa6, v.hostname);
    NumberOctets(0xa9, v.lifetime);
    TextOctets(0xaa, v.ticket);
  }

  lemma {:induction false} FlattenOctets(parts: seq<seq<Node>>, octets: seq<bytes>)
    requires |parts| == |octets| && forall i :: 0 <= i < |parts| ==> Ser(parts[i]) == octets[i]
    ensures Ser(Flatten(parts)) == Together(octets)
  {
    hide Ser;
    if parts == [] {
      NoOctetsSent();
    } else {
      SerConcat(parts[0], Flatten(parts[1..]));
      FlattenOctets(parts[1..], octets[1..]);
    }
  }

  lemma NoOctetsSent()
    ensures Ser([]) == []
  {}

  /** An encoded session is a SEQUENCE of these elements. */
  lemma SessionEncoded(v: Fields, ticketEncoding: bool)
    requires Typed(v) && Encodable(v)
    ensures Ser(Document(Flatten(Parts(v, ticketEncoding)))) == Elem(0x30, Together(Elements(v, ticketEncoding)))
  {
    hide Ser, Elem, Parts, Elements, Flatten, Together;
    var parts, octets := Parts(v, ticketEncoding), Elements(v, ticketEncoding);
    PartCount(v, ticketEncoding);
    forall i: nat | i < 13 {
      PartOctets(v, ticketEncoding, i);
    }
    FlattenOctets(parts, octets);
    NestedOctets(0x30, Flatten(parts), Together(octets));
  }

  lemma PartCount(v: Fields, ticketEncoding: bool)
    requires Typed(v) && Encodable(v)
    ensures |Parts(v, ticketEncoding)| == |Elements(v, ticketEncoding)| == 13
  {
    hide Elem;
  }
}

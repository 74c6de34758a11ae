/** The ASN.1 form of a session (ssl_asn1.c): what is written for its fields, and how they are read. */
module SessionCodec {
  import opened Bits
  import opened Bytes
  import opened Der
  import opened WriteTree
  import opened Wrappers

  const ASN1_VERSION := 1
  const TIME_TAG: byte := 0xa1
  const TIMEOUT_TAG: byte := 0xa2
  const PEER_CERT_TAG: byte := 0xa3
  const SID_CTX_TAG: byte := 0xa4
  const VERIFY_RESULT_TAG: byte := 0xa5
  const HOSTNAME_TAG: byte := 0xa6
  const LIFETIME_TAG: byte := 0xa9
  const TICKET_TAG: byte := 0xaa

  const INT_MAX := 0x7fff_ffff
  const LONG_MAX := 0x7fff_ffff_ffff_ffff
  const UINT32_MAX := 0xffff_ffff

  /** The fields of SSL_SESSION that are encoded; a certificate is known by its DER encoding. */
  datatype Fields = Fields(
    version: int,
    cipher: int,
    sessionId: bytes,
    masterKey: bytes,
    time: int,
    timeout: int,
    cert: Option<bytes>,
    sidCtx: bytes,
    verifyResult: int,
    hostname: Option<bytes>,
    lifetime: int,
    ticket: Option<bytes>)

  /** The C types hold no more: array sizes, integer widths, and a hostname that is a C string. */
  predicate Typed(v: Fields) {
    && -0x8000_0000 <= v.version <= 0x7fff_ffff && 0 <= v.cipher < 0x1_0000
    && |v.sessionId| <= 32 && |v.masterKey| <= 48 && |v.sidCtx| <= 32
    && Long(v.time) && Long(v.timeout) && Long(v.verifyResult)
    && (v.hostname.Some? ==> 0 !in v.hostname.value)
    && 0 <= v.lifetime <= 0xffff_ffff
  }

  predicate Long(n: int) {
    -0x8000_0000_0000_0000 <= n <= 0x7fff_ffff_ffff_ffff
  }

  /** SSL_SESSION_encode refuses negative numbers and a certificate that has no encoding. */
  predicate Encodable(v: Fields) {
    v.version >= 0 && v.time >= 0 && v.timeout >= 0 && v.verifyResult >= 0 && v.cert != Some([])
  }

  function OctetsNode(data: bytes): Node {
    Nested(Asn1(OCTET_STRING), [Raw(data)])
  }

  function OptionalUint(tag: byte, value: nat): seq<Node> {
    if value == 0 then [] else [Nested(Asn1(tag), [UintNode(value)])]
  }

  function OptionalOctets(tag: byte, value: Option<bytes>): seq<Node> {
    if value.None? then [] else [Nested(Asn1(tag), [OctetsNode(value.value)])]
  }

  function OptionalRaw(tag: byte, value: Option<bytes>): seq<Node> {
    if value.None? then [] else [Nested(Asn1(tag), [Raw(value.value)])]
  }

  /** The elements inside the SEQUENCE; a ticket carries no session id. */
  function Parts(v: Fields, ticketEncoding: bool): seq<seq<Node>>
    requires Typed(v) && Encodable(v)
  {
    [ [UintNode(ASN1_VERSION)],
      [UintNode(v.version)],
      [OctetsNode(ToBe(v.cipher, 2))],
      [OctetsNode(if ticketEncoding then [] else v.sessionId)],
      [OctetsNode(v.masterKey)],
      OptionalUint(TIME_TAG, v.time),
      OptionalUint(TIMEOUT_TAG, v.timeout),
      OptionalRaw(PEER_CERT_TAG, v.cert),
      [Nested(Asn1(SID_CTX_TAG), [OctetsNode(v.sidCtx)])],
      OptionalUint(VERIFY_RESULT_TAG, v.verifyResult),
      OptionalOctets(HOSTNAME_TAG, v.hostname),
      OptionalUint(LIFETIME_TAG, v.lifetime),
      OptionalOctets(TICKET_TAG, v.ticket) ]
  }

  function Flatten(parts: seq<seq<Node>>): seq<Node> {
    if parts == [] then [] else parts[0] + Flatten(parts[1..])
  }

  lemma {:induction false} FlattenConcat(ps: seq<seq<Node>>, qs: seq<seq<Node>>)
    ensures Flatten(ps + qs) == Flatten(ps) + Flatten(qs)
  {
    if ps == [] {
      assert ps + qs == qs;
    } else {
      FlattenConcat(ps[1..], qs);
      assert (ps + qs)[0] == ps[0] && (ps + qs)[1..] == ps[1..] + qs;
    }
  }

  lemma FlattenNext(ps: seq<seq<Node>>, i: nat)
    requires i < |ps|
    ensures Flatten(ps[..i + 1]) == Flatten(ps[..i]) + ps[i]
  {
    FlattenConcat(ps[..i], [ps[i]]);
    assert ps[..i + 1] == ps[..i] + [ps[i]];
    assert Flatten([ps[i]]) == ps[i] + Flatten([]) by { assert [ps[i]][1..] == []; }
    assert Flatten([]) == [] && ps[i] + [] == ps[i];
  }

  /** The tree of writes of SSL_SESSION_encode. */
  function Document(nodes: seq<Node>): seq<Node> {
    [Nested(Asn1(SEQUENCE), nodes)]
  }

  /** The optional fields with numbers 1 to 4, and those after them. */
  datatype Early = Early(time: int, timeout: int, cert: Option<bytes>, sidCtx: bytes)
  datatype Late = Late(verifyResult: int, hostname: Option<bytes>, lifetime: int, ticket: Option<bytes>)

  /** Optional elements 1 to 4 of d2i_SSL_SESSION, with their defaults. */
  function DecodeEarly(s: bytes, now: int, d2iX509: bytes -> Option<bytes>): Option<Read<Early>> {
    var time :- GetOptionalUint(s, TIME_TAG, 0);
    var timeout :- GetOptionalUint(time.rest, TIMEOUT_TAG, 0);
    var cert :- GetOptional(timeout.rest, PEER_CERT_TAG);
    var sidCtx :- GetOptionalOctets(cert.rest, SID_CTX_TAG);
    if || time.value > LONG_MAX || timeout.value > LONG_MAX
       || (cert.value.Some? && d2iX509(cert.value.value).None?)
       || (sidCtx.value.Some? && |sidCtx.value.value| > 32)
    then None
    else
      Some(Read(Early(
        if time.value == 0 then now else time.value,
        if timeout.value == 0 then 3 else timeout.value,
        if cert.value.Some? then d2iX509(cert.value.value) else None,
        if sidCtx.value.Some? then sidCtx.value.value else []), sidCtx.rest))
  }

  /** Optional elements 5 to 10; what follows them is ignored. */
  function DecodeLate(s: bytes): Option<Late> {
    var verify :- GetOptionalUint(s, VERIFY_RESULT_TAG, 0);
    var hostname :- GetOptionalOctets(verify.rest, HOSTNAME_TAG);
    var lifetime :- GetOptionalUint(hostname.rest, LIFETIME_TAG, 0);
    var ticket :- GetOptionalOctets(lifetime.rest, TICKET_TAG);
    if || verify.value > LONG_MAX
       || (hostname.value.Some? && 0 in hostname.value.value)
       || lifetime.value > UINT32_MAX
    then None
    else
      Some(Late(verify.value, hostname.value, lifetime.value,
                if ticket.value == Some([]) then None else ticket.value))
  }

  /** The elements every encoding has. */
  datatype Fixed = Fixed(version: int, cipher: int, sessionId: bytes, masterKey: bytes)

  function DecodeFixed(s: bytes): Option<Read<Fixed>> {
    var version :- GetAsn1Uint(s);
    var tls :- GetAsn1Uint(version.rest);
    var cipher :- GetAsn1(tls.rest, OCTET_STRING);
    var sessionId :- GetAsn1(cipher.rest, OCTET_STRING);
    var masterKey :- GetAsn1(sessionId.rest, OCTET_STRING);
    if || version.value != ASN1_VERSION || tls.value > INT_MAX
       || |cipher.value| != 2 || |sessionId.value| > 32 || |masterKey.value| > 48
    then None
    else Some(Read(Fixed(tls.value, FromBe(cipher.value), sessionId.value, masterKey.value), masterKey.rest))
  }

  /** d2i_SSL_SESSION; d2iX509 gives the encoding of the certificate it finds at the front of some octets, and now is
      the current time. */
  function Decode(s: bytes, now: int, d2iX509: bytes -> Option<bytes>): Option<Read<Fields>> {
    var session :- GetAsn1(s, SEQUENCE);
    var fixed :- DecodeFixed(session.value);
    var early :- DecodeEarly(fixed.rest, now, d2iX509);
    var late :- DecodeLate(early.rest);
    Some(Read(Fields(
      fixed.value.version, fixed.value.cipher, fixed.value.sessionId, fixed.value.masterKey,
      early.value.time, early.value.timeout, early.value.cert, early.value.sidCtx,
      late.verifyResult, late.hostname, late.lifetime, late.ticket), session.rest))
  }

  /** What comes back: absent times are replaced by defaults, an empty ticket by none, and a ticket encoding
      carries no session id. */
  function Normal(v: Fields, ticketEncoding: bool, now: int): Fields {
    v.(sessionId := if ticketEncoding then [] else v.sessionId,
       time := if v.time == 0 then now else v.time,
       timeout := if v.timeout == 0 then 3 else v.timeout,
       ticket := if v.ticket == Some([]) then None else v.ticket)
  }

  // ----- what each element looks like to the parser

  lemma AsnNode(tag: byte, children: seq<Node>, rest: bytes)
    requires TagOk(tag) && FitsNode(Nested(Asn1(tag), children))
    ensures var s := SerNode(Nested(Asn1(tag), children)) + rest;
            s != [] && s[0] == tag && GetAsn1(s, tag) == Some(Read(Ser(children), rest))
  {
    hide Ser, GetAny, Header, Fits;
    var c := Ser(children);
    ParseBuilt(tag, c, rest, true);
    assert SerNode(Nested(Asn1(tag), children)) == Header(tag, |c|) + c;
    assert (Header(tag, |c|) + c)[|Header(tag, |c|)|..] == c;
  }

  lemma UintRead(value: nat, rest: bytes)
    requires value < U64
    ensures FitsNode(UintNode(value))
    ensures GetAsn1Uint(SerNode(UintNode(value)) + rest) == Some(Read(value, rest))
  {
    hide GetAny, Header, RawEach, UintOctets, GetUint, Ser, Fits, SerNode;
    SerRawEach(UintOctets(value));
    UintOctetsLength(value);
    AsnNode(INTEGER, RawEach(UintOctets(value)), rest);
    UintRoundTrip(UintOctets(value), value);
  }

  lemma RawNode(data: bytes)
    ensures Ser([Raw(data)]) == data && Fits([Raw(data)])
  {
    SerOne(Raw(data));
  }

  lemma OctetsRead(data: bytes, rest: bytes)
    requires FitsNode(OctetsNode(data))
    ensures GetAsn1(SerNode(OctetsNode(data)) + rest, OCTET_STRING) == Some(Read(data, rest))
  {
    hide Ser, SerNode, Fits, FitsNode, GetAsn1;
    RawNode(data);
    AsnNode(OCTET_STRING, [Raw(data)], rest);
  }

  /** What follows starts with a greater tag, or not at all. */
  predicate Beyond(rest: bytes, tag: byte) {
    rest == [] || rest[0] > tag
  }

  lemma OptionalUintRead(tag: byte, value: nat, rest: bytes)
    requires TagOk(tag) && value < U64 && Beyond(rest, tag)
    ensures var s := Ser(OptionalUint(tag, value)) + rest;
            && GetOptionalUint(s, tag, 0) == Some(Read(value, rest))
            && forall t: byte :: t < tag ==> Beyond(s, t)
    ensures Fits(OptionalUint(tag, value))
  {
    hide Ser, SerNode, Fits, FitsNode, GetAsn1, GetAsn1Uint, UintNode;
    if value == 0 {
      NoNodes(rest);
    } else {
      UintRead(value, []);
      UintFits(tag, value);
      var inner := SerNode(UintNode(value));
      assert inner + [] == inner;
      SerOne(UintNode(value));
      SerOne(Nested(Asn1(tag), [UintNode(value)]));
      AsnNode(tag, [UintNode(value)], rest);
    }
  }

  lemma NoNodes(rest: bytes)
    ensures Ser([]) + rest == rest && Fits([])
  {}

  lemma UintFits(tag: byte, value: nat)
    requires TagOk(tag) && value < U64
    ensures FitsNode(Nested(Asn1(tag), [UintNode(value)]))
  {
    UintOctetsLength(value);
    SerRawEach(UintOctets(value));
    SerOne(UintNode(value));
  }

  lemma OptionalOctetsRead(tag: byte, value: Option<bytes>, rest: bytes)
    requires TagOk(tag) && Fits(OptionalOctets(tag, value)) && Beyond(rest, tag)
    ensures var s := Ser(OptionalOctets(tag, value)) + rest;
            && GetOptionalOctets(s, tag) == Some(Read(value, rest))
            && forall t: byte :: t < tag ==> Beyond(s, t)
  {
    hide Ser, SerNode, Fits, FitsNode, GetAsn1;
    if value.None? {
      NoNodes(rest);
    } else {
      var n := OctetsNode(value.value);
      SerOne(n);
      SerOne(Nested(Asn1(tag), [n]));
      NestedFits(Asn1(tag), [n]);
      OctetsRead(value.value, []);
      assert SerNode(n) + [] == SerNode(n);
      AsnNode(tag, [n], rest);
    }
  }

  lemma NestedFits(kind: Kind, children: seq<Node>)
    ensures FitsNode(Nested(kind, children)) ==> Fits(children)
  {}

  lemma OptionalRawRead(tag: byte, value: Option<bytes>, rest: bytes)
    requires TagOk(tag) && Fits(OptionalRaw(tag, value)) && Beyond(rest, tag)
    ensures var s := Ser(OptionalRaw(tag, value)) + rest;
            && GetOptional(s, tag) == Some(Read(value, rest))
            && forall t: byte :: t < tag ==> Beyond(s, t)
  {
    hide Ser, SerNode, Fits, FitsNode, GetAsn1;
    if value.None? {
      NoNodes(rest);
    } else {
      RawNode(value.value);
      SerOne(Nested(Asn1(tag), [Raw(value.value)]));
      AsnNode(tag, [Raw(value.value)], rest);
    }
  }

  lemma {:induction false} SerFlatten(parts: seq<seq<Node>>)
    requires parts != []
    ensures Ser(Flatten(parts)) == Ser(parts[0]) + Ser(Flatten(parts[1..]))
    ensures Fits(Flatten(parts)) == (Fits(parts[0]) && Fits(Flatten(parts[1..])))
  {
    SerConcat(parts[0], Flatten(parts[1..]));
  }

  /** The serialised parts from part i on. */
  function Tail(parts: seq<seq<Node>>, i: nat): bytes
    requires i <= |parts|
  {
    Ser(Flatten(parts[i..]))
  }

  lemma TailStep(parts: seq<seq<Node>>, i: nat)
    requires i < |parts| && Fits(Flatten(parts[i..]))
    ensures Tail(parts, i) == Ser(parts[i]) + Tail(parts, i + 1)
    ensures Fits(parts[i]) && Fits(Flatten(parts[i + 1..]))
  {
    SerFlatten(parts[i..]);
    assert parts[i..][1..] == parts[i + 1..];
  }

  lemma {:induction false} TailFits(parts: seq<seq<Node>>, i: nat)
    requires i <= |parts| && Fits(Flatten(parts))
    ensures Fits(Flatten(parts[i..]))
    decreases i
  {
    if i == 0 {
      assert parts[0..] == parts;
    } else {
      TailFits(parts, i - 1);
      TailStep(parts, i - 1);
    }
  }

  lemma MandatoryUint(parts: seq<seq<Node>>, i: nat, value: nat)
    requires i < |parts| && Fits(Flatten(parts)) && parts[i] == [UintNode(value)] && value < U64
    ensures GetAsn1Uint(Tail(parts, i)) == Some(Read(value, Tail(parts, i + 1)))
  {
    hide Ser, Fits, UintNode, SerNode, FitsNode, GetAsn1Uint;
    TailFits(parts, i);
    TailStep(parts, i);
    SerOne(UintNode(value));
    UintRead(value, Tail(parts, i + 1));
  }

  lemma MandatoryOctets(parts: seq<seq<Node>>, i: nat, data: bytes)
    requires i < |parts| && Fits(Flatten(parts)) && parts[i] == [OctetsNode(data)]
    ensures GetAsn1(Tail(parts, i), OCTET_STRING) == Some(Read(data, Tail(parts, i + 1)))
  {
    hide Ser, Fits, OctetsNode, SerNode, FitsNode, GetAsn1;
    TailFits(parts, i);
    TailStep(parts, i);
    SerOne(OctetsNode(data));
    OctetsRead(data, Tail(parts, i + 1));
  }

  ghost predicate AllBeyond(s: bytes, tag: byte) {
    forall t: byte :: t < tag ==> Beyond(s, t)
  }

  lemma PartUint(parts: seq<seq<Node>>, i: nat, tag: byte, value: nat)
    requires i < |parts| && Fits(Flatten(parts)) && parts[i] == OptionalUint(tag, value)
    requires TagOk(tag) && value < U64 && Beyond(Tail(parts, i + 1), tag)
    ensures GetOptionalUint(Tail(parts, i), tag, 0) == Some(Read(value, Tail(parts, i + 1)))
    ensures AllBeyond(Tail(parts, i), tag)
  {
    hide Ser, Fits, OptionalUint, GetOptionalUint, Beyond;
    TailFits(parts, i);
    TailStep(parts, i);
    OptionalUintRead(tag, value, Tail(parts, i + 1));
  }

  lemma PartOctets(parts: seq<seq<Node>>, i: nat, tag: byte, value: Option<bytes>)
    requires i < |parts| && Fits(Flatten(parts)) && parts[i] == OptionalOctets(tag, value)
    requires TagOk(tag) && Beyond(Tail(parts, i + 1), tag)
    ensures GetOptionalOctets(Tail(parts, i), tag) == Some(Read(value, Tail(parts, i + 1)))
    ensures AllBeyond(Tail(parts, i), tag)
  {
    hide Ser, Fits, OptionalOctets, GetOptionalOctets, Beyond;
    TailFits(parts, i);
    TailStep(parts, i);
    OptionalOctetsRead(tag, value, Tail(parts, i + 1));
  }

  lemma PartRaw(parts: seq<seq<Node>>, i: nat, tag: byte, value: Option<bytes>)
    requires i < |parts| && Fits(Flatten(parts)) && parts[i] == OptionalRaw(tag, value)
    requires TagOk(tag) && Beyond(Tail(parts, i + 1), tag)
    ensures GetOptional(Tail(parts, i), tag) == Some(Read(value, Tail(parts, i + 1)))
    ensures AllBeyond(Tail(parts, i), tag)
  {
    hide Ser, Fits, OptionalRaw, GetOptional, Beyond;
    TailFits(parts, i);
    TailStep(parts, i);
    OptionalRawRead(tag, value, Tail(parts, i + 1));
  }

  /** The optional parts, read from the back: each leaves what follows it, which starts with a later tag. */
  lemma OptionalParts(v: Fields, ticketEncoding: bool, parts: seq<seq<Node>>)
    requires Typed(v) && Encodable(v) && parts == Parts(v, ticketEncoding) && Fits(Flatten(parts))
    ensures GetOptionalUint(Tail(parts, 5), TIME_TAG, 0) == Some(Read(v.time, Tail(parts, 6)))
    ensures GetOptionalUint(Tail(parts, 6), TIMEOUT_TAG, 0) == Some(Read(v.timeout, Tail(parts, 7)))
    ensures GetOptional(Tail(parts, 7), PEER_CERT_TAG) == Some(Read(v.cert, Tail(parts, 8)))
    ensures GetOptionalOctets(Tail(parts, 8), SID_CTX_TAG) == Some(Read(Some(v.sidCtx), Tail(parts, 9)))
    ensures GetOptionalUint(Tail(parts, 9), VERIFY_RESULT_TAG, 0) == Some(Read(v.verifyResult, Tail(parts, 10)))
    ensures GetOptionalOctets(Tail(parts, 10), HOSTNAME_TAG) == Some(Read(v.hostname, Tail(parts, 11)))
    ensures GetOptionalUint(Tail(parts, 11), LIFETIME_TAG, 0) == Some(Read(v.lifetime, Tail(parts, 12)))
    ensures GetOptionalOctets(Tail(parts, 12), TICKET_TAG) == Some(Read(v.ticket, Tail(parts, 13)))
  {
    hide Tail, Fits, Flatten, GetOptionalUint, GetOptionalOctets, GetOptional, Beyond, UintNode;
    LastTail(parts);
    PartOctets(parts, 12, TICKET_TAG, v.ticket);
    PartUint(parts, 11, LIFETIME_TAG, v.lifetime);
    PartOctets(parts, 10, HOSTNAME_TAG, v.hostname);
    PartUint(parts, 9, VERIFY_RESULT_TAG, v.verifyResult);
    PartOctets(parts, 8, SID_CTX_TAG, Some(v.sidCtx));
    PartRaw(parts, 7, PEER_CERT_TAG, v.cert);
    PartUint(parts, 6, TIMEOUT_TAG, v.timeout);
    PartUint(parts, 5, TIME_TAG, v.time);
  }

  lemma LastTail(parts: seq<seq<Node>>)
    ensures Tail(parts, |parts|) == [] && forall t: byte :: Beyond(Tail(parts, |parts|), t)
  {
    assert parts[|parts|..] == [];
    assert Flatten([]) == [];
  }

  lemma MandatoryParts(v: Fields, ticketEncoding: bool, parts: seq<seq<Node>>)
    requires Typed(v) && Encodable(v) && parts == Parts(v, ticketEncoding) && Fits(Flatten(parts))
    ensures GetAsn1Uint(Tail(parts, 0)) == Some(Read(ASN1_VERSION, Tail(parts, 1)))
    ensures GetAsn1Uint(Tail(parts, 1)) == Some(Read(v.version, Tail(parts, 2)))
    ensures GetAsn1(Tail(parts, 2), OCTET_STRING) == Some(Read(ToBe(v.cipher, 2), Tail(parts, 3)))
    ensures GetAsn1(Tail(parts, 3), OCTET_STRING) ==
            Some(Read(if ticketEncoding then [] else v.sessionId, Tail(parts, 4)))
    ensures GetAsn1(Tail(parts, 4), OCTET_STRING) == Some(Read(v.masterKey, Tail(parts, 5)))
  {
    hide Tail, Fits, Flatten, GetAsn1, GetAsn1Uint, UintNode, OctetsNode;
    MandatoryUint(parts, 0, ASN1_VERSION);
    MandatoryUint(parts, 1, v.version);
    MandatoryOctets(parts, 2, ToBe(v.cipher, 2));
    MandatoryOctets(parts, 3, if ticketEncoding then [] else v.sessionId);
    MandatoryOctets(parts, 4, v.masterKey);
  }

  /** What is encoded is decoded, whatever follows the encoding. */
  lemma DecodeEncoded(v: Fields, ticketEncoding: bool, rest: bytes, now: int, d2iX509: bytes -> Option<bytes>)
    requires Typed(v) && Encodable(v) && (v.cert.Some? ==> d2iX509(v.cert.value) == v.cert)
    requires Fits(Document(Flatten(Parts(v, ticketEncoding))))
    ensures Decode(Ser(Document(Flatten(Parts(v, ticketEncoding)))) + rest, now, d2iX509) ==
            Some(Read(Normal(v, ticketEncoding, now), rest))
  {
    hide Tail, Ser, Fits, FitsNode, Flatten, GetAsn1, GetAsn1Uint, GetOptionalUint, GetOptionalOctets, GetOptional;
    hide UintNode, OctetsNode, OptionalUint, OptionalOctets, OptionalRaw;
    var parts := Parts(v, ticketEncoding);
    var nodes := Flatten(parts);
    SerOne(Nested(Asn1(SEQUENCE), nodes));
    NestedFits(Asn1(SEQUENCE), nodes);
    AsnNode(SEQUENCE, nodes, rest);
    WholeTail(parts);
    MandatoryParts(v, ticketEncoding, parts);
    OptionalParts(v, ticketEncoding, parts);
    Pow256Values();
    FromToBe(v.cipher, 2);
  }

  lemma WholeTail(parts: seq<seq<Node>>)
    ensures Tail(parts, 0) == Ser(Flatten(parts))
  {
    assert parts[0..] == parts;
  }

  /** Every field comes back unchanged exactly when the times are set (a time of zero only at time zero) and
      the ticket is absent or not empty. */
  lemma SessionRoundTrip(v: Fields, rest: bytes, now: int, d2iX509: bytes -> Option<bytes>)
    requires Typed(v) && Encodable(v) && (v.cert.Some? ==> d2iX509(v.cert.value) == v.cert)
    requires Fits(Document(Flatten(Parts(v, false))))
    ensures Decode(Ser(Document(Flatten(Parts(v, false)))) + rest, now, d2iX509) == Some(Read(v, rest))
            <==> (v.time != 0 || now == 0) && v.timeout != 0 && v.ticket != Some([])
  {
    DecodeEncoded(v, false, rest, now, d2iX509);
  }

  // Sizes.

  /** What is far below the length that can be announced. */
  const SMALL := 0x1000_0000

  /** A part and its size. */
  ghost predicate Sized(ns: seq<Node>, size: nat) {
    Fits(ns) && |Ser(ns)| <= size
  }

  lemma SizedNested(tag: byte, children: seq<Node>, size: nat)
    requires Sized(children, size) && size <= SMALL + 64
    ensures Sized([Nested(Asn1(tag), children)], size + 6)
  {
    hide Ser, Fits;
    SerOne(Nested(Asn1(tag), children));
  }

  lemma SizedRaw(data: bytes)
    ensures Sized([Raw(data)], |data|)
  {
    hide Ser, Fits;
    RawNode(data);
  }

  lemma SizedUint(value: nat)
    requires value < U64
    ensures Sized([UintNode(value)], 15)
  {
    hide Ser, Fits, UintOctets, RawEach;
    UintOctetsLength(value);
    SerRawEach(UintOctets(value));
    SizedNested(INTEGER, RawEach(UintOctets(value)), 9);
  }

  lemma SizedOctets(data: bytes)
    requires |data| <= SMALL
    ensures Sized([OctetsNode(data)], |data| + 6)
  {
    hide Sized;
    SizedRaw(data);
    SizedNested(OCTET_STRING, [Raw(data)], |data|);
  }

  lemma SizedLess(ns: seq<Node>, size: nat, more: nat)
    requires Sized(ns, size) && size <= more
    ensures Sized(ns, more)
  {}

  lemma {:induction false} SizedFlatten(parts: seq<seq<Node>>)
    requires forall p <- parts :: Sized(p, SMALL + 64)
    ensures Sized(Flatten(parts), |parts| * (SMALL + 64))
  {
    hide Ser, Fits;
    if parts == [] {
      NoNodes([]);
    } else {
      assert forall p <- parts[1..] :: p in parts;
      SizedFlatten(parts[1..]);
      SerConcat(parts[0], Flatten(parts[1..]));
      assert parts[0] in parts;
    }
  }

  lemma SizedOptionalUint(tag: byte, value: nat)
    requires value < U64
    ensures Sized(OptionalUint(tag, value), SMALL + 64)
  {
    hide Ser, Fits, UintNode;
    NoNodes([]);
    if value != 0 {
      SizedUint(value);
      SizedNested(tag, [UintNode(value)], 15);
    }
  }

  lemma SizedOptionalOctets(tag: byte, value: Option<bytes>)
    requires value.Some? ==> |value.value| <= SMALL
    ensures Sized(OptionalOctets(tag, value), SMALL + 64)
  {
    hide Ser, Fits, OctetsNode;
    NoNodes([]);
    if value.Some? {
      SizedOctets(value.value);
      SizedNested(tag, [OctetsNode(value.value)], |value.value| + 6);
    }
  }

  lemma SizedOptionalRaw(tag: byte, value: Option<bytes>)
    requires value.Some? ==> |value.value| <= SMALL
    ensures Sized(OptionalRaw(tag, value), SMALL + 64)
  {
    hide Ser, Fits;
    NoNodes([]);
    if value.Some? {
      SizedRaw(value.value);
      SizedNested(tag, [Raw(value.value)], |value.value|);
    }
  }

  /** A session of ordinary size has an encoding. */
  lemma SmallSessionFits(v: Fields, ticketEncoding: bool)
    requires Typed(v) && Encodable(v)
    requires forall x <- [v.cert, v.hostname, v.ticket] :: x.Some? ==> |x.value| <= SMALL
    ensures Fits(Document(Flatten(Parts(v, ticketEncoding))))
  {
    hide Ser, Fits, Sized, UintNode, OctetsNode, OptionalUint, OptionalOctets, OptionalRaw;
    var parts := Parts(v, ticketEncoding);
    assert v.cert in [v.cert, v.hostname, v.ticket] && v.hostname in [v.cert, v.hostname, v.ticket];
    assert v.ticket in [v.cert, v.hostname, v.ticket];
    forall p | p in parts
      ensures Sized(p, SMALL + 64)
    {
      var i :| 0 <= i < |parts| && parts[i] == p;
      SizedPart(v, ticketEncoding, i);
    }
    SizedFlatten(parts);
    SizedDocument(Flatten(parts));
  }

  lemma SizedDocument(ns: seq<Node>)
    requires Sized(ns, 13 * (SMALL + 64))
    ensures Fits(Document(ns))
  {
    hide Ser, Fits;
    SerOne(Nested(Asn1(SEQUENCE), ns));
    NodeFits(ns);
  }

  lemma NodeFits(ns: seq<Node>)
    ensures FitsNode(Nested(Asn1(SEQUENCE), ns)) <==> Fits(ns) && |Ser(ns)| <= MAX_BUILT
  {}

  lemma SizedPart(v: Fields, ticketEncoding: bool, i: nat)
    requires Typed(v) && Encodable(v) && i < |Parts(v, ticketEncoding)|
    requires v.cert.Some? ==> |v.cert.value| <= SMALL
    requires v.hostname.Some? ==> |v.hostname.value| <= SMALL
    requires v.ticket.Some? ==> |v.ticket.value| <= SMALL
    ensures Sized(Parts(v, ticketEncoding)[i], SMALL + 64)
  {
    hide Sized, UintNode, OctetsNode, OptionalUint, OptionalOctets, OptionalRaw;
    if i <= 1 {
      var value: nat := if i == 0 then ASN1_VERSION else v.version;
      SizedUint(value);
      SizedLess([UintNode(value)], 15, SMALL + 64);
    } else if i <= 4 {
      var data := if i == 2 then ToBe(v.cipher, 2) else if i == 4 then v.masterKey
                  else if ticketEncoding then [] else v.sessionId;
      SizedOctets(data);
      SizedLess([OctetsNode(data)], |data| + 6, SMALL + 64);
    } else if i == 8 {
      SizedOctets(v.sidCtx);
      SizedNested(SID_CTX_TAG, [OctetsNode(v.sidCtx)], |v.sidCtx| + 6);
      SizedLess([Nested(Asn1(SID_CTX_TAG), [OctetsNode(v.sidCtx)])], |v.sidCtx| + 12, SMALL + 64);
    } else if i == 7 {
      SizedOptionalRaw(PEER_CERT_TAG, v.cert);
    } else if i == 10 {
      SizedOptionalOctets(HOSTNAME_TAG, v.hostname);
    } else if i == 12 {
      SizedOptionalOctets(TICKET_TAG, v.ticket);
    } else {
      SizedOptionalUint(TIME_TAG, v.time);
      SizedOptionalUint(TIMEOUT_TAG, v.timeout);
      SizedOptionalUint(VERIFY_RESULT_TAG, v.verifyResult);
      SizedOptionalUint(LIFETIME_TAG, v.lifetime);
    }
  }

  // Sessions that do not come back.

  const PLAIN := Fields(0x303, 0xc02f, [], [], 1, 300, None, [], 0, None, 0, None)

  /** A timeout of zero is not sent and comes back as three seconds. */
  lemma TimeoutLost(rest: bytes, now: int, d2iX509: bytes -> Option<bytes>)
    ensures var v := PLAIN.(timeout := 0);
            && Typed(v) && Encodable(v) && Fits(Document(Flatten(Parts(v, false))))
            && Decode(Ser(Document(Flatten(Parts(v, false)))) + rest, now, d2iX509)
               == Some(Read(PLAIN.(timeout := 3), rest))
  {
    hide Decode, Ser, Fits, Parts;
    var v := PLAIN.(timeout := 0);
    SmallSessionFits(v, false);
    DecodeEncoded(v, false, rest, now, d2iX509);
  }

  /** A ticket without octets comes back as none. */
  lemma TicketLost(rest: bytes, now: int, d2iX509: bytes -> Option<bytes>)
    ensures var v := PLAIN.(ticket := Some([]));
            && Typed(v) && Encodable(v) && Fits(Document(Flatten(Parts(v, false))))
            && Decode(Ser(Document(Flatten(Parts(v, false)))) + rest, now, d2iX509) == Some(Read(PLAIN, rest))
  {
    hide Decode, Ser, Fits, Parts;
    var v := PLAIN.(ticket := Some([]));
    SmallSessionFits(v, false);
    DecodeEncoded(v, false, rest, now, d2iX509);
  }

  /** A time of zero comes back as the time of decoding. */
  lemma TimeLost(rest: bytes, now: int, d2iX509: bytes -> Option<bytes>)
    ensures var v := PLAIN.(time := 0);
            && Typed(v) && Encodable(v) && Fits(Document(Flatten(Parts(v, false))))
            && Decode(Ser(Document(Flatten(Parts(v, false)))) + rest, now, d2iX509)
               == Some(Read(PLAIN.(time := now), rest))
  {
    hide Decode, Ser, Fits, Parts;
    var v := PLAIN.(time := 0);
    SmallSessionFits(v, false);
    DecodeEncoded(v, false, rest, now, d2iX509);
  }
}

/** SSL_SESSION_encode and d2i_SSL_SESSION (ssl_asn1.c) on the builder and the reader. */
module Session {
  import opened Bytes
  import opened Der
  import opened WriteTree
  import opened Wrappers
  import opened ByteReader
  import opened ByteBuilder
  import opened SessionCodec

  /** The builder for the contents of the SEQUENCE, with these elements written so far. */
  ghost predicate Filling(session: Cbb, ns: seq<Node>)
    reads session
    reads if session.base == null then {} else {session.base, session.base.buf} + set c: Cbb | c in session.base.stack
  {
    && session.Attached() && session.base != null && session.depth == 1 && session.base.canResize
    && session.base.Tree() == Document(ns)
  }

  lemma DocumentInsert(ns: seq<Node>, n: Node)
    ensures Spine(Document(ns), 1) && Insert(Document(ns), 1, n) == Document(ns + [n])
  {
    InsertDeeper([], 0, Asn1(SEQUENCE), ns, n);
    assert [] + Document(ns) == Document(ns);
  }

  lemma DocumentInsertTwice(ns: seq<Node>, kind: Kind, children: seq<Node>, n: Node)
    ensures Spine(Document(ns + [Nested(kind, children)]), 2)
    ensures Insert(Document(ns + [Nested(kind, children)]), 2, n) == Document(ns + [Nested(kind, children + [n])])
  {
    DocumentInsert(ns, Nested(kind, children));
    InsertDeeper(Document(ns), 1, kind, children, n);
    DocumentInsert(ns, Nested(kind, children + [n]));
  }

  lemma DocumentInsertThrice(ns: seq<Node>, outer: Kind, kind: Kind, n: Node)
    ensures Spine(Document(ns + [Nested(outer, [Nested(kind, [])])]), 3)
    ensures Insert(Document(ns + [Nested(outer, [Nested(kind, [])])]), 3, n) ==
            Document(ns + [Nested(outer, [Nested(kind, [n])])])
  {
    DocumentInsertTwice(ns, outer, [], Nested(kind, []));
    DocumentInsertTwice(ns, outer, [], Nested(kind, [n]));
    InsertDeeper(Document(ns + [Nested(outer, [])]), 2, kind, [], n);
    assert [] + [n] == [n] && [] + [Nested(kind, [])] == [Nested(kind, [])]
           && [] + [Nested(kind, [n])] == [Nested(kind, [n])];
  }

  /** A document that fits still fits with fewer elements. */
  lemma DocumentPrefixFits(ns: seq<Node>, ms: seq<Node>)
    requires Fits(Document(ns + ms))
    ensures Fits(Document(ns))
  {
    SerOne(Nested(Asn1(SEQUENCE), ns + ms));
    SerOne(Nested(Asn1(SEQUENCE), ns));
    SerConcat(ns, ms);
  }

  /** Builders that were opened are new objects. */
  twostate predicate OnlyNew(session: Cbb)
    requires old(session.base) != null && session.base != null
    reads *
  {
    forall c :: c in session.base.stack ==> c in old(session.base.stack) || fresh(c)
  }

  /** CBB_add_asn1 on a growing builder: it fails only if something still open cannot be closed. */
  method OpenChild(parent: Cbb, tag: byte) returns (ok: bool, child: Cbb)
    requires parent.Attached() && parent.base != null && parent.base.canResize && TagOk(tag)
    modifies parent.Footprint()
    ensures parent.Kept() && fresh(child)
    ensures old(|parent.base.stack|) == parent.depth + 1 ==> ok
    ensures !ok ==> !Fits(old(parent.base.Tree()))
    ensures ok ==> && child.Attached() && child.base == parent.base && child.depth == parent.depth + 1
                   && parent.base.stack == old(parent.base.stack)[..parent.depth + 1] + [child]
                   && Spine(old(parent.base.Tree()), parent.depth)
                   && parent.base.Tree() == Insert(old(parent.base.Tree()), parent.depth, Nested(Asn1(tag), []))
  {
    hide OpenTree, Fits, Ser, Collapsed, Insert, Spine;
    child := new Cbb();
    if Fits(parent.base.Tree()) {
      TreeFitsInside(parent.base.trees, parent.base.kinds, parent.depth);
    }
    if |parent.base.stack| == parent.depth + 1 {
      parent.NoChildFits();
    }
    ok := parent.AddAsn1(child, tag);
  }

  /** An element with raw octets inside; its builder stays open until the next call. */
  method PutRaw(session: Cbb, tag: byte, data: bytes, ghost ns: seq<Node>) returns (ok: bool)
    requires Filling(session, ns) && TagOk(tag)
    modifies session.Footprint()
    ensures session.Kept() && (ok ==> OnlyNew(session))
    ensures ok ==> Filling(session, ns + [Nested(Asn1(tag), [Raw(data)])])
    ensures !ok ==> !Fits(Document(ns))
  {
    hide OpenTree, Fits, Ser, Collapsed, Insert, Spine, Document;
    DocumentInsert(ns, Nested(Asn1(tag), []));
    DocumentInsertTwice(ns, Asn1(tag), [], Raw(data));
    assert [] + [Raw(data)] == [Raw(data)];
    var child;
    ok, child := OpenChild(session, tag);
    if ok {
      session.base.Distinct(1);
      child.NoChildFits();
      ok := child.AddBytes(data);
    }
  }

  /** An explicitly tagged OCTET STRING. */
  method PutExplicitOctets(session: Cbb, tag: byte, data: bytes, ghost ns: seq<Node>) returns (ok: bool)
    requires Filling(session, ns) && TagOk(tag)
    modifies session.Footprint()
    ensures session.Kept() && (ok ==> OnlyNew(session))
    ensures ok ==> Filling(session, ns + [Nested(Asn1(tag), [OctetsNode(data)])])
    ensures !ok ==> !Fits(Document(ns))
  {
    hide OpenTree, Fits, Ser, Collapsed, Insert, Spine, Document;
    DocumentInsert(ns, Nested(Asn1(tag), []));
    DocumentInsertTwice(ns, Asn1(tag), [], Nested(Asn1(OCTET_STRING), []));
    DocumentInsertThrice(ns, Asn1(tag), Asn1(OCTET_STRING), Raw(data));
    assert [] + [Nested(Asn1(OCTET_STRING), [])] == [Nested(Asn1(OCTET_STRING), [])];
    var wrapper;
    ok, wrapper := OpenChild(session, tag);
    if ok {
      ok := PutWrapped(session, wrapper, data);
    }
  }

  /** The OCTET STRING inside a wrapper just opened. */
  method PutWrapped(session: Cbb, wrapper: Cbb, data: bytes) returns (ok: bool)
    requires session.Attached() && session.base != null && session.base.canResize
    requires |session.base.stack| == session.depth + 2 && session.base.stack[session.depth + 1] == wrapper
    requires wrapper.Attached() && wrapper.base == session.base && wrapper.depth == session.depth + 1
    modifies wrapper.Footprint()
    ensures session.Kept() && ok && OnlyNew(session)
    ensures wrapper.depth == old(wrapper.depth) && Spine(old(session.base.Tree()), wrapper.depth)
    ensures Spine(Insert(old(session.base.Tree()), wrapper.depth, Nested(Asn1(OCTET_STRING), [])), wrapper.depth + 1)
    ensures session.base.Tree() ==
            Insert(Insert(old(session.base.Tree()), wrapper.depth, Nested(Asn1(OCTET_STRING), [])),
                   wrapper.depth + 1, Raw(data))
  {
    hide OpenTree, Fits, Ser, Collapsed, Insert, Spine;
    session.base.Distinct(session.depth);
    ok := PutInside(wrapper, data);
  }

  /** The OCTET STRING inside. */
  method PutInside(wrapper: Cbb, data: bytes) returns (ok: bool)
    requires wrapper.Attached() && wrapper.base != null && wrapper.base.canResize
    requires |wrapper.base.stack| == wrapper.depth + 1
    modifies wrapper.Footprint()
    ensures wrapper.Kept() && ok && OnlyNew(wrapper)
    ensures Spine(old(wrapper.base.Tree()), wrapper.depth)
    ensures Spine(Insert(old(wrapper.base.Tree()), wrapper.depth, Nested(Asn1(OCTET_STRING), [])), wrapper.depth + 1)
    ensures wrapper.base.Tree() ==
            Insert(Insert(old(wrapper.base.Tree()), wrapper.depth, Nested(Asn1(OCTET_STRING), [])),
                   wrapper.depth + 1, Raw(data))
  {
    hide OpenTree, Fits, Ser, Collapsed, Insert, Spine;
    var value;
    ok, value := OpenChild(wrapper, OCTET_STRING);
    wrapper.base.Distinct(wrapper.depth);
    value.NoChildFits();
    ok := value.AddBytes(data);
  }

  /** An explicitly tagged INTEGER. */
  method PutExplicitUint(session: Cbb, tag: byte, value: nat, ghost ns: seq<Node>) returns (ok: bool)
    requires Filling(session, ns) && TagOk(tag) && value < U64
    modifies session.Footprint()
    ensures session.Kept() && (ok ==> OnlyNew(session))
    ensures ok ==> Filling(session, ns + [Nested(Asn1(tag), [UintNode(value)])])
    ensures !ok ==> !Fits(Document(ns))
  {
    hide OpenTree, Fits, Ser, Collapsed, Insert, Spine, Document, UintNode;
    DocumentInsert(ns, Nested(Asn1(tag), []));
    DocumentInsertTwice(ns, Asn1(tag), [], UintNode(value));
    assert [] + [UintNode(value)] == [UintNode(value)];
    var wrapper;
    ok, wrapper := OpenChild(session, tag);
    if ok {
      session.base.Distinct(1);
      wrapper.NoChildFits();
      ok := wrapper.AddAsn1Uint64(value);
    }
  }

  /** An INTEGER. */
  method PutUint(session: Cbb, value: nat, ghost ns: seq<Node>) returns (ok: bool)
    requires Filling(session, ns) && value < U64
    modifies session.Footprint()
    ensures session.Kept() && (ok ==> OnlyNew(session))
    ensures ok ==> Filling(session, ns + [UintNode(value)])
    ensures !ok ==> !Fits(Document(ns))
  {
    hide OpenTree, Fits, Ser, Collapsed, Insert, Spine, Document, UintNode;
    DocumentInsert(ns, UintNode(value));
    if Fits(Document(ns)) {
      TreeFitsInside(session.base.trees, session.base.kinds, 1);
    }
    ok := session.AddAsn1Uint64(value);
  }

  /** An OCTET STRING of a 16-bit number. */
  method PutU16(session: Cbb, value: nat, ghost ns: seq<Node>) returns (ok: bool)
    requires Filling(session, ns) && value < 0x1_0000
    modifies session.Footprint()
    ensures session.Kept() && (ok ==> OnlyNew(session))
    ensures ok ==> Filling(session, ns + [OctetsNode(ToBe(value, 2))])
    ensures !ok ==> !Fits(Document(ns))
  {
    hide OpenTree, Fits, Ser, Collapsed, Insert, Spine, Document, ToBe, Buffer.Linked, Buffer.Valid;
    DocumentInsert(ns, Nested(Asn1(OCTET_STRING), []));
    DocumentInsertTwice(ns, Asn1(OCTET_STRING), [], Raw(ToBe(value, 2)));
    assert [] + [Raw(ToBe(value, 2))] == [Raw(ToBe(value, 2))];
    Pow256Values();
    var child;
    ok, child := OpenChild(session, OCTET_STRING);
    if ok {
      session.base.Distinct(1);
      child.NoChildFits();
      ok := child.AddUint(value, 2);
    }
  }

  lemma NothingMore(ns: seq<Node>)
    ensures ns + [] == ns
  {}

  /** All parts, in their order. */
  method PutParts(session: Cbb, v: Fields, ticketEncoding: bool) returns (ok: bool)
    requires Typed(v) && Encodable(v) && Filling(session, [])
    modifies session.Footprint()
    ensures session.Kept() && (ok ==> OnlyNew(session))
    ensures ok ==> Filling(session, Flatten(Parts(v, ticketEncoding)))
    ensures !ok ==> !Fits(Document(Flatten(Parts(v, ticketEncoding))))
  {
    hide Fits, Ser, Flatten, Parts, OpenTree, Collapsed, Insert, Spine, Document;
    ghost var parts := Parts(v, ticketEncoding);
    NoParts(parts);
    var n := NumberOfParts(v, ticketEncoding);
    for i := 0 to n
      invariant Filling(session, Flatten(parts[..i]))
      invariant session.Kept() && OnlyNew(session)
    {
      session.base.Distinct(0);
      forall c | c in session.base.stack[1..] ensures c in old(session.base.stack[1..]) || fresh(c) {
        assert c in session.base.stack && c != session.base.stack[0] == old(session.base.stack)[0];
      }
      ok := PutPart(session, v, ticketEncoding, i, Flatten(parts[..i]));
      if !ok {
        PartsFit(parts, i);
        return;
      }
      FlattenNext(parts, i);
    }
    assert parts[..n] == parts;
    ok := true;
  }

  lemma FillingAttached(session: Cbb, ns: seq<Node>)
    requires Filling(session, ns)
    ensures session.Attached() && session.base != null && session.depth < |session.base.stack|
  {}

  /** One part of the encoding, chosen by its position in the list of parts. */
  method PutPart(session: Cbb, v: Fields, ticketEncoding: bool, i: nat, ghost ns: seq<Node>) returns (ok: bool)
    requires Typed(v) && Encodable(v) && i < |Parts(v, ticketEncoding)| && Filling(session, ns)
    modifies session.Footprint()
    ensures session.Kept() && (ok ==> OnlyNew(session))
    ensures ok ==> Filling(session, ns + Parts(v, ticketEncoding)[i])
    ensures !ok ==> !Fits(Document(ns))
  {
    hide OpenTree, Fits, Ser, Insert, Spine, Document, UintNode, ToBe, Filling;
    NothingMore(ns);
    FillingAttached(session, ns);
    ok := true;
    match i {
      case 0 => ok := PutUint(session, ASN1_VERSION, ns);
      case 1 => ok := PutUint(session, v.version, ns);
      case 2 => ok := PutU16(session, v.cipher, ns);
      case 3 => ok := PutRaw(session, OCTET_STRING, if ticketEncoding then [] else v.sessionId, ns);
      case 4 => ok := PutRaw(session, OCTET_STRING, v.masterKey, ns);
      case 5 => if v.time != 0 { ok := PutExplicitUint(session, TIME_TAG, v.time, ns); }
      case 6 => if v.timeout != 0 { ok := PutExplicitUint(session, TIMEOUT_TAG, v.timeout, ns); }
      case 7 => if v.cert.Some? { ok := PutRaw(session, PEER_CERT_TAG, v.cert.value, ns); }
      case 8 => ok := PutExplicitOctets(session, SID_CTX_TAG, v.sidCtx, ns);
      case 9 => if v.verifyResult != 0 { ok := PutExplicitUint(session, VERIFY_RESULT_TAG, v.verifyResult, ns); }
      case 10 => if v.hostname.Some? { ok := PutExplicitOctets(session, HOSTNAME_TAG, v.hostname.value, ns); }
      case 11 => if v.lifetime > 0 { ok := PutExplicitUint(session, LIFETIME_TAG, v.lifetime, ns); }
      case 12 => if v.ticket.Some? { ok := PutExplicitOctets(session, TICKET_TAG, v.ticket.value, ns); }
    }
  }

  /** The elements are written and the document is finished. */
  method Complete(cbb: Cbb, session: Cbb, v: Fields, ticketEncoding: bool) returns (ok: bool, out: bytes)
    requires Typed(v) && Encodable(v) && Filling(session, [])
    requires cbb.base == session.base && cbb.Attached() && cbb.depth == 0
    modifies cbb.Footprint()
    ensures ok <==> Fits(Document(Flatten(Parts(v, ticketEncoding))))
    ensures ok ==> out == Ser(Document(Flatten(Parts(v, ticketEncoding))))
  {
    hide Fits, Ser, Flatten, Parts, OpenTree, Collapsed, Insert, Spine, Typed, Document, Encodable;
    out := [];
    assert cbb.isTopLevel && cbb.base.stack[1] == session by { assert cbb.base.Linked(0); }
    cbb.base.Distinct(0);
    ok := PutParts(session, v, ticketEncoding);
    if ok {
      ok, out := cbb.FinishBytes();
    }
  }

  /** SSL_SESSION: the fields that are encoded. */
  class SslSession {
    var version: int
    var cipher: int
    var sessionId: bytes
    var masterKey: bytes
    var time: int
    var timeout: int
    var cert: Option<bytes>
    var sidCtx: bytes
    var verifyResult: int
    var hostname: Option<bytes>
    var lifetime: int
    var ticket: Option<bytes>

    constructor ()
    {
      version, cipher, time, timeout, verifyResult, lifetime := 0, 0, 0, 0, 0, 0;
      sessionId, masterKey, sidCtx, cert, hostname, ticket := [], [], [], None, None, None;
    }

    function Value(): Fields
      reads this
    {
      Fields(version, cipher, sessionId, masterKey, time, timeout, cert, sidCtx, verifyResult, hostname,
             lifetime, ticket)
    }

    /** SSL_SESSION_encode, step by step. It succeeds exactly when no field is negative, the certificate has
        an encoding, and the lengths can be announced. */
    method Encode(ticketEncoding: bool) returns (ok: bool, out: bytes)
      requires Typed(Value())
      ensures ok <==> Encodable(Value()) && Fits(Document(Flatten(Parts(Value(), ticketEncoding))))
      ensures ok ==> out == Ser(Document(Flatten(Parts(Value(), ticketEncoding))))
    {
      hide Fits, Ser, Flatten, Parts, OpenTree, Collapsed, Insert, Spine, Typed, Document;
      out := [];
      var v := Value();
      if v.version < 0 || v.time < 0 || v.timeout < 0 || v.cert == Some([]) || v.verifyResult < 0 {
        return false, out;
      }
      ghost var parts := Parts(v, ticketEncoding);
      var cbb := new Cbb.Init(0);
      var session;
      ok, session := OpenChild(cbb, SEQUENCE);
      if !ok {
        return;
      }
      assert Filling(session, []) by { NoParts(parts); }
      ok, out := Complete(cbb, session, v, ticketEncoding);
    }

    /** d2i_SSL_SESSION into this object: field after field is overwritten, whatever was there before. */
    method DecodeFrom(input: Cbs, now: int, d2iX509: bytes -> Option<bytes>) returns (ok: bool)
      modifies this, input
      ensures ok <==> Decode(old(input.data), now, d2iX509).Some?
      ensures ok ==> Read(Value(), input.data) == Decode(old(input.data), now, d2iX509).value
    {
      hide GetAsn1, DecodeFixed, DecodeEarly, DecodeLate;
      var inside;
      ok, inside := input.GetAsn1Contents(SEQUENCE);
      if !ok {
        return;
      }
      var session := new Cbs.Init(inside);
      ok := DecodeStart(session);
      if ok {
        ok := DecodeFirst(session, now, d2iX509);
        if ok {
          ok := DecodeRest(session);
        }
      }
    }

    /** The elements every encoding has. */
    method DecodeStart(session: Cbs) returns (ok: bool)
      modifies this`version, this`cipher, this`sessionId, this`masterKey, session
      ensures ok <==> DecodeFixed(old(session.data)).Some?
      ensures ok ==> Read(Fixed(version, cipher, sessionId, masterKey), session.data)
                     == DecodeFixed(old(session.data)).value
    {
      hide GetAsn1, GetAsn1Uint;
      var octets, number;
      ok, number := session.GetUint64();
      if !ok || number != ASN1_VERSION { return false; }
      ok, number := session.GetUint64();
      if !ok || number > INT_MAX { return false; }
      version := number;
      ok, octets := session.GetAsn1Contents(OCTET_STRING);
      if !ok { return; }
      var suite := new Cbs.Init(octets);
      ok, number := suite.GetU(2);
      if !ok || suite.data != [] { return false; }
      assert octets[..2] == octets;
      cipher := number;
      ok, octets := session.GetAsn1Contents(OCTET_STRING);
      if !ok || |octets| > 32 { return false; }
      sessionId := octets;
      ok, octets := session.GetAsn1Contents(OCTET_STRING);
      if !ok || |octets| > 48 { return false; }
      masterKey := octets;
    }

    /** Optional elements 1 to 4. */
    method DecodeFirst(session: Cbs, now: int, d2iX509: bytes -> Option<bytes>) returns (ok: bool)
      modifies this`time, this`timeout, this`cert, this`sidCtx, session
      ensures ok <==> DecodeEarly(old(session.data), now, d2iX509).Some?
      ensures ok ==> Read(Early(time, timeout, cert, sidCtx), session.data)
                     == DecodeEarly(old(session.data), now, d2iX509).value
    {
      hide GetOptional, GetOptionalUint, GetOptionalOctets;
      var octets, number, present;
      time := now;
      ok, number := session.GetOptionalUint64(TIME_TAG, 0);
      if !ok || number > LONG_MAX { return false; }
      if number != 0 { time := number; }
      timeout := 3;
      ok, number := session.GetOptionalUint64(TIMEOUT_TAG, 0);
      if !ok || number > LONG_MAX { return false; }
      if number != 0 { timeout := number; }
      cert := None;
      ok, octets, present := session.GetOptionalAsn1(PEER_CERT_TAG);
      if !ok { return; }
      if present {
        cert := d2iX509(octets);
        if cert.None? { return false; }
      }
      sidCtx := [];
      ok, octets, present := session.GetOptionalOctetString(SID_CTX_TAG);
      if !ok { return; }
      if present {
        if |octets| > 32 { return false; }
        sidCtx := octets;
      }
    }

    /** Optional elements 5 to 10. */
    method DecodeRest(session: Cbs) returns (ok: bool)
      modifies this`verifyResult, this`hostname, this`lifetime, this`ticket, session
      ensures ok <==> DecodeLate(old(session.data)).Some?
      ensures ok ==> Late(verifyResult, hostname, lifetime, ticket) == DecodeLate(old(session.data)).value
    {
      hide GetOptional, GetOptionalUint, GetOptionalOctets;
      var octets, number, present;
      verifyResult := 0;
      ok, number := session.GetOptionalUint64(VERIFY_RESULT_TAG, 0);
      if !ok || number > LONG_MAX { return false; }
      verifyResult := number;
      hostname := None;
      ok, octets, present := session.GetOptionalOctetString(HOSTNAME_TAG);
      if !ok { return; }
      if present {
        if 0 in octets { return false; }
        hostname := Some(octets);
      }
      lifetime := 0;
      ok, number := session.GetOptionalUint64(LIFETIME_TAG, 0);
      if !ok || number > UINT32_MAX { return false; }
      if number > 0 { lifetime := number; }
      ticket := None;
      ok, octets, present := session.GetOptionalOctetString(TICKET_TAG);
      if !ok { return; }
      if present && octets != [] { ticket := Some(octets); }
    }
  }

  function NumberOfParts(v: Fields, ticketEncoding: bool): (n: nat)
    requires Typed(v) && Encodable(v)
    ensures n == |Parts(v, ticketEncoding)|
  {
    13
  }

  lemma NoParts(parts: seq<seq<Node>>)
    ensures Flatten(parts[..0]) == [] && Document([]) == [Nested(Asn1(SEQUENCE), [])]
    ensures Spine([], 0) && Insert([], 0, Nested(Asn1(SEQUENCE), [])) == Document([])
  {
    assert [] + Document([]) == Document([]);
  }

  lemma PartsFit(parts: seq<seq<Node>>, i: nat)
    requires i <= |parts|
    ensures Fits(Document(Flatten(parts))) ==> Fits(Document(Flatten(parts[..i])))
  {
    FlattenConcat(parts[..i], parts[i..]);
    assert parts == parts[..i] + parts[i..];
    if Fits(Document(Flatten(parts))) {
      DocumentPrefixFits(Flatten(parts[..i]), Flatten(parts[i..]));
    }
  }
}

/** Conversion of indefinite lengths to definite ones (bs_ber.c), as a function from bytes to the tree of
    builder calls. */
module Ber {
  import opened Bytes
  import opened Der
  import opened WriteTree
  import opened Wrappers

  const MAX_DEPTH := 2048

  /** is_primitive_type */
  predicate IsPrimitiveType(tag: byte) {
    tag < 0x40 && tag % 32 != SEQUENCE % 32 && tag % 32 != 0x31 % 32
  }

  /** is_eoc, for an element without contents */
  predicate IsEoc(e: Element) {
    e.headerLen == 2 && e.whole == [0, 0]
  }

  predicate IsIndefinite(e: Element)
    requires 0 < e.headerLen <= |e.whole|
  {
    |e.whole| == e.headerLen && e.whole[e.headerLen - 1] == 0x80
  }

  predicate IsContextSpecific(tag: byte) {
    0x80 <= tag < 0xc0
  }

  /** Whether the headers of the elements inside an indefinite-length element are dropped; for a constructed
      context-specific tag this depends on the first element inside, which must parse. */
  function SquashChildren(tag: byte, inside: bytes): Option<bool> {
    if IsContextSpecific(tag) && IsConstructed(tag) then
      match GetAny(inside, false)
      case None => None
      case Some(inner) =>
        Some(IsPrimitiveType(tag) || (|inner.whole| > inner.headerLen && IsPrimitiveType(inner.tag)))
    else Some(IsPrimitiveType(tag))
  }

  /** The tag written for an element whose inner headers are, or are not, dropped. */
  function OutTag(tag: byte, squash: bool): byte {
    if squash && IsConstructed(tag) then tag - 0x20 else tag
  }

  function Wrap(tag: byte, nodes: seq<Node>, squashHeader: bool): seq<Node> {
    if squashHeader then nodes else [Nested(Asn1(tag), nodes)]
  }

  /** cbs_convert_indefinite: what is written, and what of the input is left. */
  function Convert(s: bytes, squashHeader: bool, lookingForEoc: bool, depth: nat): (r: Option<Read<seq<Node>>>)
    ensures r.Some? ==> |r.value.rest| <= |s| && (!lookingForEoc ==> r.value.rest == [])
    decreases |s|
  {
    if depth > MAX_DEPTH then None
    else if s == [] then (if lookingForEoc then None else Some(Read([], [])))
    else
      match GetAny(s, false)
      case None => None
      case Some(e) =>
        if IsEoc(e) then (if lookingForEoc then Some(Read([], e.rest)) else None)
        else
          match ConvertElement(e, squashHeader, depth)
          case None => None
          case Some(first) =>
            match Convert(first.rest, squashHeader, lookingForEoc, depth)
            case None => None
            case Some(more) => Some(Read(first.value + more.value, more.rest))
  }

  /** One round of its loop, for an element other than end-of-contents. */
  function ConvertElement(e: Element, squashHeader: bool, depth: nat): (r: Option<Read<seq<Node>>>)
    requires 2 <= e.headerLen <= |e.whole|
    ensures r.Some? ==> |r.value.rest| <= |e.rest|
    decreases |e.whole| + |e.rest|, 1
  {
    match Squash(e)
    case None => None
    case Some(squash) =>
      match ConvertContents(e, squash, depth)
      case None => None
      case Some(inner) => Some(Read(Wrap(OutTag(e.tag, squash), inner.value, squashHeader), inner.rest))
  }

  /** Only inside an indefinite-length element are headers ever dropped. */
  function Squash(e: Element): Option<bool>
    requires 2 <= e.headerLen <= |e.whole|
  {
    if IsIndefinite(e) then SquashChildren(e.tag, e.rest) else Some(false)
  }

  /** What the contents of an element are converted to, and what is left behind the element. */
  function ConvertContents(e: Element, squash: bool, depth: nat): (r: Option<Read<seq<Node>>>)
    requires 2 <= e.headerLen <= |e.whole|
    ensures r.Some? ==> |r.value.rest| <= |e.rest|
    decreases |e.whole| + |e.rest|, 0
  {
    if IsIndefinite(e) then Convert(e.rest, squash, true, depth + 1)
    else if IsConstructed(e.tag) then
      match Convert(e.Contents(), false, false, depth + 1)
      case None => None
      case Some(inner) => Some(Read(inner.value, e.rest))
    else Some(Read([Raw(e.Contents())], e.rest))
  }

  /** Elements all the way down: inside a constructed element there are only elements. */
  predicate Elements(ns: seq<Node>)
    decreases ns, 0
  {
    ns == [] || (Elements(ns[..|ns| - 1]) && IsElement(ns[|ns| - 1]))
  }

  predicate IsElement(n: Node)
    decreases n, 1
  {
    && n.Nested? && n.kind.Asn1? && TagOk(n.kind.tag)
    && (IsConstructed(n.kind.tag) ==> Elements(n.children))
  }

  /** A sequence of elements that the strict parser accepts, and so on inside every constructed one. */
  predicate StrictlyParsed(s: bytes)
    decreases |s|
  {
    s == [] ||
    match GetAny(s, true)
    case None => false
    case Some(e) => (IsConstructed(e.tag) ==> StrictlyParsed(e.Contents())) && StrictlyParsed(e.rest)
  }

  lemma {:induction false} ElementsConcat(ns: seq<Node>, ms: seq<Node>)
    requires Elements(ns) && Elements(ms)
    ensures Elements(ns + ms)
  {
    if ms == [] {
      assert ns + ms == ns;
    } else {
      var init := ms[..|ms| - 1];
      ElementsConcat(ns, init);
      assert (ns + ms)[..|ns + ms| - 1] == ns + init;
    }
  }

  lemma OneElement(n: Node)
    requires IsElement(n)
    ensures Elements([n])
  {
    assert [n][..0] == [];
  }

  /** The converter writes elements, unless it is told to drop the headers. */
  lemma {:induction false} ConvertWritesElements(s: bytes, lookingForEoc: bool, depth: nat)
    requires Convert(s, false, lookingForEoc, depth).Some?
    ensures Elements(Convert(s, false, lookingForEoc, depth).value.value)
    decreases |s|
  {
    if s != [] {
      var e := GetAny(s, false).value;
      if !IsEoc(e) {
        var first := ConvertElement(e, false, depth).value;
        var squash := Squash(e).value;
        var inner := ConvertContents(e, squash, depth).value;
        if IsIndefinite(e) {
          if !squash {
            ConvertWritesElements(e.rest, true, depth + 1);
          }
        } else if IsConstructed(e.tag) {
          ConvertWritesElements(e.Contents(), false, depth + 1);
        }
        OneElement(first.value[0]);
        ConvertWritesElements(first.rest, lookingForEoc, depth);
        ElementsConcat(first.value, Convert(first.rest, false, lookingForEoc, depth).value.value);
      }
    }
  }

  /** Parsing looks no further than the end of the element. */
  lemma GetAnyExtended(s: bytes, t: bytes)
    requires GetAny(s, true).Some?
    ensures var e := GetAny(s, true).value;
            GetAny(s + t, true) == Some(Element(e.tag, e.headerLen, e.whole, e.rest + t))
  {
    hide GetAny, Header;
    var e := GetAny(s, true).value;
    ParseCanonical(s);
    ParseBuilt(e.tag, e.Contents(), e.rest, true);
    ParseBuilt(e.tag, e.Contents(), e.rest + t, true);
    assert s == Header(e.tag, |e.Contents()|) + e.Contents() + e.rest;
    assert s + t == Header(e.tag, |e.Contents()|) + e.Contents() + (e.rest + t);
  }

  lemma {:induction false} StrictConcat(s: bytes, t: bytes)
    requires StrictlyParsed(s) && StrictlyParsed(t)
    ensures StrictlyParsed(s + t)
    decreases |s|
  {
    if s == [] {
      assert s + t == t;
    } else {
      GetAnyExtended(s, t);
      StrictConcat(GetAny(s, true).value.rest, t);
    }
  }

  /** What the builder makes of elements is accepted by the strict parser. */
  lemma {:induction false} ElementsAreStrict(ns: seq<Node>)
    requires Elements(ns) && Fits(ns)
    ensures StrictlyParsed(Ser(ns))
    decreases ns, 0
  {
    if ns != [] {
      ElementsAreStrict(ns[..|ns| - 1]);
      ElementIsStrict(ns[|ns| - 1]);
      StrictConcat(Ser(ns[..|ns| - 1]), SerNode(ns[|ns| - 1]));
    }
  }

  lemma {:induction false} ElementIsStrict(n: Node)
    requires IsElement(n) && FitsNode(n)
    ensures StrictlyParsed(SerNode(n))
    decreases n, 1
  {
    var contents := Ser(n.children);
    ParseBuilt(n.kind.tag, contents, [], true);
    assert SerNode(n) == Header(n.kind.tag, |contents|) + contents + [];
    if IsConstructed(n.kind.tag) {
      ElementsAreStrict(n.children);
    }
  }

  /** Whenever conversion succeeds, the strict parser accepts its output at every level: no indefinite length stays. */
  lemma ConvertIsStrict(s: bytes, lookingForEoc: bool, depth: nat)
    requires Convert(s, false, lookingForEoc, depth).Some?
    requires Fits(Convert(s, false, lookingForEoc, depth).value.value)
    ensures StrictlyParsed(Ser(Convert(s, false, lookingForEoc, depth).value.value))
  {
    ConvertWritesElements(s, lookingForEoc, depth);
    ElementsAreStrict(Convert(s, false, lookingForEoc, depth).value.value);
  }

  /** For what the strict parser accepts: no end-of-contents element, and no deeper nesting than is converted. */
  predicate Definite(s: bytes, depth: nat)
    decreases |s|
  {
    && depth <= MAX_DEPTH
    && (s == [] ||
        match GetAny(s, true)
        case None => false
        case Some(e) =>
          && !IsEoc(e)
          && (IsConstructed(e.tag) ==> Definite(e.Contents(), depth + 1))
          && Definite(e.rest, depth))
  }

  /** Every length is one the builder writes; it refuses 0xffffffff, which the parser accepts. */
  predicate Announced(s: bytes)
    requires StrictlyParsed(s)
    decreases |s|
  {
    s == [] ||
    var e := GetAny(s, true).value;
    && |e.Contents()| <= MAX_BUILT
    && (IsConstructed(e.tag) ==> Announced(e.Contents()))
    && Announced(e.rest)
  }

  /** Input that the strict parser accepts at every level is converted exactly when it holds no end-of-contents element
      and is not nested too deeply, and then it comes out byte for byte. */
  lemma {:induction false} StrictUnchanged(s: bytes, depth: nat)
    requires StrictlyParsed(s)
    ensures Convert(s, false, false, depth).Some? <==> Definite(s, depth)
    ensures Definite(s, depth) ==>
              var r := Convert(s, false, false, depth).value;
              r.rest == [] && Ser(r.value) == s && (Fits(r.value) <==> Announced(s))
    decreases |s|
  {
    hide GetAny, Ser, Fits;
    if s == [] || depth > MAX_DEPTH {
      NothingWritten();
    } else {
      var e := GetAny(s, true).value;
      StrictIsLax(s);
      StrictElement(e, depth);
      StrictUnchanged(e.rest, depth);
      if IsConstructed(e.tag) {
        StrictUnchanged(e.Contents(), depth + 1);
      }
      if Definite(s, depth) {
        RebuiltElement(s, depth);
      }
    }
  }

  lemma NothingWritten()
    ensures Ser([]) == [] && Fits([])
  {}

  /** An element of definite length keeps its tag, and only its contents matter. */
  lemma StrictElement(e: Element, depth: nat)
    requires 2 <= e.headerLen <= |e.whole| && !IsIndefinite(e)
    ensures ConvertElement(e, false, depth) ==
            if !IsConstructed(e.tag) then Some(Read([Nested(Asn1(e.tag), [Raw(e.Contents())])], e.rest))
            else match Convert(e.Contents(), false, false, depth + 1)
                 case None => None
                 case Some(inner) => Some(Read([Nested(Asn1(e.tag), inner.value)], e.rest))
  {
    assert Squash(e) == Some(false);
    var c := ConvertContents(e, false, depth);
  }

  lemma StrictIsLax(s: bytes)
    requires GetAny(s, true).Some?
    ensures GetAny(s, false) == GetAny(s, true) && !IsIndefinite(GetAny(s, true).value)
  {}

  lemma RebuiltElement(s: bytes, depth: nat)
    requires s != [] && StrictlyParsed(s) && Definite(s, depth)
    requires var e := GetAny(s, true).value;
             && Convert(e.rest, false, false, depth).Some?
             && Ser(Convert(e.rest, false, false, depth).value.value) == e.rest
             && (Fits(Convert(e.rest, false, false, depth).value.value) <==> Announced(e.rest))
             && (IsConstructed(e.tag) ==>
                   && Convert(e.Contents(), false, false, depth + 1).Some?
                   && Ser(Convert(e.Contents(), false, false, depth + 1).value.value) == e.Contents()
                   && (Fits(Convert(e.Contents(), false, false, depth + 1).value.value) <==> Announced(e.Contents())))
    ensures Convert(s, false, false, depth).Some?
    ensures var r := Convert(s, false, false, depth).value;
            Ser(r.value) == s && (Fits(r.value) <==> Announced(s))
  {
    hide Ser, Fits, Header;
    var e := GetAny(s, true).value;
    ParseCanonical(s);
    StrictIsLax(s);
    var inner := if IsConstructed(e.tag) then Convert(e.Contents(), false, false, depth + 1).value.value
                 else [Raw(e.Contents())];
    SerOne(Raw(e.Contents()));
    StrictElement(e, depth);
    var first := Nested(Asn1(e.tag), inner);
    assert ConvertElement(e, false, depth) == Some(Read([first], e.rest));
    SerOne(first);
    assert SerNode(first) == e.whole;
    SerConcat([first], Convert(e.rest, false, false, depth).value.value);
  }

  /** The nesting the converter would follow into these elements. */
  function Height(ns: seq<Node>): nat
    decreases ns, 0
  {
    if ns == [] then 0 else Max(Height(ns[..|ns| - 1]), HeightNode(ns[|ns| - 1]))
  }

  function HeightNode(n: Node): nat
    decreases n, 1
  {
    if n.Nested? && n.kind.Asn1? && IsConstructed(n.kind.tag) then 1 + Height(n.children) else 0
  }

  function Max(a: nat, b: nat): nat {
    if a < b then b else a
  }

  /** No element of universal tag zero without contents, at any level the converter looks at. */
  predicate NoEoc(ns: seq<Node>)
    decreases ns, 0
  {
    ns == [] || (NoEoc(ns[..|ns| - 1]) && NoEocNode(ns[|ns| - 1]))
  }

  predicate NoEocNode(n: Node)
    decreases n, 1
  {
    n.Nested? && n.kind.Asn1? ==>
      && !(n.kind.tag == 0 && Ser(n.children) == [])
      && (IsConstructed(n.kind.tag) ==> NoEoc(n.children))
  }

  lemma HeightSnoc(ns: seq<Node>, n: Node)
    ensures Height(ns + [n]) == Max(Height(ns), HeightNode(n))
  {
    assert (ns + [n])[..|ns|] == ns;
  }

  lemma {:induction false} HeightConcat(ns: seq<Node>, ms: seq<Node>)
    ensures Height(ns + ms) == Max(Height(ns), Height(ms))
  {
    hide Height, HeightNode;
    NoHeight();
    if ms == [] {
      assert ns + ms == ns;
    } else {
      var init, last := ms[..|ms| - 1], ms[|ms| - 1];
      HeightConcat(ns, init);
      HeightSnoc(ns + init, last);
      HeightSnoc(init, last);
      assert ns + ms == (ns + init) + [last];
      assert init + [last] == ms;
    }
  }

  lemma OneHeight(n: Node)
    ensures Height([n]) == HeightNode(n)
  {
    assert [n][..0] == [];
  }

  lemma WrapHeight(tag: byte, nodes: seq<Node>, squashHeader: bool)
    ensures Height(Wrap(tag, nodes, squashHeader)) <= 1 + Height(nodes)
    ensures !squashHeader && !IsConstructed(tag) ==> Height(Wrap(tag, nodes, squashHeader)) == 0
  {
    OneHeight(Nested(Asn1(tag), nodes));
  }

  lemma RawHeight(data: bytes)
    ensures Height([Raw(data)]) == 0
  {
    OneHeight(Raw(data));
  }

  /** The output nests no deeper than the converter went. */
  lemma {:induction false} ConvertHeight(s: bytes, squashHeader: bool, lookingForEoc: bool, depth: nat)
    requires Convert(s, squashHeader, lookingForEoc, depth).Some?
    ensures Height(Convert(s, squashHeader, lookingForEoc, depth).value.value) + depth <= MAX_DEPTH
    decreases |s|
  {
    hide Height, Wrap, OutTag, SquashChildren, GetAny;
    NoHeight();
    if s != [] {
      var e := GetAny(s, false).value;
      if !IsEoc(e) {
        var first := ConvertElement(e, squashHeader, depth).value;
        var more := Convert(first.rest, squashHeader, lookingForEoc, depth).value;
        ConvertHeight(first.rest, squashHeader, lookingForEoc, depth);
        HeightConcat(first.value, more.value);
        var squash := Squash(e).value;
        var inner := ConvertContents(e, squash, depth).value;
        WrapHeight(OutTag(e.tag, squash), inner.value, squashHeader);
        if IsIndefinite(e) {
          ConvertHeight(e.rest, squash, true, depth + 1);
        } else if IsConstructed(e.tag) {
          ConvertHeight(e.Contents(), false, false, depth + 1);
        } else {
          RawHeight(e.Contents());
          SquashedRaw(e.tag, e.Contents());
          KeptTag(e.tag);
        }
      }
    }
  }

  lemma KeptTag(tag: byte)
    ensures OutTag(tag, false) == tag
  {}

  lemma NoHeight()
    ensures Height([]) == 0
  {}

  lemma SquashedRaw(tag: byte, data: bytes)
    ensures Wrap(tag, [Raw(data)], true) == [Raw(data)]
  {}

  lemma {:induction false} DefiniteConcat(s: bytes, t: bytes, depth: nat)
    requires StrictlyParsed(s)
    ensures Definite(s + t, depth) <==> Definite(s, depth) && Definite(t, depth)
    decreases |s|
  {
    if s == [] {
      assert s + t == t;
    } else {
      GetAnyExtended(s, t);
      DefiniteConcat(GetAny(s, true).value.rest, t, depth);
    }
  }

  lemma {:induction false} ElementsDefinite(ns: seq<Node>, depth: nat)
    requires Elements(ns) && Fits(ns)
    ensures Definite(Ser(ns), depth) <==> NoEoc(ns) && Height(ns) + depth <= MAX_DEPTH
    decreases ns, 0
  {
    if ns != [] {
      var init, last := ns[..|ns| - 1], ns[|ns| - 1];
      ElementsAreStrict(init);
      ElementsDefinite(init, depth);
      ElementDefinite(last, depth);
      DefiniteConcat(Ser(init), SerNode(last), depth);
    }
  }

  lemma EmptyHeader(tag: byte, contents: bytes)
    ensures var h := Header(tag, |contents|);
            && h + contents == [0, 0] <==> tag == 0 && contents == []
    ensures contents == [] ==> |Header(tag, |contents|)| == 2
  {
    assert |Header(tag, |contents|) + contents| == 1 + LengthSize(|contents|) + |contents|;
    if contents == [] {
      assert Header(tag, 0) == [tag] + [0];
      assert Header(tag, |contents|) + contents == [tag] + [0] == [tag, 0];
      assert [tag, 0][0] == tag;
    }
  }

  lemma {:induction false} ElementDefinite(n: Node, depth: nat)
    requires IsElement(n) && FitsNode(n)
    ensures Definite(SerNode(n), depth) <==> NoEocNode(n) && HeightNode(n) + depth <= MAX_DEPTH
    decreases n, 1
  {
    hide Ser, GetAny, Header;
    EmptyHeader(n.kind.tag, Ser(n.children));
    var tag, contents := n.kind.tag, Ser(n.children);
    var h := Header(tag, |contents|);
    ParseBuilt(tag, contents, [], true);
    assert SerNode(n) == h + contents + [];
    assert Definite([], depth) == (depth <= MAX_DEPTH);
    if IsConstructed(tag) {
      ElementsDefinite(n.children, depth + 1);
    }
  }

  /** Converting what was converted changes nothing, provided it succeeds; and it succeeds exactly when no
      end-of-contents element was written. */
  lemma ConvertAgain(s: bytes)
    requires Convert(s, false, false, 0).Some? && Fits(Convert(s, false, false, 0).value.value)
    ensures var ns := Convert(s, false, false, 0).value.value;
            var again := Convert(Ser(ns), false, false, 0);
            && (again.Some? <==> NoEoc(ns))
            && (again.Some? ==> Ser(again.value.value) == Ser(ns))
  {
    hide Ser, Fits, Convert;
    var ns := Convert(s, false, false, 0).value.value;
    ConvertIsStrict(s, false, 0);
    ConvertWritesElements(s, false, 0);
    ConvertHeight(s, false, false, 0);
    ElementsDefinite(ns, 0);
    StrictUnchanged(Ser(ns), 0);
  }

  /** An end-of-contents element can indeed be written: an empty constructed element of universal tag zero
      with indefinite length counts as primitive and loses its constructed bit. */
  lemma EocWritten()
    ensures var s: bytes := [0x20, 0x80, 0, 0];
            && Convert(s, false, false, 0) == Some(Read([Nested(Asn1(0), [])], []))
            && Ser([Nested(Asn1(0), [])]) == [0, 0]
            && Convert([0, 0], false, false, 0) == None
  {
    var s: bytes := [0x20, 0x80, 0, 0];
    var e := GetAny(s, false).value;
    assert e == Element(0x20, 2, [0x20, 0x80], [0, 0]);
    assert e.whole != [0, 0] by { assert e.whole[0] == 0x20; }
    var eoc := GetAny([0, 0], false).value;
    assert eoc == Element(0, 2, [0, 0], []);
    assert Convert([0, 0], true, true, 1) == Some(Read([], []));
    var ns := [Nested(Asn1(0), [])];
    assert ConvertElement(e, false, 0) == Some(Read(ns, []));
    assert Convert([], false, false, 0) == Some(Read([], []));
    assert ns + [] == ns;
    assert !IsEoc(e);
    SerOne(Nested(Asn1(0), []));
    assert Ser([]) == [];
  }
}

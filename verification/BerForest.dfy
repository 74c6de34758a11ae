/** What the converter accepts and writes, said of trees instead of octets: values with a choice of length form at
    every constructed one. What they denote is in BerStrings. */
module BerForest {
  import opened Ber
  import opened Bytes
  import opened Der
  import opened WriteTree
  import opened Wrappers

  datatype Value =
    | Primitive(tag: byte, octets: bytes)
    | Definite(tag: byte, inner: seq<Value>)
    | Indefinite(tag: byte, inner: seq<Value>)

  const EOC: bytes := [0, 0]

  /** Section 8.1.3 of X.690, with minimal length octets. */
  function Encoded(v: Value): bytes
    decreases v, 1
  {
    match v
    case Primitive(tag, octets) => Header(tag, |octets|) + octets
    case Definite(tag, inner) => Header(tag, |AllEncoded(inner)|) + AllEncoded(inner)
    case Indefinite(tag, inner) => [tag, 0x80] + (AllEncoded(inner) + EOC)
  }

  function AllEncoded(vs: seq<Value>): bytes
    decreases vs, 0
  {
    if vs == [] then [] else Encoded(vs[0]) + AllEncoded(vs[1..])
  }

  /** Tags are of low-tag-number form, the constructed bit says what it should, no value looks like
      end-of-contents and definite lengths have at most four octets. */
  predicate Proper(v: Value)
    decreases v, 1
  {
    && TagOk(v.tag) && (v.tag / 32 % 2 == 1) == !v.Primitive?
    && match v
       case Primitive(tag, octets) => |octets| <= 0xffff_ffff && (tag == 0 ==> octets != [])
       case Definite(_, inner) => |AllEncoded(inner)| <= 0xffff_ffff && AllProper(inner)
       case Indefinite(_, inner) => AllProper(inner)
  }

  predicate AllProper(vs: seq<Value>)
    decreases vs, 0
  {
    vs == [] || (Proper(vs[0]) && AllProper(vs[1..]))
  }

  /** How deep constructed values are nested. */
  function Depth(v: Value): nat
    decreases v, 1
  {
    if v.Primitive? then 0 else 1 + AllDepth(v.inner)
  }

  function AllDepth(vs: seq<Value>): nat
    decreases vs, 0
  {
    if vs == [] then 0
    else if Depth(vs[0]) > AllDepth(vs[1..]) then Depth(vs[0]) else AllDepth(vs[1..])
  }

  /** A definite value of a primitive type that is not empty. */
  predicate IsPiece(v: Value) {
    && IsPrimitiveType(v.tag)
    && match v
       case Primitive(_, octets) => octets != []
       case Definite(_, inner) => AllEncoded(inner) != []
       case Indefinite(_, _) => false
  }

  /** The values inside are pieces of one: those of a primitive type are, and those of a context-specific tag
      that start with a piece are taken to be. */
  predicate InPieces(v: Value) {
    v.Indefinite? && (IsPrimitiveType(v.tag) || (IsContextSpecific(v.tag) && v.inner != [] && IsPiece(v.inner[0])))
  }

  /** What is written for a value: definite lengths throughout, and the contents of pieces one after the other under the
      primitive tag. */
  function DefiniteForm(v: Value): (n: Node)
    requires Proper(v)
    ensures n.Nested?
    decreases v, 1
  {
    match v
    case Primitive(tag, octets) => Nested(Asn1(tag), [Raw(octets)])
    case Definite(tag, inner) => Nested(Asn1(tag), DefiniteForms(inner))
    case Indefinite(tag, inner) =>
      if InPieces(v) then Nested(Asn1(tag - 0x20), Joined(inner)) else Nested(Asn1(tag), DefiniteForms(inner))
  }

  function DefiniteForms(vs: seq<Value>): seq<Node>
    requires AllProper(vs)
    decreases vs, 0
  {
    if vs == [] then [] else [DefiniteForm(vs[0])] + DefiniteForms(vs[1..])
  }

  /** The contents of all values, without their headers. */
  function Joined(vs: seq<Value>): seq<Node>
    requires AllProper(vs)
    decreases vs, 0
  {
    if vs == [] then [] else DefiniteForm(vs[0]).children + Joined(vs[1..])
  }

  /** The element found at the front of an encoding. */
  function Found(v: Value, rest: bytes): (e: Element)
    ensures 2 <= e.headerLen <= |e.whole|
  {
    match v
    case Primitive(tag, octets) => Element(tag, |Header(tag, |octets|)|, Encoded(v), rest)
    case Definite(tag, inner) => Element(tag, |Header(tag, |AllEncoded(inner)|)|, Encoded(v), rest)
    case Indefinite(tag, inner) => Element(tag, 2, [tag, 0x80], AllEncoded(inner) + (EOC + rest))
  }

  lemma FoundAtFront(v: Value, rest: bytes)
    requires Proper(v)
    ensures GetAny(Encoded(v) + rest, false) == Some(Found(v, rest))
    ensures !IsEoc(Found(v, rest)) && IsIndefinite(Found(v, rest)) == v.Indefinite?
    ensures v.Definite? ==> Found(v, rest).Contents() == AllEncoded(v.inner)
    ensures v.Primitive? ==> Found(v, rest).Contents() == v.octets
  {
    hide AllEncoded, AllProper, Header;
    match v
    case Primitive(tag, octets) => DefiniteFound(tag, octets, rest);
    case Definite(tag, inner) => DefiniteFound(tag, AllEncoded(inner), rest);
    case Indefinite(tag, inner) =>
      var inside := AllEncoded(inner) + (EOC + rest);
      assert Encoded(v) + rest == [tag, 0x80] + inside;
      IndefiniteFound(tag, inside);
  }

  lemma DefiniteFound(tag: byte, contents: bytes, rest: bytes)
    requires TagOk(tag) && |contents| <= MAX_PARSED && !(tag == 0 && contents == [])
    ensures var h := Header(tag, |contents|);
            var e := Element(tag, |h|, h + contents, rest);
            GetAny(h + contents + rest, false) == Some(e) && !IsEoc(e) && !IsIndefinite(e) && e.Contents() == contents
  {
    ParseBuilt(tag, contents, rest, false);
    assert Header(tag, |contents|)[0] == tag;
    if contents == [] {
      assert Header(tag, 0) == [tag, 0];
    }
  }

  lemma IndefiniteFound(tag: byte, inside: bytes)
    requires TagOk(tag) && IsConstructed(tag)
    ensures var e := Element(tag, 2, [tag, 0x80], inside);
            GetAny([tag, 0x80] + inside, false) == Some(e) && !IsEoc(e) && IsIndefinite(e)
  {
    var s := [tag, 0x80] + inside;
    assert s[..2] == [tag, 0x80] && s[2..] == inside;
    LaxIffStrictOrIndefinite(s);
  }

  lemma EocFound(rest: bytes)
    ensures GetAny(EOC + rest, false) == Some(Element(0, 2, EOC, rest))
  {
    var s := EOC + rest;
    assert s[..2] == EOC && s[2..] == rest;
  }

  /** The look at the first value inside finds out whether the values are pieces. */
  lemma PiecesFound(v: Value, rest: bytes)
    requires Proper(v) && v.Indefinite?
    ensures SquashChildren(v.tag, AllEncoded(v.inner) + (EOC + rest)) == Some(InPieces(v))
  {
    hide AllProper, Header;
    if v.inner == [] {
      assert AllEncoded(v.inner) + (EOC + rest) == EOC + rest;
      EocFound(rest);
    } else {
      var first, tail := v.inner[0], AllEncoded(v.inner[1..]) + (EOC + rest);
      assert Proper(first) by { ProperFirst(v.inner); }
      assert AllEncoded(v.inner) + (EOC + rest) == Encoded(first) + tail;
      FoundAtFront(first, tail);
    }
  }

  lemma ProperFirst(vs: seq<Value>)
    requires AllProper(vs) && vs != []
    ensures Proper(vs[0]) && AllProper(vs[1..])
  {}

  /** What stands behind the values. */
  function Behind(lookingForEoc: bool, rest: bytes): bytes { if lookingForEoc then EOC + rest else [] }

  /** Values are converted to their definite form, unless they are nested too deep. */
  lemma {:induction false} ValuesConverted(vs: seq<Value>, squashHeader: bool, lookingForEoc: bool, depth: nat,
                                         rest: bytes)
    requires AllProper(vs) && (!lookingForEoc ==> rest == [])
    ensures Convert(AllEncoded(vs) + Behind(lookingForEoc, rest), squashHeader, lookingForEoc, depth) ==
            if depth + AllDepth(vs) > MAX_DEPTH then None
            else Some(Read(if squashHeader then Joined(vs) else DefiniteForms(vs), rest))
    decreases vs, 0
  {
    hide Convert, GetAny, ConvertElement, DefiniteForm, Proper, Encoded, Depth, Found, IsEoc, Behind;
    var behind := Behind(lookingForEoc, rest);
    if vs == [] {
      NoValues(squashHeader, lookingForEoc, depth, rest);
    } else if depth <= MAX_DEPTH {
      var tail := AllEncoded(vs[1..]) + behind;
      assert AllEncoded(vs) + behind == Encoded(vs[0]) + tail;
      FoundAtFront(vs[0], tail);
      ConvertOnce(Encoded(vs[0]) + tail, Found(vs[0], tail), squashHeader, lookingForEoc, depth);
      ElementConverted(vs[0], tail, squashHeader, depth);
      ValuesConverted(vs[1..], squashHeader, lookingForEoc, depth, rest);
    } else {
      TooDeep(AllEncoded(vs) + behind, squashHeader, lookingForEoc, depth);
    }
  }

  lemma NoValues(squashHeader: bool, lookingForEoc: bool, depth: nat, rest: bytes)
    requires !lookingForEoc ==> rest == []
    ensures Convert(AllEncoded([]) + Behind(lookingForEoc, rest), squashHeader, lookingForEoc, depth) ==
            if depth > MAX_DEPTH then None else Some(Read([], rest))
  {
    hide GetAny, ConvertElement;
    assert AllEncoded([]) + Behind(lookingForEoc, rest) == Behind(lookingForEoc, rest);
    EocFound(rest);
  }

  lemma TooDeep(s: bytes, squashHeader: bool, lookingForEoc: bool, depth: nat)
    ensures depth > MAX_DEPTH ==> Convert(s, squashHeader, lookingForEoc, depth) == None
  {}

  lemma ConvertOnce(s: bytes, e: Element, squashHeader: bool, lookingForEoc: bool, depth: nat)
    requires depth <= MAX_DEPTH && GetAny(s, false) == Some(e) && !IsEoc(e)
    ensures Convert(s, squashHeader, lookingForEoc, depth) ==
            match ConvertElement(e, squashHeader, depth)
            case None => None
            case Some(first) =>
              match Convert(first.rest, squashHeader, lookingForEoc, depth)
              case None => None
              case Some(more) => Some(Read(first.value + more.value, more.rest))
  {
    hide GetAny, ConvertElement;
  }

  lemma {:induction false} ElementConverted(v: Value, tail: bytes, squashHeader: bool, depth: nat)
    requires Proper(v) && depth <= MAX_DEPTH
    ensures ConvertElement(Found(v, tail), squashHeader, depth) ==
            if depth + Depth(v) > MAX_DEPTH then None
            else Some(Read(if squashHeader then DefiniteForm(v).children else [DefiniteForm(v)], tail))
    decreases v, 1
  {
    hide GetAny, Convert, AllEncoded, AllDepth, AllProper, DefiniteForms, Joined, SquashChildren, IsEoc, IsIndefinite;
    FoundAtFront(v, tail);
    match v
    case Primitive(_, _) =>
    case Definite(_, inner) =>
      ValuesConverted(inner, false, false, depth + 1, []);
      assert AllEncoded(inner) + Behind(false, []) == AllEncoded(inner);
    case Indefinite(_, inner) =>
      PiecesFound(v, tail);
      ValuesConverted(inner, InPieces(v), true, depth + 1, tail);
  }

  /** Whatever is converted is an encoding of values. */
  lemma {:induction false} ConvertedValues(s: bytes, squashHeader: bool, lookingForEoc: bool, depth: nat)
    returns (vs: seq<Value>)
    requires Convert(s, squashHeader, lookingForEoc, depth).Some?
    ensures AllProper(vs)
    ensures s == AllEncoded(vs) + Behind(lookingForEoc, Convert(s, squashHeader, lookingForEoc, depth).value.rest)
    decreases |s|
  {
    hide Convert, GetAny, ConvertElement, Proper, Encoded, IsEoc;
    ConvertedEnds(s, squashHeader, lookingForEoc, depth);
    vs := [];
    if s != [] {
      var e := GetAny(s, false).value;
      if !IsEoc(e) {
        ConvertOnce(s, e, squashHeader, lookingForEoc, depth);
        var v := ConvertedElement(s, e, squashHeader, depth);
        var rest := ConvertElement(e, squashHeader, depth).value.rest;
        var more := ConvertedValues(rest, squashHeader, lookingForEoc, depth);
        vs := [v] + more;
        assert vs[1..] == more;
      }
    }
  }

  lemma ConvertedEnds(s: bytes, squashHeader: bool, lookingForEoc: bool, depth: nat)
    requires Convert(s, squashHeader, lookingForEoc, depth).Some?
    ensures var rest := Convert(s, squashHeader, lookingForEoc, depth).value.rest;
            && depth <= MAX_DEPTH && (s == [] ==> !lookingForEoc)
            && (s != [] ==> GetAny(s, false).Some?)
            && (s != [] && IsEoc(GetAny(s, false).value) ==> lookingForEoc && s == EOC + rest)
  {
    hide GetAny, ConvertElement;
  }

  lemma {:induction false} ConvertedElement(s: bytes, e: Element, squashHeader: bool, depth: nat) returns (v: Value)
    requires GetAny(s, false) == Some(e) && !IsEoc(e) && ConvertElement(e, squashHeader, depth).Some?
    ensures Proper(v) && s == Encoded(v) + ConvertElement(e, squashHeader, depth).value.rest
    ensures |ConvertElement(e, squashHeader, depth).value.rest| < |s|
    decreases |s|, 0
  {
    hide GetAny, Convert, AllEncoded, AllProper, Header, FromBe;
    LaxIffStrictOrIndefinite(s);
    if IsIndefinite(e) {
      IndefiniteMeans(s, e);
      var inner := ConvertedValues(e.rest, SquashChildren(e.tag, e.rest).value, true, depth + 1);
      v := Indefinite(e.tag, inner);
    } else {
      ParseCanonical(s);
      if IsConstructed(e.tag) {
        var inner := ConvertedValues(e.Contents(), false, false, depth + 1);
        v := Definite(e.tag, inner);
        assert AllEncoded(inner) + [] == AllEncoded(inner);
      } else {
        EmptyHeader();
        v := Primitive(e.tag, e.Contents());
      }
    }
  }

  lemma EmptyHeader()
    ensures Header(0, 0) == EOC
  {}

  lemma IndefiniteMeans(s: bytes, e: Element)
    requires GetAny(s, false) == Some(e) && IsIndefinite(e)
    ensures IsConstructed(e.tag) && e.headerLen == 2 && e.whole == [e.tag, 0x80]
  {}

  /** s is the encoding of these values, none of them nested deeper than the converter follows. */
  predicate Encodes(s: bytes, vs: seq<Value>) {
    AllProper(vs) && AllDepth(vs) <= 2048 && s == AllEncoded(vs)
  }

  /** Conversion succeeds exactly on encodings of values, and gives their definite form. */
  lemma ConvertExact(s: bytes)
    ensures Convert(s, false, false, 0).Some? <==> exists vs :: Encodes(s, vs)
    ensures forall vs :: Encodes(s, vs) ==> Convert(s, false, false, 0) == Some(Read(DefiniteForms(vs), []))
  {
    hide Convert, AllEncoded, AllProper, AllDepth, DefiniteForms, Joined;
    forall vs | Encodes(s, vs)
      ensures Convert(s, false, false, 0) == Some(Read(DefiniteForms(vs), []))
    {
      ValuesConverted(vs, false, false, 0, []);
      assert AllEncoded(vs) + [] == AllEncoded(vs);
    }
    if Convert(s, false, false, 0).Some? {
      var vs := ConvertedValues(s, false, false, 0);
      assert AllEncoded(vs) + [] == AllEncoded(vs);
      ValuesConverted(vs, false, false, 0, []);
      assert Encodes(s, vs);
    }
  }

  // Converting again.

  /** Without contents in definite form. */
  predicate Hollow(v: Value)
    decreases v, 1
  {
    match v
    case Primitive(_, octets) => octets == []
    case Definite(_, inner) => inner == []
    case Indefinite(_, inner) => if InPieces(v) then AllHollow(inner) else inner == []
  }

  predicate AllHollow(vs: seq<Value>)
    decreases vs, 0
  {
    vs == [] || (Hollow(vs[0]) && AllHollow(vs[1..]))
  }

  /** No value of universal tag zero is sent in pieces that are all without contents, except inside other pieces. */
  predicate Clean(v: Value)
    decreases v, 1
  {
    match v
    case Primitive(_, _) => true
    case Definite(_, inner) => AllClean(inner)
    case Indefinite(tag, inner) => if InPieces(v) then !(tag == 0x20 && AllHollow(inner)) else AllClean(inner)
  }

  predicate AllClean(vs: seq<Value>)
    decreases vs, 0
  {
    vs == [] || (Clean(vs[0]) && AllClean(vs[1..]))
  }

  lemma {:induction false} HollowJoined(vs: seq<Value>)
    requires AllProper(vs)
    ensures Ser(Joined(vs)) == [] <==> AllHollow(vs)
    decreases vs, 0
  {
    hide DefiniteForm, Ser, Hollow, Proper;
    if vs == [] {
      NothingSent();
    } else {
      HollowContents(vs[0]);
      HollowJoined(vs[1..]);
      SerConcat(DefiniteForm(vs[0]).children, Joined(vs[1..]));
    }
  }

  lemma {:induction false} HollowContents(v: Value)
    requires Proper(v)
    ensures Ser(DefiniteForm(v).children) == [] <==> Hollow(v)
    decreases v, 1
  {
    hide Ser, Joined, AllHollow, DefiniteForms, AllProper;
    match v
    case Primitive(_, octets) => SerOne(Raw(octets));
    case Definite(_, inner) => FormsSent(inner);
    case Indefinite(_, inner) =>
      if InPieces(v) {
        HollowJoined(inner);
      } else {
        FormsSent(inner);
      }
  }

  lemma NothingSent()
    ensures Ser([]) == [] && Fits([]) && NoEoc([])
  {}

  /** A value has at least its header. */
  lemma FormsSent(vs: seq<Value>)
    requires AllProper(vs)
    ensures Ser(DefiniteForms(vs)) == [] <==> vs == []
  {
    hide Ser, DefiniteForm, Header;
    if vs == [] {
      NothingSent();
    } else {
      var n := DefiniteForm(vs[0]);
      SerConcat([n], DefiniteForms(vs[1..]));
      SerOne(n);
      NodeSent(vs[0]);
    }
  }

  lemma NodeSent(v: Value)
    requires Proper(v)
    ensures SerNode(DefiniteForm(v)) != []
  {
    hide Ser, Joined, DefiniteForms;
  }

  lemma {:induction false} NoEocConcat(ns: seq<Node>, ms: seq<Node>)
    ensures NoEoc(ns + ms) <==> NoEoc(ns) && NoEoc(ms)
  {
    hide NoEocNode;
    if ms == [] {
      assert ns + ms == ns;
    } else {
      var init := ms[..|ms| - 1];
      NoEocConcat(ns, init);
      assert (ns + ms)[..|ns + ms| - 1] == ns + init;
    }
  }

  lemma {:induction false} CleanValues(vs: seq<Value>)
    requires AllProper(vs)
    ensures NoEoc(DefiniteForms(vs)) <==> AllClean(vs)
    decreases vs, 0
  {
    hide NoEoc, NoEocNode, DefiniteForm, Clean, Proper;
    NothingSent();
    if vs != [] {
      CleanValue(vs[0]);
      CleanValues(vs[1..]);
      NoEocConcat([DefiniteForm(vs[0])], DefiniteForms(vs[1..]));
      OneNode(DefiniteForm(vs[0]));
    }
  }

  lemma OneNode(n: Node)
    ensures NoEoc([n]) == NoEocNode(n)
  {
    assert [n][..0] == [];
  }

  lemma {:induction false} CleanValue(v: Value)
    requires Proper(v)
    ensures NoEocNode(DefiniteForm(v)) <==> Clean(v)
    decreases v, 1
  {
    hide Ser, NoEoc, DefiniteForms, Joined, AllClean, AllHollow, AllProper;
    match v
    case Primitive(_, octets) => SerOne(Raw(octets));
    case Definite(_, inner) => CleanValues(inner);
    case Indefinite(_, inner) =>
      if InPieces(v) {
        HollowJoined(inner);
      } else {
        CleanValues(inner);
      }
  }

  /** The result of a conversion can be converted exactly when the input has no hollow value of tag zero in pieces,
      and then nothing changes any more. */
  lemma ConvertTwice(s: bytes, vs: seq<Value>)
    requires Encodes(s, vs) && Fits(DefiniteForms(vs))
    ensures var out := Ser(DefiniteForms(vs));
            var again := Convert(out, false, false, 0);
            && (again.Some? <==> AllClean(vs))
            && (again.Some? ==> Ser(again.value.value) == out)
  {
    hide Convert, Ser, Fits, DefiniteForms, AllClean, NoEoc;
    ConvertExact(s);
    ConvertAgain(s);
    CleanValues(vs);
  }
}

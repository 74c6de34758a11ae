/** What values denote by X.690, said without the converter, and when the converter writes the DER of that. */
module BerStrings {
  import opened Ber
  import opened BerForest
  import opened Bytes
  import opened Der
  import opened WriteTree
  import opened Wrappers

  const BIT_STRING: byte := 3

  // Tags by class and number (section 8.1.2 of X.690), said without the converter.

  /** The universal types whose values may come in pieces: bit and octet strings, object descriptors, character strings
      and the two older types of time. */
  predicate IsString(tag: byte) {
    tag / 64 == 0 && var n := tag % 32; n == 3 || n == 4 || n == 7 || n == 12 || 18 <= n <= 28 || n == 30
  }

  /** Universal, and neither SEQUENCE (16) nor SET (17) */
  predicate Plausible(tag: byte) {
    tag / 64 == 0 && tag % 32 != 16 && tag % 32 != 17
  }

  /** What the converter takes for a string in pieces: any universal type but SEQUENCE and SET, and under a
      context-specific tag what begins with a value of such a type that is definite and not empty. */
  predicate Joins(v: Value) {
    && v.Indefinite?
    && (Plausible(v.tag)
        || (v.tag / 64 == 2 && v.inner != [] && Plausible(v.inner[0].tag) && HasContents(v.inner[0])))
  }

  /** Definite and not empty */
  predicate HasContents(v: Value) {
    match v
    case Primitive(_, octets) => octets != []
    case Definite(_, inner) => inner != []
    case Indefinite(_, _) => false
  }

  lemma JoinsExact(v: Value)
    ensures InPieces(v) <==> Joins(v)
  {
    hide AllEncoded;
    if v.Indefinite? && v.inner != [] {
      SomeEncoded(v.inner[0]);
    }
  }

  lemma SomeEncoded(v: Value)
    ensures v.Definite? ==> (AllEncoded(v.inner) != [] <==> v.inner != [])
  {
    if v.Definite? && v.inner != [] {
      EncodedLonger(v.inner[0]);
    }
  }

  lemma EncodedLonger(v: Value)
    ensures |Encoded(v)| >= 2
  {
    hide AllEncoded;
  }

  /** A sequence, a set, or anything of an application or private class, whatever its length form, keeps its tag, and
      each value inside is an element of its own. */
  lemma GroupKept(v: Value)
    requires Proper(v) && !v.Primitive?
    requires v.tag / 64 == 1 || v.tag / 64 == 3 || (v.tag / 64 == 0 && (v.tag % 32 == 16 || v.tag % 32 == 17))
    ensures DefiniteForm(v) == Nested(Asn1(v.tag), DefiniteForms(v.inner))
    ensures SerNode(DefiniteForm(v)) == Header(v.tag, |Ser(DefiniteForms(v.inner))|) + Ser(DefiniteForms(v.inner))
    ensures |DefiniteForms(v.inner)| == |v.inner|
    ensures forall i :: 0 <= i < |v.inner| ==>
              Proper(v.inner[i]) && DefiniteForms(v.inner)[i] == DefiniteForm(v.inner[i])
  {
    hide Ser, DefiniteForms, AllProper, Header;
    JoinsExact(v);
    FormOctets(v);
    FormEach(v.inner);
  }

  lemma {:induction false} FormEach(vs: seq<Value>)
    requires AllProper(vs)
    ensures |DefiniteForms(vs)| == |vs|
    ensures forall i :: 0 <= i < |vs| ==> Proper(vs[i]) && DefiniteForms(vs)[i] == DefiniteForm(vs[i])
  {
    hide Proper, DefiniteForm;
    if vs != [] {
      FormEach(vs[1..]);
      forall i | 0 <= i < |vs|
        ensures Proper(vs[i]) && DefiniteForms(vs)[i] == DefiniteForm(vs[i])
      {
        assert i > 0 ==> vs[i] == vs[1..][i - 1];
      }
    }
  }

  // Strings in pieces.

  /** The octets of a string, whole or in pieces at any depth (section 8.7.3 of X.690). */
  function StringOctets(v: Value): bytes
    decreases v, 1
  {
    if v.Primitive? then v.octets else AllStringOctets(v.inner)
  }

  function AllStringOctets(vs: seq<Value>): bytes
    decreases vs, 0
  {
    if vs == [] then [] else StringOctets(vs[0]) + AllStringOctets(vs[1..])
  }

  /** Among the pieces, and the pieces of pieces, there is no constructed value with something inside other than one
      that is itself in pieces. */
  predicate Flat(v: Value)
    decreases v, 1
  {
    match v
    case Primitive(_, _) => true
    case Definite(_, inner) => inner == []
    case Indefinite(_, inner) => if Joins(v) then AllFlat(inner) else inner == []
  }

  predicate AllFlat(vs: seq<Value>)
    decreases vs, 0
  {
    vs == [] || (Flat(vs[0]) && AllFlat(vs[1..]))
  }

  /** What is written for a string are its octets exactly when its pieces are flat; otherwise headers are among them. */
  lemma {:induction false} StringKept(v: Value)
    requires Proper(v)
    ensures Ser(DefiniteForm(v).children) == StringOctets(v) <==> Flat(v)
    ensures |Ser(DefiniteForm(v).children)| >= |StringOctets(v)| + if Flat(v) then 0 else 2
    decreases v, 1
  {
    hide Ser, Joined, DefiniteForms, AllProper, AllStringOctets, AllFlat, InPieces, Joins;
    JoinsExact(v);
    match v
    case Primitive(_, octets) => SerOne(Raw(octets));
    case Definite(_, inner) => FormsLonger(inner);
    case Indefinite(_, inner) =>
      if InPieces(v) {
        PiecesKept(inner);
      } else {
        FormsLonger(inner);
      }
  }

  lemma {:induction false} PiecesKept(vs: seq<Value>)
    requires AllProper(vs)
    ensures Ser(Joined(vs)) == AllStringOctets(vs) <==> AllFlat(vs)
    ensures |Ser(Joined(vs))| >= |AllStringOctets(vs)| + if AllFlat(vs) then 0 else 2
    decreases vs, 0
  {
    hide Ser, DefiniteForm, Flat, StringOctets, Proper;
    if vs == [] {
      NothingSent();
    } else {
      StringKept(vs[0]);
      PiecesKept(vs[1..]);
      SerConcat(DefiniteForm(vs[0]).children, Joined(vs[1..]));
    }
  }

  /** With their headers, values are longer than their octets. */
  lemma {:induction false} FormsLonger(vs: seq<Value>)
    requires AllProper(vs)
    ensures |Ser(DefiniteForms(vs))| >= |AllStringOctets(vs)| + 2 * |vs|
    ensures vs == [] ==> Ser(DefiniteForms(vs)) == [] && AllStringOctets(vs) == []
    decreases vs, 0
  {
    hide Ser, DefiniteForm, StringOctets, Proper, Flat;
    if vs == [] {
      NothingSent();
    } else {
      StringKept(vs[0]);
      FormsLonger(vs[1..]);
      var n := DefiniteForm(vs[0]);
      SerConcat([n], DefiniteForms(vs[1..]));
      SerOne(n);
      HeaderLonger(vs[0]);
    }
  }

  lemma HeaderLonger(v: Value)
    requires Proper(v)
    ensures |SerNode(DefiniteForm(v))| >= |Ser(DefiniteForm(v).children)| + 2
  {
    hide Ser, Joined, DefiniteForms, AllProper;
  }

  // Bit strings in pieces.

  /** The primitive pieces, in order */
  function Leaves(v: Value): seq<bytes>
    decreases v, 1
  {
    if v.Primitive? then [v.octets] else AllLeaves(v.inner)
  }

  function AllLeaves(vs: seq<Value>): seq<bytes>
    decreases vs, 0
  {
    if vs == [] then [] else Leaves(vs[0]) + AllLeaves(vs[1..])
  }

  function Together(leaves: seq<bytes>): bytes {
    if leaves == [] then [] else leaves[0] + Together(leaves[1..])
  }

  /** Without the first octet of each, which counts unused bits */
  function BitsTogether(leaves: seq<bytes>): bytes {
    if leaves == [] then [] else (if leaves[0] == [] then [] else leaves[0][1..]) + BitsTogether(leaves[1..])
  }

  /** The contents of a bit string in one piece (sections 8.6.2 and 8.6.4 of X.690): the unused bits of the last piece
      and the bits of all. */
  function BitContents(leaves: seq<bytes>): bytes {
    if leaves == [] then [0]
    else
      var last := leaves[|leaves| - 1];
      [if last == [] then 0 else last[0]] + BitsTogether(leaves)
  }

  lemma {:induction false} TogetherConcat(a: seq<bytes>, b: seq<bytes>)
    ensures Together(a + b) == Together(a) + Together(b)
  {
    if a == [] {
      assert a + b == b;
    } else {
      assert (a + b)[1..] == a[1..] + b;
      TogetherConcat(a[1..], b);
    }
  }

  lemma {:induction false} LeavesTogether(v: Value)
    ensures Together(Leaves(v)) == StringOctets(v)
    decreases v, 1
  {
    match v
    case Primitive(_, octets) =>
      assert [octets][1..] == [];
      assert Together([octets][1..]) == [];
    case _ => AllLeavesTogether(v.inner);
  }

  lemma {:induction false} AllLeavesTogether(vs: seq<Value>)
    ensures Together(AllLeaves(vs)) == AllStringOctets(vs)
    decreases vs, 0
  {
    if vs != [] {
      LeavesTogether(vs[0]);
      AllLeavesTogether(vs[1..]);
      TogetherConcat(Leaves(vs[0]), AllLeaves(vs[1..]));
    }
  }

  lemma {:induction false} BitsShorter(leaves: seq<bytes>)
    requires forall l <- leaves :: l != []
    ensures |Together(leaves)| == |BitsTogether(leaves)| + |leaves|
  {
    if leaves != [] {
      assert leaves[0] in leaves && forall l <- leaves[1..] :: l in leaves;
      BitsShorter(leaves[1..]);
    }
  }

  lemma OneLeaf(l: bytes)
    requires l != []
    ensures Together([l]) == l == BitContents([l])
  {
    assert [l][1..] == [];
    assert Together([l][1..]) == [] && BitsTogether([l][1..]) == [];
    assert l == [l[0]] + l[1..];
  }

  /** What is written for a bit string are its contents exactly when there is one primitive piece, and that flat. */
  lemma BitsKept(v: Value)
    requires Proper(v) && forall l <- Leaves(v) :: l != []
    ensures Ser(DefiniteForm(v).children) == BitContents(Leaves(v)) <==> Flat(v) && |Leaves(v)| == 1
  {
    hide Ser, DefiniteForm, Proper, Flat, Leaves, StringOctets, Together, BitsTogether;
    var leaves := Leaves(v);
    StringKept(v);
    LeavesTogether(v);
    BitsShorter(leaves);
    if |leaves| == 1 {
      assert leaves == [leaves[0]] && leaves[0] in leaves;
      OneLeaf(leaves[0]);
    } else if leaves == [] {
      NothingTogether();
    }
  }

  lemma NothingTogether()
    ensures Together([]) == [] && BitContents([]) == [0]
  {}

  // Whole values.

  /** A string type, a bit string, another primitive value, or a group of values. */
  datatype Meaning =
    | Text(number: byte, octets: bytes)
    | Bits(contents: bytes)
    | Plain(tag: byte, octets: bytes)
    | Group(tag: byte, parts: seq<Meaning>)
  {
    /** The tag in DER, which wants strings in one piece (section 10.2 of X.690). */
    function Tag(): byte {
      match this
      case Text(number, _) => number
      case Bits(_) => BIT_STRING
      case Plain(t, _) => t
      case Group(t, _) => t
    }
  }

  /** What a value denotes: strings are told by their type, and any other constructed value is a group, as a sequence, a
      set, an EXTERNAL or a value under an explicit tag is. */
  function Denoted(v: Value): Meaning
    decreases v, 1
  {
    if IsString(v.tag) then
      if v.tag % 32 == BIT_STRING then Bits(BitContents(Leaves(v))) else Text(v.tag % 32, StringOctets(v))
    else if v.Primitive? then Plain(v.tag, v.octets)
    else Group(v.tag, AllDenoted(v.inner))
  }

  function AllDenoted(vs: seq<Value>): seq<Meaning>
    decreases vs, 0
  {
    if vs == [] then [] else [Denoted(vs[0])] + AllDenoted(vs[1..])
  }

  function DerContents(m: Meaning): bytes
    decreases m, 0
  {
    match m
    case Text(_, octets) => octets
    case Bits(contents) => contents
    case Plain(_, octets) => octets
    case Group(_, parts) => AllDerOf(parts)
  }

  /** The DER encoding, as far as lengths and the form of strings go */
  function DerOf(m: Meaning): bytes
    decreases m, 1
  {
    Header(m.Tag(), |DerContents(m)|) + DerContents(m)
  }

  function AllDerOf(ms: seq<Meaning>): bytes
    decreases ms, 0
  {
    if ms == [] then [] else DerOf(ms[0]) + AllDerOf(ms[1..])
  }

  /** All lengths can be announced. */
  predicate DerFits(m: Meaning)
    decreases m, 1
  {
    |DerContents(m)| <= MAX_BUILT && (m.Group? ==> AllDerFits(m.parts))
  }

  predicate AllDerFits(ms: seq<Meaning>)
    decreases ms, 0
  {
    ms == [] || (DerFits(ms[0]) && AllDerFits(ms[1..]))
  }

  /** Every primitive piece of a bit string has its first octet (section 8.6.2.2 of X.690). */
  predicate BitsWhole(v: Value)
    decreases v, 1
  {
    if IsString(v.tag) then v.tag % 32 == BIT_STRING ==> forall l <- Leaves(v) :: l != []
    else v.Primitive? || AllBitsWhole(v.inner)
  }

  predicate AllBitsWhole(vs: seq<Value>)
    decreases vs, 0
  {
    vs == [] || (BitsWhole(vs[0]) && AllBitsWhole(vs[1..]))
  }

  /** No string is in pieces with a definite length, those with an indefinite one are flat and bit strings among them
      have one piece, and no other value of indefinite length is taken for a string. */
  predicate Kept(v: Value)
    decreases v, 1
  {
    match v
    case Primitive(_, _) => true
    case Definite(tag, inner) => !IsString(tag) && AllKept(inner)
    case Indefinite(tag, inner) =>
      if IsString(tag) then Flat(v) && (tag % 32 == BIT_STRING ==> |Leaves(v)| == 1)
      else !Joins(v) && AllKept(inner)
  }

  predicate AllKept(vs: seq<Value>)
    decreases vs, 0
  {
    vs == [] || (Kept(vs[0]) && AllKept(vs[1..]))
  }

  /** An element is known by its octets, whatever follows. */
  lemma SameElement(t: byte, c: bytes, r: bytes, t': byte, c': bytes, r': bytes)
    requires TagOk(t) && TagOk(t') && |c| <= MAX_PARSED && |c'| <= MAX_PARSED
    ensures Header(t, |c|) + c + r == Header(t', |c'|) + c' + r' <==> t == t' && c == c' && r == r'
  {
    hide GetAny, Header;
    ParseBuilt(t, c, r, true);
    ParseBuilt(t', c', r', true);
    assert (Header(t, |c|) + c)[|Header(t, |c|)|..] == c;
    assert (Header(t', |c'|) + c')[|Header(t', |c'|)|..] == c';
  }

  lemma TagDenoted(v: Value)
    requires Proper(v)
    ensures TagOk(Denoted(v).Tag())
  {
    hide Leaves, StringOctets, BitContents, AllDenoted, AllProper;
  }

  /** The element written for a value */
  lemma FormOctets(v: Value)
    requires Proper(v)
    ensures var n := DefiniteForm(v);
            && n.kind.Asn1? && TagOk(n.kind.tag)
            && SerNode(n) == Header(n.kind.tag, |Ser(n.children)|) + Ser(n.children)
            && FitsNode(n) == (Fits(n.children) && |Ser(n.children)| <= MAX_BUILT)
  {
    hide Ser, Fits, Joined, DefiniteForms, AllProper, Header;
  }

  /** Tag and contents are those of the DER of what is denoted exactly when the value is kept. */
  lemma {:induction false} FormKept(v: Value)
    requires Proper(v) && BitsWhole(v) && FitsNode(DefiniteForm(v))
    ensures var n, m := DefiniteForm(v), Denoted(v);
            DerFits(m) && n.kind.tag == m.Tag() && Ser(n.children) == DerContents(m) <==> Kept(v)
    decreases v, 1
  {
    hide Ser, Fits, Joined, DefiniteForms, AllProper, Leaves, StringOctets, BitContents, AllDenoted, AllDerOf;
    hide AllDerFits, AllBitsWhole, AllKept, Flat;
    FormOctets(v);
    JoinsExact(v);
    if IsString(v.tag) {
      if v.tag % 32 == BIT_STRING {
        BitsKept(v);
        PrimitiveFlat(v);
      } else {
        StringKept(v);
        PrimitiveFlat(v);
      }
    } else if v.Primitive? {
      SerOne(Raw(v.octets));
    } else if !Joins(v) {
      FormsKept(v.inner);
    }
  }

  lemma PrimitiveFlat(v: Value)
    ensures v.Primitive? ==> Flat(v) && |Leaves(v)| == 1
  {}

  lemma {:induction false} FormsKept(vs: seq<Value>)
    requires AllProper(vs) && AllBitsWhole(vs) && Fits(DefiniteForms(vs))
    ensures AllDerFits(AllDenoted(vs)) && Ser(DefiniteForms(vs)) == AllDerOf(AllDenoted(vs)) <==> AllKept(vs)
    decreases vs, 0
  {
    hide Ser, Fits, FitsNode, SerNode, DefiniteForm, Denoted, Proper, BitsWhole, Kept, DerFits, DerContents, Header;
    if vs == [] {
      NothingSent();
    } else {
      var n, m := DefiniteForm(vs[0]), Denoted(vs[0]);
      var ns, ms := DefiniteForms(vs[1..]), AllDenoted(vs[1..]);
      SerConcat([n], ns);
      SerOne(n);
      FormKept(vs[0]);
      FormsKept(vs[1..]);
      FormOctets(vs[0]);
      TagDenoted(vs[0]);
      assert AllDenoted(vs)[0] == m && AllDenoted(vs)[1..] == ms;
      if DerFits(m) {
        FitsContents(m);
        SameElement(n.kind.tag, Ser(n.children), Ser(ns), m.Tag(), DerContents(m), AllDerOf(ms));
      }
    }
  }

  lemma FitsContents(m: Meaning)
    requires DerFits(m)
    ensures |DerContents(m)| <= MAX_BUILT
  {}

  // Strings all of whose pieces have the type of the string, as sections 8.6.4 and 8.7.3 of X.690 want it.

  predicate OneType(v: Value, number: byte)
    decreases v, 1
  {
    v.tag < 0x40 && v.tag % 32 == number && (!v.Primitive? ==> AllOneType(v.inner, number))
  }

  predicate AllOneType(vs: seq<Value>, number: byte)
    decreases vs, 0
  {
    vs == [] || (OneType(vs[0], number) && AllOneType(vs[1..], number))
  }

  /** Somewhere among the pieces, or the pieces of pieces, is one of definite length with pieces inside. */
  predicate DefinitePieces(v: Value)
    decreases v, 1
  {
    (v.Definite? && v.inner != []) || (v.Indefinite? && AnyDefinitePieces(v.inner))
  }

  predicate AnyDefinitePieces(vs: seq<Value>)
    decreases vs, 0
  {
    vs != [] && (DefinitePieces(vs[0]) || AnyDefinitePieces(vs[1..]))
  }

  lemma {:induction false} FlatOneType(v: Value, number: byte)
    requires OneType(v, number) && number != 16 && number != 17
    ensures Flat(v) <==> !DefinitePieces(v)
    decreases v, 1
  {
    if v.Indefinite? {
      AllFlatOneType(v.inner, number);
    }
  }

  lemma {:induction false} AllFlatOneType(vs: seq<Value>, number: byte)
    requires AllOneType(vs, number) && number != 16 && number != 17
    ensures AllFlat(vs) <==> !AnyDefinitePieces(vs)
    decreases vs, 0
  {
    if vs != [] {
      FlatOneType(vs[0], number);
      AllFlatOneType(vs[1..], number);
    }
  }

  // The whole conversion.

  /** The result of a conversion is the DER of what the input denotes exactly when all its values are kept. */
  lemma ConvertKeeps(s: bytes, vs: seq<Value>)
    requires Encodes(s, vs) && Fits(DefiniteForms(vs)) && AllBitsWhole(vs)
    ensures Convert(s, false, false, 0) == Some(Read(DefiniteForms(vs), []))
    ensures var ms := AllDenoted(vs);
            AllDerFits(ms) && Ser(DefiniteForms(vs)) == AllDerOf(ms) <==> AllKept(vs)
  {
    hide Convert, Ser, Fits, DefiniteForms, AllKept, AllDerOf, AllDerFits;
    ConvertExact(s);
    FormsKept(vs);
  }

  // Inputs that are not kept.

  lemma OneValue(v: Value)
    ensures AllEncoded([v]) == Encoded(v) && AllProper([v]) == Proper(v) && AllDepth([v]) == Depth(v)
    ensures AllBitsWhole([v]) == BitsWhole(v) && AllKept([v]) == Kept(v) && AllStringOctets([v]) == StringOctets(v)
    ensures AllLeaves([v]) == Leaves(v) && AllDenoted([v]) == [Denoted(v)] && AllFlat([v]) == Flat(v)
    ensures AllDerOf([Denoted(v)]) == DerOf(Denoted(v))
  {
    hide Encoded, Proper, Depth, BitsWhole, Kept, StringOctets, Leaves, Denoted, Flat, DerOf;
    assert [v][1..] == [] && [Denoted(v)][1..] == [];
    assert AllEncoded([v][1..]) == [] && AllStringOctets([v][1..]) == [] && AllLeaves([v][1..]) == [];
    assert AllDenoted([v][1..]) == [] && AllDerOf([Denoted(v)][1..]) == [];
  }

  lemma OneForm(v: Value)
    requires Proper(v)
    ensures AllProper([v]) && DefiniteForms([v]) == [DefiniteForm(v)] && Joined([v]) == DefiniteForm(v).children
  {
    hide DefiniteForm, Proper;
    assert [v][1..] == [];
    assert DefiniteForms([v][1..]) == [] && Joined([v][1..]) == [];
  }

  lemma TwoValues(v: Value, w: Value)
    ensures AllEncoded([v, w]) == Encoded(v) + Encoded(w) && AllProper([v, w]) == (Proper(v) && Proper(w))
    ensures AllDepth([v, w]) == if Depth(v) > Depth(w) then Depth(v) else Depth(w)
    ensures AllLeaves([v, w]) == Leaves(v) + Leaves(w)
  {
    hide Encoded, Proper, Depth, Leaves;
    OneValue(w);
    assert [v, w][1..] == [w];
  }

  lemma ShortHeader(tag: byte, n: nat)
    requires n < 0x80
    ensures Header(tag, n) == [tag, n]
  {}

  /** An octet string in one piece that is itself constructed: the header of the piece inside becomes data. */
  lemma HeaderBecomesData()
    ensures var s: bytes := [0x24, 0x80, 0x24, 3, 4, 1, 0xaa, 0, 0];
            var v := Indefinite(0x24, [Definite(0x24, [Primitive(4, [0xaa])])]);
            && Encodes(s, [v]) && AllBitsWhole([v]) && !AllKept([v]) && DerOf(Denoted(v)) == [4, 1, 0xaa]
            && Ser(DefiniteForms([v])) == [4, 3, 4, 1, 0xaa] && Fits(DefiniteForms([v]))
  {
    hide Encodes, AllBitsWhole, AllKept, Denoted, DefiniteForms, Ser, Fits;
    PieceMeans();
    PieceForm();
  }

  const PIECE := Definite(0x24, [Primitive(4, [0xaa])])

  lemma PieceMeans()
    ensures var v := Indefinite(0x24, [PIECE]);
            && Encodes([0x24, 0x80, 0x24, 3, 4, 1, 0xaa, 0, 0], [v]) && AllBitsWhole([v]) && !AllKept([v])
            && DerOf(Denoted(v)) == [4, 1, 0xaa]
  {
    hide Header, AllDepth, AllEncoded, AllProper, AllStringOctets, AllFlat;
    var leaf := Primitive(4, [0xaa]);
    OneValue(leaf);
    OneValue(PIECE);
    OneValue(Indefinite(0x24, [PIECE]));
    ShortHeader(4, 1);
    ShortHeader(0x24, 3);
  }

  lemma PieceForm()
    ensures var v := Indefinite(0x24, [PIECE]);
            AllProper([v]) && Ser(DefiniteForms([v])) == [4, 3, 4, 1, 0xaa] && Fits(DefiniteForms([v]))
  {
    hide Ser, Fits, Header, DefiniteForms, Joined, AllEncoded, AllProper;
    var leaf, v := Primitive(4, [0xaa]), Indefinite(0x24, [PIECE]);
    OneValue(leaf);
    OneValue(PIECE);
    OneValue(v);
    ShortHeader(4, 1);
    ShortHeader(0x24, 3);
    OneForm(leaf);
    OneForm(PIECE);
    OneForm(v);
    var n := Nested(Asn1(4), [Raw([0xaa])]);
    assert DefiniteForm(PIECE).children == [n];
    assert DefiniteForm(v) == Nested(Asn1(4), [n]);
    SerOne(Raw([0xaa]));
    ShortContents(n);
    SerOne(DefiniteForm(v));
  }

  lemma ShortContents(n: Node)
    requires n == Nested(Asn1(4), [Raw([0xaa])])
    ensures FitsNode(Nested(Asn1(4), [n])) && SerNode(Nested(Asn1(4), [n])) == [4, 3, 4, 1, 0xaa]
  {
    hide Ser, Fits, Header;
    SerOne(Raw([0xaa]));
    SerOne(n);
    ShortHeader(4, 1);
    ShortHeader(4, 3);
  }

  /** A bit string in two pieces: the count of unused bits in the second becomes data. */
  lemma CountBecomesData()
    ensures var s: bytes := [0x23, 0x80, 3, 2, 0, 0xaa, 3, 2, 0, 0xbb, 0, 0];
            var v := Indefinite(0x23, [Primitive(3, [0, 0xaa]), Primitive(3, [0, 0xbb])]);
            && Encodes(s, [v]) && AllBitsWhole([v]) && !AllKept([v]) && DerOf(Denoted(v)) == [3, 3, 0, 0xaa, 0xbb]
            && Ser(DefiniteForms([v])) == [3, 4, 0, 0xaa, 0, 0xbb] && Fits(DefiniteForms([v]))
  {
    hide Encodes, AllBitsWhole, AllKept, Denoted, DerOf, Ser, Fits, DefiniteForms;
    TwoPiecesMean();
    TwoPiecesForm();
  }

  lemma TwoPiecesMean()
    ensures var v := Indefinite(0x23, [Primitive(3, [0, 0xaa]), Primitive(3, [0, 0xbb])]);
            && Encodes([0x23, 0x80, 3, 2, 0, 0xaa, 3, 2, 0, 0xbb, 0, 0], [v]) && AllBitsWhole([v]) && !AllKept([v])
            && DerOf(Denoted(v)) == [3, 3, 0, 0xaa, 0xbb]
  {
    hide Header, AllDepth, AllEncoded, AllProper, AllLeaves, BitsTogether;
    var a, b := Primitive(3, [0, 0xaa]), Primitive(3, [0, 0xbb]);
    var v := Indefinite(0x23, [a, b]);
    TwoValues(a, b);
    OneValue(v);
    ShortHeader(3, 2);
    ShortHeader(3, 3);
    TwoTails([0, 0xaa], [0, 0xbb]);
    var x, y: bytes := [0, 0xaa], [0, 0xbb];
    assert Leaves(v) == [x, y];
    assert BitContents([x, y]) == [0, 0xaa, 0xbb];
  }

  lemma TwoPiecesForm()
    ensures var v := Indefinite(0x23, [Primitive(3, [0, 0xaa]), Primitive(3, [0, 0xbb])]);
            && AllProper([v]) && Ser(DefiniteForms([v])) == [3, 4, 0, 0xaa, 0, 0xbb] && Fits(DefiniteForms([v]))
  {
    hide Ser, Fits, Header, DefiniteForms, Joined, AllEncoded, AllProper;
    var a, b := Primitive(3, [0, 0xaa]), Primitive(3, [0, 0xbb]);
    var v := Indefinite(0x23, [a, b]);
    TwoValues(a, b);
    OneValue(v);
    ShortHeader(3, 2);
    ShortHeader(3, 4);
    OneForm(v);
    TwoJoined(a, b);
    SerRawTwo([0, 0xaa], [0, 0xbb]);
    assert DefiniteForm(v) == Nested(Asn1(3), [Raw([0, 0xaa]), Raw([0, 0xbb])]);
    SerOne(DefiniteForm(v));
  }

  lemma TwoTails(a: bytes, b: bytes)
    requires a != [] && b != []
    ensures BitsTogether([a, b]) == a[1..] + b[1..]
  {
    assert [a, b][1..] == [b] && [b][1..] == [];
    assert BitsTogether([b][1..]) == [] && BitsTogether([b]) == b[1..];
  }

  lemma TwoJoined(a: Value, b: Value)
    requires Proper(a) && Proper(b)
    ensures AllProper([a, b]) && Joined([a, b]) == DefiniteForm(a).children + DefiniteForm(b).children
  {
    hide DefiniteForm, Proper;
    assert [a, b][1..] == [b];
    OneForm(b);
  }

  lemma SerRawTwo(a: bytes, b: bytes)
    ensures Ser([Raw(a), Raw(b)]) == a + b && Fits([Raw(a), Raw(b)])
  {
    hide Ser, Fits;
    SerOne(Raw(a));
    SerOne(Raw(b));
    SerConcat([Raw(a)], [Raw(b)]);
    assert [Raw(a)] + [Raw(b)] == [Raw(a), Raw(b)];
  }

  /** An octet string in a piece of definite length stays constructed. */
  lemma StaysConstructed()
    ensures var s: bytes := [0x24, 3, 4, 1, 0xaa];
            var v := Definite(0x24, [Primitive(4, [0xaa])]);
            && Encodes(s, [v]) && AllBitsWhole([v]) && !AllKept([v]) && DerOf(Denoted(v)) == [4, 1, 0xaa]
            && Ser(DefiniteForms([v])) == s && Fits(DefiniteForms([v]))
  {
    hide Ser, Fits, Header, DefiniteForms, AllDepth, AllEncoded, AllProper, AllStringOctets;
    var leaf := Primitive(4, [0xaa]);
    var v := Definite(0x24, [leaf]);
    OneValue(leaf);
    OneValue(v);
    ShortHeader(4, 1);
    ShortHeader(0x24, 3);
    OneForm(leaf);
    OneForm(v);
    var n := Nested(Asn1(4), [Raw([0xaa])]);
    SerOne(Raw([0xaa]));
    SerOne(n);
    assert DefiniteForm(v) == Nested(Asn1(0x24), [n]);
    SerOne(DefiniteForm(v));
  }

  /** A value that is not a string is taken for one and holds a primitive value other than a string. */
  predicate Lone(tag: byte, inner: byte, octet: byte) {
    && tag / 32 % 2 == 1 && tag % 32 != 31 && !IsString(tag)
    && inner < 31 && inner > 0 && !IsString(inner)
    && Joins(Indefinite(tag, [Primitive(inner, [octet])]))
  }

  lemma LoneMeans(tag: byte, inner: byte, octet: byte)
    requires Lone(tag, inner, octet)
    ensures var v := Indefinite(tag, [Primitive(inner, [octet])]);
            && Encodes([tag, 0x80, inner, 1, octet, 0, 0], [v]) && AllBitsWhole([v]) && !AllKept([v])
            && DerOf(Denoted(v)) == [tag, 3, inner, 1, octet]
  {
    hide Header, AllDepth, AllEncoded, AllProper, AllDenoted, AllDerOf, AllBitsWhole;
    var leaf := Primitive(inner, [octet]);
    var v := Indefinite(tag, [leaf]);
    OneValue(leaf);
    OneValue(v);
    ShortHeader(inner, 1);
    ShortHeader(tag, 3);
  }

  lemma LoneForm(tag: byte, inner: byte, octet: byte)
    requires Lone(tag, inner, octet)
    ensures var v := Indefinite(tag, [Primitive(inner, [octet])]);
            && AllProper([v]) && Ser(DefiniteForms([v])) == [tag - 0x20, 1, octet] && Fits(DefiniteForms([v]))
  {
    hide Ser, Fits, Header, DefiniteForms, Joined, AllEncoded, AllProper;
    var leaf := Primitive(inner, [octet]);
    var v := Indefinite(tag, [leaf]);
    OneValue(leaf);
    OneValue(v);
    JoinsExact(v);
    ShortHeader(tag - 0x20, 1);
    OneForm(leaf);
    OneForm(v);
    SerOne(Raw([octet]));
    assert DefiniteForm(v) == Nested(Asn1(tag - 0x20), [Raw([octet])]);
    SerOne(DefiniteForm(v));
  }

  /** An explicit tag around an integer is taken for a string in pieces, and the header of the integer is lost. */
  lemma ExplicitTagLost()
    ensures var s: bytes := [0xa0, 0x80, 2, 1, 5, 0, 0];
            var v := Indefinite(0xa0, [Primitive(2, [5])]);
            && Encodes(s, [v]) && AllBitsWhole([v]) && !AllKept([v]) && DerOf(Denoted(v)) == [0xa0, 3, 2, 1, 5]
            && Ser(DefiniteForms([v])) == [0x80, 1, 5] && Fits(DefiniteForms([v]))
  {
    hide Encodes, AllBitsWhole, AllKept, Denoted, DerOf, Ser, Fits, DefiniteForms;
    LoneMeans(0xa0, 2, 5);
    LoneForm(0xa0, 2, 5);
  }

  /** An EXTERNAL, which is a sequence under a tag of its own, is taken for a string in pieces. */
  lemma ExternalLost()
    ensures var s: bytes := [0x28, 0x80, 6, 1, 0x2a, 0, 0];
            var v := Indefinite(0x28, [Primitive(6, [0x2a])]);
            && Encodes(s, [v]) && AllBitsWhole([v]) && !AllKept([v]) && DerOf(Denoted(v)) == [0x28, 3, 6, 1, 0x2a]
            && Ser(DefiniteForms([v])) == [8, 1, 0x2a] && Fits(DefiniteForms([v]))
  {
    hide Encodes, AllBitsWhole, AllKept, Denoted, DerOf, Ser, Fits, DefiniteForms;
    LoneMeans(0x28, 6, 0x2a);
    LoneForm(0x28, 6, 0x2a);
  }
}

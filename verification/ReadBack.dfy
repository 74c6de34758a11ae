/** Reading with the getters of bs_cbs.c what the builder of bs_cbb.c wrote. */
module ReadBack {
  import opened ByteReader
  import opened Bytes
  import opened Der
  import opened WriteTree
  import opened Wrappers

  /** What a reader has to know: how many raw octets, or which kind of prefix and what inside. */
  datatype Shape = Octets(n: nat) | Inside(kind: Kind, shapes: seq<Shape>)

  function ShapeOf(n: Node): Shape
    decreases n, 1
  {
    match n
    case Raw(data) => Octets(|data|)
    case Nested(kind, children) => Inside(kind, ShapesOf(children))
  }

  function ShapesOf(ns: seq<Node>): seq<Shape>
    decreases ns, 0
  {
    if ns == [] then [] else [ShapeOf(ns[0])] + ShapesOf(ns[1..])
  }

  /** cbs_get_length_prefixed, or CBS_get_asn1 */
  function GetNested(s: bytes, kind: Kind): Option<Read<bytes>> {
    match kind
    case Asn1(tag) => GetAsn1(s, tag)
    case Width(size) =>
      if 1 <= size <= 4 && size <= |s| && size + FromBe(s[..size]) <= |s| then
        var n := FromBe(s[..size]);
        Some(Read(s[size..size + n], s[size + n..]))
      else None
  }

  /** One item: raw octets, or a nested part that must be used up by what is read inside it. */
  function ReadNode(shape: Shape, s: bytes): Option<Read<Node>>
    decreases shape, 1
  {
    match shape
    case Octets(n) => if n <= |s| then Some(Read(Raw(s[..n]), s[n..])) else None
    case Inside(kind, shapes) =>
      match GetNested(s, kind)
      case None => None
      case Some(r) =>
        match ReadNodes(shapes, r.value)
        case None => None
        case Some(c) => if c.rest == [] then Some(Read(Nested(kind, c.value), r.rest)) else None
  }

  function ReadNodes(shapes: seq<Shape>, s: bytes): Option<Read<seq<Node>>>
    decreases shapes, 0
  {
    if shapes == [] then Some(Read([], s))
    else
      match ReadNode(shapes[0], s)
      case None => None
      case Some(n) =>
        match ReadNodes(shapes[1..], n.rest)
        case None => None
        case Some(ns) => Some(Read([n.value] + ns.value, ns.rest))
  }

  predicate KindsOk(ns: seq<Node>)
    decreases ns, 0
  {
    ns == [] || (KindsOkNode(ns[0]) && KindsOk(ns[1..]))
  }

  predicate KindsOkNode(n: Node)
    decreases n, 1
  {
    n.Raw? || (KindsOk(n.children) && match n.kind case Width(size) => 1 <= size <= 4 case Asn1(tag) => TagOk(tag))
  }

  lemma SerCons(ns: seq<Node>)
    requires ns != []
    ensures Ser(ns) == SerNode(ns[0]) + Ser(ns[1..])
    ensures Fits(ns) == (FitsNode(ns[0]) && Fits(ns[1..]))
  {
    SerConcat([ns[0]], ns[1..]);
    SerSnoc([], ns[0]);
    assert [ns[0]] + ns[1..] == ns && [] + [ns[0]] == [ns[0]];
    assert Ser([]) == [];
  }

  lemma NestedRead(kind: Kind, contents: bytes, rest: bytes)
    requires Announces(kind, |contents|)
    requires match kind case Width(size) => 1 <= size <= 4 case Asn1(tag) => TagOk(tag)
    ensures GetNested(Prefix(kind, |contents|) + contents + rest, kind) == Some(Read(contents, rest))
  {
    var s := Prefix(kind, |contents|) + contents + rest;
    match kind
    case Asn1(tag) => ParseBuilt(tag, contents, rest, true);
    case Width(size) =>
      FromToBe(|contents|, size);
      assert s[..size] == ToBe(|contents|, size);
      assert s[size..size + |contents|] == contents && s[size + |contents|..] == rest;
  }

  /** Whatever was written is read back, by a reader that knows its shape. */
  lemma {:induction false} WrittenIsRead(ns: seq<Node>, rest: bytes)
    requires Fits(ns) && KindsOk(ns)
    ensures ReadNodes(ShapesOf(ns), Ser(ns) + rest) == Some(Read(ns, rest))
    decreases ns, 0
  {
    if ns == [] {
      assert Ser(ns) + rest == rest;
    } else {
      hide Ser, SerNode, Fits, FitsNode, ReadNode, ShapeOf;
      assert [ns[0]] + ns[1..] == ns;
      SerCons(ns);
      assert Ser(ns) + rest == SerNode(ns[0]) + (Ser(ns[1..]) + rest);
      NodeIsRead(ns[0], Ser(ns[1..]) + rest);
      WrittenIsRead(ns[1..], rest);
      assert ShapesOf(ns)[1..] == ShapesOf(ns[1..]);
    }
  }

  lemma {:induction false} NodeIsRead(n: Node, rest: bytes)
    requires FitsNode(n) && KindsOkNode(n)
    ensures ReadNode(ShapeOf(n), SerNode(n) + rest) == Some(Read(n, rest))
    decreases n, 1
  {
    match n
    case Raw(data) =>
      assert (data + rest)[..|data|] == data && (data + rest)[|data|..] == rest;
    case Nested(kind, children) =>
      var c := Ser(children);
      NestedRead(kind, c, rest);
      WrittenIsRead(children, []);
      assert c + [] == c;
  }

  lemma NothingWritten(s: bytes)
    ensures Ser([]) + s == s && ShapesOf([]) == []
  {}

  /** And whatever is read, by any reader, was written: nothing else has that reading. */
  lemma {:induction false} ReadWasWritten(shapes: seq<Shape>, s: bytes)
    requires ReadNodes(shapes, s).Some?
    ensures var r := ReadNodes(shapes, s).value;
            Ser(r.value) + r.rest == s && ShapesOf(r.value) == shapes
    decreases shapes, 0
  {
    hide Ser, SerNode, Fits, FitsNode, ReadNode, ShapeOf;
    if shapes == [] {
      NothingWritten(s);
    } else {
      NodeWasWritten(shapes[0], s);
      var n := ReadNode(shapes[0], s).value;
      ReadWasWritten(shapes[1..], n.rest);
      var ns := ReadNodes(shapes[1..], n.rest).value;
      SerCons([n.value] + ns.value);
      assert ([n.value] + ns.value)[1..] == ns.value;
      assert [shapes[0]] + shapes[1..] == shapes;
      assert SerNode(n.value) + (Ser(ns.value) + ns.rest) == SerNode(n.value) + Ser(ns.value) + ns.rest;
    }
  }

  lemma {:induction false} NodeWasWritten(shape: Shape, s: bytes)
    requires ReadNode(shape, s).Some?
    ensures var r := ReadNode(shape, s).value;
            SerNode(r.value) + r.rest == s && ShapeOf(r.value) == shape
    decreases shape, 1
  {
    hide Ser, Fits, ReadNodes, GetNested, Prefix;
    match shape
    case Octets(n) =>
      assert s == s[..n] + s[n..];
    case Inside(kind, shapes) =>
      var r := GetNested(s, kind).value;
      ReadWasWritten(shapes, r.value);
      var c := ReadNodes(shapes, r.value).value;
      assert Ser(c.value) + [] == Ser(c.value);
      NestedWasWritten(kind, s);
  }

  lemma NestedWasWritten(kind: Kind, s: bytes)
    requires GetNested(s, kind).Some?
    ensures var r := GetNested(s, kind).value; Prefix(kind, |r.value|) + r.value + r.rest == s
  {
    hide GetAny, Header, FromBe, ToBe;
    var r := GetNested(s, kind).value;
    match kind
    case Asn1(tag) => ParseCanonical(s);
    case Width(size) =>
      ToFromBe(s[..size]);
      assert s == s[..size] + r.value + r.rest;
  }

  /** CBS_get_u8_length_prefixed and the like, or CBS_get_asn1 */
  method GetChild(cbs: Cbs, kind: Kind) returns (ok: bool, child: Cbs)
    modifies cbs
    ensures fresh(child) && (ok <==> GetNested(old(cbs.data), kind).Some?)
    ensures ok ==> Read(child.data, cbs.data) == GetNested(old(cbs.data), kind).value
  {
    var octets;
    match kind {
      case Width(size) => ok, octets := cbs.GetLengthPrefixed(size);
      case Asn1(tag) => ok, octets := cbs.GetAsn1Contents(tag);
    }
    child := new Cbs.Init(octets);
  }

  /** The getters called one after the other, along a list of shapes, read what ReadNodes says or fail when it does. */
  method ReadAll(cbs: Cbs, shapes: seq<Shape>) returns (ok: bool, ns: seq<Node>)
    modifies cbs
    ensures ok <==> ReadNodes(shapes, old(cbs.data)).Some?
    ensures ok ==> Read(ns, cbs.data) == ReadNodes(shapes, old(cbs.data)).value
    decreases shapes, 0
  {
    hide GetNested;
    ns := [];
    if shapes == [] {
      return true, [];
    }
    var n, more;
    ok, n := ReadOne(cbs, shapes[0]);
    if ok {
      ok, more := ReadAll(cbs, shapes[1..]);
      ns := [n] + more;
    }
  }

  method ReadOne(cbs: Cbs, shape: Shape) returns (ok: bool, n: Node)
    modifies cbs
    ensures ok <==> ReadNode(shape, old(cbs.data)).Some?
    ensures ok ==> Read(n, cbs.data) == ReadNode(shape, old(cbs.data)).value
    decreases shape, 1
  {
    hide GetNested;
    n := Raw([]);
    match shape {
      case Octets(size) =>
        var data;
        ok, data := cbs.Get(size);
        n := Raw(data);
      case Inside(kind, shapes) =>
        var child;
        ok, child := GetChild(cbs, kind);
        if ok {
          var inner;
          ok, inner := ReadAll(child, shapes);
          ok := ok && child.data == [];
          n := Nested(kind, inner);
        }
    }
  }
}

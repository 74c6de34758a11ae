/** Whole runs of calls on builders that are open at the same time. */
module BuilderRuns {
  import opened Bytes
  import opened Der
  import opened WriteTree
  import opened ByteBuilder
  import opened ByteReader
  import opened Layout
  import opened ReadBack
  import opened Sizes
  import opened Wrappers

  /** A call on the builder open at some depth. */
  datatype Op =
    | Write(depth: nat, data: bytes)
    | Number(depth: nat, value: nat, size: nat)
    | Uint(depth: nat, value: nat)
    | Open(depth: nat, kind: Kind)
    | Settle(depth: nat)
  {
    /** Numbers fit their width and tags are those of low-tag-number form. */
    predicate Ok() {
      match this
      case Number(_, value, size) => value < Pow256(size)
      case Open(_, kind) => KindOk(kind)
      case _ => true
    }

    /** There are such calls. */
    predicate Offered() {
      match this
      case Number(_, _, size) => 1 <= size <= 4
      case Uint(_, value) => value < U64
      case Open(_, kind) => kind.Width? ==> 1 <= kind.size <= 4
      case _ => true
    }

    /** How deep builders are open after the call: those further in are closed by it. */
    function Innermost(): nat { if Open? then depth + 1 else depth }

    /** What the call writes: nothing but a flush leaves the tree as it is. */
    function Effect(tree: seq<Node>): (t: seq<Node>)
      requires Spine(tree, depth)
      ensures Spine(t, Innermost())
    {
      match this
      case Write(_, data) =>
        InsertSpine(tree, depth, Raw(data));
        Insert(tree, depth, Raw(data))
      case Number(_, value, size) =>
        InsertSpine(tree, depth, Raw(ToBe(value, size)));
        Insert(tree, depth, Raw(ToBe(value, size)))
      case Uint(_, value) =>
        InsertSpine(tree, depth, UintNode(value));
        Insert(tree, depth, UintNode(value))
      case Open(_, kind) =>
        InsertSpine(tree, depth, Nested(kind, []));
        Insert(tree, depth, Nested(kind, []))
      case Settle(_) => tree
    }
  }

  lemma {:induction false} InsertSpine(tree: seq<Node>, depth: nat, n: Node)
    requires Spine(tree, depth)
    ensures Spine(Insert(tree, depth, n), depth)
    ensures n.Nested? ==> Spine(Insert(tree, depth, n), depth + 1)
    decreases depth
  {
    if depth > 0 {
      InsertSpine(tree[|tree| - 1].children, depth - 1, n);
    } else if n.Nested? {
      assert Spine(n.children, 0);
    }
  }

  /** Every call is on a builder that is open. */
  predicate WellNested(ops: seq<Op>, open: nat) {
    ops == [] || (ops[0].Offered() && ops[0].depth <= open && WellNested(ops[1..], ops[0].Innermost()))
  }

  /** The tree of writes that a run makes, whenever lengths are filled in. */
  function Written(ops: seq<Op>, tree: seq<Node>, open: nat): seq<Node>
    requires WellNested(ops, open) && Spine(tree, open)
  {
    if ops == [] then tree
    else
      SpineLess(tree, open, ops[0].depth);
      Written(ops[1..], ops[0].Effect(tree), ops[0].Innermost())
  }

  lemma {:induction false} RunGrows(ops: seq<Op>, tree: seq<Node>, open: nat)
    requires WellNested(ops, open) && Spine(tree, open)
    ensures Fits(Written(ops, tree, open)) ==> Fits(tree)
    ensures |Ser(Written(ops, tree, open))| >= |Ser(tree)|
  {
    hide Fits, Ser, Insert, UintNode;
    if ops != [] {
      var op := ops[0];
      SpineLess(tree, open, op.depth);
      RunGrows(ops[1..], op.Effect(tree), op.Innermost());
      match op
      case Write(_, data) => InsertGrows(tree, op.depth, Raw(data));
      case Number(_, value, size) => InsertGrows(tree, op.depth, Raw(ToBe(value, size)));
      case Uint(_, value) => InsertGrows(tree, op.depth, UintNode(value));
      case Open(_, kind) => InsertGrows(tree, op.depth, Nested(kind, []));
      case Settle(_) =>
    }
  }

  lemma {:induction false} KindsConcat(ns: seq<Node>, ms: seq<Node>)
    ensures KindsOk(ns + ms) == (KindsOk(ns) && KindsOk(ms))
  {
    if ns == [] {
      assert ns + ms == ms;
    } else {
      KindsConcat(ns[1..], ms);
      assert (ns + ms)[1..] == ns[1..] + ms;
    }
  }

  lemma {:induction false} InsertKinds(tree: seq<Node>, depth: nat, n: Node)
    requires Spine(tree, depth) && KindsOk(tree) && KindsOkNode(n)
    ensures KindsOk(Insert(tree, depth, n))
    decreases depth
  {
    if depth == 0 {
      KindsConcat(tree, [n]);
    } else {
      var init, last := tree[..|tree| - 1], tree[|tree| - 1];
      KindsConcat(init, [last]);
      assert tree == init + [last];
      InsertKinds(last.children, depth - 1, n);
      KindsConcat(init, [Nested(last.kind, Insert(last.children, depth - 1, n))]);
    }
  }

  lemma {:induction false} OctetKinds(s: bytes)
    ensures KindsOk(RawEach(s))
  {
    if s != [] {
      OctetKinds(s[1..]);
      assert RawEach(s)[1..] == RawEach(s[1..]);
    }
  }

  lemma {:induction false} RunKinds(ops: seq<Op>, tree: seq<Node>, open: nat)
    requires WellNested(ops, open) && Spine(tree, open) && KindsOk(tree) && forall op <- ops :: op.Ok()
    ensures KindsOk(Written(ops, tree, open))
  {
    if ops != [] {
      var op := ops[0];
      SpineLess(tree, open, op.depth);
      assert op.Ok();
      match op {
        case Write(_, data) => InsertKinds(tree, op.depth, Raw(data));
        case Number(_, value, size) => InsertKinds(tree, op.depth, Raw(ToBe(value, size)));
        case Uint(_, value) =>
          OctetKinds(UintOctets(value));
          InsertKinds(tree, op.depth, UintNode(value));
        case Open(_, kind) => InsertKinds(tree, op.depth, Nested(kind, []));
        case Settle(_) =>
      }
      RunKinds(ops[1..], op.Effect(tree), op.Innermost());
    }
  }

  /** What a run writes is read back by the getters that match it. */
  lemma RunIsRead(ops: seq<Op>, rest: bytes)
    requires WellNested(ops, 0) && (forall op <- ops :: op.Ok()) && Fits(Written(ops, [], 0))
    ensures var tree := Written(ops, [], 0);
            ReadNodes(ShapesOf(tree), Ser(tree) + rest) == Some(Read(tree, rest))
  {
    RunKinds(ops, [], 0);
    WrittenIsRead(Written(ops, [], 0), rest);
  }

  lemma IsAttached(b: Buffer, d: nat)
    requires b.Valid() && d < |b.stack|
    ensures b.stack[d].base == b && b.stack[d].depth == d && b.stack[d].Attached()
  {
    hide Laid;
    assert b.Linked(d);
  }

  /** One call; open are the builders open before it. */
  method Step(b: Buffer, open: seq<Cbb>, op: Op) returns (ok: bool, now: seq<Cbb>)
    requires b.Valid() && open == b.stack && op.depth < |open| && op.Offered()
    requires Spine(b.Tree(), op.depth)
    modifies b, b.buf, set c | c in open
    ensures b.Valid() && b.canResize == old(b.canResize)
    ensures b.buf == old(b.buf) || (fresh(b.buf) && b.canResize)
    ensures forall c <- now :: c in open || fresh(c)
    ensures ok ==> op.Ok() && now == b.stack && |now| == op.Innermost() + 1 && b.Tree() == op.Effect(old(b.Tree()))
    ensures ok ==> now[0] == open[0]
    ensures !ok && op.Ok() ==> !Fits(old(b.Tree())) || b.Short(|Ser(op.Effect(old(b.Tree())))|)
  {
    hide OpenTree, Laid, Collapsed, Insert, Spine, Fits, UintNode, ToBe, Buffer.Linked;
    var c := open[op.depth];
    IsAttached(b, op.depth);
    if Fits(b.Tree()) {
      TreeFitsInside(b.trees, b.kinds, op.depth);
    }
    now := open[..op.depth + 1];
    match op
    case Write(_, data) => ok := c.AddBytes(data);
    case Number(_, value, size) => ok := c.AddUint(value, size);
    case Uint(_, value) => ok := c.AddAsn1Uint64(value);
    case Open(_, kind) =>
      var out := new Cbb();
      ok := OpenChild(b, c, out, kind);
      now := now + [out];
    case Settle(_) => ok := c.Flush();
  }

  method OpenChild(ghost b: Buffer, c: Cbb, out: Cbb, kind: Kind) returns (ok: bool)
    requires c.base == b && c.Attached() && out.base == null && out !in b.stack
    requires kind.Width? ==> 1 <= kind.size <= 4
    modifies c.Footprint(), out
    ensures c.base == b && b.Valid() && b.canResize == old(b.canResize) && c.depth == old(c.depth)
    ensures b.buf == old(b.buf) || (fresh(b.buf) && b.canResize)
    ensures ok ==> KindOk(kind) && b.stack == old(b.stack)[..c.depth + 1] + [out]
    ensures ok ==> Spine(old(b.Tree()), c.depth) && b.Tree() == Insert(old(b.Tree()), c.depth, Nested(kind, []))
    ensures !ok && KindOk(kind) ==> !old(c.ChildrenFit()) || c.NoRoom(old(b.Tree()), Nested(kind, []))
  {
    hide OpenTree, Laid, Collapsed, Insert, Spine, Fits;
    match kind
    case Width(size) => ok := c.AddLengthPrefixed(out, size);
    case Asn1(tag) =>
      ok := c.AddAsn1(out, tag);
  }

  /** A run of calls that nests, in whatever order, with whatever flushes between and from whatever capacity: the
      result is the serialisation of the tree of writes; it is given exactly when every call is in range, every length
      can be announced and a fixed buffer has room for that serialisation. */
  method Run(ops: seq<Op>, buf: array<byte>, canResize: bool) returns (ok: bool, out: bytes)
    requires WellNested(ops, 0)
    modifies buf
    ensures ok <==>
              && (forall op <- ops :: op.Ok()) && Fits(Written(ops, [], 0))
              && (canResize || |Ser(Written(ops, [], 0))| <= buf.Length)
    ensures ok ==> out == Ser(Written(ops, [], 0))
  {
    hide OpenTree, Laid, Insert, Spine, Fits, Ser, WellNested, Written, Op.Effect, Op.Ok;
    var top: Cbb;
    if canResize {
      top := new Cbb.Init(buf.Length);
    } else {
      top := new Cbb.InitFixed(buf);
    }
    var b: Buffer := top.base;
    var open := [top];
    ghost var d := 0;
    RunStarts();
    assert ops[0..] == ops;
    for i := 0 to |ops|
      invariant fresh(b) && b.Valid() && b.canResize == canResize
      invariant b.buf == buf || (fresh(b.buf) && canResize)
      invariant open == b.stack && |open| == d + 1 && open[0] == top && forall c <- open :: fresh(c)
      invariant WellNested(ops[i..], d) && Spine(b.Tree(), d)
      invariant Written(ops[i..], b.Tree(), d) == Written(ops, [], 0)
      invariant forall op <- ops[..i] :: op.Ok()
    {
      RunNext(ops[i..], b.Tree(), d);
      RunGrows(ops[i..], b.Tree(), d);
      RunGrows(ops[i..][1..], ops[i].Effect(b.Tree()), ops[i].Innermost());
      assert ops[i..][1..] == ops[i + 1..] && ops[..i + 1] == ops[..i] + [ops[i]];
      assert ops[i] in ops;
      ok, open := Step(b, open, ops[i]);
      if !ok {
        return false, [];
      }
      d := ops[i].Innermost();
    }
    assert ops[..|ops|] == ops;
    RunEnds(ops[|ops|..], b.Tree(), d);
    ok, out := FinishTop(b, top);
  }

  /** CBB_finish on the builder opened first. */
  method FinishTop(ghost b: Buffer, top: Cbb) returns (ok: bool, out: bytes)
    requires b.Valid() && |b.stack| > 0 && b.stack[0] == top
    modifies b, b.buf, set c | c in b.stack
    ensures ok ==> Fits(old(b.Tree())) && out == Ser(old(b.Tree()))
    ensures ok && !old(b.canResize) ==> |out| <= old(b.buf).Length
    ensures Fits(old(b.Tree())) && !old(b.Short(|Ser(b.Tree())|)) ==> ok
  {
    hide OpenTree, Laid, Ser, Fits;
    assert b.Linked(0);
    var octets, len;
    ok, octets, len := top.Finish(true, false);
    out := if ok then octets[..len] else [];
  }

  /** A run of the builder, and a run of the getters that match what it wrote. */
  method RunAndRead(ops: seq<Op>, buf: array<byte>) returns (ok: bool, ns: seq<Node>)
    requires WellNested(ops, 0) && (forall op <- ops :: op.Ok()) && Fits(Written(ops, [], 0))
    modifies buf
    ensures ok && ns == Written(ops, [], 0)
  {
    hide OpenTree, Laid, Insert, Spine, Fits, Ser, WellNested, Written, ReadNodes, ShapesOf;
    var written, out := Run(ops, buf, true);
    var cbs := new Cbs.Init(out);
    RunIsRead(ops, []);
    RunStarts();
    assert out + [] == out;
    ok, ns := ReadAll(cbs, ShapesOf(Written(ops, [], 0)));
  }

  lemma RunStarts()
    ensures Spine([], 0)
  {}

  lemma RunNext(ops: seq<Op>, tree: seq<Node>, open: nat)
    requires WellNested(ops, open) && Spine(tree, open) && ops != []
    ensures ops[0].Offered() && ops[0].depth <= open && Spine(tree, ops[0].depth)
    ensures var t := ops[0].Effect(tree);
            && WellNested(ops[1..], ops[0].Innermost()) && Spine(t, ops[0].Innermost())
            && Written(ops, tree, open) == Written(ops[1..], t, ops[0].Innermost())
  {
    hide Op.Effect, Spine;
    SpineLess(tree, open, ops[0].depth);
  }

  lemma RunEnds(ops: seq<Op>, tree: seq<Node>, open: nat)
    requires ops == [] && WellNested(ops, open) && Spine(tree, open)
    ensures Written(ops, tree, open) == tree
  {}
}

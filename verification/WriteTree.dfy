/** What a run of builder calls means: a tree of writes, and its serialisation. */
module WriteTree {
  import opened Bytes
  import opened Der

  /** A length-prefixed field of the given width, or an ASN.1 element. */
  datatype Kind = Width(size: nat) | Asn1(tag: byte)

  datatype Node = Raw(data: bytes) | Nested(kind: Kind, children: seq<Node>)

  /** The octets in front of n octets of contents. */
  function Prefix(kind: Kind, n: nat): bytes {
    match kind
    case Width(size) => ToBe(n, size)
    case Asn1(tag) => Header(tag, n)
  }

  /** n octets of contents can be announced. */
  predicate Announces(kind: Kind, n: nat) {
    match kind
    case Width(size) => n < Pow256(size)
    case Asn1(tag) => n <= 0xffff_fffe
  }

  function Ser(ns: seq<Node>): bytes
    decreases ns, 0
  {
    if ns == [] then [] else Ser(ns[..|ns| - 1]) + SerNode(ns[|ns| - 1])
  }

  function SerNode(n: Node): bytes
    decreases n, 1
  {
    match n
    case Raw(data) => data
    case Nested(kind, children) => Prefix(kind, |Ser(children)|) + Ser(children)
  }

  /** Every nested part of the tree can be announced. */
  predicate Fits(ns: seq<Node>)
    decreases ns, 0
  {
    ns == [] || (Fits(ns[..|ns| - 1]) && FitsNode(ns[|ns| - 1]))
  }

  predicate FitsNode(n: Node)
    decreases n, 1
  {
    n.Raw? || (Fits(n.children) && Announces(n.kind, |Ser(n.children)|))
  }

  lemma SerSnoc(ns: seq<Node>, n: Node)
    ensures Ser(ns + [n]) == Ser(ns) + SerNode(n)
    ensures Fits(ns + [n]) == (Fits(ns) && FitsNode(n))
  {
    assert (ns + [n])[..|ns|] == ns;
  }

  lemma SerOne(n: Node)
    ensures Ser([n]) == SerNode(n) && Fits([n]) == FitsNode(n)
  {
    SerSnoc([], n);
    assert [] + [n] == [n];
    assert Ser([]) == [];
  }

  lemma {:induction false} SerConcat(ns: seq<Node>, ms: seq<Node>)
    ensures Ser(ns + ms) == Ser(ns) + Ser(ms)
    ensures Fits(ns + ms) == (Fits(ns) && Fits(ms))
  {
    if ms == [] {
      assert ns + ms == ns;
    } else {
      var init, last := ms[..|ms| - 1], ms[|ms| - 1];
      SerConcat(ns, init);
      SerSnoc(ns + init, last);
      assert ns + ms == (ns + init) + [last];
    }
  }

  /** The last node, its last child and so on are nested down to the given depth. */
  predicate Spine(ns: seq<Node>, depth: nat)
    decreases depth
  {
    depth == 0 || (ns != [] && ns[|ns| - 1].Nested? && Spine(ns[|ns| - 1].children, depth - 1))
  }

  /** The tree after a write to the builder that is open at the given depth. */
  function Insert(ns: seq<Node>, depth: nat, n: Node): (r: seq<Node>)
    requires Spine(ns, depth)
    decreases depth
  {
    if depth == 0 then ns + [n]
    else
      var last := ns[|ns| - 1];
      ns[..|ns| - 1] + [Nested(last.kind, Insert(last.children, depth - 1, n))]
  }

  /** The tree of a chain of open builders: each has finished nodes, and all but the last an open child. */
  function OpenTree(trees: seq<seq<Node>>, kinds: seq<Kind>): seq<Node>
    requires |trees| == |kinds| + 1
    decreases |kinds|
  {
    if kinds == [] then trees[0]
    else trees[0] + [Nested(kinds[0], OpenTree(trees[1..], kinds[1..]))]
  }

  /** The innermost builder is closed: its nodes become a node of its parent. */
  function Closed(trees: seq<seq<Node>>, kinds: seq<Kind>): (r: seq<seq<Node>>)
    requires |trees| == |kinds| + 1 && kinds != []
    ensures |r| == |kinds|
  {
    var d := |kinds| - 1;
    trees[..d] + [trees[d] + [Nested(kinds[d], trees[d + 1])]]
  }

  /** The innermost builder receives a node. */
  function Grown(trees: seq<seq<Node>>, n: Node): (r: seq<seq<Node>>)
    requires trees != []
    ensures |r| == |trees|
  {
    trees[..|trees| - 1] + [trees[|trees| - 1] + [n]]
  }

  /** The innermost builder receives several nodes. */
  function GrownAll(trees: seq<seq<Node>>, ns: seq<Node>): (r: seq<seq<Node>>)
    requires trees != []
    ensures |r| == |trees|
  {
    trees[..|trees| - 1] + [trees[|trees| - 1] + ns]
  }

  lemma GrownTwice(trees: seq<seq<Node>>, ns: seq<Node>, ms: seq<Node>)
    requires trees != []
    ensures GrownAll(GrownAll(trees, ns), ms) == GrownAll(trees, ns + ms)
    ensures GrownAll(trees, []) == trees
    ensures forall n :: Grown(trees, n) == GrownAll(trees, [n])
  {
    assert trees[|trees| - 1] + (ns + ms) == trees[|trees| - 1] + ns + ms;
    assert trees[|trees| - 1] + [] == trees[|trees| - 1];
  }

  lemma {:induction false} CloseKeepsTree(trees: seq<seq<Node>>, kinds: seq<Kind>)
    requires |trees| == |kinds| + 1 && kinds != []
    ensures OpenTree(Closed(trees, kinds), kinds[..|kinds| - 1]) == OpenTree(trees, kinds)
    decreases |kinds|
  {
    if |kinds| == 1 {
      assert OpenTree(trees[1..], kinds[1..]) == trees[1];
    } else {
      CloseKeepsTree(trees[1..], kinds[1..]);
      assert Closed(trees, kinds)[1..] == Closed(trees[1..], kinds[1..]);
      assert kinds[..|kinds| - 1][1..] == kinds[1..][..|kinds| - 2];
    }
  }

  lemma {:induction false} GrowInserts(trees: seq<seq<Node>>, kinds: seq<Kind>, n: Node)
    requires |trees| == |kinds| + 1
    ensures Spine(OpenTree(trees, kinds), |kinds|)
    ensures OpenTree(Grown(trees, n), kinds) == Insert(OpenTree(trees, kinds), |kinds|, n)
    decreases |kinds|
  {
    if kinds != [] {
      GrowInserts(trees[1..], kinds[1..], n);
      assert Grown(trees, n)[1..] == Grown(trees[1..], n);
      var t := OpenTree(trees, kinds);
      assert t[..|t| - 1] == trees[0];
    }
  }

  lemma {:induction false} OpenInserts(trees: seq<seq<Node>>, kinds: seq<Kind>, k: Kind)
    requires |trees| == |kinds| + 1
    ensures Spine(OpenTree(trees, kinds), |kinds|)
    ensures OpenTree(trees + [[]], kinds + [k]) == Insert(OpenTree(trees, kinds), |kinds|, Nested(k, []))
    decreases |kinds|
  {
    assert (trees + [[]])[1..] == trees[1..] + [[]];
    assert (kinds + [k])[1..] == (if kinds == [] then [] else kinds[1..] + [k]);
    if kinds == [] {
      assert OpenTree((trees + [[]])[1..], (kinds + [k])[1..]) == [];
    } else {
      OpenInserts(trees[1..], kinds[1..], k);
      var t := OpenTree(trees, kinds);
      assert t[..|t| - 1] == trees[0];
    }
  }

  /** All builders inside builder d are closed. */
  function Collapsed(trees: seq<seq<Node>>, kinds: seq<Kind>, d: nat): (r: seq<seq<Node>>)
    requires |trees| == |kinds| + 1 && d <= |kinds|
    ensures |r| == d + 1
  {
    trees[..d] + [OpenTree(trees[d..], kinds[d..])]
  }

  /** Closing from the inside out: what is inside builder d + 1 first, then builder d + 1. */
  lemma CollapseStep(trees: seq<seq<Node>>, kinds: seq<Kind>, d: nat)
    requires |trees| == |kinds| + 1 && d < |kinds|
    ensures Closed(Collapsed(trees, kinds, d + 1), kinds[..d + 1]) == Collapsed(trees, kinds, d)
    ensures var inner := Collapsed(trees, kinds, d + 1)[d + 1];
            Fits(Collapsed(trees, kinds, d)[d]) ==
            (Fits(trees[d]) && Fits(inner) && Announces(kinds[d], |Ser(inner)|))
  {
    assert trees[d..][1..] == trees[d + 1..] && kinds[d..][1..] == kinds[d + 1..];
    assert Collapsed(trees, kinds, d + 1)[..d] == trees[..d];
    SerSnoc(trees[d], Nested(kinds[d], OpenTree(trees[d + 1..], kinds[d + 1..])));
  }

  lemma CollapseNothing(trees: seq<seq<Node>>, kinds: seq<Kind>)
    requires |trees| == |kinds| + 1
    ensures Collapsed(trees, kinds, |kinds|) == trees
  {
    assert trees[|kinds|..] == [trees[|kinds|]];
  }

  lemma CollapseOne(trees: seq<seq<Node>>, kinds: seq<Kind>)
    requires |trees| == |kinds| + 1 && kinds != []
    ensures Collapsed(trees, kinds, |kinds| - 1) == Closed(trees, kinds)
  {
    CollapseNothing(trees, kinds);
    CollapseStep(trees, kinds, |kinds| - 1);
    assert kinds[..|kinds|] == kinds;
  }

  lemma {:induction false} CollapseKeepsTree(trees: seq<seq<Node>>, kinds: seq<Kind>, d: nat)
    requires |trees| == |kinds| + 1 && d <= |kinds|
    ensures OpenTree(Collapsed(trees, kinds, d), kinds[..d]) == OpenTree(trees, kinds)
    decreases |kinds| - d
  {
    if d == |kinds| {
      CollapseNothing(trees, kinds);
      assert kinds[..d] == kinds;
    } else {
      CollapseKeepsTree(trees, kinds, d + 1);
      CollapseStep(trees, kinds, d);
      CloseKeepsTree(Collapsed(trees, kinds, d + 1), kinds[..d + 1]);
      assert kinds[..d + 1][..d] == kinds[..d];
    }
  }

  /** If all that was written fits, so does what is open inside any builder. */
  lemma {:induction false} TreeFitsInside(trees: seq<seq<Node>>, kinds: seq<Kind>, d: nat)
    requires |trees| == |kinds| + 1 && d <= |kinds| && Fits(OpenTree(trees, kinds))
    ensures Fits(Collapsed(trees, kinds, d)[d])
    decreases d
  {
    if d == 0 {
      assert trees[0..] == trees && kinds[0..] == kinds;
    } else {
      TreeFitsInside(trees, kinds, d - 1);
      CollapseStep(trees, kinds, d - 1);
    }
  }

  /** A write to a child that was just inserted. */
  lemma {:induction false} InsertDeeper(ns: seq<Node>, depth: nat, kind: Kind, children: seq<Node>, n: Node)
    requires Spine(ns, depth)
    ensures Spine(Insert(ns, depth, Nested(kind, children)), depth + 1)
    ensures Insert(Insert(ns, depth, Nested(kind, children)), depth + 1, n) ==
            Insert(ns, depth, Nested(kind, children + [n]))
    decreases depth
  {
    var t := Insert(ns, depth, Nested(kind, children));
    if depth == 0 {
      assert t[..|t| - 1] == ns;
      assert Spine(t[|t| - 1].children, 0);
    } else {
      var last := ns[|ns| - 1];
      InsertDeeper(last.children, depth - 1, kind, children, n);
      assert t[..|t| - 1] == ns[..|ns| - 1];
    }
  }

  /** One write per octet. */
  function RawEach(s: bytes): (ns: seq<Node>)
    ensures |ns| == |s|
  {
    seq(|s|, i requires 0 <= i < |s| => Raw([s[i]]))
  }

  /** A non-negative INTEGER as CBB_add_asn1_uint64 writes it. */
  function UintNode(value: nat): Node {
    Nested(Asn1(INTEGER), RawEach(UintOctets(value)))
  }

  lemma {:induction false} SerRawEach(s: bytes)
    ensures Ser(RawEach(s)) == s && Fits(RawEach(s))
  {
    if s != [] {
      var t := s[..|s| - 1];
      SerRawEach(t);
      assert RawEach(s) == RawEach(t) + [Raw([s[|s| - 1]])];
      SerSnoc(RawEach(t), Raw([s[|s| - 1]]));
    }
  }
}

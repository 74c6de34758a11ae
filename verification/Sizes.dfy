/** How much room the builders need: never more than the serialisation of what is written in the end. */
module Sizes {
  import opened Bytes
  import opened Der
  import opened Layout
  import opened WriteTree

  /** The number of octets in the buffer */
  function Used(trees: seq<seq<Node>>, kinds: seq<Kind>): nat
    requires |trees| == |kinds| + 1
  {
    StartAt(trees, kinds, |kinds|) + |Ser(trees[|kinds|])|
  }

  lemma PartReserved(kind: Kind, n: nat)
    ensures Reserved(kind) <= |LengthPart(kind, n)|
  {}

  /** Closing the innermost builder takes no room away. */
  lemma CloseUses(trees: seq<seq<Node>>, kinds: seq<Kind>)
    requires |trees| == |kinds| + 1 && kinds != []
    ensures var d := |kinds| - 1;
            var inner := |Ser(trees[d + 1])|;
            && Used(Closed(trees, kinds), kinds[..d]) ==
               OffsetAt(trees, kinds, d) + |LengthPart(kinds[d], inner)| + inner
            && Used(trees, kinds) == OffsetAt(trees, kinds, d) + Reserved(kinds[d]) + inner
            && Used(trees, kinds) <= Used(Closed(trees, kinds), kinds[..d])
  {
    hide Ser, LengthPart, TagPart, Reserved;
    var d := |kinds| - 1;
    CloseSerialises(trees, kinds);
    PartReserved(kinds[d], |Ser(trees[d + 1])|);
    assert Closed(trees, kinds)[..d] == trees[..d] && kinds[..d][..d] == kinds[..d];
    SameStart(trees, kinds, Closed(trees, kinds), kinds[..d], d);
    StartNext(trees, kinds, d);
  }

  lemma {:induction false} UsedBound(trees: seq<seq<Node>>, kinds: seq<Kind>)
    requires |trees| == |kinds| + 1
    ensures Used(trees, kinds) <= |Ser(OpenTree(trees, kinds))|
    decreases |kinds|
  {
    hide Ser, LengthPart, StartAt, OffsetAt;
    if kinds == [] {
      StartZero(trees, kinds);
    } else {
      CloseUses(trees, kinds);
      CloseKeepsTree(trees, kinds);
      UsedBound(Closed(trees, kinds), kinds[..|kinds| - 1]);
    }
  }

  lemma StartZero(trees: seq<seq<Node>>, kinds: seq<Kind>)
    requires |trees| == |kinds| + 1
    ensures StartAt(trees, kinds, 0) == 0
  {}

  /** With its length written, of as many octets as it takes, the innermost builder still fits into the whole. */
  lemma CloseBound(trees: seq<seq<Node>>, kinds: seq<Kind>)
    requires |trees| == |kinds| + 1 && kinds != []
    ensures var d := |kinds| - 1;
            var inner := |Ser(trees[d + 1])|;
            OffsetAt(trees, kinds, d) + |LengthPart(kinds[d], inner)| + inner <= |Ser(OpenTree(trees, kinds))|
  {
    hide Ser, LengthPart;
    CloseUses(trees, kinds);
    CloseKeepsTree(trees, kinds);
    UsedBound(Closed(trees, kinds), kinds[..|kinds| - 1]);
  }

  lemma GrowBound(trees: seq<seq<Node>>, kinds: seq<Kind>, data: bytes)
    requires |trees| == |kinds| + 1
    ensures Spine(OpenTree(trees, kinds), |kinds|)
    ensures Used(trees, kinds) + |data| <= |Ser(Insert(OpenTree(trees, kinds), |kinds|, Raw(data)))|
  {
    hide Ser;
    GrowInserts(trees, kinds, Raw(data));
    var more := Grown(trees, Raw(data));
    UsedBound(more, kinds);
    SerSnoc(trees[|kinds|], Raw(data));
    assert more[..|kinds|] == trees[..|kinds|];
    SameStart(trees, kinds, more, kinds, |kinds|);
  }

  lemma OpenBound(trees: seq<seq<Node>>, kinds: seq<Kind>, kind: Kind)
    requires |trees| == |kinds| + 1
    ensures Spine(OpenTree(trees, kinds), |kinds|)
    ensures Used(trees, kinds) + |TagPart(kind)| + Reserved(kind) <=
            |Ser(Insert(OpenTree(trees, kinds), |kinds|, Nested(kind, [])))|
  {
    hide Ser;
    OpenInserts(trees, kinds, kind);
    var more, ks := trees + [[]], kinds + [kind];
    UsedBound(more, ks);
    assert more[..|kinds|] == trees[..|kinds|] && ks[..|kinds|] == kinds[..|kinds|];
    SameStart(trees, kinds, more, ks, |kinds|);
    StartNext(more, ks, |kinds|);
    EmptyNodes();
  }

  lemma {:induction false} SpineLess(tree: seq<Node>, depth: nat, less: nat)
    requires Spine(tree, depth) && less <= depth
    ensures Spine(tree, less)
    decreases depth
  {
    if less > 0 {
      SpineLess(tree[|tree| - 1].children, depth - 1, less - 1);
    }
  }

  lemma SpineInside(trees: seq<seq<Node>>, kinds: seq<Kind>, d: nat)
    requires |trees| == |kinds| + 1 && d <= |kinds|
    ensures Spine(OpenTree(trees, kinds), d)
  {
    GrowInserts(trees, kinds, Raw([]));
    SpineLess(OpenTree(trees, kinds), |kinds|, d);
  }

  /** Writing makes the serialisation longer, and what cannot be announced stays so. */
  lemma {:induction false} InsertGrows(tree: seq<Node>, depth: nat, n: Node)
    requires Spine(tree, depth)
    ensures |Ser(Insert(tree, depth, n))| >= |Ser(tree)|
    ensures Fits(Insert(tree, depth, n)) ==> Fits(tree)
    decreases depth
  {
    hide Ser, Fits;
    if depth == 0 {
      SerSnoc(tree, n);
    } else {
      var init, last := tree[..|tree| - 1], tree[|tree| - 1];
      var inner := Insert(last.children, depth - 1, n);
      InsertGrows(last.children, depth - 1, n);
      NodeGrows(last.kind, last.children, inner);
      SerSnoc(init, last);
      SerSnoc(init, Nested(last.kind, inner));
      assert tree == init + [last];
    }
  }

  lemma NodeGrows(kind: Kind, less: seq<Node>, more: seq<Node>)
    requires |Ser(less)| <= |Ser(more)| && (Fits(more) ==> Fits(less))
    ensures |SerNode(Nested(kind, less))| <= |SerNode(Nested(kind, more))|
    ensures FitsNode(Nested(kind, more)) ==> FitsNode(Nested(kind, less))
  {
    hide Ser, Fits;
    assert |Prefix(kind, |Ser(less)|)| <= |Prefix(kind, |Ser(more)|)|;
  }

  /** A longer node makes the whole longer. */
  lemma {:induction false} InsertLonger(tree: seq<Node>, depth: nat, n: Node, m: Node)
    requires Spine(tree, depth) && |SerNode(n)| <= |SerNode(m)|
    ensures |Ser(Insert(tree, depth, n))| <= |Ser(Insert(tree, depth, m))|
    decreases depth
  {
    hide Ser, Fits, SerNode;
    if depth == 0 {
      SerSnoc(tree, n);
      SerSnoc(tree, m);
    } else {
      var init, last := tree[..|tree| - 1], tree[|tree| - 1];
      var less, more := Insert(last.children, depth - 1, n), Insert(last.children, depth - 1, m);
      InsertLonger(last.children, depth - 1, n, m);
      LongerInside(last.kind, less, more);
      SerSnoc(init, Nested(last.kind, less));
      SerSnoc(init, Nested(last.kind, more));
    }
  }

  /** More octets under the same header make the whole longer. */
  lemma LongerOctets(tree: seq<Node>, depth: nat, kind: Kind, s: bytes, t: bytes)
    requires Spine(tree, depth) && |s| <= |t|
    ensures |Ser(Insert(tree, depth, Nested(kind, RawEach(s))))| <= |Ser(Insert(tree, depth, Nested(kind, RawEach(t))))|
  {
    hide Ser, RawEach;
    SerRawEach(s);
    SerRawEach(t);
    LongerInside(kind, RawEach(s), RawEach(t));
    InsertLonger(tree, depth, Nested(kind, RawEach(s)), Nested(kind, RawEach(t)));
  }

  lemma LongerInside(kind: Kind, less: seq<Node>, more: seq<Node>)
    requires |Ser(less)| <= |Ser(more)|
    ensures |SerNode(Nested(kind, less))| <= |SerNode(Nested(kind, more))|
  {
    hide Ser;
    assert |Prefix(kind, |Ser(less)|)| <= |Prefix(kind, |Ser(more)|)|;
  }
}

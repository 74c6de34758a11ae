/** How the tree of open builders lies in the one buffer they share. */
module Layout {
  import opened Bytes
  import opened Der
  import opened WriteTree

  /** The octets of a prefix that lie before the place reserved for the length. */
  function TagPart(kind: Kind): bytes {
    match kind
    case Width(size) => []
    case Asn1(tag) => [tag]
  }

  /** The octets reserved for the length: all of it, or one for ASN.1. */
  function Reserved(kind: Kind): nat {
    match kind
    case Width(size) => size
    case Asn1(tag) => 1
  }

  /** Where the contents of builder i start. */
  function StartAt(trees: seq<seq<Node>>, kinds: seq<Kind>, i: nat): nat
    requires |trees| == |kinds| + 1 && i <= |kinds|
    decreases i, 0
  {
    if i == 0 then 0 else OffsetAt(trees, kinds, i - 1) + Reserved(kinds[i - 1])
  }

  /** Where the length of the open child of builder i is to be written. */
  function OffsetAt(trees: seq<seq<Node>>, kinds: seq<Kind>, i: nat): nat
    requires |trees| == |kinds| + 1 && i < |kinds|
    decreases i, 1
  {
    StartAt(trees, kinds, i) + |Ser(trees[i])| + |TagPart(kinds[i])|
  }

  /** The finished nodes of builder i are in place. */
  ghost predicate LaidAt(content: bytes, trees: seq<seq<Node>>, kinds: seq<Kind>, i: nat)
    requires |trees| == |kinds| + 1 && i <= |kinds|
  {
    var a := StartAt(trees, kinds, i);
    var s := Ser(trees[i]) + (if i < |kinds| then TagPart(kinds[i]) else []);
    Fits(trees[i]) && a + |s| <= |content| && content[a..a + |s|] == s
  }

  ghost predicate Laid(content: bytes, trees: seq<seq<Node>>, kinds: seq<Kind>) {
    && |trees| == |kinds| + 1
    && |content| == StartAt(trees, kinds, |kinds|) + |Ser(trees[|kinds|])|
    && forall i :: 0 <= i <= |kinds| ==> LaidAt(content, trees, kinds, i)
  }

  /** Positions depend only on what lies further out. */
  lemma {:induction false} SameStart(trees: seq<seq<Node>>, kinds: seq<Kind>, trees': seq<seq<Node>>,
                                     kinds': seq<Kind>, i: nat)
    requires |trees| == |kinds| + 1 && |trees'| == |kinds'| + 1 && i <= |kinds| && i <= |kinds'|
    requires trees[..i] == trees'[..i] && kinds[..i] == kinds'[..i]
    ensures StartAt(trees, kinds, i) == StartAt(trees', kinds', i)
  {
    if i != 0 {
      assert trees[..i][..i - 1] == trees[..i - 1] && trees'[..i][..i - 1] == trees'[..i - 1];
      assert kinds[..i][..i - 1] == kinds[..i - 1] && kinds'[..i][..i - 1] == kinds'[..i - 1];
      SameStart(trees, kinds, trees', kinds', i - 1);
      assert trees[..i][i - 1] == trees'[..i][i - 1];
      assert kinds[..i][i - 1] == kinds'[..i][i - 1];
    }
  }

  lemma SameOffset(trees: seq<seq<Node>>, kinds: seq<Kind>, trees': seq<seq<Node>>, kinds': seq<Kind>, i: nat)
    requires |trees| == |kinds| + 1 && |trees'| == |kinds'| + 1 && i < |kinds| && i < |kinds'|
    requires trees[..i + 1] == trees'[..i + 1] && kinds[..i + 1] == kinds'[..i + 1]
    ensures OffsetAt(trees, kinds, i) == OffsetAt(trees', kinds', i)
  {
    SameStart(trees, kinds, trees', kinds', i + 1);
    assert kinds[..i + 1][i] == kinds'[..i + 1][i];
  }

  lemma {:induction false} StartMono(trees: seq<seq<Node>>, kinds: seq<Kind>, i: nat, j: nat)
    requires |trees| == |kinds| + 1 && i < j <= |kinds|
    ensures OffsetAt(trees, kinds, i) + Reserved(kinds[i]) <= StartAt(trees, kinds, j)
    decreases j
  {
    if i < j - 1 { StartMono(trees, kinds, i, j - 1); }
  }

  /** A new child does not move the others. */
  lemma OffsetsStay(trees: seq<seq<Node>>, kinds: seq<Kind>, kind: Kind)
    requires |trees| == |kinds| + 1
    ensures forall i :: 0 <= i < |kinds| ==> OffsetAt(trees + [[]], kinds + [kind], i) == OffsetAt(trees, kinds, i)
  {
    hide OffsetAt;
    forall i | 0 <= i < |kinds|
      ensures OffsetAt(trees + [[]], kinds + [kind], i) == OffsetAt(trees, kinds, i)
    {
      assert (trees + [[]])[..i + 1] == trees[..i + 1] && (kinds + [kind])[..i + 1] == kinds[..i + 1];
      SameOffset(trees + [[]], kinds + [kind], trees, kinds, i);
    }
  }

  /** Builders further out keep their place when the buffer changes only behind their child's tag and they
      keep their nodes. */
  lemma OuterLaid(content: bytes, trees: seq<seq<Node>>, kinds: seq<Kind>, content': bytes,
                  trees': seq<seq<Node>>, kinds': seq<Kind>, i: nat, upto: nat)
    requires |trees| == |kinds| + 1 && |trees'| == |kinds'| + 1 && i < |kinds| && i < |kinds'|
    requires trees[..i + 1] == trees'[..i + 1] && kinds[..i + 1] == kinds'[..i + 1]
    requires LaidAt(content, trees, kinds, i)
    requires OffsetAt(trees, kinds, i) <= upto <= |content| && upto <= |content'|
    requires content[..upto] == content'[..upto]
    ensures LaidAt(content', trees', kinds', i)
  {
    hide Ser, Fits, StartAt;
    assert trees[..i + 1][..i] == trees[..i] && trees'[..i + 1][..i] == trees'[..i];
    assert kinds[..i + 1][..i] == kinds[..i] && kinds'[..i + 1][..i] == kinds'[..i];
    SameStart(trees, kinds, trees', kinds', i);
    assert trees[..i + 1][i] == trees'[..i + 1][i] && kinds[..i + 1][i] == kinds'[..i + 1][i];
    var a, b := StartAt(trees, kinds, i), OffsetAt(trees, kinds, i);
    var s := Ser(trees[i]) + TagPart(kinds[i]);
    assert b == a + |s| && content[a..b] == s;
    assert content[..upto][a..b] == content[a..b];
    assert content'[..upto][a..b] == content'[a..b];
  }

  /** The same for every builder outside builder d. */
  lemma OutersLaid(content: bytes, trees: seq<seq<Node>>, kinds: seq<Kind>, content': bytes,
                   trees': seq<seq<Node>>, kinds': seq<Kind>, d: nat, upto: nat)
    requires Laid(content, trees, kinds) && |trees'| == |kinds'| + 1 && d <= |kinds| && d <= |kinds'|
    requires trees[..d] == trees'[..d] && kinds[..d] == kinds'[..d]
    requires StartAt(trees, kinds, d) <= upto <= |content| && upto <= |content'|
    requires content[..upto] == content'[..upto]
    ensures StartAt(trees, kinds, d) == StartAt(trees', kinds', d)
    ensures forall i :: 0 <= i < d ==> LaidAt(content', trees', kinds', i)
  {
    hide LaidAt, StartAt, OffsetAt;
    SameStart(trees, kinds, trees', kinds', d);
    forall i | 0 <= i < d ensures LaidAt(content', trees', kinds', i) {
      StartMono(trees, kinds, i, d);
      assert trees[..d][..i + 1] == trees[..i + 1] && trees'[..d][..i + 1] == trees'[..i + 1];
      assert kinds[..d][..i + 1] == kinds[..i + 1] && kinds'[..d][..i + 1] == kinds'[..i + 1];
      OuterLaid(content, trees, kinds, content', trees', kinds', i, upto);
    }
  }

  lemma LaidBound(content: bytes, trees: seq<seq<Node>>, kinds: seq<Kind>, i: nat)
    requires Laid(content, trees, kinds) && i < |kinds|
    ensures OffsetAt(trees, kinds, i) == StartAt(trees, kinds, i) + |Ser(trees[i])| + |TagPart(kinds[i])|
    ensures OffsetAt(trees, kinds, i) + Reserved(kinds[i]) <= |content|
  {
    StartMono(trees, kinds, i, |kinds|);
  }

  lemma InnermostContent(content: bytes, trees: seq<seq<Node>>, kinds: seq<Kind>)
    requires Laid(content, trees, kinds)
    ensures content[StartAt(trees, kinds, |kinds|)..] == Ser(trees[|kinds|])
  {
    hide Ser, StartAt;
    assert LaidAt(content, trees, kinds, |kinds|);
    assert Ser(trees[|kinds|]) + [] == Ser(trees[|kinds|]);
  }

  /** The innermost contents follow the place reserved for their length. */
  lemma LaidEnd(content: bytes, trees: seq<seq<Node>>, kinds: seq<Kind>)
    requires Laid(content, trees, kinds) && kinds != []
    ensures var d := |kinds| - 1;
            OffsetAt(trees, kinds, d) + Reserved(kinds[d]) + |Ser(trees[d + 1])| == |content|
  {
    StartNext(trees, kinds, |kinds| - 1);
  }

  /** Appending bytes writes a node of the innermost builder. */
  lemma LaidAppend(content: bytes, trees: seq<seq<Node>>, kinds: seq<Kind>, data: bytes)
    requires Laid(content, trees, kinds)
    ensures Laid(content + data, Grown(trees, Raw(data)), kinds)
  {
    hide Ser, Fits, StartAt, OffsetAt;
    var d := |kinds|;
    var trees' := Grown(trees, Raw(data));
    assert trees[..d] == trees'[..d];
    OutersLaid(content, trees, kinds, content + data, trees', kinds, d, |content|);
    SerSnoc(trees[d], Raw(data));
    assert LaidAt(content, trees, kinds, d);
    var a := StartAt(trees, kinds, d);
    InnermostContent(content, trees, kinds);
    assert (content + data)[a..] == content[a..] + data;
  }

  /** Appending the tag and the place for the length opens a child. */
  lemma LaidOpen(content: bytes, trees: seq<seq<Node>>, kinds: seq<Kind>, kind: Kind, place: bytes)
    requires Laid(content, trees, kinds) && |place| == Reserved(kind)
    ensures Laid(content + TagPart(kind) + place, trees + [[]], kinds + [kind])
    ensures OffsetAt(trees + [[]], kinds + [kind], |kinds|) == |content| + |TagPart(kind)|
  {
    hide Ser, Fits, StartAt, OffsetAt, TagPart, Reserved;
    OpenOffset(content, trees, kinds, kind);
    var d := |kinds|;
    var content', trees', kinds' := content + TagPart(kind) + place, trees + [[]], kinds + [kind];
    assert trees'[..d] == trees[..d] && kinds'[..d] == kinds[..d];
    OutersLaid(content, trees, kinds, content', trees', kinds', d, |content|);
    assert LaidAt(content, trees, kinds, d);
    var a := StartAt(trees, kinds, d);
    InnermostContent(content, trees, kinds);
    assert content'[a..|content|] == content[a..];
    assert content'[a..|content| + |TagPart(kind)|] == Ser(trees[d]) + TagPart(kind);
    assert LaidAt(content', trees', kinds', d);
    StartNext(trees', kinds', d);
    EmptyNodes();
    assert LaidAt(content', trees', kinds', d + 1);
  }

  lemma OpenOffset(content: bytes, trees: seq<seq<Node>>, kinds: seq<Kind>, kind: Kind)
    requires Laid(content, trees, kinds)
    ensures OffsetAt(trees + [[]], kinds + [kind], |kinds|) == |content| + |TagPart(kind)|
  {
    hide Ser, LaidAt, StartAt;
    assert (trees + [[]])[..|kinds|] == trees[..|kinds|] && (kinds + [kind])[..|kinds|] == kinds;
    SameStart(trees, kinds, trees + [[]], kinds + [kind], |kinds|);
  }

  lemma StartNext(trees: seq<seq<Node>>, kinds: seq<Kind>, i: nat)
    requires |trees| == |kinds| + 1 && i < |kinds|
    ensures StartAt(trees, kinds, i + 1) == OffsetAt(trees, kinds, i) + Reserved(kinds[i])
  {}

  lemma EmptyNodes()
    ensures Ser([]) == [] && Fits([])
  {}

  /** The place reserved for the length of the innermost builder may hold anything. */
  lemma LaidPlace(content: bytes, trees: seq<seq<Node>>, kinds: seq<Kind>, place: bytes)
    requires Laid(content, trees, kinds) && kinds != [] && |place| == Reserved(kinds[|kinds| - 1])
    ensures var o := OffsetAt(trees, kinds, |kinds| - 1);
            o + |place| <= |content| && Laid(content[..o] + place + content[o + |place|..], trees, kinds)
  {
    hide Ser, Fits, StartAt;
    var d := |kinds| - 1;
    LaidBound(content, trees, kinds, d);
    var o := OffsetAt(trees, kinds, d);
    var content' := content[..o] + place + content[o + |place|..];
    OutersLaid(content, trees, kinds, content', trees, kinds, d, o);
    OuterLaid(content, trees, kinds, content', trees, kinds, d, o);
    StartNext(trees, kinds, d);
    assert LaidAt(content, trees, kinds, d + 1);
    var s := Ser(trees[d + 1]);
    assert content'[o + |place|..o + |place| + |s|] == content[o + |place|..o + |place| + |s|];
  }

  lemma CloseSerialises(trees: seq<seq<Node>>, kinds: seq<Kind>)
    requires |trees| == |kinds| + 1 && kinds != []
    ensures var d := |kinds| - 1;
            var inner := Ser(trees[d + 1]);
            && Ser(Closed(trees, kinds)[d]) ==
               Ser(trees[d]) + TagPart(kinds[d]) + LengthPart(kinds[d], |inner|) + inner
            && (Fits(trees[d]) && Fits(trees[d + 1]) && Announces(kinds[d], |inner|) ==> Fits(Closed(trees, kinds)[d]))
  {
    hide Ser, Fits;
    var d := |kinds| - 1;
    SerSnoc(trees[d], Nested(kinds[d], trees[d + 1]));
  }

  /** Writing the length, in more octets than reserved if need be, closes the innermost builder. */
  lemma LaidClose(content: bytes, trees: seq<seq<Node>>, kinds: seq<Kind>)
    requires Laid(content, trees, kinds) && kinds != []
    requires var d := |kinds| - 1; Announces(kinds[d], |Ser(trees[d + 1])|)
    ensures var d := |kinds| - 1;
            var o := OffsetAt(trees, kinds, d);
            && o + Reserved(kinds[d]) + |Ser(trees[d + 1])| == |content|
            && Laid(content[..o] + LengthPart(kinds[d], |Ser(trees[d + 1])|) + content[o + Reserved(kinds[d])..],
                    Closed(trees, kinds), kinds[..d])
  {
    hide Ser, Fits, StartAt, LengthPart, TagPart, Announces;
    var d := |kinds| - 1;
    var o := OffsetAt(trees, kinds, d);
    var inner := Ser(trees[d + 1]);
    var trees', kinds' := Closed(trees, kinds), kinds[..d];
    LaidBound(content, trees, kinds, d);
    var content' := content[..o] + LengthPart(kinds[d], |inner|) + content[o + Reserved(kinds[d])..];
    StartNext(trees, kinds, d);
    assert LaidAt(content, trees, kinds, d + 1);
    assert LaidAt(content, trees, kinds, d);
    assert trees'[..d] == trees[..d] && kinds'[..d] == kinds[..d];
    OutersLaid(content, trees, kinds, content', trees', kinds', d, o);
    CloseSerialises(trees, kinds);
    var a := StartAt(trees, kinds, d);
    assert content[o + Reserved(kinds[d])..] == inner;
    assert content[a..o] == Ser(trees[d]) + TagPart(kinds[d]);
    assert content'[a..] == content[a..o] + LengthPart(kinds[d], |inner|) + inner;
    assert LaidAt(content', trees', kinds', d);
  }

  /** The octets of a prefix that announce the length. */
  function LengthPart(kind: Kind, n: nat): bytes {
    match kind
    case Width(size) => ToBe(n, size)
    case Asn1(tag) => LengthOctets(n)
  }
}

/** cbs_convert_indefinite (bs_ber.c) on the reader and the builder, against the function Ber.Convert. */
module BerConverter {
  import opened Bytes
  import opened Der
  import opened WriteTree
  import opened Wrappers
  import opened ByteReader
  import opened ByteBuilder
  import opened Ber
  import opened BerForest
  import opened BerStrings

  /** A builder without an open child. */
  ghost predicate Ready(out: Cbb)
    reads out, if out.base == null then {} else {out.base, out.base.buf} + set c: Cbb | c in out.base.stack
  {
    out.Attached() && out.base != null && |out.base.stack| == out.depth + 1
  }

  /** What a call leaves in order, whether it succeeds or not, for a builder that had no open child. */
  twostate predicate Stayed(out: Cbb)
    requires old(out.base) != null
    reads *
  {
    && out.base == old(out.base)
    && out.Attached() && out.depth == old(out.depth)
    && out.base.canResize == old(out.base.canResize)
    && out.depth < |out.base.stack| && out.base.stack[..out.depth + 1] == old(out.base.stack)
    && (out.base.buf == old(out.base.buf) || fresh(out.base.buf))
    && (!out.base.canResize ==> out.base.buf == old(out.base.buf))
  }

  /** cbs_convert_indefinite */
  method ConvertIndefinite(input: Cbs, out: Cbb, squashHeader: bool, lookingForEoc: bool, depth: nat)
    returns (ok: bool)
    requires Ready(out)
    modifies input, out.Footprint()
    decreases |input.data|, 3
    ensures Stayed(out)
    ensures var r := Convert(old(input.data), squashHeader, lookingForEoc, depth);
            && (ok ==> && r.Some? && input.data == r.value.rest && Ready(out)
                       && out.base.stack == old(out.base.stack)
                       && out.base.kinds == old(out.base.kinds)
                       && out.base.trees == GrownAll(old(out.base.trees), r.value.value))
            && (!ok && out.base.canResize ==> r.None? || !Fits(r.value.value))
  {
    hide Ser, Fits, Collapsed, OpenTree, Convert, ConvertElement, Prepend, GrownAll, Buffer.Linked;
    ConvertEnds(input.data, squashHeader, lookingForEoc, depth);
    if depth > MAX_DEPTH {
      return false;
    }
    ghost var whole := Convert(input.data, squashHeader, lookingForEoc, depth);
    ghost var done: seq<Node> := [];
    GrownTwice(out.base.trees, [], []);
    PrependNothing(whole);
    while |input.data| > 0
      invariant Stayed(out) && Ready(out)
      invariant out.base.stack == old(out.base.stack) && out.base.kinds == old(out.base.kinds)
      invariant out.base.trees == GrownAll(old(out.base.trees), done)
      invariant whole == Prepend(done, Convert(input.data, squashHeader, lookingForEoc, depth))
      invariant |input.data| <= |old(input.data)|
      decreases |input.data|
    {
      ghost var s := input.data;
      ConvertEnds(s, squashHeader, lookingForEoc, depth);
      PrependEnds(done, s, squashHeader, lookingForEoc, depth);
      var contents, tag, headerLen;
      ok, contents, tag, headerLen := input.GetAnyElement(false);
      if !ok {
        return;
      }
      if headerLen == 2 && contents == [0, 0] {
        return lookingForEoc;
      }
      ghost var e := Element(tag, headerLen, contents, input.data);
      assert Some(e) == GetAny(s, false) && !IsEoc(e);
      ghost var first := ConvertElement(e, squashHeader, depth);
      NextRound(s, squashHeader, lookingForEoc, depth, done);
      ok := ConvertOne(input, contents, tag, headerLen, out, squashHeader, depth);
      if !ok {
        return;
      }
      GrownTwice(old(out.base.trees), done, first.value.value);
      done := done + first.value.value;
    }
    ConvertEnds(input.data, squashHeader, lookingForEoc, depth);
    PrependEnds(done, input.data, squashHeader, lookingForEoc, depth);
    ok := !lookingForEoc;
  }

  /** What is written so far, in front of what remains to be written. */
  ghost function Prepend(done: seq<Node>, more: Option<Read<seq<Node>>>): Option<Read<seq<Node>>> {
    match more
    case None => None
    case Some(r) => Some(Read(done + r.value, r.rest))
  }

  lemma PrependNothing(more: Option<Read<seq<Node>>>)
    ensures Prepend([], more) == more
  {
    if more.Some? {
      assert [] + more.value.value == more.value.value;
    }
  }

  /** The ways in which the loop ends */
  lemma ConvertEnds(s: bytes, squashHeader: bool, lookingForEoc: bool, depth: nat)
    ensures var r := Convert(s, squashHeader, lookingForEoc, depth);
            && (depth > MAX_DEPTH ==> r.None?)
            && (depth <= MAX_DEPTH && s == [] ==> r == if lookingForEoc then None else Some(Read([], [])))
            && (depth <= MAX_DEPTH && s != [] ==>
                  match GetAny(s, false)
                  case None => r.None?
                  case Some(e) => IsEoc(e) ==> r == if lookingForEoc then Some(Read([], e.rest)) else None)
  {}

  lemma PrependEnds(done: seq<Node>, s: bytes, squashHeader: bool, lookingForEoc: bool, depth: nat)
    ensures var r := Convert(s, squashHeader, lookingForEoc, depth);
            && (r.None? ==> Prepend(done, r).None?)
            && (r.Some? && r.value.value == [] ==> Prepend(done, r) == Some(Read(done, r.value.rest)))
  {
    hide Convert;
    assert done + [] == done;
  }

  lemma NextRound(s: bytes, squashHeader: bool, lookingForEoc: bool, depth: nat, done: seq<Node>)
    requires s != [] && depth <= MAX_DEPTH && GetAny(s, false).Some? && !IsEoc(GetAny(s, false).value)
    ensures var first := ConvertElement(GetAny(s, false).value, squashHeader, depth);
            var all := Prepend(done, Convert(s, squashHeader, lookingForEoc, depth));
            && (first.None? ==> all.None?)
            && (first.Some? ==>
                  all == Prepend(done + first.value.value,
                                 Convert(first.value.rest, squashHeader, lookingForEoc, depth)))
            && (first.Some? && all.Some? && Fits(all.value.value) ==> Fits(first.value.value))
  {
    var first := ConvertElement(GetAny(s, false).value, squashHeader, depth);
    if first.Some? {
      var more := Convert(first.value.rest, squashHeader, lookingForEoc, depth);
      if more.Some? {
        assert done + (first.value.value + more.value.value) == done + first.value.value + more.value.value;
        SerConcat(done, first.value.value + more.value.value);
        SerConcat(first.value.value, more.value.value);
      }
    }
  }

  /** One round of its loop, once the header has been read. */
  method ConvertOne(input: Cbs, contents: bytes, tag: byte, headerLen: nat, out: Cbb, squashHeader: bool,
                    depth: nat)
    returns (ok: bool)
    requires Ready(out) && 2 <= headerLen <= |contents| && TagOk(tag)
    modifies input, out.Footprint()
    decreases |contents| + |input.data|, 2
    ensures Stayed(out)
    ensures var r := ConvertElement(Element(tag, headerLen, contents, old(input.data)), squashHeader, depth);
            && (ok ==> && r.Some? && input.data == r.value.rest && Ready(out)
                       && out.base.stack == old(out.base.stack)
                       && out.base.kinds == old(out.base.kinds)
                       && out.base.trees == GrownAll(old(out.base.trees), r.value.value))
            && (!ok && out.base.canResize ==> r.None? || !Fits(r.value.value))
  {
    hide Ser, Fits, Collapsed, OpenTree, ConvertContents, OutTag, SquashChildren;
    ghost var e := Element(tag, headerLen, contents, input.data);
    var squash;
    ok, squash := SquashFor(input, contents, tag, headerLen);
    if !ok {
      return;
    }
    ghost var r := ConvertContents(e, squash, depth);
    if r.Some? {
      SerOne(Nested(Asn1(OutTag(tag, squash)), r.value.value));
    }
    if squashHeader {
      ok := ConvertInside(input, contents, tag, headerLen, out, squash, depth);
    } else {
      ok := ConvertWithHeader(input, contents, tag, headerLen, out, squash, depth);
    }
  }

  /** The case that the element gets a header of its own. */
  method ConvertWithHeader(input: Cbs, contents: bytes, tag: byte, headerLen: nat, out: Cbb, squash: bool,
                           depth: nat)
    returns (ok: bool)
    requires Ready(out) && 2 <= headerLen <= |contents| && TagOk(tag)
    modifies input, out.Footprint()
    decreases |contents| + |input.data|, 1
    ensures Stayed(out)
    ensures var r := ConvertContents(Element(tag, headerLen, contents, old(input.data)), squash, depth);
            && (ok ==> && r.Some? && input.data == r.value.rest && Ready(out)
                       && out.base.stack == old(out.base.stack)
                       && out.base.kinds == old(out.base.kinds)
                       && out.base.trees ==
                          GrownAll(old(out.base.trees), [Nested(Asn1(OutTag(tag, squash)), r.value.value)]))
            && (!ok && out.base.canResize ==>
                  r.None? || !FitsNode(Nested(Asn1(OutTag(tag, squash)), r.value.value)))
  {
    hide Ser, Fits, Collapsed, OpenTree, ConvertContents, OutTag, Buffer.Linked;
    ghost var trees := out.base.trees;
    ghost var r := ConvertContents(Element(tag, headerLen, contents, input.data), squash, depth);
    OutTagOk(tag, squash);
    var child;
    ok, child := Begin(out, OutTag(tag, squash));
    if !ok {
      return;
    }
    out.base.Distinct(out.depth);
    ok := ConvertInside(input, contents, tag, headerLen, child, squash, depth);
    if !ok {
      return;
    }
    GrownEmpty(trees, r.value.value);
    ok := End(out, OutTag(tag, squash), trees, r.value.value);
  }

  /** The header goes to the output, its length still open. */
  method Begin(out: Cbb, tag: byte) returns (ok: bool, child: Cbb)
    requires Ready(out) && TagOk(tag)
    modifies out.Footprint()
    ensures Stayed(out) && (ok || !out.base.canResize) && fresh(child)
    ensures ok ==> && Ready(child) && child.base == out.base && child.depth == out.depth + 1
                   && out.base.stack == old(out.base.stack) + [child]
                   && out.base.kinds == old(out.base.kinds) + [Asn1(tag)]
                   && out.base.trees == old(out.base.trees) + [[]]
  {
    hide OpenTree, Ser, Collapsed, Insert, Spine;
    child := new Cbb();
    CollapseNothing(out.base.trees, out.base.kinds);
    out.NoChildFits();
    ok := out.AddAsn1(child, tag);
  }

  /** The length is filled in. */
  method End(out: Cbb, tag: byte, ghost trees: seq<seq<Node>>, ghost nodes: seq<Node>) returns (ok: bool)
    requires out.Attached() && out.base != null && |out.base.stack| == out.depth + 2
    requires |trees| == out.depth + 1 && out.base.trees == trees + [nodes] && out.base.kinds[out.depth] == Asn1(tag)
    modifies out.Footprint()
    ensures out.Kept() && out.base.stack[..out.depth + 1] == old(out.base.stack)[..out.depth + 1]
    ensures ok ==> && Ready(out)
                   && out.base.kinds == old(out.base.kinds)[..out.depth]
                   && out.base.trees == GrownAll(trees, [Nested(Asn1(tag), nodes)])
    ensures !ok && out.base.canResize ==> !Announces(Asn1(tag), |Ser(nodes)|)
  {
    hide OpenTree, Ser, Collapsed;
    out.LastChildFits();
    CollapseOne(out.base.trees, out.base.kinds);
    ok := out.Flush();
  }

  lemma OutTagOk(tag: byte, squash: bool)
    requires TagOk(tag)
    ensures TagOk(OutTag(tag, squash))
  {}

  lemma GrownEmpty(trees: seq<seq<Node>>, ns: seq<Node>)
    ensures GrownAll(trees + [[]], ns) == trees + [ns]
  {
    assert [] + ns == ns;
  }

  /** Whether the headers inside are dropped: a look ahead at the first element inside may decide it. */
  method SquashFor(input: Cbs, contents: bytes, tag: byte, headerLen: nat) returns (ok: bool, squash: bool)
    requires 2 <= headerLen <= |contents|
    ensures Squash(Element(tag, headerLen, contents, input.data)) == if ok then Some(squash) else None
  {
    ok, squash := true, false;
    if |contents| == headerLen && contents[headerLen - 1] == 0x80 {
      squash := IsPrimitiveType(tag);
      if IsContextSpecific(tag) && IsConstructed(tag) {
        var copy := new Cbs.Init(input.data);
        var inner, innerTag, innerHeaderLen;
        ok, inner, innerTag, innerHeaderLen := copy.GetAnyElement(false);
        if ok && |inner| > innerHeaderLen && IsPrimitiveType(innerTag) {
          squash := true;
        }
      }
    }
  }

  /** The contents of one element, written to the builder opened for them. */
  method ConvertInside(input: Cbs, contents: bytes, tag: byte, headerLen: nat, target: Cbb, squash: bool,
                       depth: nat)
    returns (ok: bool)
    requires Ready(target) && 2 <= headerLen <= |contents|
    modifies input, target.Footprint()
    decreases |contents| + |input.data|, 0
    ensures Stayed(target)
    ensures var r := ConvertContents(Element(tag, headerLen, contents, old(input.data)), squash, depth);
            && (ok ==> && r.Some? && input.data == r.value.rest && Ready(target)
                       && target.base.stack == old(target.base.stack)
                       && target.base.kinds == old(target.base.kinds)
                       && target.base.trees == GrownAll(old(target.base.trees), r.value.value))
            && (!ok && target.base.canResize ==> r.None? || !Fits(r.value.value))
  {
    hide Ser, Fits, Collapsed, OpenTree, Convert;
    if |contents| == headerLen && contents[headerLen - 1] == 0x80 {
      ok := ConvertIndefinite(input, target, squash, true, depth + 1);
    } else if IsConstructed(tag) {
      var inside := new Cbs.Init(contents[headerLen..]);
      ok := ConvertIndefinite(inside, target, false, false, depth + 1);
    } else {
      target.NoChildFits();
      GrownTwice(target.base.trees, [], []);
      ok := target.AddBytes(contents[headerLen..]);
    }
  }

  /** The converting part of CBS_asn1_indefinite_to_definite: success exactly when the input encodes values whose
      lengths can be announced; then the output is that of their definite forms, which the strict parser accepts at
      every level, and the input itself if that was so accepted. It is the DER of what the values denote exactly when
      all of them are kept. */
  method ToDefinite(input: Cbs) returns (ok: bool, out: bytes)
    modifies input
    ensures var r := Convert(old(input.data), false, false, 0);
            && (ok <==> r.Some? && Fits(r.value.value))
            && (ok ==> out == Ser(r.value.value) && StrictlyParsed(out) && input.data == [])
            && (ok && StrictlyParsed(old(input.data)) ==> out == old(input.data))
    ensures ok <==> exists vs :: Encodes(old(input.data), vs) && Fits(DefiniteForms(vs))
    ensures ok ==> forall vs :: Encodes(old(input.data), vs) ==> out == Ser(DefiniteForms(vs))
    ensures ok ==> forall vs :: Encodes(old(input.data), vs) && AllBitsWhole(vs) ==>
                     (AllDerFits(AllDenoted(vs)) && out == AllDerOf(AllDenoted(vs)) <==> AllKept(vs))
  {
    hide Ser, Fits, Convert, StrictlyParsed, OpenTree, DefiniteForms, AllProper;
    hide AllDerFits, AllDenoted, AllDerOf, AllKept, AllBitsWhole;
    ConvertExact(input.data);
    forall vs | Encodes(input.data, vs) && Fits(DefiniteForms(vs)) && AllBitsWhole(vs) {
      ConvertKeeps(input.data, vs);
    }
    ghost var s := input.data;
    ghost var r := Convert(s, false, false, 0);
    out := [];
    var cbb := new Cbb.Init(|input.data|);
    cbb.TopLevelTrees();
    ok := ConvertIndefinite(input, cbb, false, false, 0);
    if ok {
      cbb.TopLevelTrees();
      FirstNodes(r.value.value);
      assert cbb.base.Linked(0);
      ok, out := cbb.FinishBytes();
      ConvertedWell(s);
    }
  }

  lemma FirstNodes(ns: seq<Node>)
    ensures GrownAll([[]], ns) == [ns]
  {
    assert [] + ns == ns;
  }

  lemma ConvertedWell(s: bytes)
    requires Convert(s, false, false, 0).Some?
    ensures var r := Convert(s, false, false, 0).value;
            && (Fits(r.value) ==> StrictlyParsed(Ser(r.value)))
            && (StrictlyParsed(s) ==> Ser(r.value) == s)
  {
    if Fits(Convert(s, false, false, 0).value.value) {
      ConvertIsStrict(s, false, 0);
    }
    if StrictlyParsed(s) {
      StrictUnchanged(s, 0);
    }
  }
}

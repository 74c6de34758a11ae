/** The builder of bs_cbb.c: nested builders over one shared, growing buffer, with length prefixes filled
    in late. Lengths are unbounded integers here and allocation succeeds. */
module ByteBuilder {
  import opened Bytes
  import opened Der
  import opened WriteTree
  import opened Layout
  import opened Sizes

  /** struct cbb_buffer_st; the capacity is the length of buf. */
  class Buffer {
    var buf: array<byte>
    var len: nat
    var canResize: bool

    // The builders that are open, outermost first, what each has finished and what separates them.
    ghost var stack: seq<Cbb>
    ghost var trees: seq<seq<Node>>
    ghost var kinds: seq<Kind>

    constructor (buf: array<byte>, canResize: bool)
      ensures this.buf == buf && len == 0 && this.canResize == canResize
    {
      this.buf, len, this.canResize := buf, 0, canResize;
    }

    ghost predicate Shape()
      reads this
    {
      |stack| == |trees| == |kinds| + 1 && len <= buf.Length
    }

    ghost predicate Linked(i: nat)
      requires Shape() && i < |stack|
      reads this, stack
    {
      var c := stack[i];
      && c.base == this
      && c.depth == i
      && c.isTopLevel == (i == 0)
      && if i < |kinds| then
           && c.child == stack[i + 1]
           && KindOk(kinds[i])
           && c.pendingLenLen == Reserved(kinds[i])
           && c.pendingIsAsn1 == kinds[i].Asn1?
           && c.offset == OffsetAt(trees, kinds, i)
         else
           c.child == null && c.pendingLenLen == 0
    }

    ghost predicate Valid()
      reads this, buf, stack
    {
      && Shape()
      && (forall i :: 0 <= i < |stack| ==> Linked(i))
      && Laid(buf[..len], trees, kinds)
    }

    /** Everything written so far, the open children included. */
    ghost function Tree(): seq<Node>
      requires |trees| == |kinds| + 1
      reads this
    {
      OpenTree(trees, kinds)
    }

    /** A fixed buffer has no room for so many octets. */
    ghost predicate Short(size: nat)
      reads this
    {
      !canResize && size > buf.Length
    }

    /** A builder is open only once. */
    lemma Distinct(d: nat)
      requires Valid() && d < |stack|
      ensures stack[d] !in stack[d + 1..]
    {
      assert Linked(d);
      forall i | d < i < |stack| ensures stack[i] != stack[d] {
        assert Linked(i);
      }
    }

    /** cbb_buffer_add */
    method Add(n: nat) returns (ok: bool)
      requires len <= buf.Length
      modifies this`buf, this`len
      ensures ok <==> canResize || old(len) + n <= old(buf).Length
      ensures ok ==> len == old(len) + n <= buf.Length && buf[..old(len)] == old(buf[..len])
      ensures !ok ==> len == old(len) && buf == old(buf)
      ensures buf == old(buf) || fresh(buf)
      ensures !canResize ==> buf == old(buf)
    {
      var newlen := len + n;
      if newlen > buf.Length {
        var newcap := buf.Length * 2;
        if !canResize {
          return false;
        }
        if newcap < newlen {
          newcap := newlen;
        }
        var old_ := buf;
        var newbuf := new byte[newcap](i requires 0 <= i < newcap reads old_ => if i < old_.Length then old_[i] else 0);
        buf := newbuf;
      }
      len := newlen;
      ok := true;
    }

    /** The contents behind the one reserved octet move along by extra octets. */
    method MakeRoom(at: nat, n: nat, extra: nat) returns (ok: bool)
      requires at + 1 + n == len <= buf.Length
      modifies this`buf, this`len, buf
      ensures buf == old(buf) || fresh(buf)
      ensures !canResize ==> buf == old(buf)
      ensures !ok ==> len == old(len) && buf == old(buf) && unchanged(buf) && Short(len + extra)
      ensures ok ==> len == old(len) + extra <= buf.Length && forall i :: 0 <= i < at ==> buf[i] == old(buf[i])
      ensures ok ==> forall i :: at + 1 + extra <= i < len ==> buf[i] == old(buf[i - extra])
    {
      ghost var c0 := buf[..len];
      ok := Add(extra);
      if !ok {
        return;
      }
      assert forall i :: 0 <= i < |c0| ==> buf[i] == c0[i] by {
        forall i | 0 <= i < |c0| ensures buf[i] == c0[i] {
          assert buf[..|c0|][i] == c0[i];
        }
      }
      Memmove(buf, at + 1 + extra, at + 1, n);
    }

    /** Long-form length octets, for which more room than the one reserved octet is needed. */
    method PutLongLength(at: nat, n: nat, extra: nat) returns (ok: bool)
      requires at + 1 + n == len <= buf.Length && extra == LengthSize(n) - 1 && 1 <= extra && n <= MAX_BUILT
      modifies this`buf, this`len, buf
      ensures buf == old(buf) || fresh(buf)
      ensures !canResize ==> buf == old(buf)
      ensures len <= buf.Length
      ensures ok ==> buf[..len] == old(buf[..at]) + LengthOctets(n) + old(buf[at + 1..len])
      ensures !ok ==> len == old(len) && buf == old(buf) && unchanged(buf) && Short(len + extra)
    {
      hide ToBe, LengthSize, LengthOctets;
      LongForm(n);
      ok := MakeRoom(at, n, extra);
      if !ok {
        return;
      }
      buf[at] := 0x80 + extra;
      var rest := WriteBe(buf, at + 1, extra, n);
      ghost var x := old(buf[..at]) + LengthOctets(n) + old(buf[at + 1..len]);
      assert |x| == len;
      forall i | 0 <= i < len ensures buf[i] == x[i] {
        if i >= at + 1 + extra {
          assert x[i] == old(buf[i - extra]);
        } else if i > at {
          assert x[i] == LengthOctets(n)[i - at] == ToBe(n, extra)[i - (at + 1)];
        }
      }
      assert buf[..len] == x;
    }

    /** The length octets in front of the n octets of contents that end the buffer. An ASN.1 length has one
        octet reserved and may need more; a length of fixed width that does not fit is refused, but only
        after its octets were written. */
    method PutLength(at: nat, reserved: nat, isAsn1: bool, ghost kind: Kind, n: nat) returns (ok: bool)
      requires KindOk(kind) && reserved == Reserved(kind) && isAsn1 == kind.Asn1?
      requires at + reserved + n == len <= buf.Length
      modifies this`buf, this`len, buf
      ensures buf == old(buf) || fresh(buf)
      ensures !canResize ==> buf == old(buf)
      ensures len <= buf.Length
      ensures ok ==> Announces(kind, n)
      ensures ok ==> buf[..len] == old(buf[..at]) + LengthPart(kind, n) + old(buf[at + reserved..len])
      ensures !ok ==> len == old(len) && buf == old(buf)
      ensures !ok ==> forall i :: 0 <= i < len && !(at <= i < at + reserved) ==> buf[i] == old(buf[i])
      ensures !ok ==> !Announces(kind, n) || Short(at + |LengthPart(kind, n)| + n)
    {
      hide ToBe;
      ghost var before, contents := buf[..at], buf[at + reserved..len];
      if isAsn1 {
        if n > MAX_BUILT {
          return false;
        }
        var lenLen := LengthSize(n);
        if lenLen == 1 {
          buf[at] := n;
          assert buf[..len] == before + [n] + contents;
          return true;
        }
        ok := PutLongLength(at, n, lenLen - 1);
      } else {
        var rest := WriteBe(buf, at, reserved, n);
        assert buf[..len] == before + ToBe(n, reserved) + contents;
        ok := rest == 0;
      }
    }

    /** The innermost builder has been closed and its parent's fields reset. */
    ghost method Close()
      requires Shape() && kinds != [] && Laid(buf[..len], Closed(trees, kinds), kinds[..|kinds| - 1])
      requires forall i :: 0 <= i < |kinds| - 1 ==> Linked(i)
      requires var c := stack[|kinds| - 1];
               && c.base == this && c.depth == |kinds| - 1 && c.isTopLevel == (|kinds| == 1)
               && c.child == null && c.pendingLenLen == 0
      modifies this`stack, this`trees, this`kinds
      ensures Valid()
      ensures stack == old(stack)[..|old(kinds)|] && kinds == old(kinds)[..|old(kinds)| - 1]
      ensures trees == Closed(old(trees), old(kinds))
    {
      ghost var d := |kinds| - 1;
      ghost var t, k := trees, kinds;
      assert forall i :: 0 <= i < d ==> Linked(i);
      stack := stack[..d + 1];
      trees := Closed(trees, kinds);
      kinds := kinds[..d];
      forall i | 0 <= i < d ensures OffsetAt(trees, kinds, i) == OffsetAt(t, k, i) {
        assert trees[..i + 1] == t[..i + 1] && kinds[..i + 1] == k[..i + 1];
        SameOffset(trees, kinds, t, k, i);
      }
      forall i | 0 <= i <= d ensures Linked(i) {
        if i < d { assert old(Linked(i)); }
      }
    }

    /** Octets and their number have nothing to do with how the builders are linked. */
    twostate lemma StillLinked()
      requires old(Shape()) && Shape()
      requires stack == old(stack) && trees == old(trees) && kinds == old(kinds)
      requires forall c :: c in stack ==> unchanged(c)
      requires forall i :: 0 <= i < |stack| ==> old(Linked(i))
      ensures forall i :: 0 <= i < |stack| ==> Linked(i)
    {
      forall i | 0 <= i < |stack| ensures Linked(i) {
        assert old(Linked(i)) && stack[i] in stack;
      }
    }

    /** Bytes appended behind a valid buffer are a node of the innermost builder. */
    ghost method Record(content: bytes, data: bytes)
      requires Shape() && (forall i :: 0 <= i < |stack| ==> Linked(i))
      requires Laid(content, trees, kinds) && buf[..len] == content + data
      modifies this`trees
      ensures Valid() && stack == old(stack) && kinds == old(kinds) && trees == Grown(old(trees), Raw(data))
      ensures Spine(old(Tree()), |kinds|) && Tree() == Insert(old(Tree()), |kinds|, Raw(data))
    {
      LaidAppend(content, trees, kinds, data);
      GrowInserts(trees, kinds, Raw(data));
      trees := Grown(trees, Raw(data));
      forall i | 0 <= i < |kinds| ensures OffsetAt(trees, kinds, i) == old(OffsetAt(trees, kinds, i)) {
        assert trees[..i + 1] == old(trees)[..i + 1];
        SameOffset(trees, kinds, old(trees), kinds, i);
      }
      forall i | 0 <= i < |stack| ensures Linked(i) {
        assert old(Linked(i));
      }
    }
  }

  lemma LongForm(n: nat)
    requires LengthSize(n) > 1
    ensures LengthOctets(n) == [0x80 + (LengthSize(n) - 1)] + ToBe(n, LengthSize(n) - 1)
    ensures LengthSize(n) <= 5
  {}

  predicate KindOk(kind: Kind) {
    match kind
    case Width(size) => 1 <= size <= 4
    case Asn1(tag) => TagOk(tag)
  }

  /** memcpy, and memset */
  method Memcpy(a: array<byte>, at: nat, data: bytes)
    requires at + |data| <= a.Length
    modifies a
    ensures a[..at] == old(a[..at]) && a[at..at + |data|] == data && a[..at + |data|] == old(a[..at]) + data
  {
    forall i | 0 <= i < |data| {
      a[at + i] := data[i];
    }
    forall i | 0 <= i < |data|
      ensures a[at..at + |data|][i] == data[i]
    {}
    assert a[..at + |data|] == a[..at] + a[at..at + |data|];
  }

  /** CBB */
  class Cbb {
    var base: Buffer?
    var offset: nat
    var child: Cbb?
    var pendingLenLen: nat
    var pendingIsAsn1: bool
    var isTopLevel: bool
    ghost var depth: nat

    /** A zeroed structure. */
    constructor ()
      ensures base == null && child == null
    {
      base, offset, child, pendingLenLen, pendingIsAsn1, isTopLevel := null, 0, null, 0, false, false;
    }

    /** A builder is closed, or open in a valid buffer. */
    ghost predicate Attached()
      reads this, if base == null then {} else {base, base.buf} + set c: Cbb | c in base.stack
    {
      base != null ==> base.Valid() && depth < |base.stack| && base.stack[depth] == this
    }

    /** What a call on this builder may change: the buffer, and the builders from this one inwards. */
    ghost function Footprint(): set<object>
      reads this, base
    {
      if base == null then {}
      else
        var b: Buffer := base;
        {b, b.buf} + if depth <= |b.stack| then set c: Cbb | c in b.stack[depth..] else {}
    }

    /** What every call leaves in order, whether it succeeds or not: the buffer is valid, this builder and
        those around it are open in it as before, and only an own buffer is replaced. */
    twostate predicate Kept()
      reads *
    {
      && base == old(base)
      && (base != null ==>
            && base.Valid() && Attached() && depth == old(depth) && isTopLevel == old(isTopLevel)
            && base.canResize == old(base.canResize)
            && old(depth < |base.stack|) && base.stack[..depth + 1] == old(base.stack)[..depth + 1]
            && (base.buf == old(base.buf) || fresh(base.buf))
            && (!base.canResize ==> base.buf == old(base.buf)))
    }

    /** A builder that is no longer open is closed, and no call on it can write any more. */
    twostate predicate OthersClosed()
      requires base != null && old(base) != null
      reads *
    {
      forall c :: c in old(base.stack) && c !in base.stack ==> c.base == null
    }

    /** The lengths of all open children inside this builder can be announced. */
    ghost predicate ChildrenFit()
      requires base != null && |base.trees| == |base.kinds| + 1 && depth <= |base.kinds|
      reads this, base
    {
      Fits(Collapsed(base.trees, base.kinds, depth)[depth])
    }

    /** CBB_flush: children are closed from the inside out. */
    method Flush() returns (ok: bool)
      requires Attached()
      modifies Footprint()
      decreases if base == null then 0 else |base.stack| - depth, 1
      ensures Kept() && (base == null ==> !ok)
      ensures base != null ==>
                && base.Tree() == old(base.Tree()) && base.stack <= old(base.stack) && OthersClosed()
                && (ok ==> old(ChildrenFit()) && |base.stack| == depth + 1 && base.kinds == old(base.kinds)[..depth]
                           && base.trees == Collapsed(old(base.trees), old(base.kinds), depth))
                && (!ok ==> !old(ChildrenFit()) || base.Short(|Ser(base.Tree())|))
                && (old(|base.stack|) == depth + 1 ==> ok && unchanged(this) && unchanged(base) && unchanged(base.buf))
    {
      hide OpenTree, Ser, Fits, Laid, LaidAt, Collapsed, Closed, Announces, OffsetAt;
      if base == null {
        return false;
      }
      ghost var t, k := base.trees, base.kinds;
      assert base.Linked(depth);
      InnermostFits(base.buf[..base.len], t, k);
      if child == null || pendingLenLen == 0 {
        CollapseNothing(t, k);
        assert k[..depth] == k;
        return true;
      }
      ok := FlushChild();
    }

    /** CBB_flush when a child is open: it is flushed itself, then its length is written. */
    method FlushChild() returns (ok: bool)
      requires Attached() && base != null && |base.stack| > depth + 1
      modifies Footprint()
      decreases |base.stack| - depth, 0
      ensures Kept() && base != null
      ensures base.Tree() == old(base.Tree()) && base.stack <= old(base.stack) && OthersClosed()
      ensures ok ==> old(ChildrenFit()) && |base.stack| == depth + 1 && base.kinds == old(base.kinds)[..depth]
                     && base.trees == Collapsed(old(base.trees), old(base.kinds), depth)
      ensures !ok ==> !old(ChildrenFit()) || base.Short(|Ser(base.Tree())|)
    {
      hide OpenTree, Ser, Fits, Laid, LaidAt, Collapsed, Closed, Announces, OffsetAt;
      ghost var t, k := base.trees, base.kinds;
      assert base.Linked(depth) && base.Linked(depth + 1);
      InnermostFits(base.buf[..base.len], t, k);
      CollapseStep(t, k, depth);
      CollapseKeepsTree(t, k, depth);
      var c := child;
      base.Distinct(depth);
      ok := c.Flush();
      assert base.stack[depth] == this && base.Linked(depth);
      ghost var t1 := base.stack;
      if ok {
        assert t1 == t1[..depth + 1] + [c];
        assert base.Linked(depth + 1);
        assert k[..depth + 1][..depth] == k[..depth];
        assert base.Tree() == OpenTree(t, k);
        ok := WritePrefix();
      }
      forall x | x in old(base.stack) && x !in base.stack ensures x.base == null {
        if x in t1 {
          assert x == c;
        }
      }
    }

    /** The rest of CBB_flush, once the child itself has no open child: the length goes in front of it. */
    method WritePrefix() returns (ok: bool)
      requires base != null && base.Valid() && |base.stack| == depth + 2 && base.stack[depth] == this && child != null
      modifies this, child, base, base.buf
      ensures base == old(base) && base.Valid() && depth == old(depth) && isTopLevel == old(isTopLevel)
      ensures base.canResize == old(base.canResize)
      ensures base.buf == old(base.buf) || fresh(base.buf)
      ensures !base.canResize ==> base.buf == old(base.buf)
      ensures ok ==> Announces(old(base.kinds)[depth], |Ser(old(base.trees)[depth + 1])|)
      ensures ok ==> && base.stack == old(base.stack)[..depth + 1]
                     && base.kinds == old(base.kinds)[..depth]
                     && base.trees == Closed(old(base.trees), old(base.kinds))
                     && old(child).base == null
      ensures !ok ==> base.stack == old(base.stack) && base.trees == old(base.trees) && base.kinds == old(base.kinds)
      ensures !ok ==> !Announces(base.kinds[depth], |Ser(base.trees[depth + 1])|) || base.Short(|Ser(base.Tree())|)
    {
      hide OpenTree, Ser, Fits, Laid, LaidAt, Closed, StartAt, OffsetAt, LengthPart, Announces;
      var b := base;
      ghost var c0, t, k := b.buf[..b.len], b.trees, b.kinds;
      ghost var inner := Ser(t[depth + 1]);
      assert b.Linked(depth) && b.Linked(depth + 1);
      LaidEnd(c0, t, k);
      var childStart := offset + pendingLenLen;
      var n := b.len - childStart;
      assert n == |inner|;
      ghost var o := offset;
      ok := b.PutLength(offset, pendingLenLen, pendingIsAsn1, k[depth], n);
      forall i | 0 <= i < |b.stack| ensures b.Linked(i) {
        assert old(b.Linked(i));
      }
      if !ok {
        ghost var place := b.buf[o..childStart];
        LaidPlace(c0, t, k, place);
        assert b.buf[..b.len] == c0[..o] + place + c0[o + |place|..];
        CloseBound(t, k);
        return;
      }
      LaidClose(c0, t, k);
      assert b.buf[..b.len] == c0[..o] + LengthPart(k[depth], n) + c0[o + Reserved(k[depth])..];
      Detach();
      ok := true;
    }

    /** The child, whose length has been written, is closed and let go. */
    method Detach()
      requires base != null && base.Shape() && |base.stack| == depth + 2 && base.stack[depth] == this && child != null
      requires forall i :: 0 <= i < |base.stack| ==> base.Linked(i)
      requires Laid(base.buf[..base.len], Closed(base.trees, base.kinds), base.kinds[..depth])
      modifies this, child, base`stack, base`trees, base`kinds
      ensures base == old(base) && base.Valid() && depth == old(depth) && isTopLevel == old(isTopLevel)
      ensures base.stack == old(base.stack)[..depth + 1] && base.kinds == old(base.kinds)[..depth]
      ensures base.trees == Closed(old(base.trees), old(base.kinds)) && old(child).base == null
    {
      hide Laid, Closed, OffsetAt;
      assert base.Linked(depth) && base.Linked(depth + 1);
      child.base := null;
      child := null;
      pendingLenLen := 0;
      pendingIsAsn1 := false;
      offset := 0;
      forall i | 0 <= i < depth ensures base.Linked(i) {
        assert old(base.Linked(i)) && base.stack[i].depth == i;
      }
      base.Close();
    }

    /** CBB_init: an empty builder that owns a growing buffer; capacity 0 asks for the default of 64. */
    constructor Init(capacity: nat)
      ensures base != null && fresh(base) && fresh(base.buf) && Attached() && base.canResize
      ensures depth == 0 && base.stack == [this] && base.Tree() == []
    {
      var initial := if capacity == 0 then 64 else capacity;
      var buf := new byte[initial](_ => 0);
      var b := new Buffer(buf, true);
      base, offset, child, pendingLenLen, pendingIsAsn1, isTopLevel := b, 0, null, 0, false, true;
      depth := 0;
      new;
      b.stack, b.trees, b.kinds := [this], [[]], [];
      EmptyLaid();
      assert b.buf[..0] == [];
    }

    /** CBB_init_fixed: an empty builder over the caller's buffer, which is never replaced. */
    constructor InitFixed(buf: array<byte>)
      ensures base != null && fresh(base) && base.buf == buf && Attached() && !base.canResize
      ensures depth == 0 && base.stack == [this] && base.Tree() == [] && base.len == 0
    {
      var b := new Buffer(buf, false);
      base, offset, child, pendingLenLen, pendingIsAsn1, isTopLevel := b, 0, null, 0, false, true;
      depth := 0;
      new;
      b.stack, b.trees, b.kinds := [this], [[]], [];
      EmptyLaid();
      assert b.buf[..0] == [];
    }

    /** A write of data that was made, or not made, by a call on this builder. */
    twostate predicate Wrote(ok: bool, data: bytes)
      requires old(base) != null && old(Attached())
      reads *
    {
      && Kept() && OthersClosed()
      && (!ok ==> base.Tree() == old(base.Tree()))
      && (ok ==> |base.stack| == depth + 1 && base.stack <= old(base.stack)
                 && Spine(old(base.Tree()), depth)
                 && base.Tree() == Insert(old(base.Tree()), depth, Raw(data)))
      && (ok ==> old(ChildrenFit()))
      && (!ok ==> !old(ChildrenFit()) || NoRoom(old(base.Tree()), Raw(data)))
    }

    /** In a fixed buffer there is no room for the tree with this node in it. */
    ghost predicate NoRoom(tree: seq<Node>, n: Node)
      reads this, base
    {
      base != null && Spine(tree, depth) && base.Short(|Ser(Insert(tree, depth, n))|)
    }

    /** Where there is no room for the tree there is none for a larger one. */
    lemma NoRoomEither(n: Node)
      requires base != null && Attached() && base.Short(|Ser(base.Tree())|)
      ensures NoRoom(base.Tree(), n)
    {
      hide Ser, OpenTree;
      SpineInside(base.trees, base.kinds, depth);
      InsertGrows(base.Tree(), depth, n);
    }

    /** The buffer is as full as the open builders say. */
    lemma Filled()
      requires base != null && Attached()
      ensures base.len == Used(base.trees, base.kinds)
    {}

    /** For a builder without an open child the write is a plain append. */
    twostate predicate Appended(ok: bool, data: bytes)
      requires old(base) != null && old(Attached())
      reads *
    {
      && base != null && base == old(base) && base.len <= base.buf.Length
      && base.stack == old(base.stack) && base.kinds == old(base.kinds) && unchanged(this)
      && (ok <==> base.canResize || old(base.len) + |data| <= old(base.buf).Length)
      && (ok ==> base.buf[..base.len] == old(base.buf[..base.len]) + data)
      && (ok ==> base.trees == Grown(old(base.trees), Raw(data)))
      && (!ok ==> unchanged(base) && base.buf[..base.len] == old(base.buf[..base.len]))
    }

    /** The end of CBB_add_bytes: room at the end of the buffer, and the octets in it. */
    method Append(data: bytes) returns (ok: bool)
      requires Attached() && base != null && |base.stack| == depth + 1
      modifies base, base.buf
      ensures Kept() && Appended(ok, data)
      ensures !ok ==> base.Tree() == old(base.Tree()) && NoRoom(base.Tree(), Raw(data))
      ensures ok ==> Spine(old(base.Tree()), depth) && base.Tree() == Insert(old(base.Tree()), depth, Raw(data))
    {
      hide OpenTree, Ser, Fits, Laid, LaidAt, Insert, Spine, OffsetAt;
      Filled();
      GrowBound(base.trees, base.kinds, data);
      ghost var c0 := base.buf[..base.len];
      var at := base.len;
      ok := base.Add(|data|);
      if ok {
        assert base.buf[..at] == c0;
        Memcpy(base.buf, at, data);
        assert base.buf[..base.len] == c0 + data;
        base.StillLinked();
        base.Record(c0, data);
      }
    }

    /** The end of cbb_add_u. */
    method AppendU(v: nat, n: nat) returns (ok: bool)
      requires Attached() && base != null && |base.stack| == depth + 1
      modifies base, base.buf
      ensures Kept() && Appended(ok, ToBe(v, n))
      ensures !ok ==> base.Tree() == old(base.Tree()) && NoRoom(base.Tree(), Raw(ToBe(v, n)))
      ensures ok ==> Spine(old(base.Tree()), depth)
                     && base.Tree() == Insert(old(base.Tree()), depth, Raw(ToBe(v, n)))
    {
      hide OpenTree, Ser, Fits, Laid, LaidAt, Insert, Spine, OffsetAt, ToBe;
      Filled();
      GrowBound(base.trees, base.kinds, ToBe(v, n));
      ghost var c0 := base.buf[..base.len];
      var at := base.len;
      ok := base.Add(n);
      if ok {
        var rest := WriteBe(base.buf, at, n, v);
        assert base.buf[..at] == c0;
        assert base.buf[at..base.len] == ToBe(v, n);
        assert base.buf[..base.len] == c0 + ToBe(v, n);
        base.StillLinked();
        base.Record(c0, ToBe(v, n));
      }
    }

    /** CBB_add_bytes */
    method AddBytes(data: bytes) returns (ok: bool)
      requires Attached()
      modifies Footprint()
      ensures base == old(base) && (base == null ==> !ok)
      ensures base != null ==> Wrote(ok, data)
      ensures base != null && old(|base.stack|) == depth + 1 ==> Appended(ok, data)
    {
      hide OpenTree, Fits, Laid, Collapsed, Insert, Spine, Ser;
      ok := Flush();
      if ok {
        ok := Append(data);
      } else if base != null && base.Short(|Ser(base.Tree())|) {
        NoRoomEither(Raw(data));
      }
    }

    /** cbb_add_u: the low octets of a 32-bit value, most significant first. No octets at all are always a
        success, even on a closed builder. */
    method AddU(v: nat, n: nat) returns (ok: bool)
      requires Attached()
      modifies Footprint()
      ensures base == old(base)
      ensures n == 0 ==> ok && (base != null ==> unchanged(base) && unchanged(base.buf) && Attached())
      ensures n > 4 ==> !ok && (base != null ==> unchanged(base) && unchanged(base.buf) && Attached())
      ensures 1 <= n <= 4 && base == null ==> !ok
      ensures 1 <= n <= 4 && base != null ==> Wrote(ok, ToBe(v, n))
      ensures 1 <= n <= 4 && base != null && old(|base.stack|) == depth + 1 ==> Appended(ok, ToBe(v, n))
    {
      hide OpenTree, Fits, Laid, Collapsed, Insert, Spine, ToBe;
      if n == 0 {
        return true;
      }
      if n > 4 {
        return false;
      }
      ok := Flush();
      if ok {
        ok := AppendU(v, n);
      } else if base != null && base.Short(|Ser(base.Tree())|) {
        NoRoomEither(Raw(ToBe(v, n)));
      }
    }

    /** CBB_add_u8, CBB_add_u16, CBB_add_u24 and CBB_add_u32 */
    method AddUint(v: nat, n: nat) returns (ok: bool)
      requires Attached() && 1 <= n <= 4
      modifies Footprint()
      ensures base == old(base) && (base == null ==> !ok)
      ensures v >= Pow256(n) ==> !ok && (base != null ==> unchanged(base) && unchanged(base.buf) && Attached())
      ensures v < Pow256(n) && base != null ==> Wrote(ok, ToBe(v, n))
      ensures v < Pow256(n) && base != null && old(|base.stack|) == depth + 1 ==> Appended(ok, ToBe(v, n))
    {
      if v >= Pow256(n) {
        return false;
      }
      ok := AddU(v, n);
    }

    /** A child was opened, or not, by a call on this builder. */
    twostate predicate Opened(ok: bool, out: Cbb, kind: Kind)
      requires old(base) != null && old(Attached())
      reads *
    {
      && Kept() && OthersClosed()
      && (ok ==> base.stack == old(base.stack)[..depth + 1] + [out] && out.base == base && out.Attached()
                 && base.kinds == old(base.kinds)[..depth] + [kind]
                 && base.trees == Collapsed(old(base.trees), old(base.kinds), depth) + [[]]
                 && Spine(old(base.Tree()), depth)
                 && base.Tree() == Insert(old(base.Tree()), depth, Nested(kind, [])))
      && (ok ==> old(ChildrenFit()))
      && (!ok ==> !old(ChildrenFit()) || NoRoom(old(base.Tree()), Nested(kind, [])))
    }

    /** out may be used as a child: it is no builder further out, nor one in another buffer. */
    ghost predicate MayOpen(out: Cbb)
      reads this, base, out
    {
      base != null ==> depth < |base.stack| && out !in base.stack[..depth + 1]
                       && (out.base == null || out in base.stack)
    }

    /** cbb_add_length_prefixed */
    method AddLengthPrefixed(out: Cbb, n: nat) returns (ok: bool)
      requires Attached() && MayOpen(out) && 1 <= n <= 4
      modifies Footprint(), out
      ensures base == old(base) && (base == null ==> !ok && unchanged(out))
      ensures base != null ==> Opened(ok, out, Width(n))
      ensures base != null && !ok ==> base.Tree() == old(base.Tree())
    {
      hide OpenTree, Ser, Fits, Laid, LaidAt, Collapsed, Insert, Spine, OffsetAt, Buffer.Linked;
      ok := Flush();
      if !ok {
        if base != null && base.Short(|Ser(base.Tree())|) {
          NoRoomEither(Nested(Width(n), []));
        }
        return;
      }
      ok := OpenWidth(out, n);
    }

    /** A child was opened, or not, when none was open. */
    twostate predicate Adopted(ok: bool, out: Cbb, kind: Kind)
      requires old(base) != null && old(Attached())
      reads *
    {
      && base == old(base) && base.Valid() && Attached() && depth == old(depth) && isTopLevel == old(isTopLevel)
      && base.canResize == old(base.canResize)
      && (base.buf == old(base.buf) || fresh(base.buf)) && (!base.canResize ==> base.buf == old(base.buf))
      && (ok ==> out.base == base && out.Attached() && base.stack == old(base.stack) + [out]
                 && base.trees == old(base.trees) + [[]] && base.kinds == old(base.kinds) + [kind]
                 && Spine(old(base.Tree()), depth) && base.Tree() == Insert(old(base.Tree()), depth, Nested(kind, [])))
      && (!ok ==> base.stack == old(base.stack) && unchanged(out))
    }

    /** The part of cbb_add_length_prefixed behind the flush. */
    method OpenWidth(out: Cbb, n: nat) returns (ok: bool)
      requires Attached() && base != null && |base.stack| == depth + 1 && out !in base.stack && 1 <= n <= 4
      modifies this, out, base, base.buf
      ensures Adopted(ok, out, Width(n))
      ensures !ok ==> base.Tree() == old(base.Tree()) && NoRoom(base.Tree(), Nested(Width(n), []))
    {
      hide OpenTree, Ser, Fits, Laid, LaidAt, Insert, Spine, OffsetAt, Buffer.Linked;
      Filled();
      OpenBound(base.trees, base.kinds, Width(n));
      ghost var c0 := base.buf[..base.len];
      var at := base.len;
      ok := base.Add(n);
      if ok {
        assert base.buf[..at] == c0;
        Memcpy(base.buf, at, Zeros(n));
        assert base.buf[..base.len] == c0 + TagPart(Width(n)) + Zeros(n);
        base.StillLinked();
        Adopt(out, at, n, false, c0, Width(n), Zeros(n));
      } else {
        base.StillLinked();
      }
    }

    /** The common end of cbb_add_length_prefixed and CBB_add_asn1: the child is initialised and tied to this
        builder. */
    method Adopt(out: Cbb, at: nat, n: nat, isAsn1: bool, ghost c0: bytes, ghost kind: Kind, ghost place: bytes)
      requires base != null && base.Shape() && |base.stack| == depth + 1 && base.stack[depth] == this
      requires forall i :: 0 <= i < |base.stack| ==> base.Linked(i)
      requires out !in base.stack
      requires KindOk(kind) && n == Reserved(kind) == |place| && isAsn1 == kind.Asn1?
      requires Laid(c0, base.trees, base.kinds) && at == |c0| + |TagPart(kind)|
      requires base.buf[..base.len] == c0 + TagPart(kind) + place
      modifies this, out, base`stack, base`trees, base`kinds
      ensures base == old(base) && base.Valid() && depth == old(depth) && base.stack == old(base.stack) + [out]
      ensures isTopLevel == old(isTopLevel)
      ensures Attached() && out.base == base && out.Attached()
      ensures base.trees == old(base.trees) + [[]] && base.kinds == old(base.kinds) + [kind]
      ensures Spine(old(base.Tree()), depth) && base.Tree() == Insert(old(base.Tree()), depth, Nested(kind, []))
    {
      hide OpenTree, Ser, Fits, Laid, LaidAt, Insert, Spine, OffsetAt, Reserved, TagPart;
      ghost var t, k := base.trees, base.kinds;
      LaidOpen(c0, t, k, kind, place);
      OpenInserts(t, k, kind);
      offset := at;
      out.base := base;
      out.offset, out.child, out.pendingLenLen, out.pendingIsAsn1, out.isTopLevel := 0, null, 0, false, false;
      out.depth := depth + 1;
      child := out;
      pendingLenLen := n;
      pendingIsAsn1 := isAsn1;
      base.stack, base.trees, base.kinds := base.stack + [out], t + [[]], k + [kind];
      OffsetsStay(t, k, kind);
      forall i | 0 <= i < |base.stack| ensures base.Linked(i) {
        if i < depth {
          assert old(base.Linked(i)) && old(base.Linked(depth));
        } else if i == depth {
          assert old(base.Linked(i));
        }
      }
    }

    /** CBB_add_asn1; in a fixed buffer it may fail after the tag was written. */
    method AddAsn1(out: Cbb, tag: nat) returns (ok: bool)
      requires Attached() && MayOpen(out)
      modifies Footprint(), out
      ensures base == old(base) && (base == null ==> !ok && unchanged(out))
      ensures !TagOk(tag) ==> !ok && unchanged(out) && unchanged(this)
                              && (base != null ==> unchanged(base) && unchanged(base.buf) && Attached())
      ensures TagOk(tag) && base != null ==> Opened(ok, out, Asn1(tag))
      ensures TagOk(tag) && base != null && !ok ==>
                || base.Tree() == old(base.Tree())
                || (!base.canResize && Spine(old(base.Tree()), depth)
                    && base.Tree() == Insert(old(base.Tree()), depth, Raw([tag])))
    {
      hide OpenTree, Ser, Fits, Laid, LaidAt, Collapsed, Insert, Spine, OffsetAt, ToBe, Buffer.Linked;
      if tag > 255 || tag % 32 == 31 {
        return false;
      }
      ok := Flush();
      if !ok {
        if base != null && base.Short(|Ser(base.Tree())|) {
          NoRoomEither(Nested(Asn1(tag), []));
        }
        return;
      }
      ok := OpenTag(out, tag);
    }

    /** The part of CBB_add_asn1 behind the flush. */
    method OpenTag(out: Cbb, tag: byte) returns (ok: bool)
      requires Attached() && base != null && |base.stack| == depth + 1 && out !in base.stack && TagOk(tag)
      modifies this, out, base, base.buf
      ensures Adopted(ok, out, Asn1(tag)) && (!ok ==> NoRoom(old(base.Tree()), Nested(Asn1(tag), [])))
      ensures !ok ==>
                || base.Tree() == old(base.Tree())
                || (Spine(old(base.Tree()), depth) && base.Tree() == Insert(old(base.Tree()), depth, Raw([tag])))
    {
      hide OpenTree, Ser, Fits, Laid, LaidAt, Insert, Spine, OffsetAt, ToBe, Buffer.Linked;
      Filled();
      OpenBound(base.trees, base.kinds, Asn1(tag));
      ghost var c0, t0 := base.buf[..base.len], base.trees;
      var at;
      ok, at := AddTwoOctets(tag, 0);
      if ok {
        assert base.buf[..base.len] == c0 + TagPart(Asn1(tag)) + [0];
        base.trees := t0;
        base.StillLinked();
        Adopt(out, at, 1, true, c0, Asn1(tag), [0]);
      }
    }

    /** The two CBB_add_u8 of CBB_add_asn1, and the position between them. */
    method AddTwoOctets(a: byte, b: byte) returns (ok: bool, at: nat)
      requires Attached() && base != null && |base.stack| == depth + 1
      modifies Footprint()
      ensures Kept() && base.stack == old(base.stack) && base.kinds == old(base.kinds) && unchanged(this)
      ensures !ok ==> base.Short(old(base.len) + 2)
      ensures ok ==> base.buf[..base.len] == old(base.buf[..base.len]) + [a] + [b] && at == old(base.len) + 1
      ensures !ok ==>
                || base.Tree() == old(base.Tree())
                || (Spine(old(base.Tree()), depth) && base.Tree() == Insert(old(base.Tree()), depth, Raw([a])))
    {
      hide OpenTree, Ser, Fits, Laid, LaidAt, Collapsed, Insert, Spine, OffsetAt, ToBe;
      at := 0;
      OneOctet(a);
      OneOctet(b);
      ok := AddUint(a, 1);
      if ok {
        at := base.len;
        ok := AddUint(b, 1);
      }
    }

    /** CBB_add_asn1_uint64: an INTEGER without superfluous leading octets, octet by octet. */
    method AddAsn1Uint64(value: nat) returns (ok: bool)
      requires Attached() && value < U64
      modifies Footprint()
      ensures base == old(base) && (base == null ==> !ok)
      ensures base != null ==> Kept()
      ensures base != null ==>
                && (ok ==> |base.stack| == depth + 1 && base.stack <= old(base.stack) && old(ChildrenFit()))
                && (ok ==> Spine(old(base.Tree()), depth)
                           && base.Tree() == Insert(old(base.Tree()), depth, UintNode(value)))
                && (!ok ==> !old(ChildrenFit()) || NoRoom(old(base.Tree()), UintNode(value)))
    {
      hide OpenTree, Fits, Laid, Collapsed, Insert, Spine, ToBe, UintOctets, RawEach, Ser, OffsetAt, ChildrenFit;
      ok := AddOpenUint(value);
      if ok {
        ok := Flush();
      }
    }

    /** CBB_add_asn1_uint64 up to the final flush. */
    method AddOpenUint(value: nat) returns (ok: bool)
      requires Attached() && value < U64
      modifies Footprint()
      ensures base == old(base) && (base == null ==> !ok)
      ensures base != null ==> Kept()
      ensures base != null ==>
                && (ok ==> |base.stack| == depth + 2 && base.stack[..depth + 1] == old(base.stack)[..depth + 1])
                && (ok ==> fresh(base.stack[depth + 1]) && old(ChildrenFit()) && ChildrenFit())
                && (ok ==> Spine(old(base.Tree()), depth)
                           && base.Tree() == Insert(old(base.Tree()), depth, UintNode(value)))
                && (!ok ==> !old(ChildrenFit()) || NoRoom(old(base.Tree()), UintNode(value)))
    {
      hide OpenTree, Fits, Laid, Collapsed, Insert, Spine, ToBe, UintOctets, RawEach, Ser, OffsetAt, ChildrenFit;
      ghost var tree := if base == null then [] else base.Tree();
      var child;
      ok, child := OpenInteger();
      if ok {
        ok := FillInteger(child, value, tree);
      } else if base != null && NoRoom(tree, Nested(Asn1(INTEGER), RawEach([]))) {
        LongerOctets(tree, depth, Asn1(INTEGER), [], UintOctets(value));
      }
    }

    /** The contents of an INTEGER just opened. */
    method FillInteger(child: Cbb, value: nat, ghost tree: seq<Node>) returns (ok: bool)
      requires Attached() && base != null && |base.stack| == depth + 2 && base.stack[depth + 1] == child && value < U64
      requires child.Attached() && child.base == base && child.depth == depth + 1
      requires base.kinds[depth] == Asn1(INTEGER) && base.trees[depth + 1] == RawEach([])
      requires Spine(tree, depth) && base.Tree() == Insert(tree, depth, Nested(Asn1(INTEGER), RawEach([])))
      modifies child.Footprint()
      ensures Kept() && base.stack == old(base.stack)
      ensures ok ==> ChildrenFit() && base.Tree() == Insert(tree, depth, UintNode(value))
      ensures !ok ==> NoRoom(tree, UintNode(value))
    {
      hide OpenTree, Fits, Laid, Collapsed, Insert, Spine, ToBe, UintOctets, RawEach, Ser, OffsetAt, ChildrenFit;
      base.Distinct(depth);
      ok := child.AddUintContents(value, tree, depth, Asn1(INTEGER));
      assert Attached();
      if ok {
        UintChildFits(value);
      }
    }

    /** An INTEGER without contents so far. */
    method OpenInteger() returns (ok: bool, child: Cbb)
      requires Attached()
      modifies Footprint()
      ensures base == old(base) && (base == null ==> !ok) && fresh(child)
      ensures base != null ==> Kept()
      ensures base != null && ok ==>
                && base.stack == old(base.stack)[..depth + 1] + [child]
                && child.Attached() && child.base == base && child.depth == depth + 1
                && base.kinds[depth] == Asn1(INTEGER) && base.trees[depth + 1] == RawEach([])
                && Spine(old(base.Tree()), depth)
                && base.Tree() == Insert(old(base.Tree()), depth, Nested(Asn1(INTEGER), RawEach([])))
      ensures base != null ==>
                && (ok ==> old(ChildrenFit()))
                && (!ok ==> !old(ChildrenFit()) || NoRoom(old(base.Tree()), Nested(Asn1(INTEGER), RawEach([]))))
    {
      hide OpenTree, Fits, Laid, Collapsed, Insert, Spine, RawEach, Ser, OffsetAt, ChildrenFit;
      child := new Cbb();
      ok := AddAsn1(child, INTEGER);
      assert RawEach([]) == [] by { assert |RawEach([])| == 0; }
      if ok {
        assert base.Linked(depth + 1);
      }
    }

    lemma UintChildFits(value: nat)
      requires base != null && Attached() && |base.stack| == depth + 2 && value < U64
      requires base.kinds[depth] == Asn1(INTEGER) && base.trees[depth + 1] == RawEach(UintOctets(value))
      ensures ChildrenFit()
    {
      LastChildFits();
      UintOctetsLength(value);
      SerRawEach(UintOctets(value));
    }

    /** A top-level builder without an open child holds one list of nodes. */
    lemma TopLevelTrees()
      requires base != null && Attached() && depth == 0 && |base.stack| == 1
      ensures base.kinds == [] && base.trees == [base.Tree()]
    {
    }

    /** With no child open. */
    lemma NoChildFits()
      requires base != null && Attached() && |base.stack| == depth + 1
      ensures ChildrenFit()
    {
      CollapseNothing(base.trees, base.kinds);
      InnermostFits(base.buf[..base.len], base.trees, base.kinds);
    }

    /** With one child open, and none inside it. */
    lemma LastChildFits()
      requires base != null && Attached() && |base.stack| == depth + 2
      ensures ChildrenFit() == Announces(base.kinds[depth], |Ser(base.trees[depth + 1])|)
    {
      CollapseStep(base.trees, base.kinds, depth);
      CollapseNothing(base.trees, base.kinds);
      InnermostFits(base.buf[..base.len], base.trees, base.kinds);
    }

    /** The loop of CBB_add_asn1_uint64. Octet i is (value >> 8 * (7 - i)) & 0xff. */
    method AddUintContents(value: nat, ghost tree: seq<Node>, ghost d: nat, ghost kind: Kind)
      returns (ok: bool)
      requires Attached() && base != null && |base.stack| == depth + 1 && depth == d + 1 && value < U64
      requires Spine(tree, d) && base.Tree() == Insert(tree, d, Nested(kind, RawEach([])))
      requires base.trees[depth] == RawEach([])
      modifies Footprint()
      ensures Kept() && unchanged(this) && base.stack == old(base.stack)
      ensures !ok ==> base.Short(|Ser(Insert(tree, d, Nested(kind, RawEach(UintOctets(value)))))|)
      ensures ok ==> base.Tree() == Insert(tree, d, Nested(kind, RawEach(UintOctets(value))))
      ensures ok ==>
                base.kinds == old(base.kinds) && base.trees == old(base.trees)[..depth] + [RawEach(UintOctets(value))]
    {
      hide OpenTree, Fits, Laid, Collapsed, Insert, Spine, ToBe, UintOctets, RawEach, Ser, OffsetAt;
      var octets := ToBe(value, 8);
      Pow256Values();
      FromToBe(value, 8);
      ghost var written: bytes := [];
      var started := false;
      for i := 0 to 8
        invariant Kept() && unchanged(this) && base.stack == old(base.stack)
        invariant base.Tree() == Insert(tree, d, Nested(kind, RawEach(written)))
        invariant base.kinds == old(base.kinds) && base.trees == old(base.trees)[..depth] + [RawEach(written)]
        invariant started == (FromBe(octets[..i]) != 0)
        invariant written == if started then UintOctets(FromBe(octets[..i])) else []
      {
        FromBePrefix(octets, i);
        UintOctetsSnoc(FromBe(octets[..i]), octets[i]);
        ok := AddUintOctet(started, octets[i], tree, d, kind, written);
        if !ok {
          NoRoomForUint(octets, i, started, written, tree, d, kind);
          return;
        }
        written := written + NewOctets(started, octets[i]);
        started := started || octets[i] != 0;
      }
      assert octets[..8] == octets;
      ok := true;
      if !started {
        ZeroOctets();
        ok := AddOctet(0, tree, d, kind, written);
        assert written + [0] == [0];
      }
    }

    /** One round of that loop: leading zeros are skipped, and a first octet with its top bit set gets a zero
        in front. */
    method AddUintOctet(started: bool, b: byte, ghost tree: seq<Node>, ghost d: nat, ghost kind: Kind,
                        ghost written: bytes)
      returns (ok: bool)
      requires Attached() && base != null && |base.stack| == depth + 1 && depth == d + 1
      requires Spine(tree, d) && base.Tree() == Insert(tree, d, Nested(kind, RawEach(written)))
      requires base.trees[depth] == RawEach(written)
      modifies Footprint()
      ensures Kept() && unchanged(this) && base.stack == old(base.stack)
      ensures !ok ==>
                && NewOctets(started, b) != []
                && base.Short(|Ser(Insert(tree, d, Nested(kind, RawEach(written + NewOctets(started, b)))))|)
      ensures var w := written + NewOctets(started, b);
              ok ==> && base.Tree() == Insert(tree, d, Nested(kind, RawEach(w)))
                     && base.kinds == old(base.kinds) && base.trees == old(base.trees)[..depth] + [RawEach(w)]
    {
      hide OpenTree, Fits, Laid, Collapsed, Insert, Spine, RawEach, OffsetAt, Ser;
      ok := true;
      if !started {
        if b == 0 {
          assert written + [] == written;
          return;
        }
        if b >= 0x80 {
          ok := AddOctet(0, tree, d, kind, written);
          LongerOctets(tree, d, kind, written + [0], written + ([0] + [b]));
          if !ok {
            return;
          }
          assert written + [0] + [b] == written + ([0] + [b]);
          ok := AddOctet(b, tree, d, kind, written + [0]);
          return;
        }
      }
      ok := AddOctet(b, tree, d, kind, written);
    }

    /** One octet more for a child without children of its own. */
    method AddOctet(b: byte, ghost tree: seq<Node>, ghost d: nat, ghost kind: Kind, ghost written: bytes)
      returns (ok: bool)
      requires Attached() && base != null && |base.stack| == depth + 1 && depth == d + 1
      requires Spine(tree, d) && base.Tree() == Insert(tree, d, Nested(kind, RawEach(written)))
      requires base.trees[depth] == RawEach(written)
      modifies Footprint()
      ensures Kept() && unchanged(this) && base.stack == old(base.stack)
      ensures !ok ==> base.Short(|Ser(Insert(tree, d, Nested(kind, RawEach(written + [b]))))|)
      ensures ok ==> base.Tree() == Insert(tree, d, Nested(kind, RawEach(written + [b])))
      ensures ok ==> base.kinds == old(base.kinds) && base.trees == old(base.trees)[..depth] + [RawEach(written + [b])]
    {
      hide OpenTree, Fits, Laid, Collapsed, Insert, Spine, ToBe, Ser;
      NoChildFits();
      OneOctet(b);
      InsertDeeper(tree, d, kind, RawEach(written), Raw([b]));
      assert RawEach(written + [b]) == RawEach(written) + [Raw([b])];
      ok := AddUint(b, 1);
    }

    /** CBB_finish: wantOut says whether the caller asks for the buffer, which a growing builder insists on, outTaken
        whether there is a buffer already where it is to go, which is refused. */
    method Finish(wantOut: bool, outTaken: bool) returns (ok: bool, out: array<byte>, outLen: nat)
      requires Attached()
      modifies Footprint()
      ensures ok ==> old(base) != null && isTopLevel && base == null && child == null && !outTaken
      ensures ok ==> Fits(old(base.Tree())) && outLen <= out.Length && out[..outLen] == Ser(old(base.Tree()))
      ensures ok && !old(base.canResize) ==> out == old(base.buf)
      ensures (old(base) != null && old(isTopLevel && Fits(base.Tree()) && !base.Short(|Ser(base.Tree())|))
               && (old(base.canResize) ==> wantOut) && !outTaken) ==> ok
    {
      hide Ser, Fits, Laid, LaidAt, OffsetAt, OpenTree, Collapsed;
      out := new byte[0];
      outLen := 0;
      if !isTopLevel {
        return false, out, outLen;
      }
      if base != null {
        TopDepth();
      }
      ok := Flush();
      if !ok {
        return;
      }
      if base.canResize && !wantOut {
        return false, out, outLen;
      }
      if outTaken {
        return false, out, outLen;
      }
      TopDepth();
      out := base.buf;
      outLen := base.len;
      base := null;
      child := null;
    }

    /** CBB_finish on a growing builder, with the octets as a value. */
    method FinishBytes() returns (ok: bool, out: bytes)
      requires Attached() && base != null && isTopLevel && base.canResize
      modifies Footprint()
      ensures ok <==> Fits(old(base.Tree()))
      ensures ok ==> out == Ser(old(base.Tree()))
    {
      hide Ser, Fits, OpenTree;
      var buf, len;
      ok, buf, len := Finish(true, false);
      out := if ok then buf[..len] else [];
    }

    lemma TopDepth()
      requires base != null && Attached() && isTopLevel
      ensures depth == 0
      ensures ChildrenFit() == Fits(base.Tree())
      ensures |base.stack| == 1 ==> base.buf[..base.len] == Ser(base.Tree())
    {
      assert base.Linked(depth);
      assert base.trees[0..] == base.trees && base.kinds[0..] == base.kinds;
      if |base.stack| == 1 {
        assert LaidAt(base.buf[..base.len], base.trees, base.kinds, 0);
        assert Ser(base.trees[0]) + [] == Ser(base.trees[0]);
      }
    }
  }

  /** The octets that one octet of the value adds. */
  function NewOctets(started: bool, b: byte): bytes {
    if started then [b] else if b == 0 then [] else if b >= 0x80 then [0] + [b] else [b]
  }

  /** Where there is no room for the octets so far there is none for all of them. */
  lemma NoRoomForUint(octets: bytes, i: nat, started: bool, written: bytes, tree: seq<Node>, d: nat, kind: Kind)
    requires i < |octets| && Spine(tree, d) && NewOctets(started, octets[i]) != []
    requires started == (FromBe(octets[..i]) != 0) && written == if started then UintOctets(FromBe(octets[..i])) else []
    ensures |Ser(Insert(tree, d, Nested(kind, RawEach(written + NewOctets(started, octets[i])))))| <=
            |Ser(Insert(tree, d, Nested(kind, RawEach(UintOctets(FromBe(octets))))))|
  {
    hide Ser, Insert, Spine, RawEach, UintOctets, FromBe;
    FromBePrefix(octets, i);
    UintOctetsSnoc(FromBe(octets[..i]), octets[i]);
    UintPrefix(octets, i + 1);
    LongerOctets(tree, d, kind, written + NewOctets(started, octets[i]), UintOctets(FromBe(octets)));
  }

  /** The contents of a number whose first octets are these are longer. */
  lemma {:induction false} UintPrefix(octets: bytes, i: nat)
    requires i <= |octets|
    ensures |UintOctets(FromBe(octets[..i]))| <= |UintOctets(FromBe(octets))|
    decreases |octets| - i
  {
    hide UintOctets;
    if i == |octets| {
      assert octets[..i] == octets;
    } else {
      UintPrefix(octets, i + 1);
      FromBePrefix(octets, i);
      UintOctetsSnoc(FromBe(octets[..i]), octets[i]);
      ZeroOctets();
      UintSome(FromBe(octets[..i + 1]));
    }
  }

  lemma UintSome(v: nat)
    ensures UintOctets(v) != []
  {}

  lemma ZeroOctets()
    ensures UintOctets(0) == [0]
  {}

  lemma OneOctet(v: byte)
    ensures ToBe(v, 1) == [v] && v < Pow256(1)
  {
    Pow256Values();
    assert ToBe(v / 256, 0) == [];
  }

  lemma EmptyLaid()
    ensures Laid([], [[]], []) && OpenTree([[]], []) == []
  {}

  lemma InnermostFits(content: bytes, trees: seq<seq<Node>>, kinds: seq<Kind>)
    requires Laid(content, trees, kinds)
    ensures forall i :: 0 <= i <= |kinds| ==> Fits(trees[i])
  {
    forall i | 0 <= i <= |kinds| ensures Fits(trees[i]) {
      assert LaidAt(content, trees, kinds, i);
    }
  }

  /** The octets of v, last one first; what is left of v comes back. */
  method WriteBe(buf: array<byte>, at: nat, count: nat, v: nat) returns (rest: nat)
    requires at + count <= buf.Length
    modifies buf
    ensures forall i :: at <= i < at + count ==> buf[i] == ToBe(v, count)[i - at]
    ensures forall i :: 0 <= i < buf.Length && !(at <= i < at + count) ==> buf[i] == old(buf[i])
    ensures rest == 0 <==> v < Pow256(count)
  {
    rest := v;
    var k := count;
    ghost var written: bytes := [];
    while k > 0
      invariant 0 <= k <= count && ToBe(v, count) == ToBe(rest, k) + written
      invariant forall i :: at + k <= i < at + count ==> buf[i] == written[i - at - k]
      invariant forall i :: 0 <= i < buf.Length && !(at + k <= i < at + count) ==> buf[i] == old(buf[i])
      invariant rest < Pow256(k) <==> v < Pow256(count)
    {
      k := k - 1;
      ToBeStep(rest, k);
      buf[at + k] := rest % 256;
      written := [rest % 256] + written;
      rest := rest / 256;
    }
  }

  /** memmove inside one buffer. */
  method Memmove(buf: array<byte>, to: nat, from: nat, n: nat)
    requires from + n <= buf.Length && to + n <= buf.Length
    modifies buf
    ensures forall i :: to <= i < to + n ==> buf[i] == old(buf[i - to + from])
    ensures forall i :: 0 <= i < buf.Length && !(to <= i < to + n) ==> buf[i] == old(buf[i])
  {
    forall i | 0 <= i < n {
      buf[to + i] := buf[from + i];
    }
  }
}

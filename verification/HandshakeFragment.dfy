/** A handshake message that is being put together or waits for its turn: hm_fragment of d1_both.c. */
module HandshakeFragment {
  import opened Bytes
  import opened HandshakeHeader
  import opened ReassemblyBitmask

  class HmFragment {
    const header: Header
    const fragment: array<byte>
    // null once all octets have arrived
    var reassembly: Reassembly?

    ghost function Repr(): set<object>
      reads this
    {
      {this, fragment} + if reassembly == null then {} else {reassembly, reassembly.mask}
    }

    /** What has arrived are octets of this body, and the bitmask says which. */
    ghost predicate Holds(body: bytes)
      reads this, Repr()
    {
      && fragment.Length == |body|
      && if reassembly == null then fragment[..] == body
         else
           && reassembly.Valid() && reassembly.msgLen == |body| && reassembly.mask != fragment
           && (forall i :: 0 <= i < |body| && Covered(reassembly.intervals, i) ==> fragment[i] == body[i])
           && (body != [] ==> !AllGot(|body|))
    }

    /** Octet i has arrived. */
    ghost predicate Got(i: int)
      reads this, reassembly
    {
      reassembly != null ==> Covered(reassembly.intervals, i)
    }

    ghost predicate AllGot(len: nat)
      reads this, reassembly
    {
      forall i :: 0 <= i < len ==> Got(i)
    }

    /** The bitmask is gone exactly when all octets have arrived. */
    lemma WholeIffAllGot(body: bytes)
      requires Holds(body) && (body == [] ==> reassembly == null)
      ensures reassembly == null <==> AllGot(|body|)
    {}

    /** dtls1_hm_fragment_new with a copy of the header */
    constructor (header: Header, len: nat, partial: bool)
      ensures this.header == header && fragment.Length == len && fresh(Repr())
      ensures partial <==> reassembly != null
      ensures partial ==> reassembly.Valid() && reassembly.msgLen == len && reassembly.intervals == []
      ensures partial ==> reassembly.mask != fragment && forall body: bytes :: |body| == len ==> Holds(body)
    {
      this.header := header;
      fragment := new byte[len](_ => 0);
      reassembly := null;
      new;
      if partial {
        reassembly := new Reassembly(len);
        assert !Got(0);
      }
    }

    /** The octets of a slice are copied in, marked, and the bitmask is dropped if that was the last of them. */
    method AddSlice(off: nat, data: bytes, ghost body: bytes)
      requires Holds(body) && reassembly != null && data != []
      requires off + |data| <= |body| && data == body[off..off + |data|]
      modifies Repr()
      ensures Holds(body)
      ensures reassembly == null || reassembly == old(reassembly)
      ensures forall i :: 0 <= i < |body| ==> (Got(i) <==> old(Got(i)) || off <= i < off + |data|)
    {
      hide Covered;
      ghost var was := reassembly.intervals;
      forall i | 0 <= i < |data| {
        fragment[off + i] := data[i];
      }
      reassembly.Mark(off, off + |data|);
      forall i { CoveredMore(was, (off, off + |data|), i); }
      var complete := reassembly.IsComplete();
      assert complete <==> AllGot(|body|) by {
        if !complete {
          var i :| 0 <= i < |body| && !Covered(reassembly.intervals, i);
          assert !Got(i);
        }
      }
      if complete {
        reassembly := null;
      }
    }
  }
}

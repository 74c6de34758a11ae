/** The output side of ssl_pkt.c for TLS: records are sealed once and their octets sent once, however often a
    write has to be repeated. */
module TlsWriteBuffer {
  import opened Bits
  import opened Bytes

  const APPLICATION_DATA: nat := 23

  /** What one BIO_write can do: fail with a code, or take some octets. */
  datatype Outcome = Fail(code: int) | Take(most: nat)

  /** How many octets the writes to come will take before one of them fails, and what the first to fail gives; with
      nothing to come every write fails. */
  function Capacity(bio: seq<Outcome>): nat {
    if bio == [] || bio[0].Fail? then 0 else bio[0].most + Capacity(bio[1..])
  }

  function Failure(bio: seq<Outcome>): int {
    if bio == [] then -1 else if bio[0].Fail? then bio[0].code else Failure(bio[1..])
  }

  lemma FailureFails(bio: seq<Outcome>)
    requires forall o <- bio :: o.Fail? ==> o.code <= 0
    ensures Failure(bio) <= 0
  {
    if bio != [] && bio[0].Take? {
      FailureFails(bio[1..]);
    }
  }

  /** A record given to the record layer. */
  datatype Plain = Plain(kind: nat, data: bytes)

  /** The record layer: the octets of the k-th record. Its keys and sequence numbers are behind the index. */
  type Seal = (nat, Plain) -> bytes

  /** The octets of records sealed one after the other. */
  function Sealed(seal: Seal, log: seq<Plain>): bytes {
    if log == [] then [] else Sealed(seal, log[..|log| - 1]) + seal(|log| - 1, log[|log| - 1])
  }

  lemma SealedSnoc(seal: Seal, log: seq<Plain>, p: Plain)
    ensures Sealed(seal, log + [p]) == Sealed(seal, log) + seal(|log|, p)
  {
    assert (log + [p])[..|log|] == log;
  }

  /** Where the last record of the first n octets begins. */
  function ChunkStart(n: nat, max: nat): (k: nat)
    requires n > 0 && max > 0
    ensures k < n <= k + max
  {
    (n - 1) / max * max
  }

  /** The first n octets of a message in records of at most max octets. */
  function Chunks(kind: nat, data: bytes, n: nat, max: nat): seq<Plain>
    requires n <= |data| && max > 0
  {
    if n == 0 then []
    else var k := ChunkStart(n, max); Chunks(kind, data, k, max) + [Plain(kind, data[k..n])]
  }

  /** The chunk after n octets, where n is a multiple of max, makes one more record. */
  lemma NextChunk(kind: nat, data: bytes, n: nat, nw: nat, max: nat)
    requires max > 0 && n % max == 0 && 0 < nw <= max && n + nw <= |data|
    ensures Chunks(kind, data, n + nw, max) == Chunks(kind, data, n, max) + [Plain(kind, data[n..n + nw])]
  {
    var q := n / max;
    assert n == q * max;
    ChunkQuotient(q, nw, max);
  }

  /** The octets of some records, one after the other. */
  function Payload(log: seq<Plain>): bytes {
    if log == [] then [] else Payload(log[..|log| - 1]) + log[|log| - 1].data
  }

  /** The chunks are the message: in order, none empty, none too long. */
  lemma {:induction false} ChunksCover(kind: nat, data: bytes, n: nat, max: nat)
    requires n <= |data| && max > 0
    ensures Payload(Chunks(kind, data, n, max)) == data[..n]
    ensures forall c <- Chunks(kind, data, n, max) :: c.kind == kind && 0 < |c.data| <= max
  {
    if n > 0 {
      var k := ChunkStart(n, max);
      ChunksCover(kind, data, k, max);
      var before, c := Chunks(kind, data, k, max), Plain(kind, data[k..n]);
      assert (before + [c])[..|before|] == before;
      assert data[..k] + data[k..n] == data[..n];
    }
  }

  lemma ChunkQuotient(q: nat, nw: nat, max: nat)
    requires 0 < nw <= max
    ensures ChunkStart(q * max + nw, max) == q * max
  {
    DivMod(q * max + nw - 1, max, q, nw - 1);
  }

  lemma NextMultiple(n: nat, max: nat)
    requires max > 0 && n % max == 0
    ensures (n + max) % max == 0
  {
    var q := n / max;
    assert n == q * max;
    assert n + max == (q + 1) * max;
    DivMod(n + max, max, q + 1, 0);
  }

  lemma NextMultipleIf(n: nat, max: nat)
    requires max > 0
    ensures n % max == 0 ==> (n + max) % max == 0
  {
    if n % max == 0 {
      NextMultiple(n, max);
    }
  }

  class Writer {
    const seal: Seal
    const maxSendFragment: nat
    const needEmptyFragments: bool
    const enablePartialWrite: bool
    const acceptMovingBuffer: bool
    const buf: array<byte>
    const align: nat
    var offset: nat
    var left: nat
    var wpendTot: nat
    var wpendBuf: int
    var wpendKind: nat
    var wpendRet: nat
    var wnum: nat
    var emptyFragmentDone: bool
    var bio: seq<Outcome>
    // The number of records sealed so far.
    var seqNum: nat
    // The octets the network has taken, and the records sealed, in order.
    var net: bytes
    ghost var log: seq<Plain>

    constructor (seal: Seal, maxSendFragment: nat, buf: array<byte>, align: nat, needEmptyFragments: bool,
                 enablePartialWrite: bool, acceptMovingBuffer: bool, bio: seq<Outcome>)
      requires align <= 7 && align <= buf.Length && maxSendFragment > 0
      requires forall k: nat, p: Plain :: |p.data| <= maxSendFragment ==>
                 0 < |seal(k, p)| && 2 * |seal(k, p)| + align <= buf.Length
      requires forall o <- bio :: if o.Fail? then o.code <= 0 else o.most > 0
      ensures Valid() && left == 0 && wnum == 0 && !emptyFragmentDone && log == [] && net == []
    {
      this.seal, this.maxSendFragment, this.buf, this.align := seal, maxSendFragment, buf, align;
      this.needEmptyFragments, this.enablePartialWrite := needEmptyFragments, enablePartialWrite;
      this.acceptMovingBuffer, this.bio := acceptMovingBuffer, bio;
      offset, left, wpendTot, wpendBuf, wpendKind, wpendRet := 0, 0, 0, 0, 0, 0;
      wnum, emptyFragmentDone, seqNum, net, log := 0, false, 0, [], [];
    }

    /** With nothing left to send any message can be started. */
    lemma Idle(kind: nat, data: bytes)
      requires Valid() && left == 0 && wnum == 0 && !emptyFragmentDone
      ensures Begun(log, kind, [], wnum) && Steady(log, kind, data, wnum)
    {
      NoChunks(kind, data, maxSendFragment);
      assert log + [] == log && log[|log|..] == [];
    }

    /** The buffer holds any two sealed records, and sealing always gives something. */
    ghost predicate Roomy()
    {
      && align <= 7 && maxSendFragment > 0
      && forall k: nat, p: Plain :: |p.data| <= maxSendFragment ==>
           0 < |seal(k, p)| && 2 * |seal(k, p)| + align <= buf.Length
    }

    ghost predicate Valid()
      reads `offset, `left, `bio, `seqNum, `net, `log, buf
    {
      && Roomy()
      && offset + left <= buf.Length
      && (forall o <- bio :: if o.Fail? then o.code <= 0 else o.most > 0)
      && seqNum == |log| && net + Pending() == Sealed(seal, log)
    }

    /** The octets sealed but not sent. */
    ghost function Pending(): bytes
      requires offset + left <= buf.Length
      reads `offset, `left, buf
    {
      buf[offset..offset + left]
    }

    /** The empty record before the first octets of a message. */
    ghost function Lead(kind: nat, n: nat): seq<Plain> {
      if needEmptyFragments && kind == APPLICATION_DATA && n > 0 then [Plain(kind, [])] else []
    }

    /** Since base, these octets of a message have been sealed, tot of them in records that are on the network; as long
        as something is left to send the rest are in one more record. */
    ghost predicate Begun(base: seq<Plain>, kind: nat, sealed: bytes, tot: nat)
      reads `left, `wpendTot, `wpendKind, `wpendRet, `emptyFragmentDone, `log
    {
      && |sealed| == tot + (if left > 0 then wpendTot else 0)
      && InRecords(base + Lead(kind, |sealed|), log, kind, sealed, maxSendFragment)
      && emptyFragmentDone == (Lead(kind, |sealed|) != [])
      && (left > 0 ==> wpendTot == wpendRet > 0 && wpendKind == kind)
    }

    /** The records are those of a message written with the same length every time: all but the last of them full. */
    ghost predicate Steady(base: seq<Plain>, kind: nat, data: bytes, tot: nat)
      requires maxSendFragment > 0
      reads `left, `wpendTot, `log
    {
      var n := tot + if left > 0 then wpendTot else 0;
      && n <= |data| && tot % maxSendFragment == 0
      && log == base + Lead(kind, n) + Chunks(kind, data, n, maxSendFragment)
      && (left > 0 ==> wpendTot == Size(|data| - tot))
    }

    /** The size of the next chunk. */
    function Size(n: nat): nat {
      if n > maxSendFragment then maxSendFragment else n
    }

    /** A call with a message of this length, of which tot octets have been sent, repeats what was sealed or has more to
        send. */
    ghost predicate Continues(kind: nat, p: int, len: nat, tot: nat)
      reads `left, `wpendTot, `wpendBuf, `wpendKind
    {
      if left > 0 then Retries(kind, p + tot, Turn(len, tot)) else tot < len
    }

    /** What is offered in a turn after tot octets */
    function Turn(len: nat, tot: nat): nat {
      if tot < len then Size(len - tot) else 0
    }

    /** BIO_write */
    method BioWrite() returns (i: int)
      requires Valid() && left > 0
      modifies `bio, `net
      ensures i <= left && net == old(net) + if i > 0 then buf[offset..offset + i] else []
      ensures i <= 0 ==> old(Capacity(bio)) == 0 && i == old(Failure(bio))
      ensures i > 0 ==> Failure(bio) == old(Failure(bio))
      ensures 0 < i < left ==> old(Capacity(bio)) == i + Capacity(bio)
      ensures i == left ==> old(Capacity(bio)) >= i
      ensures forall o <- bio :: if o.Fail? then o.code <= 0 else o.most > 0
    {
      if bio == [] {
        return -1;
      }
      var o := bio[0];
      bio := bio[1..];
      if o.Fail? {
        return o.code;
      }
      i := if o.most <= left then o.most else left;
      net := net + buf[offset..offset + i];
    }

    /** The arguments are those of the call that sealed what is left to send, as far as the code looks. */
    ghost predicate Retries(kind: nat, p: int, len: nat)
      reads `wpendTot, `wpendBuf, `wpendKind
    {
      wpendTot <= len && (wpendBuf == p || acceptMovingBuffer) && wpendKind == kind
    }

    /** ssl3_write_pending */
    method WritePending(kind: nat, p: int, len: nat) returns (r: int)
      requires Valid() && left > 0 && wpendRet > 0
      modifies `offset, `left, `bio, `net
      ensures Valid()
      ensures wpendTot > len || (wpendBuf != p && !acceptMovingBuffer) || wpendKind != kind ==>
                r == -1 && left == old(left)
      ensures r > 0 ==> r == wpendRet && left == 0
      ensures r <= 0 ==> left > 0
      // Otherwise what the network takes before it fails decides.
      ensures !(wpendTot > len || (wpendBuf != p && !acceptMovingBuffer) || wpendKind != kind) ==>
                if old(Capacity(bio)) >= old(left) then r == wpendRet
                else r == old(Failure(bio)) && left == old(left) - old(Capacity(bio))
      ensures r > 0 ==> Failure(bio) == old(Failure(bio))
    {
      FailureFails(bio);
      if wpendTot > len || (wpendBuf != p && !acceptMovingBuffer) || wpendKind != kind {
        return -1;
      }
      hide Sealed, Capacity, Failure;
      while true
        invariant Valid() && 0 < left <= old(left)
        invariant old(Capacity(bio)) == old(left) - left + Capacity(bio) && Failure(bio) == old(Failure(bio))
        decreases left
      {
        ghost var was, q := net, Pending();
        var i := BioWrite();
        if i <= 0 {
          assert was + [] == was;
          return i;
        }
        Advance(was, q, i);
        if left == 0 {
          return wpendRet;
        }
      }
    }

    /** So many octets have been taken. */
    method Advance(ghost was: bytes, ghost q: bytes, i: nat)
      requires offset + left <= buf.Length && i <= left
      requires q == Pending() && net == was + buf[offset..offset + i]
      modifies `offset, `left
      ensures left == old(left) - i && offset + left <= buf.Length && net + Pending() == was + q
    {
      assert q == buf[offset..offset + i] + buf[offset + i..offset + left];
      assert was + (buf[offset..offset + i] + buf[offset + i..offset + left])
             == (was + buf[offset..offset + i]) + buf[offset + i..offset + left];
      offset := offset + i;
      left := left - i;
    }

    /** do_ssl3_write */
    method DoWrite(kind: nat, p: int, data: bytes) returns (r: int)
      requires Valid() && |data| <= maxSendFragment && (left > 0 ==> wpendRet > 0)
      modifies `offset, `left, `wpendTot, `wpendBuf, `wpendKind, `wpendRet, `emptyFragmentDone, `seqNum, `bio, `net,
               `log, buf
      ensures Valid()
      ensures r > 0 ==> r == wpendRet && left == 0
      // Something was left to send: nothing is sealed.
      ensures old(left) > 0 || data == [] ==>
                unchanged(`log, `emptyFragmentDone, `wpendTot, `wpendBuf, `wpendKind, `wpendRet)
      ensures old(left) > 0 && r <= 0 ==> left > 0
      ensures old(left) > 0 && r > 0 ==>
                wpendTot <= |data| && wpendKind == kind && (wpendBuf == p || acceptMovingBuffer)
      ensures old(left) == 0 && data == [] ==> r == 0 && left == 0
      // A call fails for a retry with other arguments, or as the network does.
      ensures old(left) > 0 && !Retries(kind, p, |data|) ==> r == -1
      ensures r <= 0 && (old(left) > 0 ==> Retries(kind, p, |data|)) && (old(left) == 0 ==> data != []) ==>
                r == old(Failure(bio))
      ensures old(left) > 0 && Retries(kind, p, |data|) && old(Capacity(bio)) >= old(left) ==> r > 0
      ensures old(left) == 0 && data != [] && old(Capacity(bio)) >= |Sealed(seal, log)| - |old(net)| ==> r > 0
      ensures r > 0 ==> Failure(bio) == old(Failure(bio))
      // Nothing was left: the data are sealed, with an empty record before them where one is due.
      ensures old(left) == 0 && data != [] ==>
                var due := needEmptyFragments && !old(emptyFragmentDone) && kind == APPLICATION_DATA;
                && log == old(log) + (if due then [Plain(kind, [])] else []) + [Plain(kind, data)]
                && emptyFragmentDone == (old(emptyFragmentDone) || due)
                && wpendTot == wpendRet == |data| && wpendBuf == p && wpendKind == kind
                && (r <= 0 ==> left > 0)
    {
      hide Sealed, Roomy, Pending, Capacity, Failure;
      if left != 0 {
        r := WritePending(kind, p, |data|);
        return;
      }
      if data == [] {
        return 0;
      }
      Seal(kind, data);
      LeftToSend();
      wpendTot, wpendBuf, wpendKind, wpendRet := |data|, p, kind, |data|;
      r := WritePending(kind, p, |data|);
    }

    lemma LeftToSend()
      requires Valid()
      ensures left == |Sealed(seal, log)| - |net|
    {
      hide Sealed;
      assert |net + Pending()| == |net| + left;
    }

    /** The middle of do_ssl3_write: the data are sealed into the buffer, after an empty record where one is due. */
    method Seal(kind: nat, data: bytes)
      requires Valid() && 0 < |data| <= maxSendFragment && left == 0
      modifies `offset, `left, `emptyFragmentDone, `seqNum, `log, buf
      ensures Valid() && left > 0
      ensures var due := needEmptyFragments && !old(emptyFragmentDone) && kind == APPLICATION_DATA;
              && log == old(log) + (if due then [Plain(kind, [])] else []) + [Plain(kind, data)]
              && emptyFragmentDone == (old(emptyFragmentDone) || due)
    {
      hide Sealed;
      var needEmptyFragment := needEmptyFragments && !emptyFragmentDone && kind == APPLICATION_DATA;
      offset := align;
      var out: bytes := [];
      assert net + [] == net;
      if needEmptyFragment {
        out := seal(seqNum, Plain(kind, []));
        SealedSnoc(seal, log, Plain(kind, []));
        log, seqNum := log + [Plain(kind, [])], seqNum + 1;
        emptyFragmentDone := true;
      }
      SealedSnoc(seal, log, Plain(kind, data));
      var last := seal(seqNum, Plain(kind, data));
      log, seqNum := log + [Plain(kind, data)], seqNum + 1;
      assert (net + out) + last == net + (out + last);
      Fill(out + last);
    }

    /** The sealed records are in the buffer. */
    method Fill(out: bytes)
      requires align + |out| <= buf.Length && offset == align
      modifies `left, buf
      ensures left == |out| && Pending() == out
    {
      forall i | 0 <= i < |out| {
        buf[align + i] := out[i];
      }
      left := |out|;
      assert buf[align..align + |out|] == out;
    }

    /** One turn of the loop of ssl3_write_bytes. */
    method WriteChunk(ghost base: seq<Plain>, kind: nat, p: int, data: bytes, tot: nat, ghost sealed: bytes)
      returns (i: int, ghost now: bytes)
      requires Valid() && Begun(base, kind, sealed, tot) && (sealed <= data || data <= sealed)
      modifies `offset, `left, `wpendTot, `wpendBuf, `wpendKind, `wpendRet, `emptyFragmentDone, `seqNum, `bio, `net,
               `log, buf
      ensures Valid() && sealed <= now && (now <= data || data <= now)
      ensures i <= 0 ==> Begun(base, kind, now, tot)
      ensures i > 0 ==> left == 0 && tot + i <= |data| && now == data[..tot + i] && Begun(base, kind, now, tot + i)
      ensures old(Steady(base, kind, data, tot)) && tot < |data| ==> KeptSteady(base, kind, data, tot, i)
      ensures i > 0 ==> Failure(bio) == old(Failure(bio))
      ensures i <= 0 && old(Continues(kind, p, |data|, tot)) ==> i == old(Failure(bio))
    {
      hide InRecords, Sealed, Chunks, Pending, Begun, Steady, KeptSteady, Failure, Capacity;
      var nw := if tot < |data| then Size(|data| - tot) else 0;
      now := sealed;
      SealedSoFar(base, kind, sealed, tot);
      if left > 0 {
        i := RetryChunk(base, kind, p, data, tot, nw, sealed);
      } else if tot < |data| {
        now := data[..tot + nw];
        i := NewChunk(base, kind, p, data, tot, nw, sealed);
      } else {
        i := DoWrite(kind, p + tot, []);
      }
    }

    lemma SealedSoFar(base: seq<Plain>, kind: nat, sealed: bytes, tot: nat)
      requires Begun(base, kind, sealed, tot)
      ensures tot <= |sealed| && (left == 0 ==> tot == |sealed|)
    {}

    /** A chunk that was sealed but not sent as a whole is tried again. */
    method RetryChunk(ghost base: seq<Plain>, kind: nat, p: int, data: bytes, tot: nat, nw: nat, ghost sealed: bytes)
      returns (i: int)
      requires Valid() && left > 0 && nw == if tot < |data| then Size(|data| - tot) else 0
      requires Begun(base, kind, sealed, tot) && (sealed <= data || data <= sealed)
      modifies `offset, `left, `wpendTot, `wpendBuf, `wpendKind, `wpendRet, `emptyFragmentDone, `seqNum, `bio, `net,
               `log, buf
      ensures Valid()
      ensures i <= 0 ==> Begun(base, kind, sealed, tot)
      ensures i > 0 ==>
                left == 0 && tot + i <= |data| && sealed == data[..tot + i] && Begun(base, kind, sealed, tot + i)
      ensures old(Steady(base, kind, data, tot)) && tot < |data| ==> KeptSteady(base, kind, data, tot, i)
      ensures i > 0 ==> Failure(bio) == old(Failure(bio))
      ensures i <= 0 ==> i == if old(Retries(kind, p + tot, nw)) then old(Failure(bio)) else -1
    {
      hide InRecords, Sealed, Chunks, Pending, Failure, Capacity;
      NextMultipleIf(tot, maxSendFragment);
      i := DoWrite(kind, p + tot, if tot < |data| then data[tot..tot + nw] else []);
    }

    /** The first try at a chunk */
    method NewChunk(ghost base: seq<Plain>, kind: nat, p: int, data: bytes, tot: nat, nw: nat, ghost sealed: bytes)
      returns (i: int)
      requires Valid() && left == 0 && tot < |data| && nw == Size(|data| - tot)
      requires sealed == data[..tot] && Begun(base, kind, sealed, tot)
      modifies `offset, `left, `wpendTot, `wpendBuf, `wpendKind, `wpendRet, `emptyFragmentDone, `seqNum, `bio, `net,
               `log, buf
      ensures Valid() && (i <= 0 <==> left > 0) && (i > 0 ==> i == nw)
      ensures Begun(base, kind, data[..tot + nw], if i > 0 then tot + i else tot)
      ensures old(Steady(base, kind, data, tot)) ==> KeptSteady(base, kind, data, tot, i)
      ensures if i <= 0 then i == old(Failure(bio)) else Failure(bio) == old(Failure(bio))
    {
      hide InRecords, Sealed, Chunks, Pending, Failure, Capacity;
      var chunk := data[tot..tot + nw];
      if Steady(base, kind, data, tot) {
        SteadyMore(base, log, kind, data, tot, nw, maxSendFragment, Lead(kind, tot), Lead(kind, tot + nw));
      }
      assert sealed + chunk == data[..tot + nw];
      SealedMore(base, log, kind, sealed, chunk, maxSendFragment, Lead(kind, tot), Lead(kind, tot + nw));
      i := DoWrite(kind, p + tot, chunk);
    }

    ghost predicate KeptSteady(base: seq<Plain>, kind: nat, data: bytes, tot: nat, i: int)
      requires maxSendFragment > 0 && tot < |data|
      reads `left, `wpendTot, `log
    {
      && (i <= 0 ==> Steady(base, kind, data, tot))
      && (i > 0 ==> i == Size(|data| - tot)
                    && log == base + Lead(kind, tot + i) + Chunks(kind, data, tot + i, maxSendFragment))
      && (0 < i < |data| - tot ==> Steady(base, kind, data, tot + i))
    }

    /** ssl3_write_bytes: any number of failed calls, from whatever addresses and of whatever lengths, and the one that
        succeeds seal each octet of the message once and in order, and the network gets the sealed octets once, in
        order. If all calls give the whole message, all records but the last are full. */
    method WriteBytes(ghost base: seq<Plain>, kind: nat, p: int, data: bytes, ghost sealed: bytes)
      returns (r: int, ghost now: bytes)
      requires Valid() && Begun(base, kind, sealed, wnum) && (sealed <= data || data <= sealed)
      modifies this, buf
      ensures Valid() && sealed <= now && (now <= data || data <= now)
      ensures r <= 0 ==> Begun(base, kind, now, wnum)
      ensures r > 0 ==> r <= |data| && (r == |data| || (kind == APPLICATION_DATA && enablePartialWrite))
      ensures r > 0 ==> now == data[..r] && InRecords(base + Lead(kind, r), log, kind, data[..r], maxSendFragment)
      ensures r > 0 ==> net == Sealed(seal, log) && left == 0 && wnum == 0 && !emptyFragmentDone
      ensures data == [] ==> r <= 0
      // It fails as the network does, or for a retry with other arguments.
      ensures r <= 0 && old(Continues(kind, p, |data|, wnum)) ==> r == old(Failure(bio))
      ensures old(Steady(base, kind, data, wnum) && wnum < |data|) ==>
                && (r <= 0 ==> Steady(base, kind, data, wnum) && wnum < |data|)
                && (r > 0 ==> log == base + Lead(kind, r) + Chunks(kind, data, r, maxSendFragment))
    {
      hide Sealed, Chunks, Lead, InRecords, Begun, Steady, Failure, Continues, Roomy, Pending;
      SomeRoom();
      var tot := wnum;
      ghost var continues := Continues(kind, p, |data|, tot);
      ghost var steady := Steady(base, kind, data, tot) && tot < |data|;
      wnum := 0;
      now := sealed;
      var n := if |data| < tot then 0 else |data| - tot;
      while true
        invariant Valid() && n == (if |data| < tot then 0 else |data| - tot) && Begun(base, kind, now, tot) && wnum == 0
        invariant sealed <= now && (now <= data || data <= now)
        invariant steady ==> Steady(base, kind, data, tot) && tot < |data|
        invariant Failure(bio) == old(Failure(bio))
        invariant continues ==> Continues(kind, p, |data|, tot)
        decreases n
      {
        var i;
        i, now := WriteChunk(base, kind, p, data, tot, now);
        if i <= 0 {
          wnum := tot;
          return i, now;
        }
        if i == n || (kind == APPLICATION_DATA && enablePartialWrite) {
          BegunMeans(base, kind, now, tot + i);
          AllSent();
          emptyFragmentDone := false;
          return tot + i, now;
        }
        n := n - i;
        tot := tot + i;
        Continued(kind, p, |data|, tot);
      }
    }

    lemma SomeRoom()
      requires Valid()
      ensures maxSendFragment > 0
    {}

    lemma AllSent()
      requires Valid() && left == 0
      ensures net == Sealed(seal, log)
    {
      hide Sealed;
      assert net + Pending() == net;
    }

    lemma Continued(kind: nat, p: int, len: nat, tot: nat)
      requires left == 0 && tot < len
      ensures Continues(kind, p, len, tot)
    {}

    lemma BegunMeans(base: seq<Plain>, kind: nat, sealed: bytes, tot: nat)
      requires Begun(base, kind, sealed, tot)
      ensures InRecords(base + Lead(kind, |sealed|), log, kind, sealed, maxSendFragment)
    {}
  }

  /** The records carry these octets in order, none empty and none too long. */
  ghost predicate Carry(records: seq<Plain>, kind: nat, data: bytes, max: nat) {
    Payload(records) == data && forall c <- records :: c.kind == kind && 0 < |c.data| <= max
  }

  /** Behind front come records that carry these octets. */
  ghost predicate InRecords(front: seq<Plain>, log: seq<Plain>, kind: nat, data: bytes, max: nat) {
    front <= log && Carry(log[|front|..], kind, data, max)
  }

  lemma CarryMore(records: seq<Plain>, kind: nat, data: bytes, max: nat, chunk: bytes)
    requires Carry(records, kind, data, max) && 0 < |chunk| <= max
    ensures Carry(records + [Plain(kind, chunk)], kind, data + chunk, max)
  {
    assert (records + [Plain(kind, chunk)])[..|records|] == records;
  }

  /** A chunk is sealed behind what has been, perhaps with an empty record before the first. */
  lemma SealedMore(base: seq<Plain>, log: seq<Plain>, kind: nat, sealed: bytes, chunk: bytes, max: nat,
                   lead: seq<Plain>, after: seq<Plain>)
    requires InRecords(base + lead, log, kind, sealed, max) && 0 < |chunk| <= max
    requires lead == after || (lead == [] && sealed == [])
    ensures var more := log + (if lead == after then [] else after) + [Plain(kind, chunk)];
            InRecords(base + after, more, kind, sealed + chunk, max)
  {
    hide Carry;
    CarryMore(log[|base + lead|..], kind, sealed, max, chunk);
    var more := log + (if lead == after then [] else after) + [Plain(kind, chunk)];
    if lead == after {
      assert more[|base + after|..] == log[|base + lead|..] + [Plain(kind, chunk)];
    } else {
      NothingCarried(log[|base + lead|..], kind, max);
      assert base + lead == base && log == base;
      assert more[|base + after|..] == [Plain(kind, chunk)];
      assert log[|base + lead|..] + [Plain(kind, chunk)] == [Plain(kind, chunk)];
    }
  }

  /** The same for records that are all full but the last. */
  lemma SteadyMore(base: seq<Plain>, log: seq<Plain>, kind: nat, data: bytes, tot: nat, nw: nat, max: nat,
                   lead: seq<Plain>, after: seq<Plain>)
    requires 0 < nw <= max && tot % max == 0 && tot + nw <= |data|
    requires log == base + lead + Chunks(kind, data, tot, max)
    requires lead == after || (lead == [] && tot == 0)
    ensures log + (if lead == after then [] else after) + [Plain(kind, data[tot..tot + nw])]
            == base + after + Chunks(kind, data, tot + nw, max)
    ensures (tot + max) % max == 0
  {
    NextMultiple(tot, max);
    hide Chunks;
    NextChunk(kind, data, tot, nw, max);
    NoChunks(kind, data, max);
  }

  lemma NothingCarried(records: seq<Plain>, kind: nat, max: nat)
    requires Carry(records, kind, [], max)
    ensures records == []
  {
    PayloadSome(records);
  }

  lemma PayloadSome(records: seq<Plain>)
    requires forall c <- records :: c.data != []
    ensures records != [] ==> Payload(records) != []
  {
    if records != [] {
      assert records[|records| - 1] in records;
    }
  }

  lemma NoChunks(kind: nat, data: bytes, max: nat)
    requires max > 0
    ensures Chunks(kind, data, 0, max) == []
  {
  }
}

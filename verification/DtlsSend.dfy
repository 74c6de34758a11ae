/** How d1_both.c sends handshake messages in fragments, keeps them, and sends them again. */
module DtlsSend {
  import opened Bytes
  import opened HandshakeHeader
  import opened HandshakeStream
  import opened PriorityQueue
  import opened Wrappers

  const CHANGE_CIPHER_SPEC: nat := 20
  const HANDSHAKE: nat := 22
  const RECORD_HEADER_LENGTH: nat := 13
  const CCS_HEADER_LENGTH: nat := 1

  /** A record given to the network and the epoch it was protected under. */
  datatype Sent = Sent(kind: nat, epoch: nat, data: bytes)

  /** Slices that follow one another and cover a body; only the slice of an empty body is empty. */
  ghost predicate Cuts(frags: seq<Frag>, number: nat, len: nat) {
    && frags != [] && frags[0].off == 0 && (len == 0 ==> |frags| == 1)
    && (forall i :: 0 <= i < |frags| ==> frags[i].number == number && (frags[i].len > 0 || len == 0))
    && (forall i, j :: 0 <= i && j == i + 1 && j < |frags| ==> frags[j].off == frags[i].off + frags[i].len)
    && frags[|frags| - 1].off + frags[|frags| - 1].len == len
  }

  /** The record of one slice, a handshake record (22). */
  ghost function Carrier(m: Message, f: Frag, epoch: nat): Sent
    requires f.off + f.len <= |m.body|
  {
    Sent(22, epoch,
         WholeHeader(m, f.number).(fragOff := f.off, fragLen := f.len).Octets() + m.body[f.off..f.off + f.len])
  }

  /** What goes to the transcript with a slice: the header of a single fragment before the first, and the octets. */
  function PartRecorded(m: Message, number: nat, off: nat, len: nat): bytes
    requires off + len <= |m.body|
  {
    (if off == 0 then WholeHeader(m, number).Octets() else []) + m.body[off..off + len]
  }

  /** What is in the transcript when so much of the body has been sent */
  function SentSoFar(m: Message, number: nat, off: nat): bytes
    requires off <= |m.body|
  {
    if off == 0 then [] else WholeHeader(m, number).Octets() + m.body[..off]
  }

  lemma SentMore(m: Message, number: nat, off: nat, len: nat)
    requires off + len <= |m.body|
    ensures len > 0 ==> SentSoFar(m, number, off) + PartRecorded(m, number, off, len) == SentSoFar(m, number, off + len)
    ensures off + len == |m.body| ==>
              SentSoFar(m, number, off) + PartRecorded(m, number, off, len) == Recorded(m, number)
  {
    hide Header.Octets;
    assert m.body[..off] + m.body[off..off + len] == m.body[..off + len];
    assert m.body[..|m.body|] == m.body;
  }

  /** The records are those of the slices of a message, under one epoch. */
  ghost predicate Carries(records: seq<Sent>, m: Message, frags: seq<Frag>, epoch: nat) {
    && |records| == |frags|
    && forall i :: 0 <= i < |frags| ==>
         frags[i].off + frags[i].len <= |m.body| && records[i] == Carrier(m, frags[i], epoch)
  }

  /** A message kept for retransmission: hm_fragment with its saved retransmit state. */
  datatype Kept = Kept(header: Header, isCcs: bool, content: bytes, session: nat, epoch: nat) {
    function HeaderLength(): nat {
      if isCcs then CCS_HEADER_LENGTH else HEADER_LENGTH
    }

    ghost predicate Valid() {
      && header.Fits() && header.fragOff == 0 && header.fragLen == header.msgLen
      && header.number < 0x8000 && (isCcs ==> header.number > 0 && header.msgLen == 0)
      && |content| == header.msgLen + HeaderLength()
    }

    /** dtls1_get_queue_priority */
    function Priority(): int {
      header.number * 2 - if isCcs then 1 else 0
    }

    ghost function Body(): Message
      requires Valid() && !isCcs
    {
      Message(header.kind, content[HEADER_LENGTH..])
    }
  }

  /** Messages in the order of sending: by number, and a ChangeCipherSpec before the Finished of its number. */
  predicate SentBefore(a: Kept, b: Kept) {
    a.header.number < b.header.number || (a.header.number == b.header.number && a.isCcs && !b.isCcs)
  }

  /** Priorities follow that order and collide for no two messages. */
  lemma PriorityOrder(a: Kept, b: Kept)
    requires a.Valid() && b.Valid()
    ensures 0 <= a.Priority() < 0x1_0000
    ensures a.Priority() < b.Priority() <==> SentBefore(a, b)
    ensures a.Priority() == b.Priority() <==> a.header.number == b.header.number && a.isCcs == b.isCcs
  {
  }

  /** What sending a kept message again puts on the network. */
  ghost predicate Emits(records: seq<Sent>, k: Kept)
    requires k.Valid()
  {
    if k.isCcs then records == [Sent(20, k.epoch, k.content)]
    else exists frags ::
           Cuts(frags, k.header.number, k.header.msgLen) && Carries(records, k.Body(), frags, k.epoch)
  }

  /** The first messages of the log have been sent again, each in its records, which keep to the MTU. */
  ghost predicate AllEmitted(outputs: seq<seq<Sent>>, log: seq<Kept>, mtu: nat, overhead: nat) {
    && |outputs| <= |log|
    && forall i :: 0 <= i < |outputs| ==>
         log[i].Valid() && Emits(outputs[i], log[i]) && Within(outputs[i], mtu, overhead)
  }

  lemma NoneEmitted(log: seq<Kept>, mtu: nat, overhead: nat)
    ensures AllEmitted([], log, mtu, overhead)
  {}

  lemma EmittedMore(outputs: seq<seq<Sent>>, log: seq<Kept>, records: seq<Sent>, mtu: nat, overhead: nat)
    requires AllEmitted(outputs, log, mtu, overhead) && |outputs| < |log|
    requires var k := log[|outputs|]; k.Valid() && Emits(records, k) && Within(records, mtu, overhead)
    ensures AllEmitted(outputs + [records], log, mtu, overhead)
  {
    hide Emits, Within, Kept.Valid;
  }

  function Flatten<T>(ss: seq<seq<T>>): seq<T> {
    if ss == [] then [] else Flatten(ss[..|ss| - 1]) + ss[|ss| - 1]
  }

  lemma FlattenSnoc<T>(ss: seq<seq<T>>, s: seq<T>)
    ensures Flatten(ss + [s]) == Flatten(ss) + s && Flatten<T>([]) == []
  {
    assert (ss + [s])[..|ss|] == ss;
  }

  ghost function KeptIn(nodes: seq<Item<Kept>>): (log: seq<Kept>)
    ensures |log| == |nodes| && forall i :: 0 <= i < |log| ==> log[i] == nodes[i].data
  {
    seq(|nodes|, i requires 0 <= i < |nodes| => nodes[i].data)
  }

  lemma NothingSent(m: Message, number: nat, epoch: nat)
    ensures Carries([], m, [], epoch) && SentSoFar(m, number, 0) == []
  {}

  /** What BIO_wpending reports before record i */
  function PendingAt(wpending: seq<nat>, i: nat): nat {
    if i < |wpending| then wpending[i] else 0
  }

  /** Each record with its header and the overhead of its protection keeps to the MTU, together with what is pending
      unless that leaves no room for a fragment and has to be flushed first; and each but the last fills that room. */
  ghost predicate Sized(records: seq<Sent>, wpending: seq<nat>, mtu: nat, overhead: nat) {
    forall i :: 0 <= i < |records| ==>
      var size, pending := 13 + |records[i].data| + overhead, PendingAt(wpending, i);
      var flushed := pending + 13 + 12 + overhead >= mtu;
      && size <= mtu && (!flushed ==> pending + size <= mtu)
      && (i < |records| - 1 ==> size == if flushed then mtu else mtu - pending)
  }

  /** What is left of the reports after n of them */
  ghost predicate Behind(left: seq<nat>, wpending: seq<nat>, n: nat) {
    left == if n <= |wpending| then wpending[n..] else []
  }

  lemma OneBehind(left: seq<nat>, wpending: seq<nat>, n: nat)
    requires Behind(left, wpending, n)
    ensures PendingAt(left, 0) == PendingAt(wpending, n)
    ensures Behind(if left == [] then [] else left[1..], wpending, n + 1)
  {}

  /** What the fragments sent so far are, the last of them having filled its room */
  ghost predicate CutSoFar(frags: seq<Frag>, records: seq<Sent>, number: nat, fragOff: nat, wpending: seq<nat>,
                           left: seq<nat>, mtu: nat, overhead: nat) {
    && (frags == [] <==> fragOff == 0) && (frags != [] ==> Cuts(frags, number, fragOff))
    && |records| == |frags| && Sized(records, wpending, mtu, overhead) && Behind(left, wpending, |records|)
    && (records != [] ==> Full(records[|records| - 1], PendingAt(wpending, |records| - 1), mtu, overhead))
  }

  lemma NoneSized(wpending: seq<nat>, number: nat, mtu: nat, overhead: nat)
    ensures CutSoFar([], [], number, 0, wpending, wpending, mtu, overhead)
  {}

  /** One more fragment, which fills its room if it is not the last */
  lemma CutMore(frags: seq<Frag>, records: seq<Sent>, number: nat, fragOff: nat, wpending: seq<nat>, left: seq<nat>,
                mtu: nat, overhead: nat, n: nat, r: Sent, more: bool)
    requires CutSoFar(frags, records, number, fragOff, wpending, left, mtu, overhead)
    requires mtu > overhead + 13 + 12 && (n > 0 || (fragOff == 0 && !more))
    requires var size, pending := 13 + |r.data| + overhead, PendingAt(left, 0);
             var flushed := pending + 13 + 12 + overhead >= mtu;
             && size <= mtu && (!flushed ==> pending + size <= mtu)
             && (more ==> size == if flushed then mtu else mtu - pending)
    ensures Cuts(frags + [Frag(number, fragOff, n)], number, fragOff + n)
    ensures Sized(records + [r], wpending, mtu, overhead)
    ensures more ==> CutSoFar(frags + [Frag(number, fragOff, n)], records + [r], number, fragOff + n, wpending,
                              if left == [] then [] else left[1..], mtu, overhead)
  {
    hide Cuts, Sized;
    OneBehind(left, wpending, |records|);
    SizedMore(records, r, wpending, mtu, overhead);
    OneMore(frags, number, fragOff, n);
  }

  lemma CarrierSize(m: Message, f: Frag, epoch: nat)
    requires f.off + f.len <= |m.body|
    ensures |Carrier(m, f, epoch).data| == HEADER_LENGTH + f.len
  {
    hide Header.Octets;
  }

  /** Each record keeps to the MTU. */
  ghost predicate Within(records: seq<Sent>, mtu: nat, overhead: nat) {
    forall r <- records :: 13 + |r.data| + overhead <= mtu
  }

  lemma WithinMore(a: seq<Sent>, b: seq<Sent>, mtu: nat, overhead: nat)
    ensures Within(a + b, mtu, overhead) <==> Within(a, mtu, overhead) && Within(b, mtu, overhead)
    ensures Within([], mtu, overhead)
  {
    if Within(a + b, mtu, overhead) {
      assert forall r <- a :: r in a + b;
      assert forall r <- b :: r in a + b;
    }
  }

  lemma {:induction false} WithinFlatten(outputs: seq<seq<Sent>>, mtu: nat, overhead: nat)
    requires forall i :: 0 <= i < |outputs| ==> Within(outputs[i], mtu, overhead)
    ensures Within(Flatten(outputs), mtu, overhead)
  {
    hide Within;
    if outputs == [] {
      WithinMore([], [], mtu, overhead);
    } else {
      var k := |outputs| - 1;
      WithinFlatten(outputs[..k], mtu, overhead);
      WithinMore(Flatten(outputs[..k]), outputs[k], mtu, overhead);
    }
  }

  lemma SizedWithin(records: seq<Sent>, wpending: seq<nat>, mtu: nat, overhead: nat)
    requires Sized(records, wpending, mtu, overhead)
    ensures Within(records, mtu, overhead)
  {}

  lemma SizedMore(records: seq<Sent>, r: Sent, wpending: seq<nat>, mtu: nat, overhead: nat)
    requires Sized(records, wpending, mtu, overhead) && mtu > overhead + 13 + 12
    requires records != [] ==> Full(records[|records| - 1], PendingAt(wpending, |records| - 1), mtu, overhead)
    requires var size, pending := 13 + |r.data| + overhead, PendingAt(wpending, |records|);
             && size <= mtu
             && (pending + 13 + 12 + overhead < mtu ==> pending + size <= mtu)
    ensures Sized(records + [r], wpending, mtu, overhead)
  {}

  /** The record fills its room. */
  ghost predicate Full(r: Sent, pending: nat, mtu: nat, overhead: nat) {
    13 + |r.data| + overhead ==
    if pending + 13 + 12 + overhead >= mtu then mtu else mtu - pending
  }

  class Sender {
    const mtu: nat
    const overhead: nat
    // What BIO_wpending will report, turn by turn; nothing pending after that.
    var wpending: seq<nat>
    var initBuf: array<byte>
    var initNum: nat
    var initOff: nat
    var wMsgHdr: Header
    var writeEpoch: nat
    // The write protections of the record layer: the current one and perhaps the one before.
    var currentEpoch: nat
    var previousEpoch: Option<nat>
    var session: nat
    var retransmitting: bool
    var transcript: bytes
    var written: seq<Sent>
    const sentMessages: PQueue<Kept>

    constructor (mtu: nat, overhead: nat, initBuf: array<byte>)
      requires mtu > overhead + RECORD_HEADER_LENGTH + HEADER_LENGTH
      ensures Valid() && this.initBuf == initBuf && fresh(this) && fresh(sentMessages)
      ensures sentMessages.nodes == [] && !retransmitting && transcript == [] && written == [] && initOff == 0
              && writeEpoch == 0
    {
      this.mtu, this.overhead, this.initBuf := mtu, overhead, initBuf;
      sentMessages := new PQueue<Kept>();
      wpending, initNum, initOff, wMsgHdr := [], 0, 0, Header(0, 0, 0, 0, 0);
      writeEpoch, currentEpoch, previousEpoch, session := 0, 0, None, 0;
      retransmitting, transcript, written := false, [], [];
    }

    /** The messages kept, in the order of the queue. */
    ghost function Log(): seq<Kept>
      reads sentMessages
    {
      KeptIn(sentMessages.nodes)
    }

    ghost predicate Valid()
      reads `initBuf, `writeEpoch, `currentEpoch, `previousEpoch, sentMessages, (set n | n in sentMessages.nodes)
    {
      && mtu > overhead + RECORD_HEADER_LENGTH + HEADER_LENGTH
      && sentMessages.Valid()
      && (forall n <- sentMessages.nodes ::
            n.data.Valid() && FromBe(n.priority) == n.data.Priority() && |n.data.content| <= initBuf.Length)
      && (writeEpoch == currentEpoch || previousEpoch == Some(writeEpoch))
    }

    /** The protection of this epoch still exists. */
    ghost predicate Available(epoch: nat)
      reads this
    {
      epoch == writeEpoch || epoch == currentEpoch || previousEpoch == Some(epoch)
    }

    /** tls12_record_layer_use_write_epoch */
    method UseWriteEpoch(epoch: nat) returns (ok: bool)
      requires Valid()
      modifies `writeEpoch
      ensures Valid() && ok == old(Available(epoch)) && writeEpoch == if ok then epoch else old(writeEpoch)
      ensures forall e :: Available(e) == old(Available(e))
    {
      if writeEpoch == epoch {
        return true;
      }
      if currentEpoch == epoch {
        writeEpoch := epoch;
        return true;
      }
      if previousEpoch == Some(epoch) {
        writeEpoch := epoch;
        return true;
      }
      ok := false;
    }

    /** The body of the message to be sent stands in the buffer behind room for its header. */
    ghost predicate Loaded(m: Message, number: nat)
      reads this, initBuf
    {
      && number < 0x1_0000 && m.kind < 0x100 && |m.body| < 0x100_0000
      && wMsgHdr.kind == m.kind && wMsgHdr.msgLen == |m.body| && wMsgHdr.number == number
      && initNum == HEADER_LENGTH + |m.body| <= initBuf.Length && initOff == 0
      && forall i :: 0 <= i < |m.body| ==> initBuf[HEADER_LENGTH + i] == m.body[i]
    }

    /** The room for a record; the network is flushed if too little is left. */
    method CurrentMtu() returns (currMtu: nat)
      requires mtu > overhead + RECORD_HEADER_LENGTH + HEADER_LENGTH
      modifies `wpending
      ensures wpending == if old(wpending) == [] then [] else old(wpending)[1..]
      ensures currMtu > HEADER_LENGTH
      ensures var pending := PendingAt(old(wpending), 0);
              if pending + RECORD_HEADER_LENGTH + HEADER_LENGTH + overhead >= mtu
              then RECORD_HEADER_LENGTH + currMtu + overhead == mtu
              else pending + RECORD_HEADER_LENGTH + currMtu + overhead == mtu
    {
      var pending := 0;
      if wpending != [] {
        pending, wpending := wpending[0], wpending[1..];
      }
      var room: int := mtu - pending - RECORD_HEADER_LENGTH - overhead;
      if room <= HEADER_LENGTH {
        room := mtu - RECORD_HEADER_LENGTH - overhead;
      }
      currMtu := room;
    }

    /** dtls1_write_bytes when it succeeds */
    method WriteBytes(kind: nat, data: bytes) returns (ret: nat)
      modifies `written
      ensures ret == |data| && written == old(written) + [Sent(kind, writeEpoch, data)]
    {
      written := written + [Sent(kind, writeEpoch, data)];
      ret := |data|;
    }

    /** What the fields say while a message is being sent and so much of its body has been. */
    ghost predicate Sending(m: Message, number: nat, sent: nat)
      reads `wMsgHdr, `initBuf, initBuf
    {
      && number < 0x1_0000 && m.kind < 0x100 && |m.body| < 0x100_0000 && sent <= |m.body|
      && wMsgHdr == WholeHeader(m, number).(fragOff := wMsgHdr.fragOff, fragLen := wMsgHdr.fragLen)
      && HEADER_LENGTH + |m.body| <= initBuf.Length
      && forall i :: sent <= i < |m.body| ==> initBuf[HEADER_LENGTH + i] == m.body[i]
    }

    /** One fragment of dtls1_do_write: its header is written over octets already sent, or in front. */
    method SendFragment(fragOff: nat, len: nat, ghost m: Message, ghost number: nat) returns (ret: nat)
      requires Sending(m, number, fragOff) && initOff == fragOff && HEADER_LENGTH <= len
      requires fragOff + len <= HEADER_LENGTH + |m.body|
      modifies `wMsgHdr, `transcript, `written, initBuf
      ensures Sending(m, number, fragOff) && ret == len
      ensures written == old(written) + [Carrier(m, Frag(number, fragOff, len - HEADER_LENGTH), writeEpoch)]
      ensures transcript == old(transcript) +
                            if retransmitting then [] else PartRecorded(m, number, fragOff, len - HEADER_LENGTH)
    {
      hide Header.Octets;
      ghost var h, n := WholeHeader(m, number), len - HEADER_LENGTH;
      wMsgHdr := wMsgHdr.(fragOff := fragOff, fragLen := len - HEADER_LENGTH);
      var _ := WriteMessageHeader(wMsgHdr, wMsgHdr.fragOff, wMsgHdr.fragLen, initBuf, initOff);
      assert initBuf[initOff..initOff + len] ==
             h.(fragOff := fragOff, fragLen := n).Octets() + m.body[fragOff..fragOff + n];
      ret := WriteBytes(HANDSHAKE, initBuf[initOff..initOff + len]);
      if !retransmitting {
        RecordFragment(fragOff, ret, m, number);
      }
    }

    /** The transcript gets the first fragment under the header of a single fragment, the others without header. */
    method RecordFragment(fragOff: nat, ret: nat, ghost m: Message, ghost number: nat)
      requires Sending(m, number, fragOff) && initOff == fragOff && HEADER_LENGTH <= ret
      requires fragOff + ret <= HEADER_LENGTH + |m.body|
      modifies `transcript, initBuf
      ensures Sending(m, number, fragOff)
      ensures transcript == old(transcript) + PartRecorded(m, number, fragOff, ret - HEADER_LENGTH)
    {
      hide Header.Octets;
      var p, xlen := initOff, ret;
      if fragOff == 0 {
        var _ := WriteMessageHeader(wMsgHdr, 0, wMsgHdr.msgLen, initBuf, p);
        assert initBuf[p..p + xlen] == WholeHeader(m, number).Octets() + m.body[..ret - HEADER_LENGTH];
      } else {
        p, xlen := p + HEADER_LENGTH, ret - HEADER_LENGTH;
        ghost var x := m.body[fragOff..fragOff + xlen];
        forall i | 0 <= i < |x|
          ensures initBuf[p + i] == x[i]
        {
          assert initBuf[HEADER_LENGTH + (fragOff + i)] == m.body[fragOff + i];
        }
        assert initBuf[p..p + xlen] == m.body[fragOff..fragOff + xlen];
      }
      transcript := transcript + initBuf[p..p + xlen];
    }

    /** One turn of the loop of dtls1_do_write. */
    method NextFragment(fragOff: nat, ghost m: Message, ghost number: nat) returns (ret: nat)
      requires Sending(m, number, fragOff) && mtu > overhead + RECORD_HEADER_LENGTH + HEADER_LENGTH
      requires initOff == if fragOff == 0 then 0 else HEADER_LENGTH + fragOff
      requires initNum == (if fragOff == 0 then HEADER_LENGTH else 0) + |m.body| - fragOff > 0
      modifies `wpending, `initNum, `initOff, `wMsgHdr, `transcript, `written, initBuf
      ensures Sending(m, number, fragOff) && initOff == fragOff && initNum == HEADER_LENGTH + |m.body| - fragOff
      ensures HEADER_LENGTH <= ret <= initNum && (ret > HEADER_LENGTH || m.body == [])
      ensures wpending == if old(wpending) == [] then [] else old(wpending)[1..]
      ensures var size, pending := RECORD_HEADER_LENGTH + ret + overhead, PendingAt(old(wpending), 0);
              var flushed := pending + RECORD_HEADER_LENGTH + HEADER_LENGTH + overhead >= mtu;
              && size <= mtu && (!flushed ==> pending + size <= mtu)
              && (ret < initNum ==> size == if flushed then mtu else mtu - pending)
      ensures written == old(written) + [Carrier(m, Frag(number, fragOff, ret - HEADER_LENGTH), writeEpoch)]
      ensures transcript == old(transcript) +
                            if retransmitting then [] else PartRecorded(m, number, fragOff, ret - HEADER_LENGTH)
    {
      hide Header.Octets, Carrier, WholeHeader, PartRecorded, Sending;
      var currMtu := CurrentMtu();
      var len := if initNum > currMtu then currMtu else initNum;
      if initOff != 0 {
        initOff := initOff - HEADER_LENGTH;
        initNum := initNum + HEADER_LENGTH;
        len := if initNum > currMtu then currMtu else initNum;
      }
      ret := SendFragment(fragOff, len, m, number);
    }

    lemma SendingStarts(m: Message, number: nat)
      requires Loaded(m, number)
      ensures Sending(m, number, 0)
    {}

    lemma SendingOn(m: Message, number: nat, from: nat, to: nat)
      requires Sending(m, number, from) && from <= to <= |m.body|
      ensures Sending(m, number, to)
    {}

    /** dtls1_do_write for a handshake message, every write succeeding */
    method DoWriteHandshake(ghost m: Message, ghost number: nat)
      returns (r: int, ghost frags: seq<Frag>, ghost records: seq<Sent>)
      requires Loaded(m, number) && mtu > overhead + RECORD_HEADER_LENGTH + HEADER_LENGTH
      modifies `wpending, `initNum, `initOff, `wMsgHdr, `transcript, `written, initBuf
      ensures r == 1 && initNum == 0 && initOff == 0
      // The slices cover the body once, in order, and each record carries one.
      ensures Cuts(frags, number, |m.body|)
      ensures written == old(written) + records && Carries(records, m, frags, writeEpoch)
      // Each record keeps to the MTU, and each but the last fills its room.
      ensures Sized(records, old(wpending), mtu, overhead)
      // The transcript gets the message as a single fragment.
      ensures transcript == old(transcript) + if retransmitting then [] else Recorded(m, number)
    {
      hide Header.Octets, Carrier, Carries, Cuts, WholeHeader, Recorded, PartRecorded, SentSoFar, Sending, Sized;
      hide PendingAt, CutSoFar;
      var fragOff := 0;
      NoneSized(wpending, number, mtu, overhead);
      frags, records := [], [];
      NothingSent(m, number, writeEpoch);
      SendingStarts(m, number);
      while initNum > 0
        invariant Sending(m, number, fragOff)
        invariant initOff == if frags == [] then 0 else HEADER_LENGTH + fragOff
        invariant initNum == if frags == [] then HEADER_LENGTH + |m.body| else |m.body| - fragOff
        invariant initNum > 0 && (frags == [] <==> fragOff == 0)
        invariant written == old(written) + records && Carries(records, m, frags, writeEpoch)
        invariant CutSoFar(frags, records, number, fragOff, old(wpending), wpending, mtu, overhead)
        invariant transcript == old(transcript) + if retransmitting then [] else SentSoFar(m, number, fragOff)
        decreases |m.body| - fragOff
      {
        ghost var turn := wpending;
        var ret := NextFragment(fragOff, m, number);
        ghost var n := ret - HEADER_LENGTH;
        CarrierSize(m, Frag(number, fragOff, n), writeEpoch);
        CutMore(frags, records, number, fragOff, old(wpending), turn, mtu, overhead, n,
                Carrier(m, Frag(number, fragOff, n), writeEpoch), ret < initNum);
        CarriesMore(records, m, frags, writeEpoch, Frag(number, fragOff, n));
        frags := frags + [Frag(number, fragOff, n)];
        records := records + [Carrier(m, Frag(number, fragOff, n), writeEpoch)];
        SentMore(m, number, fragOff, n);
        SendingOn(m, number, fragOff, fragOff + n);
        if ret == initNum {
          initOff, initNum := 0, 0;
          return 1, frags, records;
        }
        initOff := initOff + ret;
        initNum := initNum - ret;
        fragOff := fragOff + (ret - HEADER_LENGTH);
      }
      r := 0;
    }

    /** dtls1_do_write for a ChangeCipherSpec */
    method DoWriteCcs() returns (r: int)
      requires initNum == 1 <= initBuf.Length && initOff == 0 && mtu > overhead + RECORD_HEADER_LENGTH + HEADER_LENGTH
      modifies `wpending, `initNum, `initOff, `written
      ensures r == 1 && initNum == 0 && initOff == 0
      ensures written == old(written) + [Sent(CHANGE_CIPHER_SPEC, writeEpoch, old(initBuf[..1]))]
    {
      var currMtu := CurrentMtu();
      var len := if initNum > currMtu then currMtu else initNum;
      var ret := WriteBytes(CHANGE_CIPHER_SPEC, initBuf[initOff..initOff + len]);
      initOff, initNum := 0, 0;
      r := 1;
    }

    /** dtls1_buffer_message */
    method BufferMessage(isCcs: bool) returns (r: int)
      requires Valid() && initOff == 0 && initNum <= initBuf.Length && wMsgHdr.Fits()
      // Numbers below 2^15; a ChangeCipherSpec is numbered like the Finished after it, which is not the first message.
      requires wMsgHdr.number < 0x8000 && (isCcs ==> wMsgHdr.number > 0 && wMsgHdr.msgLen == 0)
      requires wMsgHdr.msgLen + (if isCcs then CCS_HEADER_LENGTH else HEADER_LENGTH) == initNum
      requires forall k <- Log() ::
                 k.header.number < wMsgHdr.number || (k.header.number == wMsgHdr.number && k.isCcs && !isCcs)
      modifies sentMessages, (set n | n in sentMessages.nodes)
      ensures Valid() && r == 1
      ensures Log() == old(Log()) + [Kept(wMsgHdr.(fragOff := 0, fragLen := wMsgHdr.msgLen), isCcs, initBuf[..initNum],
                                          session, writeEpoch)]
      ensures forall n <- sentMessages.nodes :: n in old(sentMessages.nodes) || fresh(n)
    {
      var frag := Kept(wMsgHdr.(fragOff := 0, fragLen := wMsgHdr.msgLen), isCcs, initBuf[..initNum], session,
                       writeEpoch);
      forall k | k in Log()
        ensures k.Priority() < frag.Priority()
      {
        PriorityOrder(k, frag);
      }
      Keep(frag);
      r := 1;
    }

    /** A message that is sent after all those kept joins them. */
    method Keep(frag: Kept)
      requires Valid() && frag.Valid() && |frag.content| <= initBuf.Length
      requires forall k <- Log() :: k.Priority() < frag.Priority()
      modifies sentMessages, (set n | n in sentMessages.nodes)
      ensures Valid() && Log() == old(Log()) + [frag]
      ensures forall n <- sentMessages.nodes :: n in old(sentMessages.nodes) || fresh(n)
    {
      hide Ascending, Linked, FromBe, Kept.Valid, Kept.Priority, Inserted, Has;
      assert 0 <= frag.Priority() < 0x1_0000 by { PriorityOrder(frag, frag); }
      var p := frag.Priority();
      PriorityOctetsValue(p);
      var item := new Item(PriorityOctets(p), frag);
      ghost var nodes := sentMessages.nodes;
      Last(nodes, p, frag);
      var _ := sentMessages.Insert(item);
      LogGrows(nodes, sentMessages.nodes, p, frag);
    }

    /** dtls1_do_write */
    method DoWrite(kind: nat, ghost k: Kept) returns (r: int, ghost records: seq<Sent>)
      requires kind == if k.isCcs then CHANGE_CIPHER_SPEC else HANDSHAKE
      requires k.Valid() && |k.content| <= initBuf.Length && initBuf[..|k.content|] == k.content
      requires wMsgHdr == k.header && initNum == |k.content| && initOff == 0 && retransmitting
      requires mtu > overhead + RECORD_HEADER_LENGTH + HEADER_LENGTH
      modifies `wpending, `initNum, `initOff, `wMsgHdr, `transcript, `written, initBuf
      ensures r == 1 && initOff == 0 && transcript == old(transcript)
      ensures written == old(written) + records && Within(records, mtu, overhead)
      ensures writeEpoch == k.epoch ==> Emits(records, k)
    {
      if kind == CHANGE_CIPHER_SPEC {
        r := DoWriteCcs();
        records := [Sent(CHANGE_CIPHER_SPEC, writeEpoch, k.content)];
      } else {
        ghost var frags;
        r, frags, records := DoWriteHandshake(k.Body(), k.header.number);
        SizedWithin(records, old(wpending), mtu, overhead);
      }
    }

    /** dtls1_retransmit_message */
    method RetransmitMessage(priority: nat) returns (r: int, found: bool, ghost k: Kept, ghost records: seq<Sent>)
      requires Valid() && priority < 0x1_0000 && initOff == 0
      modifies `wpending, `initNum, `initOff, `wMsgHdr, `transcript, `written, `retransmitting, `session, `writeEpoch,
               initBuf
      ensures Valid() && initOff == 0 && transcript == old(transcript) && Log() == old(Log())
      ensures forall e :: Available(e) == old(Available(e))
      ensures found <==> exists x <- Log() :: x.Priority() == priority
      ensures !found ==> r == 0 && written == old(written)
      ensures found ==> k in Log() && k.Valid() && k.Priority() == priority && r == if Available(k.epoch) then 1 else 0
      ensures r == 1 ==> written == old(written) + records && Emits(records, k) && Within(records, mtu, overhead)
      ensures r == 1 ==> writeEpoch == old(writeEpoch) && session == old(session) && !retransmitting
      ensures r == 0 ==> written == old(written)
    {
      hide FromBe, Ascending, Linked, Has, Emits, Within, Kept.Valid, Kept.Priority;
      k, records := Kept(Header(0, 0, 0, 0, 0), false, [], 0, 0), [];
      PriorityOctetsValue(priority);
      var item := sentMessages.Find(PriorityOctets(priority));
      InLog(sentMessages.nodes, priority);
      if item == null {
        return 0, false, k, records;
      }
      found := true;
      k := item.data;
      r, records := Resend(item.data);
    }

    /** The rest of dtls1_retransmit_message: the old state is restored around the write. */
    method Resend(frag: Kept) returns (r: int, ghost records: seq<Sent>)
      requires Valid() && frag.Valid() && |frag.content| <= initBuf.Length && initOff == 0
      modifies `wpending, `initNum, `initOff, `wMsgHdr, `transcript, `written, `retransmitting, `session, `writeEpoch,
               initBuf
      ensures Valid() && initOff == 0 && transcript == old(transcript)
      ensures forall e :: Available(e) == old(Available(e))
      ensures r == if old(Available(frag.epoch)) then 1 else 0
      ensures r == 1 ==> written == old(written) + records && Emits(records, frag) && Within(records, mtu, overhead)
      ensures r == 1 ==> writeEpoch == old(writeEpoch) && session == old(session) && !retransmitting
      ensures r == 0 ==> written == old(written)
    {
      hide Emits, Within, Kept.Valid, Ascending, Linked, FromBe, PQueue.Valid;
      records := [];
      Load(frag);
      var savedSession, savedEpoch := session, writeEpoch;
      retransmitting := true;
      session := frag.session;
      var ok := UseWriteEpoch(frag.epoch);
      if !ok {
        return 0, records;
      }
      r, records := DoWrite(if frag.isCcs then CHANGE_CIPHER_SPEC else HANDSHAKE, frag);
      session := savedSession;
      ok := UseWriteEpoch(savedEpoch);
      if !ok {
        return 0, records;
      }
      retransmitting := false;
    }

    /** The message to send again is put back into the buffer. */
    method Load(frag: Kept)
      requires Valid() && frag.Valid() && |frag.content| <= initBuf.Length
      modifies `initNum, `wMsgHdr, initBuf
      ensures Valid() && initBuf[..|frag.content|] == frag.content && initNum == |frag.content|
              && wMsgHdr == frag.header
    {
      forall i | 0 <= i < |frag.content| {
        initBuf[i] := frag.content[i];
      }
      initNum := frag.header.msgLen + frag.HeaderLength();
      wMsgHdr := Header(frag.header.kind, frag.header.msgLen, frag.header.number, 0, frag.header.fragLen);
    }

    /** The message of a queue entry, found by its priority, is sent again. */
    method RetransmitItem(item: Item<Kept>, ghost j: nat) returns (r: int, found: bool, ghost records: seq<Sent>)
      requires Valid() && initOff == 0 && j < |sentMessages.nodes| && item == sentMessages.nodes[j]
      modifies `wpending, `initNum, `initOff, `wMsgHdr, `transcript, `written, `retransmitting, `session, `writeEpoch,
               initBuf
      ensures Valid() && initOff == 0 && transcript == old(transcript) && found && item.data.Valid()
      ensures forall e :: Available(e) == old(Available(e))
      ensures r == if old(Available(item.data.epoch)) then 1 else 0
      ensures r == 1 ==>
                written == old(written) + records && Emits(records, item.data) && Within(records, mtu, overhead)
      ensures r == 1 ==> writeEpoch == old(writeEpoch) && session == old(session) && !retransmitting
      ensures r == 0 ==> written == old(written)
    {
      hide FromBe, Linked, Has, Emits, Within, Kept.Valid, Kept.Priority, Available, Entries;
      PriorityInRange(sentMessages.nodes, j);
      ghost var k;
      r, found, k, records := RetransmitMessage(item.data.Priority());
      Unique(sentMessages.nodes, j, k);
    }

    /** dtls1_retransmit_buffered_messages */
    method RetransmitBufferedMessages() returns (r: int, ghost outputs: seq<seq<Sent>>)
      requires Valid() && initOff == 0 && !retransmitting
      modifies `wpending, `initNum, `initOff, `wMsgHdr, `transcript, `written, `retransmitting, `session, `writeEpoch,
               initBuf
      ensures Valid() && transcript == old(transcript) && Log() == old(Log())
      ensures r == if forall k <- Log() :: old(Available(k.epoch)) then 1 else -1
      // Every message in the order of the log, each under the epoch it was first sent in.
      ensures written == old(written) + Flatten(outputs) && AllEmitted(outputs, Log(), mtu, overhead)
      ensures r == 1 ==>
                |outputs| == |Log()| && writeEpoch == old(writeEpoch) && session == old(session) && !retransmitting
      ensures r == 1 ==> initOff == 0 && initBuf == old(initBuf)
    {
      hide FromBe, Ascending, Linked, Has, Emits, Within, Kept.Valid, Kept.Priority, Flatten, KeptIn, Entries;
      hide PQueue.Valid, Available, AllEmitted;
      NoneEmitted(Log(), mtu, overhead);
      outputs := [];
      FlattenSnoc<Sent>([], []);
      ghost var log := Log();
      ghost var j := 0;
      var iter := sentMessages.items;
      sentMessages.FirstItem();
      while true
        invariant Valid() && initOff == 0 && !retransmitting && Log() == log
        invariant transcript == old(transcript) && writeEpoch == old(writeEpoch) && session == old(session)
        invariant forall e :: Available(e) == old(Available(e))
        invariant j <= |log| && iter == if j < |log| then sentMessages.nodes[j] else null
        invariant |outputs| == j && written == old(written) + Flatten(outputs)
        invariant forall i :: 0 <= i < j ==> old(Available(log[i].epoch))
        invariant AllEmitted(outputs, log, mtu, overhead)
        decreases |log| - j
      {
        var item;
        item, iter := sentMessages.Next(iter, j);
        if item == null {
          return 1, outputs;
        }
        KeptAt(sentMessages.nodes, j);
        var ok, found;
        ghost var records;
        ok, found, records := RetransmitItem(item, j);
        if ok <= 0 && found {
          return -1, outputs;
        }
        FlattenSnoc(outputs, records);
        EmittedMore(outputs, log, records, mtu, overhead);
        outputs := outputs + [records];
        j := j + 1;
      }
    }
  }

  lemma KeptAt(nodes: seq<Item<Kept>>, j: nat)
    requires j < |nodes|
    ensures KeptIn(nodes)[j] == nodes[j].data && nodes[j].data in KeptIn(nodes)
  {
    assert KeptIn(nodes)[j] in KeptIn(nodes);
  }

  lemma PriorityInRange(nodes: seq<Item<Kept>>, j: nat)
    requires j < |nodes| && forall n <- nodes :: n.data.Valid()
    ensures 0 <= nodes[j].data.Priority() < 0x1_0000
  {
    PriorityOrder(nodes[j].data, nodes[j].data);
  }

  /** A priority belongs to one message only. */
  lemma Unique(nodes: seq<Item<Kept>>, j: nat, k: Kept)
    requires j < |nodes| && Ascending(Entries(nodes))
    requires forall n <- nodes :: FromBe(n.priority) == n.data.Priority()
    ensures KeptIn(nodes)[j] == nodes[j].data && nodes[j].data in KeptIn(nodes)
    ensures k in KeptIn(nodes) && k.Priority() == nodes[j].data.Priority() ==> k == nodes[j].data
  {
    hide FromBe;
    var q := Entries(nodes);
    assert KeptIn(nodes)[j] in KeptIn(nodes);
    if k in KeptIn(nodes) && k.Priority() == nodes[j].data.Priority() {
      var i :| 0 <= i < |nodes| && KeptIn(nodes)[i] == k;
      assert nodes[i] in nodes && nodes[j] in nodes && q[i].0 == q[j].0;
    }
  }

  lemma InLog(nodes: seq<Item<Kept>>, p: nat)
    requires forall n <- nodes :: FromBe(n.priority) == n.data.Priority()
    ensures Has(Entries(nodes), p) <==> exists x <- KeptIn(nodes) :: x.Priority() == p
    ensures forall n <- nodes :: n.data in KeptIn(nodes)
  {
    hide FromBe;
    var q := Entries(nodes);
    if Has(q, p) {
      var i :| 0 <= i < |q| && q[i].0 == p;
      assert nodes[i] in nodes && KeptIn(nodes)[i] in KeptIn(nodes);
    }
    if exists x <- KeptIn(nodes) :: x.Priority() == p {
      var i :| 0 <= i < |nodes| && KeptIn(nodes)[i].Priority() == p;
      assert nodes[i] in nodes && q[i].0 == p;
    }
    forall n | n in nodes
      ensures n.data in KeptIn(nodes)
    {
      var i :| 0 <= i < |nodes| && nodes[i] == n;
      assert KeptIn(nodes)[i] == n.data;
    }
  }

  /** Insertion of the highest priority is at the end. */
  lemma Last(nodes: seq<Item<Kept>>, p: nat, k: Kept)
    requires forall n <- nodes :: FromBe(n.priority) == n.data.Priority()
    requires forall x <- KeptIn(nodes) :: x.Priority() < p
    ensures !Has(Entries(nodes), p) && Inserted(Entries(nodes), (p, k)) == Entries(nodes) + [(p, k)]
  {
    hide FromBe;
    var q := Entries(nodes);
    forall i | 0 <= i < |q|
      ensures q[i].0 < p
    {
      assert nodes[i] in nodes && KeptIn(nodes)[i] in KeptIn(nodes);
    }
    PlaceIs(q, p, |q|);
    InsertAtCounts(q, |q|, (p, k));
    assert q[..|q|] == q && q[|q|..] == [];
  }

  lemma LogGrows(nodes: seq<Item<Kept>>, after: seq<Item<Kept>>, p: nat, k: Kept)
    requires Entries(after) == Entries(nodes) + [(p, k)]
    ensures KeptIn(after) == KeptIn(nodes) + [k]
  {
    hide FromBe;
    forall i | 0 <= i < |after|
      ensures KeptIn(after)[i] == (KeptIn(nodes) + [k])[i]
    {
      assert Entries(after)[i].1 == (Entries(nodes) + [(p, k)])[i].1;
    }
  }

  lemma OneMore(frags: seq<Frag>, number: nat, off: nat, n: nat)
    requires if frags == [] then off == 0 else Cuts(frags, number, off) && off > 0 && n > 0
    ensures Cuts(frags + [Frag(number, off, n)], number, off + n)
  {
  }

  lemma CarriesMore(records: seq<Sent>, m: Message, frags: seq<Frag>, epoch: nat, f: Frag)
    requires Carries(records, m, frags, epoch) && f.off + f.len <= |m.body|
    ensures Carries(records + [Carrier(m, f, epoch)], m, frags + [f], epoch)
  {
    hide Carrier;
  }

  // The other end.

  /** Every octet of the body is in exactly one slice. */
  lemma {:induction false} CutsCoverOnce(frags: seq<Frag>, number: nat, len: nat, i: nat)
    requires Cuts(frags, number, len) && i < len
    ensures exists k :: 0 <= k < |frags| && frags[k].off <= i < frags[k].off + frags[k].len
    ensures forall j, k :: 0 <= j < k < |frags| ==> frags[j].off + frags[j].len <= frags[k].off
  {
    var n := |frags| - 1;
    if n == 0 {
      assert frags[0].off <= i < frags[0].off + frags[0].len;
    } else {
      var last := frags[n];
      var rest := frags[..n];
      assert frags[n].off == frags[n - 1].off + frags[n - 1].len;
      CutsPrefix(frags, number, len);
      if i < last.off {
        CutsCoverOnce(rest, number, last.off, i);
        var k :| 0 <= k < |rest| && rest[k].off <= i < rest[k].off + rest[k].len;
        assert frags[k] == rest[k];
      } else {
        CutsOrdered(rest, number, last.off);
      }
      CutsOrdered(frags, number, len);
    }
  }

  lemma CutsPrefix(frags: seq<Frag>, number: nat, len: nat)
    requires Cuts(frags, number, len) && |frags| > 1
    ensures Cuts(frags[..|frags| - 1], number, frags[|frags| - 1].off)
  {
    var n := |frags| - 1;
    assert frags[n].off == frags[n - 1].off + frags[n - 1].len;
  }

  lemma {:induction false} CutsOrdered(frags: seq<Frag>, number: nat, len: nat)
    requires Cuts(frags, number, len)
    ensures forall j, k :: 0 <= j < k < |frags| ==> frags[j].off + frags[j].len <= frags[k].off
    ensures forall k :: 0 <= k < |frags| ==> frags[k].off + frags[k].len <= len
  {
    var n := |frags| - 1;
    if n > 0 {
      CutsPrefix(frags, number, len);
      CutsOrdered(frags[..n], number, frags[n].off);
    }
  }

  /** The records are genuine: a receiver of these messages can read them. */
  lemma CarriedIsGenuine(records: seq<Sent>, ms: seq<Message>, number: nat, frags: seq<Frag>, epoch: nat)
    requires number < |ms| && Cuts(frags, number, |ms[number].body|) && Carries(records, ms[number], frags, epoch)
    ensures AllGenuine(ms, frags)
    ensures forall i :: 0 <= i < |frags| ==> records[i].data == EncodeAll(ms, [frags[i]])
  {
    forall i | 0 <= i < |frags|
      ensures Genuine(ms, frags[i]) && AllGenuine(ms, [frags[i]]) && records[i].data == EncodeAll(ms, [frags[i]])
    {
      var f := frags[i];
      assert records[i] == Carrier(ms[number], f, epoch);
      assert [f][1..] == [];
      assert EncodeAll(ms, [f][1..]) == [];
      assert EncodeAll(ms, [f]) == Encode(ms, f) + [];
    }
  }
}

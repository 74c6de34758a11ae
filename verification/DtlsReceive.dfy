/** How d1_both.c puts handshake messages together from fragments and delivers them in order. */
module DtlsReceive {
  import opened Bytes
  import opened ByteReader
  import opened DtlsDelivery
  import opened HandshakeFragment
  import opened HandshakeHeader
  import opened HandshakeStream
  import opened PriorityQueue
  import opened ReassemblyBitmask
  import opened Wrappers

  const BAD_FRAGMENT := -2
  const FRAGMENT_RETRY := -3
  const ILLEGAL_PARAMETER: nat := 47
  const HELLO_REQUEST: nat := 0
  const FINISHED: nat := 20
  const MAX_ENCRYPTED_LENGTH: nat := 16384 + 256 + 64

  /** A queue entry holds the message of its number, or a part of it. */
  ghost predicate EntryFor(ms: seq<Message>, item: Item<HmFragment>)
    reads item.data, item.data.Repr()
  {
    var n := item.data.header.number;
    && n < |ms| && FromBe(item.priority) == n
    && item.data.header == WholeHeader(ms[n], n)
    && item.data.Holds(ms[n].body)
    && (item.data.reassembly != null ==> ms[n].body != [])
  }

  /** The entries hold messages, live in the owned memory and share none with each other. */
  ghost predicate Stored(ms: seq<Message>, nodes: seq<Item<HmFragment>>, owned: set<object>)
    reads owned
  {
    && (forall n <- nodes :: n.data in owned && n.data.Repr() <= owned && EntryFor(ms, n))
    && forall m <- nodes, n <- nodes :: m != n ==> m.data.Repr() !! n.data.Repr()
  }

  /** What the queue holds: of which message, and which octets of its body, the header being octet -1. */
  ghost function Arrivals(nodes: seq<Item<HmFragment>>, owned: set<object>): set<(nat, int)>
    reads owned
  {
    set n, i | n in nodes && n.data in owned && n.data.Repr() <= owned && -1 <= i < n.data.fragment.Length
               && (i >= 0 ==> n.data.Got(i))
      :: (n.data.header.number, i)
  }

  /** The part of one entry */
  ghost function GotIn(frag: HmFragment): set<(nat, int)>
    reads frag, frag.reassembly
  {
    set i | -1 <= i < frag.fragment.Length && (i >= 0 ==> frag.Got(i)) :: (frag.header.number, i)
  }

  /** dtls1_max_handshake_message_len */
  function MaxMessageLen(maxCertList: nat): nat {
    var maxLen := HEADER_LENGTH + MAX_ENCRYPTED_LENGTH;
    if maxLen < maxCertList then maxCertList else maxLen
  }

  /** A message has an entry exactly when its header is in the queue. */
  lemma HasIffArrived(ms: seq<Message>, nodes: seq<Item<HmFragment>>, owned: set<object>, number: nat)
    requires Stored(ms, nodes, owned)
    ensures Has(Entries(nodes), number) <==> (number, -1) in Arrivals(nodes, owned)
  {
    hide FromBe;
    if Has(Entries(nodes), number) {
      var i :| 0 <= i < |nodes| && Entries(nodes)[i].0 == number;
      assert nodes[i] in nodes && nodes[i].data in nodes[i].data.Repr();
    }
    if (number, -1) in Arrivals(nodes, owned) {
      var n :| n in nodes && n.data.header.number == number;
      var i :| 0 <= i < |nodes| && nodes[i] == n;
      assert Entries(nodes)[i].0 == number;
    }
  }

  /** An entry is complete exactly when all octets of its message are in the queue. */
  lemma CompleteIffArrived(ms: seq<Message>, nodes: seq<Item<HmFragment>>, owned: set<object>, item: Item<HmFragment>)
    requires Stored(ms, nodes, owned) && Ascending(Entries(nodes)) && item in nodes
    ensures var n := item.data.header.number;
            n < |ms| && (item.data.reassembly == null <==> Octets(n, 0, |ms[n].body|) <= Arrivals(nodes, owned))
  {
    var frag := item.data;
    var n, body := frag.header.number, ms[frag.header.number].body;
    frag.WholeIffAllGot(body);
    if Octets(n, 0, |body|) <= Arrivals(nodes, owned) {
      forall i | 0 <= i < |body|
        ensures frag.Got(i)
      {
        assert (n, i) in Octets(n, 0, |body|);
        var m :| m in nodes && m.data in owned && m.data.header.number == n && m.data.Got(i);
        OneEntry(ms, nodes, owned, m, item);
      }
    }
  }

  /** A message has one entry. */
  lemma OneEntry(ms: seq<Message>, nodes: seq<Item<HmFragment>>, owned: set<object>, m: Item<HmFragment>,
                 n: Item<HmFragment>)
    requires Stored(ms, nodes, owned) && Ascending(Entries(nodes)) && m in nodes && n in nodes
    requires m.data.header.number == n.data.header.number
    ensures m == n
  {
    hide FromBe;
    var i :| 0 <= i < |nodes| && nodes[i] == m;
    var j :| 0 <= j < |nodes| && nodes[j] == n;
    assert Entries(nodes)[i].0 == Entries(nodes)[j].0;
  }

  /** Without the first entry nothing of its message is in the queue. */
  lemma ArrivalsTail(ms: seq<Message>, nodes: seq<Item<HmFragment>>, owned: set<object>)
    requires Stored(ms, nodes, owned) && Ascending(Entries(nodes)) && nodes != []
    ensures var n := nodes[0].data.header.number;
            Arrivals(nodes[1..], owned) == set x | x in Arrivals(nodes, owned) && x.0 != n
  {
    hide EntryFor, FromBe;
    assert nodes[0] in nodes;
    forall m | m in nodes[1..]
      ensures m in nodes && m.data.header.number != nodes[0].data.header.number
    {
      var i :| 0 < i < |nodes| && nodes[i] == m;
      assert Entries(nodes)[0].0 < Entries(nodes)[i].0;
      assert m != nodes[0];
      if m.data.header.number == nodes[0].data.header.number {
        OneEntry(ms, nodes, owned, m, nodes[0]);
      }
    }
    forall m | m in nodes
      ensures m == nodes[0] || m in nodes[1..]
    {
      var i :| 0 <= i < |nodes| && nodes[i] == m;
      assert i > 0 ==> nodes[1..][i - 1] == m;
    }
  }

  lemma ArrivalsMore(ms: seq<Message>, nodes: seq<Item<HmFragment>>, owned: set<object>, item: Item<HmFragment>,
                     after: seq<Item<HmFragment>>)
    requires Stored(ms, nodes, owned) && EntryFor(ms, item)
    requires forall n :: n in after <==> n in nodes || n == item
    ensures Arrivals(after, owned + item.data.Repr()) ==
            Arrivals(nodes, owned) + GotIn(item.data)
  {
    hide EntryFor;
    assert item.data in item.data.Repr();
  }

  lemma StoredMore(ms: seq<Message>, nodes: seq<Item<HmFragment>>, owned: set<object>, item: Item<HmFragment>,
                   after: seq<Item<HmFragment>>)
    requires Stored(ms, nodes, owned) && EntryFor(ms, item) && item.data.Repr() !! owned
    requires forall n <- after :: n in nodes || n == item
    ensures Stored(ms, after, owned + item.data.Repr())
  {
    hide EntryFor;
    assert item.data in item.data.Repr();
  }

  /** dtls1_hm_fragment_new for reassembly, and the first slice */
  method FirstSlice(h: Header, data: bytes, ghost body: bytes) returns (frag: HmFragment)
    requires |body| == h.msgLen && data != [] && h.fragOff + |data| <= |body|
    requires data == body[h.fragOff..h.fragOff + |data|]
    ensures fresh(frag.Repr()) && frag.header == h.(fragLen := h.msgLen, fragOff := 0) && frag.Holds(body)
    ensures forall i :: 0 <= i < |body| ==> (frag.Got(i) <==> h.fragOff <= i < h.fragOff + |data|)
  {
    frag := new HmFragment(h.(fragLen := h.msgLen, fragOff := 0), h.msgLen, true);
    frag.AddSlice(h.fragOff, data, body);
  }

  lemma PriorityFound(ms: seq<Message>, nodes: seq<Item<HmFragment>>, owned: set<object>, item: Item<HmFragment>)
    requires Stored(ms, nodes, owned) && item in nodes
    ensures var n := item.data.header.number;
            FromBe(item.priority) == n < |ms| && item.data.header == WholeHeader(ms[n], n)
  {}

  /** A record carries fragments; without one a message is asked for. */
  ghost predicate CarriedBy(ms: seq<Message>, event: Option<bytes>, e: Option<seq<Frag>>) {
    && event.Some? == e.Some?
    && (e.Some? ==> AllGenuine(ms, e.value) && event.value == EncodeAll(ms, e.value))
  }

  ghost predicate Carrying(ms: seq<Message>, events: seq<Option<bytes>>, es: seq<Option<seq<Frag>>>) {
    |events| == |es| && forall i :: 0 <= i < |es| ==> CarriedBy(ms, events[i], es[i])
  }

  class Receiver {
    const server: bool
    const maxCertList: nat
    const stream: Stream
    const bufferedMessages: PQueue<HmFragment>
    var handshakeReadSeq: nat
    var rMsgHdr: Header
    var initBuf: array<byte>
    var initNum: int
    var transcript: bytes
    // A fatal alert has been sent.
    var fatal: bool
    // The data of a rejected fragment were not read, so what follows cannot be understood; the code has no such flag.
    var lost: bool
    // The memory of the queue entries.
    ghost var owned: set<object>

    constructor (server: bool, maxCertList: nat, stream: Stream)
      requires stream.Boundary() && Sendable(stream.messages)
      ensures Valid() && fresh(Footprint() - {stream}) && !lost && this.stream == stream
      ensures handshakeReadSeq == 0 && transcript == [] && rMsgHdr.fragLen == 0 && !fatal && Arrived() == {}
      ensures bufferedMessages.nodes == [] && this.server == server && this.maxCertList == maxCertList
    {
      this.server, this.maxCertList, this.stream := server, maxCertList, stream;
      bufferedMessages := new PQueue<HmFragment>();
      handshakeReadSeq, rMsgHdr, initNum, transcript := 0, Header(0, 0, 0, 0, 0), 0, [];
      fatal, lost, owned := false, false, {};
      initBuf := new byte[HEADER_LENGTH](_ => 0);
    }

    /** A receiver in the same state, whose stream has the same octets, taken as those of other messages */
    constructor Reread(r: Receiver, stream: Stream)
      requires r.Valid() && r.bufferedMessages.nodes == [] && stream.Boundary() && Sendable(stream.messages)
      requires stream.record == r.stream.record && stream.input == r.stream.input
      requires {stream as object} !! {r, r.stream, r.bufferedMessages, r.initBuf}
      ensures Valid() && this.stream == stream && !lost && owned == {} && Arrived() == {} && server == r.server
      ensures maxCertList == r.maxCertList && bufferedMessages == r.bufferedMessages && initBuf == r.initBuf
      ensures handshakeReadSeq == r.handshakeReadSeq && rMsgHdr == r.rMsgHdr && initNum == r.initNum
      ensures transcript == r.transcript && fatal == r.fatal
    {
      server, maxCertList, this.stream, bufferedMessages := r.server, r.maxCertList, stream, r.bufferedMessages;
      handshakeReadSeq, rMsgHdr, initBuf, initNum := r.handshakeReadSeq, r.rMsgHdr, r.initBuf, r.initNum;
      transcript, fatal, lost, owned := r.transcript, r.fatal, false, {};
    }

    ghost function Footprint(): set<object>
      reads `owned, `initBuf, bufferedMessages
    {
      {this, stream, bufferedMessages, initBuf} + owned + set n | n in bufferedMessages.nodes
    }

    ghost function Messages(): seq<Message> { stream.messages }

    /** The octets of messages that are in the queue. */
    ghost function Arrived(): set<(nat, int)>
      reads `owned, owned, bufferedMessages
    {
      Arrivals(bufferedMessages.nodes, owned)
    }

    ghost predicate Buffered()
      reads `owned, owned, bufferedMessages, (set n | n in bufferedMessages.nodes)
    {
      && bufferedMessages.Valid()
      && Stored(Messages(), bufferedMessages.nodes, owned)
      && forall n <- bufferedMessages.nodes :: n !in owned
    }

    /** What holds even while a fragment is being read */
    ghost predicate Settled()
      reads `owned, owned, bufferedMessages, (set n | n in bufferedMessages.nodes), `initBuf, `rMsgHdr
    {
      && {this, stream, bufferedMessages, initBuf} !! owned
      && Sendable(Messages()) && Buffered()
      && initBuf.Length >= HEADER_LENGTH && rMsgHdr.fragOff == 0
    }

    ghost predicate Valid()
      reads Footprint()
    {
      Settled() && (!lost ==> stream.Boundary())
    }

    /** The message with this number stands in the buffer, where its header will be put before it. */
    ghost predicate Delivered(n: nat)
      reads this, initBuf
    {
      && n < |Messages()|
      && var m := Messages()[n];
         && rMsgHdr == Header(m.kind, |m.body|, n, 0, 0)
         && HEADER_LENGTH + |m.body| <= initBuf.Length
         && forall i :: 0 <= i < |m.body| ==> initBuf[HEADER_LENGTH + i] == m.body[i]
    }

    /** The next message is at the head of the queue, and all of it. */
    ghost predicate Ready()
      reads `handshakeReadSeq, `owned, owned, bufferedMessages, (set n | n in bufferedMessages.nodes)
    {
      && Begun() && handshakeReadSeq < |Messages()|
      && Octets(handshakeReadSeq, 0, |Messages()[handshakeReadSeq].body|) <= Arrived()
    }

    /** A queue that holds the expected message, and no earlier one, has it at its head. */
    lemma HeadBegun()
      requires Settled() && (handshakeReadSeq, -1) in Arrived()
      requires forall x <- Arrived() :: x.0 >= handshakeReadSeq
      ensures Begun()
    {
      hide FromBe, EntryFor;
      var n :| n in bufferedMessages.nodes && n.data.header.number == handshakeReadSeq;
      var nodes := bufferedMessages.nodes;
      var i :| 0 <= i < |nodes| && nodes[i] == n;
      InQueue(nodes[0]);
      HeadFirst(i);
    }

    lemma NothingQueued()
      requires Settled() && Arrived() == {}
      ensures bufferedMessages.nodes == []
    {
      if bufferedMessages.nodes != [] {
        InQueue(bufferedMessages.nodes[0]);
      }
    }

    lemma InQueue(item: Item<HmFragment>)
      requires Settled() && item in bufferedMessages.nodes
      ensures (item.data.header.number, -1) in Arrived()
    {
      hide FromBe, EntryFor, Ascending, Linked;
    }

    lemma HeadFirst(i: nat)
      requires Settled() && i < |bufferedMessages.nodes|
      ensures bufferedMessages.nodes[0].data.header.number <= bufferedMessages.nodes[i].data.header.number
    {
      var nodes := bufferedMessages.nodes;
      assert Entries(nodes)[0].0 == nodes[0].data.header.number && nodes[0] in nodes;
      assert Entries(nodes)[i].0 == nodes[i].data.header.number && nodes[i] in nodes;
    }

    /** A part of the expected message is at the head of the queue. */
    ghost predicate Begun()
      reads `handshakeReadSeq, bufferedMessages
    {
      bufferedMessages.nodes != [] && bufferedMessages.nodes[0].data.header.number == handshakeReadSeq
    }

    /** What the receiver waits for */
    ghost function Waits(max: int): Waiting
      reads `handshakeReadSeq
    {
      Waiting(server, maxCertList, Messages(), handshakeReadSeq, max)
    }

    /** The head of the queue is the expected message, and all of it, exactly when that has arrived and nothing older is
        in the queue. */
    lemma ReadyExact(max: int)
      requires Settled()
      ensures Ready() <==> Waits(max).Ready(Arrived())
    {
      hide FromBe, EntryFor, Octets;
      var nodes := bufferedMessages.nodes;
      if Ready() {
        forall x | x in Arrived()
          ensures x.0 >= handshakeReadSeq
        {
          var n, j :| n in nodes && x == (n.data.header.number, j);
          var i :| 0 <= i < |nodes| && nodes[i] == n;
          HeadFirst(i);
        }
      } else if Waits(max).Ready(Arrived()) {
        HeaderIn(handshakeReadSeq, |Messages()[handshakeReadSeq].body|);
        HeadBegun();
      }
    }

    lemma HeaderIn(number: nat, len: nat)
      ensures (number, -1) in Octets(number, 0, len)
    {}

    /** BUF_MEM_grow_clean */
    method Grow(n: nat)
      modifies `initBuf
      ensures initBuf.Length >= n && initBuf.Length >= old(initBuf).Length
      ensures initBuf == old(initBuf) || fresh(initBuf)
    {
      if initBuf.Length < n {
        var old_ := initBuf;
        var buf := new byte[n](_ => 0);
        forall i | 0 <= i < old_.Length {
          buf[i] := old_[i];
        }
        initBuf := buf;
      }
    }

    /** dtls1_preprocess_fragment: 0 or the alert to send */
    method PreprocessFragment(h: Header, max: int) returns (alert: nat)
      requires Settled()
      modifies `initBuf, `rMsgHdr
      ensures Settled() && (initBuf == old(initBuf) || fresh(initBuf))
      ensures alert == 0 <==> h.fragOff + h.fragLen <= h.msgLen && h.fragOff + h.fragLen <= max
      ensures alert == 0 ==> rMsgHdr == Header(h.kind, h.msgLen, h.number, 0, old(rMsgHdr).fragLen)
      ensures alert == 0 ==> initBuf.Length >= HEADER_LENGTH + h.msgLen
      ensures alert != 0 ==> unchanged(this)
    {
      hide Buffered;
      if h.fragOff + h.fragLen > h.msgLen {
        return ILLEGAL_PARAMETER;
      }
      if h.fragOff + h.fragLen > max {
        return ILLEGAL_PARAMETER;
      }
      if rMsgHdr.fragOff == 0 {
        Grow(h.msgLen + HEADER_LENGTH);
        rMsgHdr := rMsgHdr.(msgLen := h.msgLen, kind := h.kind, number := h.number);
      } else if h.msgLen != rMsgHdr.msgLen {
        return ILLEGAL_PARAMETER;
      }
      alert := 0;
    }

    /** memcpy into the buffer */
    method CopyIn(at: nat, data: bytes)
      requires Settled() && at + |data| <= initBuf.Length
      modifies initBuf
      ensures Settled() && forall i :: 0 <= i < |data| ==> initBuf[at + i] == data[i]
    {
      hide Buffered;
      forall i | 0 <= i < |data| {
        initBuf[at + i] := data[i];
      }
    }

    method PopEntry() returns (item: Item<HmFragment>)
      requires Settled() && bufferedMessages.nodes != []
      modifies bufferedMessages
      ensures Settled() && item == old(bufferedMessages.nodes[0]) && EntryFor(Messages(), item)
      ensures Arrived() == set x | x in old(Arrived()) && x.0 != item.data.header.number
      ensures forall n <- bufferedMessages.nodes :: n in old(bufferedMessages.nodes)
    {
      hide Ascending, Linked, EntryFor, Arrivals;
      assert EntryFor(Messages(), bufferedMessages.nodes[0]);
      ArrivalsTail(Messages(), bufferedMessages.nodes, owned);
      item := bufferedMessages.Pop();
    }

    /** The first entry is taken out of the queue. */
    method TakeHead() returns (frag: HmFragment)
      requires Settled() && bufferedMessages.nodes != []
      modifies bufferedMessages
      ensures Settled() && frag == old(bufferedMessages.nodes[0].data)
      ensures forall n <- bufferedMessages.nodes :: n in old(bufferedMessages.nodes)
      ensures Arrived() == set x | x in old(Arrived()) && x.0 != frag.header.number
      ensures var n := frag.header.number;
              && n < |Messages()| && frag.header == WholeHeader(Messages()[n], n)
              && (frag.reassembly == null ==> frag.fragment[..] == Messages()[n].body)
    {
      hide Ascending, Linked, Arrivals;
      assert EntryFor(Messages(), bufferedMessages.nodes[0]);
      var item := PopEntry();
      frag := item.data;
    }

    method SetInitNum(n: int)
      requires Settled()
      modifies `initNum
      ensures Settled() && initNum == n
    {
      initNum := n;
    }

    /** dtls1_retrieve_buffered_fragment */
    method RetrieveBufferedFragment(max: int) returns (r: int, ok: bool)
      requires Valid() && rMsgHdr.fragLen == 0
      modifies this, bufferedMessages, initBuf
      ensures Valid() && (initBuf == old(initBuf) || fresh(initBuf)) && owned == old(owned)
      ensures forall n <- bufferedMessages.nodes :: n in old(bufferedMessages.nodes)
      ensures handshakeReadSeq == old(handshakeReadSeq) && transcript == old(transcript) && lost == old(lost)
      ensures rMsgHdr.fragLen == 0
      ensures !old(Ready()) ==> r == 0 && !ok && unchanged(this) && unchanged(bufferedMessages) && unchanged(initBuf)
      ensures old(Ready()) ==> Arrived() == set x | x in old(Arrived()) && x.0 != handshakeReadSeq
      ensures old(Ready()) ==> var len := |Messages()[handshakeReadSeq].body|;
                               && (ok <==> len <= max) && r == (if ok then len else -1)
                               && fatal == (old(fatal) || !ok)
      ensures ok ==> Delivered(handshakeReadSeq)
    {
      hide Receiver.Ready, Stored, Ascending, Arrivals, Octets;
      var ready := HeadIsReady();
      if !ready {
        return 0, false;
      }
      r, ok := DeliverHead(max);
    }

    /** The entry at the head is looked at. */
    method HeadIsReady() returns (ready: bool)
      requires Settled()
      ensures ready <==> Ready()
    {
      hide Ascending, Arrivals, Octets, EntryFor;
      bufferedMessages.FirstItem();
      var item := bufferedMessages.items;
      if item == null {
        return false;
      }
      CompleteIffArrived(Messages(), bufferedMessages.nodes, owned, item);
      ready := item.data.reassembly == null && handshakeReadSeq == item.data.header.number;
    }

    /** The entry at the head is taken out and delivered. */
    method DeliverHead(max: int) returns (r: int, ok: bool)
      requires Valid() && Ready() && rMsgHdr.fragLen == 0
      modifies this, bufferedMessages, initBuf
      ensures Valid() && (initBuf == old(initBuf) || fresh(initBuf)) && owned == old(owned)
      ensures forall n <- bufferedMessages.nodes :: n in old(bufferedMessages.nodes)
      ensures handshakeReadSeq == old(handshakeReadSeq) && transcript == old(transcript) && lost == old(lost)
      ensures rMsgHdr.fragLen == 0 && Arrived() == set x | x in old(Arrived()) && x.0 != handshakeReadSeq
      ensures var len := |Messages()[handshakeReadSeq].body|;
              && (ok <==> len <= max) && r == (if ok then len else -1) && fatal == (old(fatal) || !ok)
      ensures ok ==> Delivered(handshakeReadSeq)
    {
      hide Buffered, Arrivals, Octets;
      var header, data := TakeReady();
      var alert := PreprocessFragment(header, max);
      if alert == 0 {
        CopyIn(HEADER_LENGTH + header.fragOff, data[..header.fragLen]);
        return header.fragLen, true;
      }
      SetInitNum(0);
      fatal := true;
      return -1, false;
    }

    /** Header and octets of the entry at the head */
    method TakeReady() returns (header: Header, data: bytes)
      requires Settled() && Ready()
      modifies bufferedMessages
      ensures Settled() && forall n <- bufferedMessages.nodes :: n in old(bufferedMessages.nodes)
      ensures Arrived() == set x | x in old(Arrived()) && x.0 != handshakeReadSeq
      ensures var m := Messages()[handshakeReadSeq]; header == WholeHeader(m, handshakeReadSeq) && data == m.body
    {
      hide Stored, EntryFor, Ascending, Arrivals, Octets;
      CompleteIffArrived(Messages(), bufferedMessages.nodes, owned, bufferedMessages.nodes[0]);
      var frag := TakeHead();
      header, data := frag.header, frag.fragment[..];
    }

    /** The data of a fragment are read into devnull. */
    method Discard(len: nat, ghost rest: bytes) returns (i: int)
      requires Settled() && stream.Inside(rest) && |rest| == len
      modifies stream
      ensures Settled() && stream.Boundary() && stream.Upcoming() == old(stream.Upcoming()) && i >= 0
      ensures Arrived() == old(Arrived())
    {
      hide Buffered, Arrivals, EncodeAll, Stream.Framed;
      i := stream.Discard(len, rest);
    }

    /** A slice is added to an entry of the queue. */
    method AddToEntry(item: Item<HmFragment>, off: nat, data: bytes)
      requires Settled() && item in bufferedMessages.nodes && item.data.reassembly != null && data != []
      requires var body := Messages()[item.data.header.number].body;
               off + |data| <= |body| && data == body[off..off + |data|]
      modifies item.data.Repr()
      ensures Settled() && Arrived() == old(Arrived()) + Octets(item.data.header.number, off, off + |data|)
    {
      hide Ascending, Linked, Covered, EntryFor, HmFragment.Got;
      EntryLength(item);
      SliceIn(item, off, data);
      AllOwned();
    }

    lemma AllOwned()
      requires Settled()
      ensures forall n <- bufferedMessages.nodes :: n.data.Repr() <= owned
    {
      hide Ascending, Linked, EntryFor;
    }

    lemma EntryLength(item: Item<HmFragment>)
      requires Settled() && item in bufferedMessages.nodes
      ensures item.data.header.number < |Messages()|
      ensures item.data.fragment.Length == |Messages()[item.data.header.number].body|
    {
      hide Ascending, Linked, Covered;
    }

    method SliceIn(item: Item<HmFragment>, off: nat, data: bytes)
      requires Settled() && item in bufferedMessages.nodes && item.data.reassembly != null && data != []
      requires var body := Messages()[item.data.header.number].body;
               off + |data| <= |body| && data == body[off..off + |data|]
      modifies item.data.Repr()
      ensures Settled() && item.data.Repr() <= old(item.data.Repr())
      ensures forall i :: 0 <= i < item.data.fragment.Length ==>
                            (item.data.Got(i) <==> old(item.data.Got(i)) || off <= i < off + |data|)
      ensures forall n <- bufferedMessages.nodes :: n != item ==>
                forall i :: 0 <= i < n.data.fragment.Length ==> n.data.Got(i) == old(n.data.Got(i))
    {
      hide Ascending, Linked, Covered;
      ghost var nodes := bufferedMessages.nodes;
      assert forall n <- nodes :: n != item ==> n.data.Repr() !! item.data.Repr();
      item.data.AddSlice(off, data, Messages()[item.data.header.number].body);
    }

    /** A new entry is put into the queue. */
    method AddEntry(frag: HmFragment)
      requires Settled() && frag.header.number < |Messages()|
      requires !Has(bufferedMessages.Queue(), frag.header.number)
      requires var n := frag.header.number;
               && frag.header == WholeHeader(Messages()[n], n) && frag.Holds(Messages()[n].body)
               && (frag.reassembly != null ==> Messages()[n].body != [])
      requires frag.Repr() !! Footprint()
      modifies `owned, bufferedMessages, (set n | n in bufferedMessages.nodes)
      ensures Settled() && owned == old(owned + frag.Repr())
      ensures Arrived() == old(Arrived()) + GotIn(frag)
      ensures forall n <- bufferedMessages.nodes :: n in old(bufferedMessages.nodes) || fresh(n)
    {
      hide Buffered, Has, FromBe;
      PriorityOctetsValue(frag.header.number);
      var item := new Item(PriorityOctets(frag.header.number), frag);
      InsertItem(item);
    }

    method InsertItem(item: Item<HmFragment>)
      requires Settled() && item.next == null && item !in Footprint() && |item.priority| == 8
      requires EntryFor(Messages(), item) && !Has(bufferedMessages.Queue(), FromBe(item.priority))
      requires item.data.Repr() !! Footprint() + {item}
      modifies `owned, bufferedMessages, (set n | n in bufferedMessages.nodes), item`next
      ensures Settled() && owned == old(owned + item.data.Repr())
      ensures Arrived() == old(Arrived()) + GotIn(item.data)
      ensures forall n <- bufferedMessages.nodes :: n in old(bufferedMessages.nodes) || n == item
    {
      hide PQueue.Valid, Ascending, Linked, Has, Inserted, EntryFor, FromBe, Stored, Arrivals, GotIn, Entries;
      ghost var nodes := bufferedMessages.nodes;
      var ret := bufferedMessages.Insert(item);
      StoredMore(Messages(), nodes, owned, item, bufferedMessages.nodes);
      ArrivalsMore(Messages(), nodes, owned, item, bufferedMessages.nodes);
      owned := owned + item.data.Repr();
    }

    /** The first slice of a message makes a new entry. */
    method NewEntry(h: Header, data: bytes)
      requires Settled() && h.number < |Messages()| && !Has(bufferedMessages.Queue(), h.number)
      requires h.(fragLen := h.msgLen, fragOff := 0) == WholeHeader(Messages()[h.number], h.number)
      requires data != [] && h.fragOff + |data| <= h.msgLen
      requires data == Messages()[h.number].body[h.fragOff..h.fragOff + |data|]
      modifies `owned, bufferedMessages, (set n | n in bufferedMessages.nodes)
      ensures Settled() && fresh(owned - old(owned))
      ensures Arrived() == old(Arrived()) + Octets(h.number, h.fragOff, h.fragOff + |data|)
      ensures forall n <- bufferedMessages.nodes :: n in old(bufferedMessages.nodes) || fresh(n)
    {
      hide Buffered, Has, Arrivals;
      var frag := FirstSlice(h, data, Messages()[h.number].body);
      assert GotIn(frag) == Octets(h.number, h.fragOff, h.fragOff + |data|);
      AddEntry(frag);
    }

    /** The data of the current fragment are read. */
    method ReadWhole(n: nat, ghost rest: bytes) returns (data: bytes, i: int)
      requires Settled() && 0 < n == |rest| && stream.Inside(rest)
      modifies stream
      ensures Settled() && i == n && data == rest && stream.Boundary() && stream.Upcoming() == old(stream.Upcoming())
      ensures Arrived() == old(Arrived())
    {
      hide Buffered, Arrivals, EncodeAll, Stream.Framed;
      data, i := stream.ReadWhole(n, rest);
    }

    ghost function FateAhead(h: Header): Fate
      reads `handshakeReadSeq, `owned, owned, bufferedMessages
    {
      Waits(0).FateAhead(Arrived(), h)
    }

    /** What becomes of a fragment whose slice exists */
    ghost function FateOf(h: Header, max: int): Fate
      reads `handshakeReadSeq, `owned, owned, bufferedMessages
    {
      Waits(max).FateOf(Arrived(), h)
    }

    /** The entry of a message */
    method FindEntry(number: nat) returns (item: Item?<HmFragment>)
      requires Settled() && number < |Messages()|
      ensures item == null <==> !Has(bufferedMessages.Queue(), number)
      ensures item == null <==> (number, -1) !in Arrived()
      ensures item != null ==>
                item in bufferedMessages.nodes && item.data.header == WholeHeader(Messages()[number], number)
    {
      hide Arrivals, Ascending, Linked, EntryFor, Has, FromBe, Stored;
      HasIffArrived(Messages(), bufferedMessages.nodes, owned, number);
      PriorityOctetsValue(number);
      item := bufferedMessages.Find(PriorityOctets(number));
      if item != null {
        PriorityFound(Messages(), bufferedMessages.nodes, owned, item);
      }
    }

    /** dtls1_reassemble_fragment */
    method ReassembleFragment(h: Header, ghost f: Frag) returns (i: int, unread: bool)
      requires Settled() && Genuine(Messages(), f) && h == HeaderOf(Messages(), f) && f.len < h.msgLen
      requires stream.Inside(DataOf(Messages(), f))
      modifies `owned, owned, stream, bufferedMessages, (set n | n in bufferedMessages.nodes)
      ensures Settled() && fresh(owned - old(owned))
      ensures forall n <- bufferedMessages.nodes :: n in old(bufferedMessages.nodes) || fresh(n)
      ensures i == FRAGMENT_RETRY || i == -1
      ensures i == -1 <==> unread
      ensures !unread ==> stream.Boundary() && stream.Upcoming() == old(stream.Upcoming())
      ensures unread <==> h.msgLen > 12 + 16384 + 256 + 64 && h.msgLen > maxCertList
      ensures unread ==> unchanged(stream) && bufferedMessages.nodes == old(bufferedMessages.nodes)
      ensures Arrived() == old(Arrived()) + if unread then {} else OctetsOf(h)
    {
      hide Arrivals, Octets, OctetsOf, Stored, EntryFor, FromBe, Buffered, Ascending, Linked, Covered, Has, Inserted;
      hide EncodeAll, Genuine, DataOf, HeaderOf, WholeHeader;
      hide Stream.Inside, Stream.Framed, Stream.Boundary;
      Slice(Messages(), f);
      if h.fragOff + h.fragLen > h.msgLen || h.msgLen > MaxMessageLen(maxCertList) {
        return -1, true;
      }
      if h.fragLen == 0 {
        return FRAGMENT_RETRY, false;
      }
      var item := FindEntry(h.number);
      if item == null {
        i, unread := BeginEntry(h, f);
        return;
      }
      if item.data.header.msgLen != h.msgLen {
        return -1, true;
      }
      i, unread := ContinueEntry(item, h, f);
    }

    /** A fragment of a message that has an entry */
    method ContinueEntry(item: Item<HmFragment>, h: Header, ghost f: Frag) returns (i: int, unread: bool)
      requires Settled() && Genuine(Messages(), f) && h == HeaderOf(Messages(), f) && f.len < h.msgLen
      requires item in bufferedMessages.nodes && item.data.header.number == h.number
      requires stream.Inside(DataOf(Messages(), f))
      modifies owned, stream
      ensures Settled() && i == FRAGMENT_RETRY && !unread && stream.Boundary()
              && stream.Upcoming() == old(stream.Upcoming())
      ensures Arrived() == old(Arrived()) + OctetsOf(h)
    {
      hide Arrivals, OctetsOf, Ascending, Linked, Stored, Buffered, EncodeAll, Genuine, DataOf, HeaderOf;
      hide Stream.Inside, Stream.Framed, Stream.Boundary;
      EntryOwned(item);
      if item.data.reassembly == null {
        DropKnown(item, h, f);
        i, unread := FRAGMENT_RETRY, false;
      } else {
        i, unread := ExtendEntry(item, h, f);
      }
    }

    lemma EntryOwned(item: Item<HmFragment>)
      requires Settled() && item in bufferedMessages.nodes
      ensures item.data in owned && item.data.Repr() <= owned
    {
      hide EntryFor, Ascending, Linked;
    }

    /** A fragment of a message that is complete is dropped. */
    method DropKnown(item: Item<HmFragment>, h: Header, ghost f: Frag)
      requires Settled() && Genuine(Messages(), f) && h == HeaderOf(Messages(), f)
      requires item in bufferedMessages.nodes && item.data.reassembly == null && item.data.header.number == h.number
      requires stream.Inside(DataOf(Messages(), f))
      modifies stream
      ensures Settled() && stream.Boundary() && stream.Upcoming() == old(stream.Upcoming())
      ensures Arrived() == old(Arrived()) + OctetsOf(h)
    {
      hide Arrivals, Octets, OctetsOf, Ascending, Linked, EncodeAll, Genuine, DataOf, HeaderOf, Stored;
      hide Stream.Inside, Stream.Framed, Stream.Boundary;
      Slice(Messages(), f);
      CompleteIffArrived(Messages(), bufferedMessages.nodes, owned, item);
      OctetsInside(h, h.msgLen);
      var _ := Discard(h.fragLen, DataOf(Messages(), f));
    }

    /** The body of a fragment is read into a new entry. */
    method BeginEntry(h: Header, ghost f: Frag) returns (i: int, unread: bool)
      requires Settled() && Genuine(Messages(), f) && h == HeaderOf(Messages(), f) && f.len < h.msgLen
      requires stream.Inside(DataOf(Messages(), f)) && !Has(bufferedMessages.Queue(), h.number)
      modifies `owned, stream, bufferedMessages, (set n | n in bufferedMessages.nodes)
      ensures Settled() && fresh(owned - old(owned)) && Arrived() == old(Arrived()) + OctetsOf(h)
      ensures forall n <- bufferedMessages.nodes :: n in old(bufferedMessages.nodes) || fresh(n)
      ensures i == FRAGMENT_RETRY && !unread && stream.Boundary() && stream.Upcoming() == old(stream.Upcoming())
    {
      hide Arrivals, Octets, Buffered, Has, EncodeAll, Genuine, DataOf, HeaderOf, WholeHeader, Stream.Inside;
      hide Stream.Framed, Stream.Boundary;
      Slice(Messages(), f);
      var data, n := ReadWhole(h.fragLen, DataOf(Messages(), f));
      if n != h.fragLen {
        return -1, true;
      }
      NewEntry(h, data);
      i, unread := FRAGMENT_RETRY, false;
    }

    /** The body of a fragment is read into the entry of its message. */
    method ExtendEntry(item: Item<HmFragment>, h: Header, ghost f: Frag) returns (i: int, unread: bool)
      requires Settled() && Genuine(Messages(), f) && h == HeaderOf(Messages(), f) && f.len < h.msgLen
      requires item in bufferedMessages.nodes && item.data.reassembly != null && item.data.header.number == h.number
      requires stream.Inside(DataOf(Messages(), f))
      modifies owned, stream
      ensures Settled() && i == FRAGMENT_RETRY && !unread && stream.Boundary()
              && stream.Upcoming() == old(stream.Upcoming())
      ensures Arrived() == old(Arrived()) + OctetsOf(h)
    {
      hide EncodeAll, Genuine, DataOf, HeaderOf, WholeHeader, EntryFor, Stream.Inside, Stream.Framed, Stream.Boundary;
      hide Ascending, Linked, Arrivals, Octets;
      Slice(Messages(), f);
      var data, n := ReadWhole(h.fragLen, DataOf(Messages(), f));
      if n != h.fragLen {
        return -1, true;
      }
      AddToEntry(item, h.fragOff, data);
      i, unread := FRAGMENT_RETRY, false;
    }

    /** A whole message that is not its turn yet makes an entry. */
    method NewWhole(h: Header, data: bytes)
      requires Settled() && h.number < |Messages()| && !Has(bufferedMessages.Queue(), h.number)
      requires h == WholeHeader(Messages()[h.number], h.number) && data == Messages()[h.number].body
      modifies `owned, bufferedMessages, (set n | n in bufferedMessages.nodes)
      ensures Settled() && fresh(owned - old(owned)) && Arrived() == old(Arrived()) + OctetsOf(h)
      ensures forall n <- bufferedMessages.nodes :: n in old(bufferedMessages.nodes) || fresh(n)
    {
      hide Buffered, Has, Arrivals;
      var frag := new HmFragment(h, h.fragLen, false);
      forall i | 0 <= i < |data| {
        frag.fragment[i] := data[i];
      }
      assert GotIn(frag) == OctetsOf(h);
      AddEntry(frag);
    }

    /** A whole message is read into a new entry. */
    method BeginWhole(h: Header, ghost f: Frag) returns (i: int, unread: bool)
      requires Settled() && Genuine(Messages(), f) && h == HeaderOf(Messages(), f) && f.len >= h.msgLen
      requires stream.Inside(DataOf(Messages(), f)) && !Has(bufferedMessages.Queue(), h.number)
      modifies `owned, stream, bufferedMessages, (set n | n in bufferedMessages.nodes)
      ensures Settled() && fresh(owned - old(owned)) && Arrived() == old(Arrived()) + OctetsOf(h)
      ensures forall n <- bufferedMessages.nodes :: n in old(bufferedMessages.nodes) || fresh(n)
      ensures i == FRAGMENT_RETRY && !unread && stream.Boundary() && stream.Upcoming() == old(stream.Upcoming())
    {
      hide Arrivals, Octets, Buffered, Has, EncodeAll, Genuine, DataOf, HeaderOf, Stream.Inside, Stream.Framed;
      hide Stream.Boundary;
      Slice(Messages(), f);
      var data: bytes := [];
      if h.fragLen > 0 {
        var n;
        data, n := ReadWhole(h.fragLen, DataOf(Messages(), f));
        if n != h.fragLen {
          return -1, true;
        }
      } else {
        EmptyData(f);
      }
      NewWhole(h, data);
      i, unread := FRAGMENT_RETRY, false;
    }

    /** dtls1_process_out_of_seq_message */
    method ProcessOutOfSeqMessage(h: Header, ghost f: Frag) returns (i: int, unread: bool)
      requires Settled() && Genuine(Messages(), f) && h == HeaderOf(Messages(), f)
      requires stream.Inside(DataOf(Messages(), f))
      modifies `owned, owned, stream, bufferedMessages, (set n | n in bufferedMessages.nodes)
      ensures Settled() && fresh(owned - old(owned))
      ensures forall n <- bufferedMessages.nodes :: n in old(bufferedMessages.nodes) || fresh(n)
      ensures i == if unread then -1 else FRAGMENT_RETRY
      ensures unread ==> unchanged(stream)
      ensures !unread ==> stream.Boundary() && stream.Upcoming() == old(stream.Upcoming())
      ensures old(h.number != handshakeReadSeq) ==>
                && unread == old(FateAhead(h) == TooLong)
                && (unread ==> h.msgLen > 12 + 16384 + 256 + 64 && h.msgLen > maxCertList)
                && (old(FateAhead(h) != Keep) ==> bufferedMessages.nodes == old(bufferedMessages.nodes))
                && Arrived() == old(Arrived()) + if old(FateAhead(h) == Keep) then OctetsOf(h) else {}
    {
      hide Arrivals, Octets, OctetsOf, Buffered, Has, EncodeAll, DataOf, HeaderOf, Genuine, WholeHeader, Ascending;
      hide Linked;
      hide Stream.Framed, Stream.Inside, Stream.Boundary;
      Slice(Messages(), f);
      if h.fragOff + h.fragLen > h.msgLen {
        return -1, true;
      }
      var drop := NotForNow(h);
      if drop {
        var _ := Discard(h.fragLen, DataOf(Messages(), f));
        i, unread := FRAGMENT_RETRY, false;
      } else {
        i, unread := KeepAhead(h, f);
      }
    }

    /** The decision to drop a fragment: its message has been there, is too far ahead or is in the queue as a whole. */
    method NotForNow(h: Header) returns (drop: bool)
      requires Settled() && h.number < |Messages()|
      ensures drop <==> FateAhead(h) == Drop
      ensures !drop ==> h.fragLen < h.msgLen || !Has(bufferedMessages.Queue(), h.number)
    {
      hide Arrivals, Buffered, Has, Ascending, Linked;
      var item := FindEntry(h.number);
      if item != null && h.fragLen < h.msgLen {
        item := null;
      }
      drop := h.number <= handshakeReadSeq || h.number > handshakeReadSeq + 10 || item != null
              || (handshakeReadSeq == 0 && h.kind == FINISHED);
    }

    /** The fragment is put into the queue. */
    method KeepAhead(h: Header, ghost f: Frag) returns (i: int, unread: bool)
      requires Settled() && Genuine(Messages(), f) && h == HeaderOf(Messages(), f)
      requires stream.Inside(DataOf(Messages(), f))
      requires h.fragLen < h.msgLen || !Has(bufferedMessages.Queue(), h.number)
      modifies `owned, owned, stream, bufferedMessages, (set n | n in bufferedMessages.nodes)
      ensures Settled() && fresh(owned - old(owned))
      ensures forall n <- bufferedMessages.nodes :: n in old(bufferedMessages.nodes) || fresh(n)
      ensures i == if unread then -1 else FRAGMENT_RETRY
      ensures unread ==> unchanged(stream) && bufferedMessages.nodes == old(bufferedMessages.nodes)
      ensures !unread ==> stream.Boundary() && stream.Upcoming() == old(stream.Upcoming())
      ensures unread <==> h.msgLen > 12 + 16384 + 256 + 64 && h.msgLen > maxCertList
      ensures Arrived() == old(Arrived()) + if unread then {} else OctetsOf(h)
    {
      hide Arrivals, Octets, OctetsOf, Buffered, Has, EncodeAll, DataOf, HeaderOf, Genuine, WholeHeader, Ascending;
      hide Linked;
      hide Stream.Framed, Stream.Inside, Stream.Boundary;
      Slice(Messages(), f);
      if h.fragLen < h.msgLen {
        i, unread := ReassembleFragment(h, f);
      } else if h.fragLen > MaxMessageLen(maxCertList) {
        i, unread := -1, true;
      } else {
        i, unread := BeginWhole(h, f);
      }
    }

    /** The header of the next fragment is read and parsed. */
    method ReadFragmentHeader() returns (wire: bytes, i: int, h: Header, ghost f: Frag)
      requires Settled() && stream.Boundary()
      modifies stream
      ensures Settled() && (i == -1 || i == HEADER_LENGTH)
      ensures i == -1 ==> stream.Boundary() && stream.Upcoming() == old(stream.Upcoming()) == []
      ensures i != -1 ==> old(stream.Upcoming()) == [f] + stream.Upcoming()
      ensures Arrived() == old(Arrived())
      ensures i != -1 ==> Genuine(Messages(), f) && h == HeaderOf(Messages(), f) && stream.Inside(DataOf(Messages(), f))
      ensures i != -1 ==> |wire| == HEADER_LENGTH && wire[0] == h.kind
      ensures i != -1 ==> (h.msgLen == 0 <==> wire[1] == 0 && wire[2] == 0 && wire[3] == 0)
    {
      hide Arrivals, Buffered, EncodeAll, DataOf, HeaderOf, Stream.Framed, Header.Octets;
      h := Header(0, 0, 0, 0, 0);
      wire, i, f := stream.ReadHeader();
      if i != -1 {
        HeaderFits(Messages(), f);
        var cbs := new Cbs.Init(wire);
        var _, parsed := GetMessageHeader(cbs);
        h := parsed;
        assert wire[..HEADER_LENGTH] == wire;
        OctetsInjective(h, HeaderOf(Messages(), f));
        FirstOctets(h);
      }
    }

    /** Nothing is left of a fragment without data. */
    lemma EmptyData(f: Frag)
      requires Genuine(Messages(), f) && f.len == 0 && stream.Inside(DataOf(Messages(), f))
      ensures stream.Boundary()
    {
      assert DataOf(Messages(), f) == [];
      assert [] + EncodeAll(stream.messages, stream.pending) == EncodeAll(stream.messages, stream.pending);
    }

    /** The end of dtls1_get_message_fragment: the expected message has come in one piece. */
    method TakeWhole(h: Header, ghost f: Frag, max: int) returns (i: int, ok: bool)
      requires Settled() && !lost && rMsgHdr.fragLen == 0
      requires Genuine(Messages(), f) && h == HeaderOf(Messages(), f) && stream.Inside(DataOf(Messages(), f))
      requires h.number == handshakeReadSeq && (h.fragLen == 0 || h.fragLen >= h.msgLen)
      modifies `initBuf, `rMsgHdr, `initNum, `fatal, `lost, stream, initBuf
      ensures Valid() && (initBuf == old(initBuf) || fresh(initBuf)) && rMsgHdr.fragLen == 0
      ensures stream.Upcoming() == old(stream.Upcoming()) && Arrived() == old(Arrived())
      ensures ok <==> h.fragOff + h.fragLen <= max
      ensures lost == !ok && fatal == (old(fatal) || !ok)
      ensures ok ==> Delivered(handshakeReadSeq)
      ensures i == if ok then |Messages()[handshakeReadSeq].body| else -1
    {
      hide Arrivals, Buffered, EncodeAll, DataOf, HeaderOf, Stream.Framed, Stream.Inside;
      Slice(Messages(), f);
      var alert := PreprocessFragment(h, max);
      if alert != 0 {
        SetInitNum(0);
        fatal, lost := true, true;
        return -1, false;
      }
      TakeBody(h, f);
      SetInitNum(h.fragLen);
      i, ok := h.fragLen, true;
    }

    /** The body of the expected message is read into the buffer. */
    method TakeBody(h: Header, ghost f: Frag)
      requires Settled() && Genuine(Messages(), f) && h == HeaderOf(Messages(), f)
               && stream.Inside(DataOf(Messages(), f))
      requires h.fragOff + h.fragLen <= h.msgLen && HEADER_LENGTH + h.msgLen <= initBuf.Length
      modifies stream, initBuf
      ensures Settled() && stream.Boundary() && stream.Upcoming() == old(stream.Upcoming())
              && Arrived() == old(Arrived())
      ensures var data := DataOf(Messages(), f);
              forall i :: 0 <= i < |data| ==> initBuf[HEADER_LENGTH + h.fragOff + i] == data[i]
    {
      hide Arrivals, Buffered, EncodeAll, DataOf, HeaderOf, Genuine, Stream.Framed, Stream.Inside, Stream.Boundary;
      Slice(Messages(), f);
      if h.fragLen > 0 {
        var data, n := ReadWhole(h.fragLen, DataOf(Messages(), f));
        CopyIn(HEADER_LENGTH + h.fragOff, data);
      } else {
        EmptyData(f);
      }
    }

    twostate lemma Grown()
      requires fresh(owned - old(owned)) && (initBuf == old(initBuf) || fresh(initBuf))
      requires forall n <- bufferedMessages.nodes :: n in old(bufferedMessages.nodes) || fresh(n)
      ensures fresh(Footprint() - old(Footprint()))
    {
    }

    /** A fragment whose header has been read is dealt with; again says that it was a HelloRequest to skip. */
    method Dispatch(wire: bytes, h: Header, ghost f: Frag, max: int) returns (i: int, ok: bool, again: bool)
      requires Settled() && !lost && rMsgHdr.fragLen == 0
      requires Genuine(Messages(), f) && h == HeaderOf(Messages(), f) && stream.Inside(DataOf(Messages(), f))
      requires |wire| == HEADER_LENGTH && wire[0] == h.kind
               && (h.msgLen == 0 <==> wire[1] == 0 && wire[2] == 0 && wire[3] == 0)
      modifies `owned, `initBuf, `rMsgHdr, `initNum, `fatal, `lost, initBuf,
               owned, stream, bufferedMessages, (set n | n in bufferedMessages.nodes)
      ensures Valid() && fresh(owned - old(owned)) && (initBuf == old(initBuf) || fresh(initBuf))
              && rMsgHdr.fragLen == 0
      ensures forall n <- bufferedMessages.nodes :: n in old(bufferedMessages.nodes) || fresh(n)
      ensures var fate := old(FateOf(h, max));
              && (ok <==> fate == Complete) && (again <==> fate == Skip)
              && (i == FRAGMENT_RETRY <==> fate == Keep || fate == Drop)
              && lost == (fate == Reject || fate == TooLong) && fatal == (old(fatal) || fate == Reject)
              && Arrived() == old(Arrived()) + if fate == Keep then OctetsOf(h) else {}
      ensures ok ==> Delivered(handshakeReadSeq) && i == |Messages()[handshakeReadSeq].body|
      ensures !ok ==> i == -1 || i == FRAGMENT_RETRY
      ensures old(FateOf(h, max)) == TooLong ==>
                unchanged(stream) && h.msgLen > 12 + 16384 + 256 + 64 && h.msgLen > maxCertList
      ensures stream.Upcoming() == old(stream.Upcoming())
      ensures old(FateOf(h, max)) != Keep ==> bufferedMessages.nodes == old(bufferedMessages.nodes)
    {
      hide Arrivals, OctetsOf, Buffered, EncodeAll, DataOf, HeaderOf, Genuine, Stream.Framed, Stream.Inside;
      hide Stream.Boundary;
      Slice(Messages(), f);
      var unread;
      ok, again := false, false;
      if h.number != handshakeReadSeq {
        i, unread := ProcessOutOfSeqMessage(h, f);
        lost := unread;
      } else if h.fragLen != 0 && h.fragLen < h.msgLen {
        i, unread := ReassembleFragment(h, f);
        lost := unread;
      } else if !server && rMsgHdr.fragOff == 0 && wire[0] == HELLO_REQUEST {
        i := -1;
        SetInitNum(0);
        if wire[1] != 0 || wire[2] != 0 || wire[3] != 0 {
          fatal, lost := true, true;
        } else {
          EmptyData(f);
          again := true;
        }
      } else {
        i, ok := TakeWhole(h, f, max);
      }
    }

    /** What the next attempt to get a message leads to */
    ghost function Awaited(max: int): Attempt
      reads `handshakeReadSeq, `owned, owned, bufferedMessages, stream
    {
      Waits(max).Awaited(Arrived(), stream.Upcoming())
    }

    /** An attempt has ended like this. */
    ghost predicate Ended(a: Attempt, ok: bool)
      reads `fatal, `lost, `owned, owned, bufferedMessages, stream
    {
      && (ok <==> a.end == Given) && fatal == (a.end == Refused)
      && (lost ==> a.end == Refused || a.end.Unread?)
      && (a.end.Unread? ==> lost && Genuine(Messages(), a.end.frag) && stream.Inside(DataOf(Messages(), a.end.frag)))
      && Arrived() == a.arrived && stream.Upcoming() == a.rest
    }

    /** dtls1_get_message_fragment */
    method GetMessageFragment(max: int) returns (i: int, ok: bool)
      requires Valid() && !lost && !fatal && rMsgHdr.fragLen == 0
      modifies Footprint()
      ensures Valid() && fresh(Footprint() - old(Footprint())) && rMsgHdr.fragLen == 0
      ensures handshakeReadSeq == old(handshakeReadSeq) && transcript == old(transcript)
      ensures ok ==> Delivered(handshakeReadSeq) && i == |Messages()[handshakeReadSeq].body|
      ensures !ok ==> i == -1 || i == FRAGMENT_RETRY
      // Either the attempt has ended, or a fragment has been queued or dropped and it has not.
      ensures if i == FRAGMENT_RETRY then !ok && Going(max, old(Awaited(max)), old(stream.Left()))
              else Ended(old(Awaited(max)), ok)
    {
      hide Settled, Delivered, Ended, Receiver.Awaited, Stream.Boundary;
      while true
        invariant Valid() && rMsgHdr.fragLen == 0 && fresh(Footprint() - old(Footprint()))
        invariant handshakeReadSeq == old(handshakeReadSeq) && transcript == old(transcript)
        invariant !lost && !fatal && Awaited(max) == old(Awaited(max)) && stream.Left() <= old(stream.Left())
        decreases stream.Left()
      {
        var again;
        i, ok, again := TakeNext(max);
        if !again {
          return;
        }
      }
    }

    /** The attempt goes on with fewer fragments to come. */
    ghost predicate Going(max: int, a: Attempt, left: nat)
      reads `handshakeReadSeq, `fatal, `lost, `owned, owned, bufferedMessages, stream
    {
      !lost && !fatal && Awaited(max) == a && stream.Left() < left
    }

    /** The message at the head of the queue is taken or one fragment is read; again says that it was a HelloRequest to
        skip. */
    method TakeNext(max: int) returns (i: int, ok: bool, again: bool)
      requires Valid() && !lost && !fatal && rMsgHdr.fragLen == 0
      modifies Footprint()
      ensures Valid() && fresh(Footprint() - old(Footprint())) && rMsgHdr.fragLen == 0
      ensures handshakeReadSeq == old(handshakeReadSeq) && transcript == old(transcript)
      ensures ok ==> Delivered(handshakeReadSeq) && i == |Messages()[handshakeReadSeq].body|
      ensures !ok ==> i == -1 || i == FRAGMENT_RETRY
      ensures if again || i == FRAGMENT_RETRY then !ok && Going(max, old(Awaited(max)), old(stream.Left()))
              else Ended(old(Awaited(max)), ok)
    {
      hide Settled, Delivered, Ended, Going, Receiver.Awaited, Stream.Boundary;
      i, ok := RetrieveNext(max);
      again := false;
      if i == 0 && !ok {
        i, ok, again := TakeFragment(max);
      }
    }

    /** The message at the head of the queue is taken or everything stays as it is. */
    method RetrieveNext(max: int) returns (i: int, ok: bool)
      requires Valid() && !lost && !fatal && rMsgHdr.fragLen == 0
      modifies Footprint()
      ensures Valid() && fresh(Footprint() - old(Footprint())) && rMsgHdr.fragLen == 0
      ensures handshakeReadSeq == old(handshakeReadSeq) && transcript == old(transcript)
      ensures ok ==> Delivered(handshakeReadSeq) && i == |Messages()[handshakeReadSeq].body|
      ensures if i == 0 && !ok
              then !Ready() && !lost && !fatal && Awaited(max) == old(Awaited(max))
                   && stream.Left() == old(stream.Left())
              else Ended(old(Awaited(max)), ok) && (ok || i == -1)
    {
      hide Buffered, Ready, Arrivals, Octets, Waiting.Awaited, Stream.Framed, Stream.Boundary;
      ReadyExact(max);
      if Ready() {
        AwaitedReady(Waits(max), Arrived(), stream.Upcoming());
      }
      label Retrieving:
      i, ok := RetrieveBufferedFragment(max);
      Grown@Retrieving();
      if ok {
        SetInitNum(i);
      }
    }

    /** One fragment is read and dealt with. */
    method TakeFragment(max: int) returns (i: int, ok: bool, again: bool)
      requires Valid() && !lost && !fatal && rMsgHdr.fragLen == 0 && !Ready()
      modifies Footprint()
      ensures Valid() && fresh(Footprint() - old(Footprint())) && rMsgHdr.fragLen == 0
      ensures handshakeReadSeq == old(handshakeReadSeq) && transcript == old(transcript)
      ensures ok ==> Delivered(handshakeReadSeq) && i == |Messages()[handshakeReadSeq].body|
      ensures !ok ==> i == -1 || i == FRAGMENT_RETRY
      ensures if again || i == FRAGMENT_RETRY then !ok && Going(max, old(Awaited(max)), old(stream.Left()))
              else Ended(old(Awaited(max)), ok)
    {
      hide Buffered, Ready, Arrivals, Octets, OctetsOf, EncodeAll, DataOf, HeaderOf, Genuine, Waiting.Awaited;
      hide Stream.Framed, Stream.Inside, Stream.Boundary;
      ReadyExact(max);
      var wire, n, h;
      ghost var f;
      wire, n, h, f := ReadFragmentHeader();
      if n <= 0 {
        AwaitedNothing(Waits(max), Arrived());
        return n, false, false;
      }
      Slice(Messages(), f);
      AwaitedNext(Waits(max), Arrived(), f, stream.Upcoming());
      i, ok, again := DispatchNext(wire, h, f, max, old(Awaited(max)));
      Grown();
    }

    /** What becomes of the fragment decides how the attempt ends, or leaves that to the fragments behind it. */
    method DispatchNext(wire: bytes, h: Header, ghost f: Frag, max: int, ghost a: Attempt)
      returns (i: int, ok: bool, again: bool)
      requires Settled() && !lost && !fatal && rMsgHdr.fragLen == 0
      requires Genuine(Messages(), f) && h == HeaderOf(Messages(), f) && stream.Inside(DataOf(Messages(), f))
      requires |wire| == HEADER_LENGTH && wire[0] == h.kind
               && (h.msgLen == 0 <==> wire[1] == 0 && wire[2] == 0 && wire[3] == 0)
      requires a == NextAttempt(Waits(max), Arrived(), f, h, stream.Upcoming())
      modifies `owned, `initBuf, `rMsgHdr, `initNum, `fatal, `lost, initBuf,
               owned, stream, bufferedMessages, (set n | n in bufferedMessages.nodes)
      ensures Valid() && fresh(owned - old(owned)) && (initBuf == old(initBuf) || fresh(initBuf))
              && rMsgHdr.fragLen == 0
      ensures forall n <- bufferedMessages.nodes :: n in old(bufferedMessages.nodes) || fresh(n)
      ensures ok ==> Delivered(handshakeReadSeq) && i == |Messages()[handshakeReadSeq].body|
      ensures !ok ==> i == -1 || i == FRAGMENT_RETRY
      ensures if again || i == FRAGMENT_RETRY then !ok && Going(max, a, old(stream.Left()) + 1) else Ended(a, ok)
    {
      hide Buffered, Ready, Arrivals, Octets, OctetsOf, EncodeAll, DataOf, HeaderOf, Genuine, Waiting.FateOf;
      hide Waiting.Awaited, Stream.Framed, Stream.Inside, Stream.Boundary;
      i, ok, again := Dispatch(wire, h, f, max);
      assert old(Arrived()) + {} == old(Arrived());
    }

    /** dtls1_get_message: 1 when the next message has been delivered, with its header rebuilt before it. How an attempt
        ends, what is in the queue then and which fragments are left is what Waiting.Awaited says. */
    method GetMessage(max: int) returns (r: int)
      requires Valid() && !lost && !fatal
      modifies Footprint()
      ensures Valid() && fresh(Footprint() - old(Footprint())) && (r == 1 || r == -1) && rMsgHdr.fragLen == 0
      ensures Ended(old(Awaited(max)), r == 1)
      ensures r == -1 ==> handshakeReadSeq == old(handshakeReadSeq) && transcript == old(transcript)
      ensures r == 1 ==> old(handshakeReadSeq) < |Messages()| && handshakeReadSeq == old(handshakeReadSeq) + 1
      ensures r == 1 ==> var out := Recorded(Messages()[old(handshakeReadSeq)], old(handshakeReadSeq));
                         && initBuf.Length >= |out| && initBuf[..|out|] == out
                         && transcript == old(transcript) + out
    {
      hide Settled, Arrivals, Waiting.Awaited, Stream.Framed, Stream.Inside, Stream.Boundary;
      ResetHeader(max);
      var i, ok := AwaitMessage(max);
      if i <= 0 && !ok {
        return i;
      }
      Deliver();
      r := 1;
    }

    /** The loop of dtls1_get_message */
    method AwaitMessage(max: int) returns (i: int, ok: bool)
      requires Valid() && !lost && !fatal && rMsgHdr.fragLen == 0
      modifies Footprint()
      ensures Valid() && fresh(Footprint() - old(Footprint())) && rMsgHdr.fragLen == 0
      ensures handshakeReadSeq == old(handshakeReadSeq) && transcript == old(transcript)
      ensures ok ==> Delivered(handshakeReadSeq)
      ensures !ok ==> i == -1
      ensures Ended(old(Awaited(max)), ok)
    {
      hide Settled, Delivered, Ended, Receiver.Awaited, Stream.Boundary;
      while true
        invariant Valid() && fresh(Footprint() - old(Footprint())) && rMsgHdr.fragLen == 0
        invariant handshakeReadSeq == old(handshakeReadSeq) && transcript == old(transcript)
        invariant !lost && !fatal && Awaited(max) == old(Awaited(max))
        decreases stream.Left()
      {
        i, ok := GetMessageFragment(max);
        if i == BAD_FRAGMENT || i == FRAGMENT_RETRY {
          continue;
        }
        return;
      }
    }

    /** What is expected, in the queue and to come, and whether the handshake is over */
    ghost function Situation(): Inbox
      reads this, owned, bufferedMessages, stream
    {
      Inbox(handshakeReadSeq, Arrived(), stream.Upcoming(), lost || fatal)
    }

    /** Whole runs: records arrive or a message is asked for. Whatever arrives, the transcript is that of the first
        messages, in order and without a gap, and how many they are and what is left is what AfterAll says. */
    method ReceiveMessages(max: int, events: seq<Option<bytes>>, ghost es: seq<Option<seq<Frag>>>)
      requires Valid() && !lost && !fatal && Carrying(Messages(), events, es)
      requires handshakeReadSeq <= |Messages()| && transcript == AllRecorded(Messages(), handshakeReadSeq)
      modifies Footprint()
      ensures Valid() && old(handshakeReadSeq) <= handshakeReadSeq <= |Messages()|
      ensures transcript == AllRecorded(Messages(), handshakeReadSeq)
      ensures Situation() == AfterAll(old(Waits(max)), old(Situation()), es)
    {
      hide Settled, EncodeAll, AllGenuine, Recorded, Arrivals, Stream.Upcoming, After, Receiver.Situation;
      ghost var w, end := Waits(max), AfterAll(Waits(max), Situation(), es);
      assert es[0..] == es;
      for n := 0 to |events|
        invariant Valid() && !lost && !fatal && fresh(Footprint() - old(Footprint()))
        invariant old(handshakeReadSeq) <= handshakeReadSeq <= |Messages()|
        invariant transcript == AllRecorded(Messages(), handshakeReadSeq)
        invariant AfterAll(w, Situation(), es[n..]) == end
      {
        assert es[n..][1..] == es[n + 1..];
        Happen(max, w, events[n], es[n]);
        if lost || fatal {
          NotGoingOn();
          OverStays(w, Situation(), es[n + 1..]);
          return;
        }
      }
    }

    lemma NotGoingOn()
      ensures Situation().over == (lost || fatal)
    {}

    /** A record arrives or a message is asked for. */
    method Happen(max: int, ghost w: Waiting, event: Option<bytes>, ghost e: Option<seq<Frag>>)
      requires Valid() && !lost && !fatal && CarriedBy(Messages(), event, e)
      requires handshakeReadSeq <= |Messages()| && transcript == AllRecorded(Messages(), handshakeReadSeq)
      requires w.(next := handshakeReadSeq) == Waits(max)
      modifies Footprint()
      ensures Valid() && fresh(Footprint() - old(Footprint()))
      ensures old(handshakeReadSeq) <= handshakeReadSeq <= |Messages()|
      ensures transcript == AllRecorded(Messages(), handshakeReadSeq)
      ensures Situation() == After(w, old(Situation()), e)
    {
      hide Settled, EncodeAll, AllGenuine, Recorded, Arrivals, Waiting.Awaited, Stream.Inside, Stream.Framed;
      hide Stream.Boundary;
      if event.Some? {
        Arrive(event.value, e.value);
      } else {
        var _ := GetMessage(max);
      }
    }

    /** A record arrives. */
    method Arrive(data: bytes, ghost fs: seq<Frag>)
      requires Valid() && !lost && AllGenuine(Messages(), fs) && data == EncodeAll(Messages(), fs)
      modifies stream`input, stream`ahead
      ensures Valid() && stream.Upcoming() == old(stream.Upcoming()) + fs && Arrived() == old(Arrived())
    {
      hide Buffered, Arrivals, EncodeAll, AllGenuine;
      stream.Arrive(data, fs);
    }

    /** memset(msg_hdr, 0, sizeof(struct hm_header_st)) */
    method ResetHeader(ghost max: int)
      requires Valid()
      modifies `rMsgHdr
      ensures Valid() && rMsgHdr.fragLen == 0 && Awaited(max) == old(Awaited(max))
    {
      hide Buffered, Arrivals, Waiting.Awaited;
      rMsgHdr := Header(0, 0, 0, 0, 0);
    }

    /** The end of dtls1_get_message */
    method Deliver()
      requires Valid() && !lost && Delivered(handshakeReadSeq)
      modifies `rMsgHdr, `handshakeReadSeq, `transcript, initBuf
      ensures Valid() && handshakeReadSeq == old(handshakeReadSeq) + 1 && Arrived() == old(Arrived())
      ensures rMsgHdr.fragLen == 0
      ensures var out := Recorded(Messages()[old(handshakeReadSeq)], old(handshakeReadSeq));
              && initBuf.Length >= |out| && initBuf[..|out|] == out
              && transcript == old(transcript) + out
    {
      hide Buffered, Header.Octets;
      var msgLen := rMsgHdr.msgLen;
      ghost var m := Messages()[handshakeReadSeq];
      ghost var out := Recorded(m, handshakeReadSeq);
      assert m in Messages();
      var _ := WriteMessageHeader(rMsgHdr, 0, msgLen, initBuf, 0);
      assert initBuf[..HEADER_LENGTH + msgLen] == out;
      transcript := transcript + initBuf[..HEADER_LENGTH + msgLen];
      rMsgHdr := Header(0, 0, 0, 0, 0);
      handshakeReadSeq := handshakeReadSeq + 1;
    }
  }
}

/** Two runs of the receiver: octets of a long message become a message of their own, and a complete message is not
    delivered. */
module DtlsReceiveRuns {
  import opened Bytes
  import opened DtlsDelivery
  import opened DtlsReceive
  import opened HandshakeHeader
  import opened HandshakeStream

  /** A fresh receiver */
  method Start(server: bool, maxCertList: nat, ms: seq<Message>) returns (r: Receiver)
    requires Sendable(ms)
    ensures r.Valid() && fresh(r.Footprint()) && !r.lost && !r.fatal && r.Messages() == ms
    ensures r.stream.Upcoming() == [] && r.Arrived() == {} && r.maxCertList == maxCertList
    ensures r.handshakeReadSeq == 0 && r.transcript == [] && r.server == server
  {
    hide Receiver.Buffered, Receiver.Arrived, Sendable, Stream.Framed, Stream.Boundary;
    var stream := new Stream(ms);
    r := new Receiver(server, maxCertList, stream);
  }

  lemma OneEncoded(ms: seq<Message>, f: Frag)
    requires Genuine(ms, f)
    ensures AllGenuine(ms, [f]) && f.number < |ms| && f.off + f.len <= |ms[f.number].body|
    ensures EncodeAll(ms, [f]) == HeaderOf(ms, f).Octets() + ms[f.number].body[f.off..f.off + f.len]
  {
    hide Header.Octets;
    assert EncodeAll(ms, [f]) == Encode(ms, f) + EncodeAll(ms, []);
  }

  /** One fragment arrives and a message is asked for. */
  method Ask(r: Receiver, max: int, ms: seq<Message>, f: Frag) returns (ret: int)
    requires r.Valid() && !r.lost && !r.fatal && r.Messages() == ms && Genuine(ms, f) && r.stream.Upcoming() == []
    modifies r.Footprint()
    ensures r.Valid() && fresh(r.Footprint() - old(r.Footprint())) && (ret == 1 || ret == -1)
    ensures r.Ended(old(r.Waits(max)).Awaited(old(r.Arrived()), [f]), ret == 1)
    ensures ret == -1 ==> r.handshakeReadSeq == old(r.handshakeReadSeq) && r.transcript == old(r.transcript)
    ensures ret == 1 ==> old(r.handshakeReadSeq) < |ms| && r.handshakeReadSeq == old(r.handshakeReadSeq) + 1
    ensures ret == 1 ==>
              r.transcript == old(r.transcript) + Recorded(ms[old(r.handshakeReadSeq)], old(r.handshakeReadSeq))
  {
    hide Receiver.Settled, Receiver.Arrived, Genuine, EncodeAll, AllGenuine, Header.Octets, Stream.Framed, Recorded;
    hide Waiting.Awaited, Receiver.Ended;
    OneEncoded(ms, f);
    assert [] + [f] == [f];
    r.Arrive(HeaderOf(ms, f).Octets() + ms[f.number].body[f.off..f.off + f.len], [f]);
    ret := r.GetMessage(max);
  }

  // A message that is too long.

  /** A message whose body begins with the octets of a message m */
  function Wrapping(m: Message, n: nat): Message
    requires n >= |Recorded(m, 0)|
  {
    Message(1, Recorded(m, 0) + Zeros(n - |Recorded(m, 0)|))
  }

  lemma WrappedFragment(m: Message, n: nat)
    requires m.kind < 0x100 && HEADER_LENGTH + |m.body| < n < 0x100_0000
    ensures |Recorded(m, 0)| == HEADER_LENGTH + |m.body|
    ensures var ms, f := [Wrapping(m, n)], Frag(0, 0, |Recorded(m, 0)|);
            Sendable(ms) && Genuine(ms, f) && DataOf(ms, f) == Recorded(m, 0)
    ensures var f := Frag(0, 0, |m.body|);
            && Sendable([m]) && AllGenuine([m], [f]) && Genuine([m], f) && EncodeAll([m], [f]) == Recorded(m, 0)
  {
    hide Header.Octets;
    assert EncodeAll([m], [Frag(0, 0, |m.body|)]) == Encode([m], Frag(0, 0, |m.body|)) + EncodeAll([m], []);
  }

  lemma WrappedUnread(w: Waiting, m: Message, n: nat)
    requires Oversize(n, w.maxCertList) && n < 0x100_0000 && HEADER_LENGTH + |m.body| < n && m.kind < 0x100
    requires w.ms == [Wrapping(m, n)] && w.next == 0
    ensures var f := Frag(0, 0, |Recorded(m, 0)|); w.Awaited({}, [f]) == Attempt(Unread(f), {}, [])
  {
    hide Header.Octets;
    WrappedFragment(m, n);
    assert (0, -1) in Octets(0, 0, n);
  }

  lemma NothingLeft(stream: Stream, rest: bytes)
    requires stream.Inside(rest) && stream.Upcoming() == []
    ensures stream.Framed() && stream.record == rest
  {
    assert stream.pending == [];
    assert rest + [] == rest;
  }

  /** A fresh receiver gets the first part of a message that is too long. */
  method FirstCall(server: bool, maxCertList: nat, max: nat, m: Message, n: nat) returns (r: Receiver, first: int)
    requires Oversize(n, maxCertList) && n < 0x100_0000 && HEADER_LENGTH + |m.body| < n && m.kind < 0x100
    ensures r.Valid() && fresh(r.Footprint()) && first == -1 && !r.fatal && r.server == server
    ensures r.handshakeReadSeq == 0 && r.transcript == [] && r.bufferedMessages.nodes == []
    ensures r.stream.Framed() && r.stream.Upcoming() == [] && r.stream.record == Recorded(m, 0)
  {
    hide Header.Octets, Recorded, EncodeAll, Genuine, DataOf, Receiver.Buffered, Receiver.Arrived, Wrapping;
    hide Stream.Framed, Waiting.Awaited, Stream.Inside, Octets;
    WrappedFragment(m, n);
    var ms, f := [Wrapping(m, n)], Frag(0, 0, |Recorded(m, 0)|);
    r := Start(server, maxCertList, ms);
    WrappedUnread(r.Waits(max), m, n);
    first := Ask(r, max, ms, f);
    NothingLeft(r.stream, Recorded(m, 0));
    r.NothingQueued();
  }

  /** The call that finds the octets of a message */
  method SecondCall(s: Receiver, max: nat, m: Message) returns (second: int)
    requires s.Valid() && !s.lost && !s.fatal && s.Messages() == [m] && s.stream.Upcoming() == [Frag(0, 0, |m.body|)]
    requires s.Arrived() == {} && s.handshakeReadSeq == 0 && s.transcript == []
    requires |m.body| <= max && (!s.server ==> m.kind != HELLO_REQUEST)
    modifies s.Footprint()
    ensures second == 1 && s.handshakeReadSeq == 1 && s.transcript == Recorded(m, 0)
  {
    hide Receiver.Settled, Receiver.Arrived, Recorded, Waiting.Awaited;
    MessageGiven(s.Waits(max), m);
    second := s.GetMessage(max);
  }

  lemma MessageGiven(w: Waiting, m: Message)
    requires w.ms == [m] && w.next == 0 && w.Acceptable()
    ensures w.Awaited({}, [Frag(0, 0, |m.body|)]) == Attempt(Given, {}, [])
  {
    assert (0, -1) in Octets(0, 0, |m.body|);
  }

  /** The run in which octets of a body become a message. The first part of a message of n octets, too long to be put
      together, has arrived. The call that is to deliver it fails without an alert and without reading what it carries.
      The next call takes that for a fragment, and delivers any message it is the octets of, as the first one. */
  method LongMessageRun(server: bool, maxCertList: nat, max: nat, m: Message, n: nat)
    returns (r: Receiver, first: int, s: Receiver, second: int)
    requires Oversize(n, maxCertList) && n < 0x100_0000 && HEADER_LENGTH + |m.body| < n
    requires m.kind < 0x100 && |m.body| <= max && (!server ==> m.kind != HELLO_REQUEST)
    ensures first == -1 && !r.fatal && r.handshakeReadSeq == 0 && r.transcript == []
    ensures second == 1 && s.handshakeReadSeq == 1 && s.transcript == Recorded(m, 0)
  {
    hide Recorded, EncodeAll, Genuine, AllGenuine, DataOf, Encode, Receiver.Settled, Wrapping, Stream.Framed;
    WrappedFragment(m, n);
    r, first := FirstCall(server, maxCertList, max, m, n);
    var octets := new Stream.Reread(r.stream, [m], [Frag(0, 0, |m.body|)]);
    s := new Receiver.Reread(r, octets);
    second := SecondCall(s, max, m);
  }

  // A part of a message before the whole.

  lemma FirstPart(w: Waiting)
    requires w.next == 0 < |w.ms| && |w.ms[0].body| >= 2 && !Oversize(|w.ms[0].body|, w.maxCertList)
    ensures w.Awaited({}, [Frag(0, 0, 1)]) == Attempt(Lacking, Octets(0, 0, 1), [])
  {
    var f := Frag(0, 0, 1);
    assert (0, 1) in Octets(0, 0, |w.ms[0].body|);
    AwaitedNext(w, {}, f, []);
    assert [f] + [] == [f];
    assert {} + Octets(0, 0, 1) == Octets(0, 0, 1);
  }

  lemma WholeGiven(w: Waiting)
    requires w.next == 0 && w.Acceptable() && |w.ms[0].body| >= 2
    ensures w.Awaited(Octets(0, 0, 1), [w.Whole()]) == Attempt(Given, Octets(0, 0, 1), [])
  {
    assert (0, 1) in Octets(0, 0, |w.ms[0].body|);
    AwaitedNext(w, Octets(0, 0, 1), w.Whole(), []);
    assert [w.Whole()] + [] == [w.Whole()];
  }

  /** Behind something older a part of the expected message is queued, and that is all. */
  lemma PartQueued(w: Waiting, arrived: set<(nat, int)>, f: Frag)
    requires f.number == w.next < |w.ms| && 0 < f.len < |w.ms[w.next].body| && (exists x <- arrived :: x.0 < w.next)
    requires !Oversize(|w.ms[w.next].body|, w.maxCertList)
    ensures w.Awaited(arrived, [f]) == Attempt(Lacking, arrived + Octets(f.number, f.off, f.off + f.len), [])
  {
    hide Octets;
    AwaitedNext(w, arrived, f, []);
    assert [f] + [] == [f];
    var x :| x in arrived && x.0 < w.next;
    assert x in arrived + Octets(f.number, f.off, f.off + f.len);
  }

  lemma OctetsTogether(number: nat, len: nat)
    requires len > 0
    ensures Octets(number, 0, len) == Octets(number, 0, 1) + Octets(number, 1, len)
  {}

  lemma HeaderThere(number: nat, lo: int, hi: int)
    ensures (number, -1) in Octets(number, lo, hi)
  {}

  /** Message 0 comes in part and then in one piece. */
  method WholeAfterPart(server: bool, maxCertList: nat, max: nat, ms: seq<Message>) returns (r: Receiver, first: int)
    requires Sendable(ms) && |ms| > 1 && |ms[0].body| >= 2 && !Oversize(|ms[0].body|, maxCertList)
    requires |ms[0].body| <= max && (!server ==> ms[0].kind != HELLO_REQUEST)
    ensures r.Valid() && fresh(r.Footprint()) && !r.lost && !r.fatal && r.Messages() == ms && r.stream.Upcoming() == []
    ensures first == 1 && r.handshakeReadSeq == 1 && r.transcript == Recorded(ms[0], 0)
    ensures r.Arrived() == Octets(0, 0, 1) && r.maxCertList == maxCertList
  {
    hide Receiver.Settled, Receiver.Arrived, Waiting.Awaited, Octets, Recorded, Stream.Framed, Oversize;
    r := Start(server, maxCertList, ms);
    FirstPart(r.Waits(max));
    first := Ask(r, max, ms, Frag(0, 0, 1));
    WholeGiven(r.Waits(max));
    first := Ask(r, max, ms, Frag(0, 0, |ms[0].body|));
  }

  /** The run in which a complete message stays in the queue. Message 0 comes in part and then in one piece, and is
      delivered; then message 1 comes in two parts. All its octets are in the queue, nothing was lost and no alert sent,
      but message 0 is at the head, and message 1 is not delivered. */
  method BlockedRun(server: bool, maxCertList: nat, max: nat, ms: seq<Message>)
    returns (r: Receiver, first: int, second: int)
    requires Sendable(ms) && |ms| > 1 && |ms[0].body| >= 2 && |ms[1].body| >= 2
    requires |ms[0].body| <= max && (!server ==> ms[0].kind != HELLO_REQUEST)
    requires forall m <- ms :: !Oversize(|m.body|, maxCertList)
    ensures first == 1 && second == -1 && r.handshakeReadSeq == 1 && r.transcript == Recorded(ms[0], 0)
    ensures !r.lost && !r.fatal && r.stream.Upcoming() == [] && Octets(1, 0, |ms[1].body|) <= r.Arrived()
  {
    hide Receiver.Settled, Receiver.Arrived, Waiting.Awaited, Octets, Recorded, Stream.Framed, Oversize;
    r, first := WholeAfterPart(server, maxCertList, max, ms);
    HeaderThere(0, 0, 1);
    PartQueued(r.Waits(max), r.Arrived(), Frag(1, 0, 1));
    second := Ask(r, max, ms, Frag(1, 0, 1));
    PartQueued(r.Waits(max), r.Arrived(), Frag(1, 1, |ms[1].body| - 1));
    second := Ask(r, max, ms, Frag(1, 1, |ms[1].body| - 1));
    OctetsTogether(1, |ms[1].body|);
  }
}

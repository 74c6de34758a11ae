/** From the sender of handshake messages over a network that loses, repeats and reorders records to the receiver. */
module DtlsHandshake {
  import opened Bytes
  import opened DtlsDelivery
  import opened DtlsInOrder
  import opened DtlsReceive
  import opened DtlsSend
  import opened HandshakeHeader
  import opened HandshakeStream
  import opened Wrappers

  /** A record that carries one fragment of these messages */
  ghost predicate Genuinely(ms: seq<Message>, data: bytes) {
    exists f :: Genuine(ms, f) && AllGenuine(ms, [f]) && data == EncodeAll(ms, [f])
  }

  ghost predicate AllGenuinely(ms: seq<Message>, written: seq<Sent>) {
    forall r <- written :: Genuinely(ms, r.data)
  }

  /** The records carry these fragments, one each. */
  ghost predicate Streams(ms: seq<Message>, written: seq<Sent>, fs: seq<Frag>) {
    && |written| == |fs|
    && forall i :: 0 <= i < |fs| ==> AllGenuine(ms, [fs[i]]) && written[i].data == EncodeAll(ms, [fs[i]])
  }

  lemma StreamsMore(ms: seq<Message>, a: seq<Sent>, fs: seq<Frag>, b: seq<Sent>, gs: seq<Frag>)
    requires Streams(ms, a, fs) && Streams(ms, b, gs)
    ensures Streams(ms, a + b, fs + gs)
  {
    hide EncodeAll, AllGenuine;
  }

  lemma CarriedStreams(ms: seq<Message>, number: nat, frags: seq<Frag>, records: seq<Sent>, epoch: nat)
    requires number < |ms| && Cuts(frags, number, |ms[number].body|) && Carries(records, ms[number], frags, epoch)
    ensures Streams(ms, records, frags)
  {
    hide EncodeAll, Genuine, Carrier, Cuts;
    CarriedIsGenuine(records, ms, number, frags, epoch);
    forall i | 0 <= i < |frags|
      ensures AllGenuine(ms, [frags[i]])
    {
      assert frags[i] in frags;
    }
  }

  lemma CarriedGenuinely(ms: seq<Message>, number: nat, frags: seq<Frag>, records: seq<Sent>, epoch: nat)
    requires number < |ms| && Cuts(frags, number, |ms[number].body|) && Carries(records, ms[number], frags, epoch)
    ensures AllGenuinely(ms, records)
  {
    hide EncodeAll, Genuine, Carrier;
    CarriedIsGenuine(records, ms, number, frags, epoch);
    forall r | r in records
      ensures Genuinely(ms, r.data)
    {
      var i :| 0 <= i < |records| && records[i] == r;
      assert frags[i] in frags;
      assert AllGenuine(ms, [frags[i]]);
    }
  }

  /** The log keeps the first messages as they were sent. */
  ghost predicate Logged(log: seq<Kept>, ms: seq<Message>) {
    && |log| <= |ms|
    && forall i :: 0 <= i < |log| ==>
         && log[i].Valid() && !log[i].isCcs && log[i].header == WholeHeader(ms[i], i) && log[i].Body() == ms[i]
         && log[i].epoch == 0
  }

  /** Enough room for any message */
  function Longest(ms: seq<Message>): (n: nat)
    ensures forall m <- ms :: |m.body| <= n
  {
    if ms == [] then 0
    else if |ms[0].body| > Longest(ms[1..]) then |ms[0].body| else Longest(ms[1..])
  }

  /** A message is put into the buffer, kept and sent. */
  method SendMessage(s: Sender, ms: seq<Message>, k: nat) returns (ghost frags: seq<Frag>)
    requires s.Valid() && k < |ms| && Logged(s.Log(), ms) && |s.Log()| == k
    requires Sendable(ms) && |ms| <= 0x8000 && Longest(ms) + HEADER_LENGTH <= s.initBuf.Length
    requires s.initOff == 0 && !s.retransmitting && s.writeEpoch == 0 && AllGenuinely(ms, s.written)
    requires Within(s.written, s.mtu, s.overhead)
    modifies s, s.initBuf, s.sentMessages, (set n | n in s.sentMessages.nodes)
    ensures s.Valid() && s.initOff == 0 && !s.retransmitting && s.writeEpoch == 0 && s.initBuf == old(s.initBuf)
    ensures Logged(s.Log(), ms) && |s.Log()| == k + 1 && AllGenuinely(ms, s.written)
    ensures Within(s.written, s.mtu, s.overhead)
    ensures s.transcript == old(s.transcript) + Recorded(ms[k], k)
    ensures Cuts(frags, k, |ms[k].body|)
    ensures forall fs :: old(Streams(ms, s.written, fs)) ==> Streams(ms, s.written, fs + frags)
    ensures forall n <- s.sentMessages.nodes :: n in old(s.sentMessages.nodes) || fresh(n)
  {
    hide AllGenuinely, Genuinely, Streams, Within, Sized, Cuts, Carries, Sender.Valid, Longest, Logged, KeptIn;
    hide Header.Octets, Recorded;
    EnoughRoom(s);
    Fill(s, ms, k);
    Keep(s, ms, k);
    ghost var turns := s.wpending;
    var sent;
    ghost var records;
    sent, frags, records := s.DoWriteHandshake(ms[k], k);
    CarriedStreams(ms, k, frags, records, s.writeEpoch);
    forall fs | Streams(ms, old(s.written), fs)
      ensures Streams(ms, s.written, fs + frags)
    {
      StreamsMore(ms, old(s.written), fs, records, frags);
    }
    SizedWithin(records, turns, s.mtu, s.overhead);
    WithinMore(old(s.written), records, s.mtu, s.overhead);
    CarriedGenuinely(ms, k, frags, records, s.writeEpoch);
    MoreGenuinely(ms, old(s.written), records);
  }

  lemma MoreGenuinely(ms: seq<Message>, a: seq<Sent>, b: seq<Sent>)
    requires AllGenuinely(ms, a) && AllGenuinely(ms, b)
    ensures AllGenuinely(ms, a + b)
  {}

  lemma EnoughRoom(s: Sender)
    requires s.Valid()
    ensures s.mtu > s.overhead + RECORD_HEADER_LENGTH + HEADER_LENGTH
  {}

  method Fill(s: Sender, ms: seq<Message>, k: nat)
    requires s.Valid() && k < |ms| && Sendable(ms) && |ms| <= 0x8000 && Longest(ms) + HEADER_LENGTH <= s.initBuf.Length
    modifies s`initNum, s`initOff, s`wMsgHdr, s.initBuf
    ensures s.Valid() && s.Log() == old(s.Log()) && s.Loaded(ms[k], k) && s.wMsgHdr == WholeHeader(ms[k], k)
  {
    var m := ms[k];
    assert m in ms;
    s.wMsgHdr := WholeHeader(m, k);
    s.initNum, s.initOff := HEADER_LENGTH + |m.body|, 0;
    var buf := s.initBuf;
    forall i | 0 <= i < |m.body| {
      buf[HEADER_LENGTH + i] := m.body[i];
    }
  }

  method Keep(s: Sender, ms: seq<Message>, k: nat)
    requires s.Valid() && k < |ms| && Logged(s.Log(), ms) && |s.Log()| == k && |ms| <= 0x8000 && Sendable(ms)
    requires s.Loaded(ms[k], k) && s.wMsgHdr == WholeHeader(ms[k], k) && s.writeEpoch == 0
    modifies s.sentMessages, (set n | n in s.sentMessages.nodes)
    ensures s.Valid() && Logged(s.Log(), ms) && |s.Log()| == k + 1
    ensures forall n <- s.sentMessages.nodes :: n in old(s.sentMessages.nodes) || fresh(n)
  {
    hide Logged, Sender.Valid, KeptIn, Kept.Valid;
    ghost var log := s.Log();
    ghost var content := s.initBuf[..s.initNum];
    assert content[HEADER_LENGTH..] == ms[k].body;
    NumbersBelow(log, ms);
    LoggedMore(log, ms, content, s.session);
    var _ := s.BufferMessage(false);
  }

  lemma NumbersBelow(log: seq<Kept>, ms: seq<Message>)
    requires Logged(log, ms)
    ensures forall x <- log :: x.header.number < |log|
  {}

  lemma LoggedMore(log: seq<Kept>, ms: seq<Message>, content: bytes, session: nat)
    requires Logged(log, ms) && |log| < |ms| && |log| < 0x8000 && Sendable(ms)
    requires |content| == HEADER_LENGTH + |ms[|log|].body| && content[HEADER_LENGTH..] == ms[|log|].body
    ensures WholeHeader(ms[|log|], |log|).Fits()
    ensures Logged(log + [Kept(WholeHeader(ms[|log|], |log|), false, content, session, 0)], ms)
  {
    assert ms[|log|] in ms;
  }

  /** All messages are sent again. */
  method Resend(s: Sender, ms: seq<Message>)
    requires s.Valid() && Logged(s.Log(), ms)
    requires s.initOff == 0 && !s.retransmitting && s.writeEpoch == 0 && AllGenuinely(ms, s.written)
    requires Within(s.written, s.mtu, s.overhead)
    modifies s, s.initBuf
    ensures s.Valid() && s.initOff == 0 && !s.retransmitting && s.writeEpoch == 0 && s.initBuf == old(s.initBuf)
    ensures s.Log() == old(s.Log()) && s.transcript == old(s.transcript) && AllGenuinely(ms, s.written)
    ensures Within(s.written, s.mtu, s.overhead)
  {
    hide AllGenuinely, Within, AllEmitted, Logged, Sender.Valid, Sender.Available, KeptIn, Emits, Flatten;
    ghost var log := s.Log();
    AllAvailable(s, log, ms);
    var r, outputs := s.RetransmitBufferedMessages();
    AgainWithin(outputs, log, s.mtu, s.overhead);
    WithinMore(old(s.written), Flatten(outputs), s.mtu, s.overhead);
    OutputsGenuinely(ms, log, outputs);
    MoreGenuinely(ms, old(s.written), Flatten(outputs));
  }

  lemma AgainWithin(outputs: seq<seq<Sent>>, log: seq<Kept>, mtu: nat, overhead: nat)
    requires AllEmitted(outputs, log, mtu, overhead)
    ensures Within(Flatten(outputs), mtu, overhead)
    ensures |outputs| <= |log| && forall i :: 0 <= i < |outputs| ==> log[i].Valid() && Emits(outputs[i], log[i])
  {
    hide Within;
    WithinFlatten(outputs, mtu, overhead);
  }

  lemma AllAvailable(s: Sender, log: seq<Kept>, ms: seq<Message>)
    requires Logged(log, ms) && s.writeEpoch == 0
    ensures forall k <- log :: s.Available(k.epoch)
  {}

  lemma {:induction false} OutputsGenuinely(ms: seq<Message>, log: seq<Kept>, outputs: seq<seq<Sent>>)
    requires Logged(log, ms) && |outputs| <= |log|
    requires forall i :: 0 <= i < |outputs| ==> Emits(outputs[i], log[i])
    ensures AllGenuinely(ms, Flatten(outputs))
  {
    hide AllGenuinely, Cuts, Carries;
    if outputs == [] {
      NoneGenuinely(ms);
    } else {
      var k := |outputs| - 1;
      OutputsGenuinely(ms, log, outputs[..k]);
      assert Emits(outputs[k], log[k]);
      var frags :| Cuts(frags, k, |ms[k].body|) && Carries(outputs[k], ms[k], frags, 0);
      CarriedGenuinely(ms, k, frags, outputs[k], 0);
      MoreGenuinely(ms, Flatten(outputs[..k]), outputs[k]);
    }
  }

  lemma NoneGenuinely(ms: seq<Message>)
    ensures AllGenuinely(ms, [])
  {}

  /** All messages are sent, and some times all that were sent are sent again. */
  method SendAll(s: Sender, ms: seq<Message>, again: nat) returns (ghost cuts: seq<seq<Frag>>)
    requires s.Valid() && s.Log() == [] && s.transcript == [] && s.written == []
    requires Sendable(ms) && |ms| <= 0x8000 && Longest(ms) + HEADER_LENGTH <= s.initBuf.Length
    requires s.initOff == 0 && !s.retransmitting && s.writeEpoch == 0
    modifies s, s.initBuf, s.sentMessages, (set n | n in s.sentMessages.nodes)
    ensures s.transcript == AllRecorded(ms, |ms|) && AllGenuinely(ms, s.written)
    ensures AllCut(ms, cuts) && |cuts| == |ms|
    ensures again == 0 ==> Streams(ms, s.written, InAll(cuts))
    ensures Within(s.written, s.mtu, s.overhead)
  {
    hide AllGenuinely, Within, Streams, Cuts, Logged, Sender.Valid, Recorded;
    NoneStreams(ms);
    NoneGenuinely(ms);
    WithinMore([], [], s.mtu, s.overhead);
    NoneLogged(ms);
    cuts := [];
    for k := 0 to |ms|
      invariant AllCut(ms, cuts) && |cuts| == k && Streams(ms, s.written, InAll(cuts))
      invariant s.Valid() && s.initOff == 0 && !s.retransmitting && s.writeEpoch == 0 && s.initBuf == old(s.initBuf)
      invariant Logged(s.Log(), ms) && |s.Log()| == k && AllGenuinely(ms, s.written)
      invariant s.transcript == AllRecorded(ms, k) && Within(s.written, s.mtu, s.overhead)
      invariant forall n <- s.sentMessages.nodes :: n in old(s.sentMessages.nodes) || fresh(n)
    {
      ghost var frags := SendMessage(s, ms, k);
      InAllSnoc(cuts, frags);
      cuts := cuts + [frags];
    }
    ghost var first := s.written;
    for i := 0 to again
      invariant s.Valid() && s.initOff == 0 && !s.retransmitting && s.writeEpoch == 0 && s.initBuf == old(s.initBuf)
      invariant Logged(s.Log(), ms) && AllGenuinely(ms, s.written) && s.transcript == AllRecorded(ms, |ms|)
      invariant Within(s.written, s.mtu, s.overhead) && (i == 0 ==> s.written == first)
    {
      Resend(s, ms);
    }
  }

  lemma NoneStreams(ms: seq<Message>)
    ensures Streams(ms, [], [])
  {}

  lemma NoneLogged(ms: seq<Message>)
    ensures Logged([], ms)
  {}

  /** What the network makes of the records: Some(k) is the arrival of record k, None a call of the receiver. A record
      may arrive any number of times, and in any order, or never. */
  method Deliver(written: seq<Sent>, picks: seq<Option<nat>>, ghost ms: seq<Message>)
    returns (events: seq<Option<bytes>>, ghost es: seq<Option<seq<Frag>>>)
    requires AllGenuinely(ms, written)
    ensures |events| == |picks| && Carrying(ms, events, es)
    ensures forall i :: 0 <= i < |picks| && picks[i].Some? && picks[i].value < |written| ==>
              events[i] == Some(written[picks[i].value].data)
    ensures forall i :: 0 <= i < |picks| && !(picks[i].Some? && picks[i].value < |written|) ==> events[i] == None
  {
    hide EncodeAll, AllGenuine;
    events, es := [], [];
    for i := 0 to |picks|
      invariant |events| == i && Carrying(ms, events, es)
      invariant forall j :: 0 <= j < i && picks[j].Some? && picks[j].value < |written| ==>
                  events[j] == Some(written[picks[j].value].data)
      invariant forall j :: 0 <= j < i && !(picks[j].Some? && picks[j].value < |written|) ==> events[j] == None
    {
      if picks[i].Some? && picks[i].value < |written| {
        var r := written[picks[i].value];
        assert Genuinely(ms, r.data);
        ghost var f :| Genuine(ms, f) && AllGenuine(ms, [f]) && r.data == EncodeAll(ms, [f]);
        events, es := events + [Some(r.data)], es + [Some([f])];
      } else {
        events, es := events + [None], es + [None];
      }
    }
  }

  lemma {:induction false} RecordedPrefix(ms: seq<Message>, k: nat, n: nat)
    requires k <= n <= |ms|
    ensures AllRecorded(ms, k) <= AllRecorded(ms, n)
    decreases n
  {
    if k < n {
      RecordedPrefix(ms, k, n - 1);
    }
  }

  /** However the messages are cut up and whatever the network does, the transcript of the receiver is that of the first
      messages, and a prefix of the sender's. */
  method Exchange(ms: seq<Message>, mtu: nat, overhead: nat, wpending: seq<nat>, again: nat, picks: seq<Option<nat>>,
                  server: bool, maxCertList: nat, max: int)
    returns (sent: bytes, got: bytes, ghost count: nat)
    requires Sendable(ms) && |ms| <= 0x8000 && mtu > overhead + RECORD_HEADER_LENGTH + HEADER_LENGTH
    ensures sent == AllRecorded(ms, |ms|) && count <= |ms| && got == AllRecorded(ms, count) && got <= sent
  {
    hide AllGenuinely, AllGenuine, EncodeAll, Sender.Valid, Within, Streams, AllCut, Recorded;
    var buf := new byte[Longest(ms) + HEADER_LENGTH](_ => 0);
    var s := new Sender(mtu, overhead, buf);
    SetPending(s, wpending);
    ghost var cuts := SendAll(s, ms, again);
    sent := s.transcript;
    var events, es := Deliver(s.written, picks, ms);
    got, count := ReceiveAny(ms, events, es, server, maxCertList, max);
    RecordedPrefix(ms, count, |ms|);
  }

  method ReceiveAny(ms: seq<Message>, events: seq<Option<bytes>>, ghost es: seq<Option<seq<Frag>>>, server: bool,
                    maxCertList: nat, max: int)
    returns (got: bytes, ghost count: nat)
    requires Sendable(ms) && Carrying(ms, events, es)
    ensures count <= |ms| && got == AllRecorded(ms, count)
  {
    hide EncodeAll, Receiver.Settled, Waiting.Awaited, Recorded, Receiver.Arrived, Carrying, After;
    var stream := new Stream(ms);
    var receiver := new Receiver(server, maxCertList, stream);
    receiver.ReceiveMessages(max, events, es);
    got, count := receiver.transcript, receiver.handshakeReadSeq;
  }

  /** Each record arrives once and in order, and then each message is asked for. */
  method DeliverInOrder(written: seq<Sent>, n: nat, ghost ms: seq<Message>, ghost fs: seq<Frag>)
    returns (events: seq<Option<bytes>>)
    requires Streams(ms, written, fs)
    ensures Carrying(ms, events, OneByOne(fs) + Calls(n))
  {
    hide EncodeAll, AllGenuine;
    events := seq(|written| + n, i requires 0 <= i < |written| + n =>
                    if i < |written| then Some(written[i].data) else None);
  }

  /** Nothing is lost and the order is kept: then the receiver gets all that is sent, if all of it is acceptable. */
  method ExchangeInOrder(ms: seq<Message>, mtu: nat, overhead: nat, wpending: seq<nat>, server: bool, maxCertList: nat,
                         max: nat)
    returns (sent: bytes, got: bytes)
    requires Sendable(ms) && |ms| <= 0x8000 && mtu > overhead + RECORD_HEADER_LENGTH + HEADER_LENGTH
    requires forall m <- ms :: |m.body| <= max && !Oversize(|m.body|, maxCertList)
    requires !server ==> forall m <- ms :: m.kind != HELLO_REQUEST
    ensures sent == got == AllRecorded(ms, |ms|)
  {
    hide AllGenuinely, EncodeAll, Sender.Valid, Within, Streams, Receiver.Settled, Waiting.Awaited, Recorded;
    hide Receiver.Arrived, AllRecorded, Cuts, AllAcceptable;
    var buf := new byte[Longest(ms) + HEADER_LENGTH](_ => 0);
    var s := new Sender(mtu, overhead, buf);
    SetPending(s, wpending);
    ghost var cuts := SendAll(s, ms, 0);
    sent := s.transcript;
    var events := DeliverInOrder(s.written, |ms|, ms, InAll(cuts));
    got := ReceiveInOrder(ms, events, cuts, server, maxCertList, max);
  }

  method ReceiveInOrder(ms: seq<Message>, events: seq<Option<bytes>>, ghost cuts: seq<seq<Frag>>, server: bool,
                        maxCertList: nat, max: nat)
    returns (got: bytes)
    requires Sendable(ms) && AllCut(ms, cuts) && |cuts| == |ms|
    requires Carrying(ms, events, OneByOne(InAll(cuts)) + Calls(|ms|))
    requires forall m <- ms :: |m.body| <= max && !Oversize(|m.body|, maxCertList)
    requires !server ==> forall m <- ms :: m.kind != HELLO_REQUEST
    ensures got == AllRecorded(ms, |ms|)
  {
    hide EncodeAll, Receiver.Settled, Waiting.Awaited, Recorded, Receiver.Arrived, Cuts, AllAcceptable, Carrying, After;
    hide Oversize;
    var stream := new Stream(ms);
    var receiver := new Receiver(server, maxCertList, stream);
    AcceptableAll(receiver.Waits(max));
    InOrderDelivers(receiver.Waits(max), cuts);
    receiver.ReceiveMessages(max, events, OneByOne(InAll(cuts)) + Calls(|ms|));
    got := receiver.transcript;
  }

  lemma AcceptableAll(w: Waiting)
    requires forall m <- w.ms :: |m.body| <= w.max && !Oversize(|m.body|, w.maxCertList)
    requires !w.server ==> forall m <- w.ms :: m.kind != HELLO_REQUEST
    ensures AllAcceptable(w)
  {
    forall k | 0 <= k < |w.ms|
      ensures w.(next := k).Acceptable()
    {
      assert w.ms[k] in w.ms;
    }
  }

  method SetPending(s: Sender, wpending: seq<nat>)
    requires s.Valid()
    modifies s`wpending
    ensures s.Valid() && s.Log() == old(s.Log())
  {
    s.wpending := wpending;
  }
}

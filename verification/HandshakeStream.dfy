/** Handshake messages cut into fragments and the records that carry them. */
module HandshakeStream {
  import opened Bytes
  import opened HandshakeHeader

  datatype Message = Message(kind: nat, body: bytes)

  /** The fields of a header can hold the numbers, kinds and lengths of these messages. */
  ghost predicate Sendable(ms: seq<Message>) {
    |ms| <= 0x1_0000 && forall m <- ms :: m.kind < 0x100 && |m.body| < 0x100_0000
  }

  /** A slice of the body of a message. */
  datatype Frag = Frag(number: nat, off: nat, len: nat)

  /** The slice exists and is empty only where the body is. */
  ghost predicate Genuine(ms: seq<Message>, f: Frag) {
    && f.number < |ms|
    && f.off + f.len <= |ms[f.number].body|
    && (f.len > 0 || ms[f.number].body == [])
  }

  ghost predicate AllGenuine(ms: seq<Message>, fs: seq<Frag>) {
    forall f <- fs :: Genuine(ms, f)
  }

  /** The header of a message as a single fragment. */
  function WholeHeader(m: Message, number: nat): Header {
    Header(m.kind, |m.body|, number, 0, |m.body|)
  }

  function HeaderOf(ms: seq<Message>, f: Frag): Header
    requires f.number < |ms|
  {
    WholeHeader(ms[f.number], f.number).(fragOff := f.off, fragLen := f.len)
  }

  ghost function DataOf(ms: seq<Message>, f: Frag): bytes
    requires Genuine(ms, f)
  {
    ms[f.number].body[f.off..f.off + f.len]
  }

  ghost function Encode(ms: seq<Message>, f: Frag): bytes
    requires Genuine(ms, f)
  {
    HeaderOf(ms, f).Octets() + DataOf(ms, f)
  }

  ghost function EncodeAll(ms: seq<Message>, fs: seq<Frag>): bytes
    requires AllGenuine(ms, fs)
  {
    if fs == [] then [] else Encode(ms, fs[0]) + EncodeAll(ms, fs[1..])
  }

  /** The fragments in all records. */
  ghost function InAll(rs: seq<seq<Frag>>): seq<Frag> {
    if rs == [] then [] else rs[0] + InAll(rs[1..])
  }

  /** What the receiver records of a message and, by section 4.2.6 of RFC 6347, what the sender records. */
  function Recorded(m: Message, number: nat): bytes {
    WholeHeader(m, number).Octets() + m.body
  }

  /** What is recorded of the first k messages. */
  ghost function AllRecorded(ms: seq<Message>, k: nat): bytes
    requires k <= |ms|
  {
    if k == 0 then [] else AllRecorded(ms, k - 1) + Recorded(ms[k - 1], k - 1)
  }

  lemma HeaderFits(ms: seq<Message>, f: Frag)
    requires Sendable(ms) && Genuine(ms, f)
    ensures HeaderOf(ms, f).Fits() && WholeHeader(ms[f.number], f.number).Fits()
  {
    assert ms[f.number] in ms;
  }

  lemma Slice(ms: seq<Message>, f: Frag)
    requires Genuine(ms, f)
    ensures f.number < |ms|
    ensures var body, h := ms[f.number].body, HeaderOf(ms, f);
            && h.msgLen == |body| && h.number == f.number && h.fragOff == f.off && h.fragLen == f.len
            && f.off + f.len <= |body| && DataOf(ms, f) == body[f.off..f.off + f.len] && |DataOf(ms, f)| == f.len
            && (f.len < |body| ==> f.len > 0)
            && h.(fragLen := h.msgLen, fragOff := 0) == WholeHeader(ms[f.number], f.number)
  {
  }

  /** The stream of records from a peer, read like ssl_read_bytes does. */
  class Stream {
    ghost const messages: seq<Message>
    // What is left of the current record, and the records to come.
    var record: bytes
    var input: seq<bytes>
    // The fragments not begun yet in the current record and in those to come.
    ghost var pending: seq<Frag>
    ghost var ahead: seq<seq<Frag>>

    ghost predicate Framed()
      reads this
    {
      && AllGenuine(messages, pending)
      && |input| == |ahead|
      && forall i :: 0 <= i < |input| ==> AllGenuine(messages, ahead[i]) && input[i] == EncodeAll(messages, ahead[i])
    }

    /** Nothing has arrived yet. */
    constructor (ghost messages: seq<Message>)
      ensures Boundary() && Upcoming() == [] && this.messages == messages && record == [] && input == []
    {
      this.messages := messages;
      record, input, pending, ahead := [], [], [], [];
    }

    /** The same octets, where those of the current record are fragments of other messages */
    constructor Reread(s: Stream, ghost messages: seq<Message>, ghost fs: seq<Frag>)
      requires s.Framed() && s.Upcoming() == []
      requires AllGenuine(messages, fs) && s.record == EncodeAll(messages, fs)
      ensures Boundary() && Upcoming() == fs && this.messages == messages && record == s.record && input == s.input
    {
      hide Genuine;
      NothingAhead(s.ahead);
      this.messages := messages;
      record, input, pending, ahead := s.record, s.input, fs, s.ahead;
      assert fs + [] == fs;
    }

    /** A record arrives. */
    method Arrive(data: bytes, ghost fs: seq<Frag>)
      requires Framed() && AllGenuine(messages, fs) && data == EncodeAll(messages, fs)
      modifies `input, `ahead
      ensures Framed() && Upcoming() == old(Upcoming()) + fs && old(Boundary()) == Boundary()
    {
      hide AllGenuine, EncodeAll;
      InAllSnoc(ahead, fs);
      input, ahead := input + [data], ahead + [fs];
    }

    /** Between two fragments */
    ghost predicate Boundary()
      reads this
    {
      Framed() && record == EncodeAll(messages, pending)
    }

    /** So much of the data of a fragment is left. */
    ghost predicate Inside(rest: bytes)
      reads this
    {
      Framed() && record == rest + EncodeAll(messages, pending)
    }

    /** The fragments not begun yet */
    ghost function Upcoming(): seq<Frag>
      reads `pending, `ahead
    {
      pending + InAll(ahead)
    }

    ghost function Left(): nat
      reads `pending, `ahead
    {
      |Upcoming()|
    }

    /** ssl_read_bytes for handshake content: a read never reaches beyond the current record. */
    method ReadBytes(n: nat) returns (data: bytes, i: int)
      requires n > 0 && if record == [] then Boundary() else Framed()
      modifies this
      ensures Framed() && Upcoming() == old(Upcoming())
      ensures old(record) != [] ==> pending == old(pending)
      ensures i == -1 || i == |data| > 0
      ensures i == -1 ==> old(record) == [] && record == [] && Boundary() && Upcoming() == []
      ensures i != -1 ==>
                var r := if old(record) != [] then old(record) else EncodeAll(messages, pending);
                && i == (if n <= |r| then n else |r|) && data == r[..i] && record == r[i..]
    {
      while record == [] && input != []
        invariant Framed() && Upcoming() == old(Upcoming())
        invariant old(record) != [] ==> record == old(record) && pending == old(pending)
        invariant old(record) == [] ==> Boundary()
        decreases |input|
      {
        NothingPending(messages, pending);
        record, pending := input[0], ahead[0];
        input, ahead := input[1..], ahead[1..];
      }
      if record == [] {
        NothingPending(messages, pending);
        return [], -1;
      }
      i := if n <= |record| then n else |record|;
      data, record := record[..i], record[i..];
    }

    /** The header of the next fragment. */
    method ReadHeader() returns (data: bytes, i: int, ghost f: Frag)
      requires Boundary()
      modifies this
      ensures i == -1 || i == HEADER_LENGTH
      ensures i == -1 <==> old(Upcoming()) == []
      ensures i == -1 ==> Boundary() && Upcoming() == []
      ensures i != -1 ==> Genuine(messages, f) && data == HeaderOf(messages, f).Octets() && Inside(DataOf(messages, f))
      ensures i != -1 ==> old(Upcoming()) == [f] + Upcoming()
    {
      hide Genuine, AllGenuine, DataOf, HeaderOf, EncodeAll, Encode;
      f := Frag(0, 0, 0);
      data, i := ReadBytes(HEADER_LENGTH);
      if i != -1 {
        ghost var rest := EncodeFirst(messages, pending);
        f, pending := pending[0], pending[1..];
      }
    }

    /** All data of the current fragment. */
    method ReadWhole(n: nat, ghost rest: bytes) returns (data: bytes, i: int)
      requires 0 < n == |rest| && Inside(rest)
      modifies this
      ensures i == n && data == rest && Boundary() && Upcoming() == old(Upcoming())
    {
      data, i := ReadData(n, rest);
      assert rest[n..] == [] && rest[..n] == rest;
      assert [] + EncodeAll(messages, pending) == EncodeAll(messages, pending);
    }

    /** The loops of d1_both.c that read the data of a fragment into devnull. */
    method Discard(len: nat, ghost rest: bytes) returns (i: int)
      requires Inside(rest) && |rest| == len
      modifies this
      ensures Boundary() && Upcoming() == old(Upcoming()) && i >= 0
    {
      hide EncodeAll, InAll;
      var fragLen := len;
      i := 0;
      assert rest[0..] == rest;
      while fragLen > 0
        invariant 0 <= fragLen <= len && Inside(rest[len - fragLen..]) && Upcoming() == old(Upcoming()) && i >= 0
      {
        var _, got := ReadData(if fragLen > 256 then 256 else fragLen, rest[len - fragLen..]);
        i := got;
        if i <= 0 {
          return;
        }
        assert rest[len - fragLen..][i..] == rest[len - (fragLen - i)..];
        fragLen := fragLen - i;
      }
      assert fragLen == 0 && rest[len - fragLen..] == [];
      assert [] + EncodeAll(messages, pending) == EncodeAll(messages, pending);
    }

    /** Data of the current fragment. */
    method ReadData(n: nat, ghost rest: bytes) returns (data: bytes, i: int)
      requires 0 < n <= |rest| && Inside(rest)
      modifies this
      ensures i == n && data == rest[..n] && Inside(rest[n..]) && Upcoming() == old(Upcoming())
    {
      data, i := ReadBytes(n);
    }
  }

  lemma EncodeFirst(ms: seq<Message>, fs: seq<Frag>) returns (rest: bytes)
    requires AllGenuine(ms, fs) && EncodeAll(ms, fs) != []
    ensures fs != [] && Genuine(ms, fs[0]) && AllGenuine(ms, fs[1..])
    ensures rest == DataOf(ms, fs[0]) + EncodeAll(ms, fs[1..])
    ensures var s, h := EncodeAll(ms, fs), HeaderOf(ms, fs[0]).Octets();
            |s| >= HEADER_LENGTH && s[..HEADER_LENGTH] == h && s[HEADER_LENGTH..] == rest
  {
    hide Header.Octets;
    assert fs[0] in fs;
    rest := DataOf(ms, fs[0]) + EncodeAll(ms, fs[1..]);
    assert EncodeAll(ms, fs) == HeaderOf(ms, fs[0]).Octets() + rest;
  }

  lemma {:induction false} InAllSnoc(rs: seq<seq<Frag>>, fs: seq<Frag>)
    ensures InAll(rs + [fs]) == InAll(rs) + fs
  {
    if rs != [] {
      InAllSnoc(rs[1..], fs);
      assert (rs + [fs])[1..] == rs[1..] + [fs];
    } else {
      assert (rs + [fs])[1..] == [];
    }
  }

  lemma {:induction false} NothingAhead(rs: seq<seq<Frag>>)
    requires InAll(rs) == []
    ensures forall i :: 0 <= i < |rs| ==> rs[i] == []
  {
    if rs != [] {
      NothingAhead(rs[1..]);
      assert forall i :: 0 < i < |rs| ==> rs[i] == rs[1..][i - 1];
    }
  }

  lemma NothingPending(ms: seq<Message>, fs: seq<Frag>)
    requires AllGenuine(ms, fs) && EncodeAll(ms, fs) == []
    ensures fs == []
  {
  }
}

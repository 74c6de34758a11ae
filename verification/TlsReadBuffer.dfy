/** The input buffer of ssl_pkt.c for TLS: one array in which packets are built from what the network gives. */
module TlsReadBuffer {
  import opened Bytes
  import opened ByteBuilder

  const HEADER_LENGTH: nat := 5
  const APPLICATION_DATA: nat := 23

  /** What one BIO_read can do: fail with a code, or have octets ready. */
  datatype Chunk = Fail(code: int) | Data(octets: bytes)

  /** What the record layer asks for. */
  datatype Event = Read(plen: nat) | Extend(plen: nat) | Finish

  /** A packet is extended only after it was started and before it is finished. */
  predicate Ordered(events: seq<Event>, started: bool) {
    events == [] ||
    match events[0]
    case Read(plen) => Ordered(events[1..], started || plen > 0)
    case Extend(_) => started && Ordered(events[1..], true)
    case Finish => Ordered(events[1..], false)
  }

  /** The octets the reads to come will bring. */
  function Incoming(bio: seq<Chunk>): bytes {
    if bio == [] then []
    else (match bio[0] case Fail(_) => [] case Data(octets) => octets) + Incoming(bio[1..])
  }

  /** The octets that come before a read fails */
  function Ready(bio: seq<Chunk>): nat {
    if bio == [] || bio[0].Fail? then 0 else |bio[0].octets| + Ready(bio[1..])
  }

  /** What the first read to fail gives; at the end of what is to come every read fails. */
  function Failure(bio: seq<Chunk>): int {
    if bio == [] then -1 else if bio[0].Fail? then bio[0].code else Failure(bio[1..])
  }

  lemma FailureFails(bio: seq<Chunk>)
    requires forall c <- bio :: c.Fail? ==> c.code <= 0
    ensures Failure(bio) <= 0
  {
    if bio != [] && bio[0].Data? {
      FailureFails(bio[1..]);
    }
  }

  lemma FirstReady(bio: seq<Chunk>)
    requires forall c <- bio :: c.Data? ==> c.octets != []
    ensures Ready(bio) == 0 <==> bio == [] || bio[0].Fail?
  {}

  lemma ReadyLess(bio: seq<Chunk>, i: nat)
    requires bio != [] && bio[0].Data? && i <= |bio[0].octets|
    ensures var rest := (if i == |bio[0].octets| then [] else [Data(bio[0].octets[i..])]) + bio[1..];
            Ready(bio) == i + Ready(rest) && Failure(bio) == Failure(rest)
  {
    if i == |bio[0].octets| {
      assert [] + bio[1..] == bio[1..];
    } else {
      assert ([Data(bio[0].octets[i..])] + bio[1..])[1..] == bio[1..];
    }
  }

  /** i octets of the first chunk are taken. */
  lemma Incomings(bio: seq<Chunk>, i: nat)
    requires bio != [] && bio[0].Data? && i <= |bio[0].octets|
    ensures var octets := bio[0].octets;
            Incoming(bio) == octets[..i] + Incoming((if i == |octets| then [] else [Data(octets[i..])]) + bio[1..])
  {
    var octets := bio[0].octets;
    if i == |octets| {
      assert octets[..i] == octets && [] + bio[1..] == bio[1..];
    } else {
      assert ([Data(octets[i..])] + bio[1..])[1..] == bio[1..];
      assert octets[..i] + (octets[i..] + Incoming(bio[1..])) == octets + Incoming(bio[1..]);
    }
  }

  lemma Failing(bio: seq<Chunk>)
    requires bio != []
    ensures bio[0].Fail? ==> Incoming(bio) == Incoming(bio[1..])
  {}

  /** n octets of an array */
  ghost function Part(a: array<byte>, at: nat, n: nat): (s: bytes)
    requires at + n <= a.Length
    reads a
    ensures |s| == n
  {
    a[at..at + n]
  }

  /** Adjacent parts of an array. */
  lemma Adjacent(a: array<byte>, at: nat, m: nat, n: nat)
    requires at + m + n <= a.Length
    ensures Part(a, at, m + n) == Part(a, at, m) + Part(a, at + m, n)
  {
  }

  lemma NoPart(a: array<byte>, at: nat)
    requires at <= a.Length
    ensures Part(a, at, 0) == []
  {}

  /** memmove, stated for the two parts of what is moved */
  method MoveTo(a: array<byte>, to: nat, from: nat, m: nat, n: nat)
    requires from + m + n <= a.Length && to + m + n <= a.Length
    modifies a
    ensures Part(a, to, m) == old(Part(a, from, m))
    ensures Part(a, to + m, n) == old(Part(a, from + m, n))
  {
    ghost var p, q := a[from..from + m], a[from + m..from + m + n];
    Memmove(a, to, from, m + n);
    forall i | 0 <= i < m
      ensures a[to + i] == p[i]
    {
      assert p[i] == old(a[from + i]);
    }
    forall i | 0 <= i < n
      ensures a[to + m + i] == q[i]
    {
      assert q[i] == old(a[from + m + i]);
    }
  }

  /** All octets are accounted for, in order. */
  ghost predicate Whole(received: bytes, finished: bytes, packet: bytes, pending: bytes) {
    received == finished + packet + pending
  }

  /** Octets are read. */
  lemma WholeMore(received: bytes, f: bytes, p: bytes, q: bytes, x: bytes, rest: bytes)
    requires Whole(received, f, p, q)
    ensures Whole(received + x, f, p, q + x) && (received + x) + rest == received + (x + rest)
  {
  }

  /** Octets join the packet. */
  lemma WholeMoved(received: bytes, f: bytes, p: bytes, x: bytes, q: bytes)
    requires Whole(received, f, p, x + q)
    ensures Whole(received, f, p + x, q)
  {
  }

  /** The packet is finished. */
  lemma WholeFinished(received: bytes, f: bytes, p: bytes, q: bytes)
    requires Whole(received, f, p, q)
    ensures Whole(received, f + p, [], q)
  {
    assert f + p + [] == f + p;
  }

  class ReadBuffer {
    const buf: array<byte>
    // The offset at which the payload after a record header is aligned, which depends on the address of buf.
    const align: nat
    const readAhead: bool
    var offset: nat
    var left: nat
    var packet: nat
    var packetLength: nat
    var bio: seq<Chunk>
    // All octets read so far, and those of the packets that are finished.
    ghost var received: bytes
    ghost var finished: bytes

    ghost predicate Valid()
      reads this, buf
    {
      && align <= 7
      && offset + left <= buf.Length && (left > 0 ==> align <= offset)
      && packet + packetLength <= buf.Length && (packetLength > 0 ==> Joined())
      && (forall c <- bio :: if c.Fail? then c.code <= 0 else c.octets != [])
      && Whole(received, finished, Packet(), Pending())
    }

    /** The packet meets the octets behind it. */
    ghost predicate Joined()
      reads this
    {
      packet + packetLength == offset && align <= packet
    }

    ghost function Packet(): bytes
      requires packet + packetLength <= buf.Length
      reads `packet, `packetLength, buf
    {
      Part(buf, packet, packetLength)
    }

    /** The octets read but not part of a packet yet. */
    ghost function Pending(): bytes
      requires offset + left <= buf.Length
      reads `offset, `left, buf
    {
      Part(buf, offset, left)
    }

    constructor (buf: array<byte>, align: nat, readAhead: bool, bio: seq<Chunk>)
      requires align <= 7 <= buf.Length && forall c <- bio :: if c.Fail? then c.code <= 0 else c.octets != []
      ensures Valid() && received == [] && this.buf == buf && this.bio == bio
    {
      this.buf, this.align, this.readAhead, this.bio := buf, align, readAhead, bio;
      offset, left, packet, packetLength, received, finished := 0, 0, 0, 0, [], [];
    }

    /** BIO_read into the buffer */
    method BioRead(at: nat, max: nat) returns (i: int)
      requires at + max <= buf.Length && max > 0
      requires forall c <- bio :: if c.Fail? then c.code <= 0 else c.octets != []
      modifies `bio, `received, buf
      ensures i <= max
      ensures forall c <- bio :: if c.Fail? then c.code <= 0 else c.octets != []
      // It fails when nothing is ready, and otherwise takes some of what is.
      ensures i <= 0 <==> old(Ready(bio)) == 0
      ensures i <= 0 ==> i == old(Failure(bio))
      ensures i > 0 ==> old(Ready(bio)) == i + Ready(bio) && Failure(bio) == old(Failure(bio))
      ensures i <= 0 ==> received == old(received) && Incoming(bio) == old(Incoming(bio))
      ensures i > 0 ==> received == old(received) + Part(buf, at, i)
      ensures i > 0 ==> old(Incoming(bio)) == Part(buf, at, i) + Incoming(bio)
      ensures forall lo: nat, n: nat :: lo + n <= at ==> Part(buf, lo, n) == old(Part(buf, lo, n))
    {
      hide Part, Incoming;
      FirstReady(bio);
      if bio == [] {
        return -1;
      }
      Failing(bio);
      var c := bio[0];
      if c.Fail? {
        bio := bio[1..];
        return c.code;
      }
      i := if |c.octets| <= max then |c.octets| else max;
      Put(at, c.octets[..i]);
      Incomings(bio, i);
      ReadyLess(bio, i);
      received := received + c.octets[..i];
      bio := (if i == |c.octets| then [] else [Data(c.octets[i..])]) + bio[1..];
    }

    method Put(at: nat, data: bytes)
      requires at + |data| <= buf.Length
      modifies buf
      ensures Part(buf, at, |data|) == data
      ensures forall lo: nat, n: nat :: lo + n <= at ==> Part(buf, lo, n) == old(Part(buf, lo, n))
    {
      forall k | 0 <= k < |data| {
        buf[at + k] := data[k];
      }
      assert buf[at..at + |data|] == data;
      forall lo: nat, n: nat | lo + n <= at
        ensures Part(buf, lo, n) == old(Part(buf, lo, n))
      {
        assert buf[lo..lo + n] == old(buf[lo..lo + n]);
      }
    }

    /** The beginning of ssl3_read_n when a new packet is started. */
    method StartPacket()
      requires Valid() && align <= buf.Length
      modifies `offset, `packet, `packetLength, `finished, buf
      ensures Valid() && Joined() && packetLength == 0
      ensures Pending() == old(Pending()) && finished == old(finished + Packet())
    {
      hide Part, Whole;
      ghost var p, q := Packet(), Pending();
      if left == 0 {
        NoPart(buf, offset);
        NoPart(buf, align);
        offset := align;
      } else if align != 0 && left >= HEADER_LENGTH {
        if buf[offset] == APPLICATION_DATA && BigEnough(buf[offset + 3], buf[offset + 4]) {
          MoveTo(buf, align, offset, left, 0);
          offset := align;
        }
      }
      WholeFinished(received, finished, p, q);
      finished := finished + p;
      packet := offset;
      packetLength := 0;
      NoPart(buf, packet);
    }

    /** The packet and what is behind it are moved to the front. */
    method MoveToFront()
      requires Valid() && Joined()
      modifies `offset, `packet, buf
      ensures Valid() && Joined() && packet == align
      ensures Packet() == old(Packet()) && Pending() == old(Pending())
    {
      hide Part, Whole;
      if packet != align {
        MoveTo(buf, align, packet, packetLength, left);
        packet := align;
        offset := packetLength + align;
      }
    }

    /** One more read behind what is there. */
    method FillOnce(max: nat) returns (i: int)
      requires Valid() && Joined() && left < max <= buf.Length - offset
      modifies `left, `bio, `received, buf
      ensures Valid() && Joined() && Packet() == old(Packet()) && left <= max
      ensures received + Incoming(bio) == old(received + Incoming(bio)) && old(received) <= received
      ensures left == old(left) + if i > 0 then i else 0
      ensures |received| == |old(received)| + left - old(left)
      ensures i <= 0 <==> old(Ready(bio)) == 0
      ensures i <= 0 ==> i == old(Failure(bio))
      ensures i > 0 ==> left + Ready(bio) == old(left + Ready(bio)) && Failure(bio) == old(Failure(bio))
    {
      hide Part, Incoming, Whole, Ready, Failure;
      ghost var p, q, was := Packet(), Pending(), received;
      var at := packet + packetLength + left;
      i := BioRead(at, max - left);
      if i > 0 {
        Adjacent(buf, offset, left, i);
        WholeMore(was, finished, p, q, Part(buf, at, i), Incoming(bio));
        left := left + i;
      }
    }

    /** The loop of ssl3_read_n: 1 when n octets are behind the packet, or what the failing read gave. */
    method Fill(n: nat, max: nat) returns (r: int)
      requires Valid() && Joined() && left < n <= max <= buf.Length - offset
      modifies `left, `bio, `received, buf
      ensures Valid() && Joined() && Packet() == old(Packet())
      ensures received + Incoming(bio) == old(received + Incoming(bio)) && old(received) <= received
      ensures left <= max && |received| == |old(received)| + left - old(left)
      ensures if old(left + Ready(bio)) >= n then r == 1 && left >= n
              else r == old(Failure(bio)) <= 0 && left == old(left + Ready(bio))
    {
      hide Incoming, Ready, Failure, Part, Whole;
      ghost var p := Packet();
      FailureFails(bio);
      while left < n
        invariant Valid() && Joined() && Packet() == p && left <= max
        invariant received + Incoming(bio) == old(received + Incoming(bio)) && old(received) <= received
        invariant |received| == |old(received)| + left - old(left)
        invariant left + Ready(bio) == old(left + Ready(bio)) && Failure(bio) == old(Failure(bio))
        decreases n - left
      {
        var i := FillOnce(max);
        if i <= 0 {
          return i;
        }
      }
      r := 1;
    }

    /** ssl3_read_n */
    method ReadN(n: int, max: int, extend: bool) returns (r: int)
      requires Valid() && align <= buf.Length && (extend ==> Joined())
      modifies this, buf
      ensures Valid() && received + Incoming(bio) == old(received + Incoming(bio)) && old(received) <= received
      ensures n <= 0 ==> r == n && unchanged(this) && unchanged(buf)
      ensures n > 0 ==> Joined() && (r == n || r <= 0)
      ensures n > 0 ==> packetLength == (if extend then old(packetLength) else 0) + if r == n then n else 0
      ensures n > 0 ==> finished == old(finished) + if extend then [] else old(Packet())
      // What is there already is enough, or else what is ready decides if there is room for it.
      ensures 0 < n <= old(left) ==> r == n && received == old(received)
      ensures n > 0 && n > old(left) ==>
                var at := align + if extend then old(packetLength) else 0;
                && r == (if at + n > buf.Length then -1
                         else if old(left + Ready(bio)) >= n then n else old(Failure(bio)))
                && (at + n > buf.Length ==> received == old(received))
                && (at + n <= buf.Length && r <= 0 ==> left == old(left + Ready(bio)))
      // Without read-ahead no more is read than is asked for.
      ensures n > 0 && n > old(left) && !readAhead ==> |received| <= |old(received)| + n - old(left)
    {
      hide Part, Whole, Incoming, Ready, Failure;
      FailureFails(bio);
      if n <= 0 {
        return n;
      }
      if !extend {
        StartPacket();
      }
      if left >= n {
        TakeOver(n);
        return n;
      }
      MoveToFront();
      if n > buf.Length - offset {
        return -1;
      }
      var most := max;
      if readAhead {
        if most < n {
          most := n;
        }
        if most > buf.Length - offset {
          most := buf.Length - offset;
        }
      } else {
        most := n;
      }
      var i := Fill(n, most);
      if i <= 0 {
        return i;
      }
      TakeOver(n);
      r := n;
    }

    /** So many octets become part of the packet. */
    method TakeOver(n: nat)
      requires Valid() && Joined() && n <= left
      modifies `packetLength, `left, `offset
      ensures Valid() && Joined() && packetLength == old(packetLength) + n && left == old(left) - n
    {
      hide Part, Whole;
      ghost var p, x := Packet(), Part(buf, offset, n);
      Adjacent(buf, packet, packetLength, n);
      Adjacent(buf, offset, n, left - n);
      packetLength := packetLength + n;
      left := left - n;
      offset := offset + n;
      WholeMoved(received, finished, p, x, Pending());
    }

    /** ssl3_packet_read */
    method PacketRead(plen: nat) returns (r: int)
      requires Valid() && align <= buf.Length
      modifies this, buf
      ensures Valid() && received + Incoming(bio) == old(received + Incoming(bio)) && old(received) <= received
      ensures plen > 0 ==> Joined() && finished == old(finished + Packet()) && (r == plen || r <= 0)
      ensures plen > 0 ==> |Packet()| == if r == plen then plen else 0
      ensures 0 < plen <= old(left) ==> r == plen
      ensures plen > 0 && plen > old(left) ==>
                r == if align + plen > buf.Length then -1
                     else if old(left + Ready(bio)) >= plen then plen else old(Failure(bio))
      ensures plen == 0 ==> r == 0 && unchanged(this) && unchanged(buf)
    {
      hide Pending, Incoming, Ready, Failure;
      FailureFails(bio);
      var n := ReadN(plen, buf.Length, false);
      if n <= 0 {
        return n;
      }
      if packetLength < plen {
        return packetLength;
      }
      r := plen;
    }

    /** ssl3_packet_extend */
    method PacketExtend(plen: nat) returns (r: int)
      requires Valid() && align <= buf.Length && Joined()
      modifies this, buf
      ensures Valid() && received + Incoming(bio) == old(received + Incoming(bio)) && old(received) <= received
      ensures Joined() && finished == old(finished) && (r == plen || r <= 0)
      ensures r == plen <==> |Packet()| >= plen
      ensures |Packet()| == if r == plen > old(packetLength) then plen else old(packetLength)
      ensures plen <= old(packetLength + left) ==> r == plen
      ensures plen > old(packetLength + left) ==>
                r == if align + plen > buf.Length then -1
                     else if old(packetLength + left + Ready(bio)) >= plen then plen else old(Failure(bio))
    {
      hide Pending, Incoming, Ready, Failure;
      FailureFails(bio);
      if packetLength >= plen {
        return plen;
      }
      var rlen := plen - packetLength;
      var n := ReadN(rlen, rlen, true);
      if n <= 0 {
        return n;
      }
      if packetLength < plen {
        return packetLength;
      }
      r := plen;
    }

    /** A packet has been used: packet_length = 0. */
    method FinishPacket()
      requires Valid()
      modifies `packetLength, `finished
      ensures Valid() && packetLength == 0 && finished == old(finished + Packet())
    {
      hide Part, Whole;
      WholeFinished(received, finished, Packet(), Pending());
      finished := finished + Packet();
      packetLength := 0;
      NoPart(buf, packet);
    }

    /** Any run: the packets finished, the packet in the making and what is behind it are what the network gave. */
    method Run(events: seq<Event>)
      requires Valid() && align <= buf.Length && Ordered(events, false)
      modifies this, buf
      ensures Valid() && received == finished + Packet() + Pending()
      ensures received + Incoming(bio) == old(received + Incoming(bio))
    {
      hide Pending, Packet, Incoming;
      ghost var started := false;
      assert events[0..] == events;
      for i := 0 to |events|
        invariant Valid() && received + Incoming(bio) == old(received + Incoming(bio))
        invariant Ordered(events[i..], started) && (started ==> Joined())
      {
        assert events[i..][1..] == events[i + 1..];
        match events[i] {
          case Read(plen) =>
            var _ := PacketRead(plen);
            started := started || plen > 0;
          case Extend(plen) =>
            var _ := PacketExtend(plen);
            started := true;
          case Finish =>
            FinishPacket();
            started := false;
        }
      }
    }
  }

  /** The length field of a record header: at least 128. */
  predicate BigEnough(hi: byte, lo: byte) {
    hi as int * 256 + lo >= 128
  }
}

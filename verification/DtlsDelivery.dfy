/** What the receiver of handshake messages does with fragments, said of what has arrived and what is to come. */
module DtlsDelivery {
  import opened HandshakeHeader
  import opened HandshakeStream
  import opened Wrappers

  /** The header and some octets of a message; the header is octet -1. */
  function Octets(number: nat, lo: int, hi: int): set<(nat, int)> {
    {(number, -1)} + set i | lo <= i < hi :: (number, i)
  }

  /** What a fragment carries */
  function OctetsOf(h: Header): set<(nat, int)> {
    Octets(h.number, h.fragOff, h.fragOff + h.fragLen)
  }

  lemma OctetsInside(h: Header, len: nat)
    requires h.fragOff + h.fragLen <= len
    ensures OctetsOf(h) <= Octets(h.number, 0, len)
  {}

  /** Longer than the longest record under protection with the header of a fragment, and than any list of certificates
      that is accepted: such a message is not put together. */
  ghost predicate Oversize(len: nat, maxCertList: nat) {
    len > 12 + 16384 + 256 + 64 && len > maxCertList
  }

  /** What becomes of a fragment */
  datatype Fate = Complete | Keep | Drop | Skip | Reject | TooLong

  /** A receiver that waits for a message, and the messages of its peer */
  datatype Waiting = Waiting(server: bool, maxCertList: nat, ms: seq<Message>, next: nat, max: int) {
    /** A message that is to come, but not too far ahead, and no Finished (20) before everything else. */
    ghost predicate Wanted(h: Header) {
      next < h.number <= next + 10 && !(next == 0 && h.kind == 20)
    }

    ghost function FateAhead(arrived: set<(nat, int)>, h: Header): Fate {
      if Wanted(h) && (h.fragLen < h.msgLen || (h.number, -1) !in arrived)
      then if Oversize(h.msgLen, maxCertList) then TooLong else Keep
      else Drop
    }

    /** What becomes of a fragment whose slice exists; messages of type 0 are HelloRequests. */
    ghost function FateOf(arrived: set<(nat, int)>, h: Header): Fate {
      if h.number != next then FateAhead(arrived, h)
      else if 0 < h.fragLen < h.msgLen then if Oversize(h.msgLen, maxCertList) then TooLong else Keep
      else if !server && h.kind == 0 then if h.msgLen == 0 then Skip else Reject
      else if h.fragOff + h.fragLen <= max then Complete else Reject
    }

    /** The expected message is there as a whole and nothing of an older one is. */
    ghost predicate Ready(arrived: set<(nat, int)>) {
      next < |ms| && Octets(next, 0, |ms[next].body|) <= arrived && forall x <- arrived :: x.0 >= next
    }

    /** What an attempt to get the message leads to: fragments are taken until one settles it. */
    ghost function Awaited(arrived: set<(nat, int)>, fs: seq<Frag>): Attempt
      decreases |fs|
    {
      if Ready(arrived) then
        Attempt(if |ms[next].body| <= max then Given else Refused, (set x | x in arrived && x.0 != next), fs)
      else if fs == [] then Attempt(Lacking, arrived, [])
      else if fs[0].number >= |ms| then Awaited(arrived, fs[1..])
      else
        var h := HeaderOf(ms, fs[0]);
        match FateOf(arrived, h)
        case Complete => Attempt(Given, arrived, fs[1..])
        case Reject => Attempt(Refused, arrived, fs[1..])
        case TooLong => Attempt(Unread(fs[0]), arrived, fs[1..])
        case Keep => Awaited(arrived + OctetsOf(h), fs[1..])
        case _ => Awaited(arrived, fs[1..])
    }

    /** The message in one piece */
    ghost function Whole(): Frag {
      Frag(next, 0, if next < |ms| then |ms[next].body| else 0)
    }

    /** The receiver expects the message at all: not a HelloRequest by a client, and not beyond the limit. */
    ghost predicate Acceptable() {
      next < |ms| && |ms[next].body| <= max && (!server ==> ms[next].kind != 0)
    }
  }

  /** How an attempt ends: the message is given, a fatal alert is sent, the data of a fragment stay unread because its
      message is too long, or input is lacking. */
  datatype End = Given | Refused | Unread(frag: Frag) | Lacking

  /** The end of an attempt, what is in the queue then and the fragments not touched yet. */
  datatype Attempt = Attempt(end: End, arrived: set<(nat, int)>, rest: seq<Frag>)

  /** What the fragments carry */
  ghost function Carried(ms: seq<Message>, fs: seq<Frag>): set<(nat, int)> {
    set f, x | f in fs && f.number < |ms| && x in OctetsOf(HeaderOf(ms, f)) :: x
  }

  /** The fragments that are too long: of messages above both limits, where they would be put together or kept. */
  lemma TooLongExact(w: Waiting, arrived: set<(nat, int)>, h: Header)
    ensures w.FateOf(arrived, h) == TooLong <==>
            && h.msgLen > 12 + 16384 + 256 + 64 && h.msgLen > w.maxCertList
            && if h.number == w.next then 0 < h.fragLen < h.msgLen
               else
                 && w.next < h.number <= w.next + 10 && !(w.next == 0 && h.kind == 20)
                 && (h.fragLen < h.msgLen || (h.number, -1) !in arrived)
  {}

  lemma TailGenuine(ms: seq<Message>, fs: seq<Frag>)
    requires AllGenuine(ms, fs) && fs != []
    ensures Genuine(ms, fs[0]) && AllGenuine(ms, fs[1..])
  {
    hide Genuine;
  }

  /** Only fragments from the front are touched, and all of them when input is lacking. */
  lemma {:induction false} AwaitedRest(w: Waiting, arrived: set<(nat, int)>, fs: seq<Frag>)
    ensures forall f <- w.Awaited(arrived, fs).rest :: f in fs
    ensures w.Awaited(arrived, fs).end == Lacking ==> w.Awaited(arrived, fs).rest == []
    decreases |fs|
  {
    hide w.Ready, w.FateOf, HeaderOf, OctetsOf;
    if !w.Ready(arrived) && fs != [] {
      AwaitedRest(w, arrived, fs[1..]);
      if fs[0].number < |w.ms| {
        AwaitedRest(w, arrived + OctetsOf(HeaderOf(w.ms, fs[0])), fs[1..]);
      }
    }
  }

  /** An alert is sent for a message that is longer than expected, or a HelloRequest with a body, and for no other. */
  lemma {:induction false} RefusedWhy(w: Waiting, arrived: set<(nat, int)>, fs: seq<Frag>)
    requires AllGenuine(w.ms, fs) && w.Awaited(arrived, fs).end == Refused
    ensures w.next < |w.ms|
    ensures var m := w.ms[w.next]; |m.body| > w.max || (!w.server && m.kind == 0 && m.body != [])
    decreases |fs|
  {
    hide Genuine;
    if !w.Ready(arrived) {
      TailGenuine(w.ms, fs);
      Slice(w.ms, fs[0]);
      var h := HeaderOf(w.ms, fs[0]);
      if w.FateOf(arrived, h) == Keep {
        RefusedWhy(w, arrived + OctetsOf(h), fs[1..]);
      } else if w.FateOf(arrived, h) != Reject {
        RefusedWhy(w, arrived, fs[1..]);
      }
    }
  }

  /** What stays unread is part of a message that is too long. */
  lemma {:induction false} UnreadWhy(w: Waiting, arrived: set<(nat, int)>, fs: seq<Frag>)
    requires AllGenuine(w.ms, fs) && w.Awaited(arrived, fs).end.Unread?
    ensures var f := w.Awaited(arrived, fs).end.frag;
            f in fs && Genuine(w.ms, f) && f.number < |w.ms| && Oversize(|w.ms[f.number].body|, w.maxCertList)
    decreases |fs|
  {
    hide Genuine;
    if !w.Ready(arrived) {
      TailGenuine(w.ms, fs);
      Slice(w.ms, fs[0]);
      var h := HeaderOf(w.ms, fs[0]);
      if w.FateOf(arrived, h) == Keep {
        UnreadWhy(w, arrived + OctetsOf(h), fs[1..]);
      } else if w.FateOf(arrived, h) != TooLong {
        UnreadWhy(w, arrived, fs[1..]);
      }
    }
  }

  /** While anything of an older message is in the queue nothing leaves it, and the message is given only if it comes in
      one piece. */
  lemma {:induction false} BlockedStays(w: Waiting, arrived: set<(nat, int)>, fs: seq<Frag>)
    requires AllGenuine(w.ms, fs) && exists x <- arrived :: x.0 < w.next
    ensures arrived <= w.Awaited(arrived, fs).arrived
    ensures w.Awaited(arrived, fs).end == Given ==> w.Whole() in fs
    decreases |fs|
  {
    hide Genuine, OctetsOf, Octets;
    var x :| x in arrived && x.0 < w.next;
    assert !w.Ready(arrived);
    if fs != [] {
      TailGenuine(w.ms, fs);
      Slice(w.ms, fs[0]);
      var h := HeaderOf(w.ms, fs[0]);
      var more := if w.FateOf(arrived, h) == Keep then arrived + OctetsOf(h) else arrived;
      assert x in more;
      BlockedStays(w, more, fs[1..]);
    }
  }

  /** If a part of the message is in the queue when it comes in one piece, the part stays there, older than what is
      expected then. */
  lemma WholeAfterPart(w: Waiting, arrived: set<(nat, int)>, fs: seq<Frag>)
    requires AllGenuine(w.ms, fs) && w.Acceptable() && fs != [] && fs[0] == w.Whole() && !w.Ready(arrived)
    ensures w.Awaited(arrived, fs) == Attempt(Given, arrived, fs[1..])
    ensures (w.next, -1) in arrived ==> exists x <- arrived :: x.0 < w.next + 1
  {
    hide Genuine;
    TailGenuine(w.ms, fs);
    Slice(w.ms, fs[0]);
  }

  /** Nothing in the queue or to come is of an older message, and none of the messages is too long: then the message is
      given as soon as all of it has come, in whatever order, overlap and company. */
  lemma {:induction false} Delivers(w: Waiting, arrived: set<(nat, int)>, fs: seq<Frag>)
    requires AllGenuine(w.ms, fs) && w.Acceptable() && (forall x <- arrived :: x.0 >= w.next)
    requires forall m <- w.ms :: !Oversize(|m.body|, w.maxCertList)
    requires Octets(w.next, 0, |w.ms[w.next].body|) <= arrived + Carried(w.ms, fs)
    ensures w.Awaited(arrived, fs).end == Given
    decreases |fs|
  {
    hide Genuine, Octets;
    var all := Octets(w.next, 0, |w.ms[w.next].body|);
    OctetsOne(w.next, 0, |w.ms[w.next].body|);
    if !w.Ready(arrived) {
      if fs == [] {
        NoneCarried(w.ms, arrived);
      } else {
        TailGenuine(w.ms, fs);
        Slice(w.ms, fs[0]);
        assert w.ms[fs[0].number] in w.ms;
        var h := HeaderOf(w.ms, fs[0]);
        CarriedFirst(w.ms, fs);
        OctetsNumber(h);
        if w.FateOf(arrived, h) == Keep {
          Delivers(w, arrived + OctetsOf(h), fs[1..]);
        } else if w.FateOf(arrived, h) != Complete {
          Dropped(w, arrived, h, all);
          Delivers(w, arrived, fs[1..]);
        }
      }
    }
  }

  lemma OctetsNumber(h: Header)
    ensures forall x <- OctetsOf(h) :: x.0 == h.number
  {}

  lemma OctetsOne(number: nat, lo: int, hi: int)
    ensures forall x <- Octets(number, lo, hi) :: x.0 == number
  {}

  lemma NoneCarried(ms: seq<Message>, arrived: set<(nat, int)>)
    ensures arrived + Carried(ms, []) == arrived
  {}

  lemma CarriedFirst(ms: seq<Message>, fs: seq<Frag>)
    requires fs != [] && fs[0].number < |ms|
    ensures Carried(ms, fs) == OctetsOf(HeaderOf(ms, fs[0])) + Carried(ms, fs[1..])
  {
    hide OctetsOf, HeaderOf;
    forall f | f in fs
      ensures f == fs[0] || f in fs[1..]
    {
      var i :| 0 <= i < |fs| && fs[i] == f;
      assert i > 0 ==> fs[1..][i - 1] == f;
    }
  }

  /** What is dropped is not of the expected message. */
  lemma Dropped(w: Waiting, arrived: set<(nat, int)>, h: Header, all: set<(nat, int)>)
    requires w.FateOf(arrived, h) == Drop && forall x <- all :: x.0 == w.next
    ensures h.number != w.next && OctetsOf(h) !! all
  {
    OctetsNumber(h);
  }

  // One attempt, unfolded.

  lemma AwaitedReady(w: Waiting, arrived: set<(nat, int)>, fs: seq<Frag>)
    requires w.Ready(arrived)
    ensures w.next < |w.ms|
    ensures w.Awaited(arrived, fs) ==
            Attempt(if |w.ms[w.next].body| <= w.max then Given else Refused,
                    (set x | x in arrived && x.0 != w.next), fs)
  {}

  lemma AwaitedNothing(w: Waiting, arrived: set<(nat, int)>)
    requires !w.Ready(arrived)
    ensures w.Awaited(arrived, []) == Attempt(Lacking, arrived, [])
  {}

  /** What an attempt leads to when its next fragment is this one */
  ghost function NextAttempt(w: Waiting, arrived: set<(nat, int)>, f: Frag, h: Header, rest: seq<Frag>): Attempt {
    match w.FateOf(arrived, h)
    case Complete => Attempt(Given, arrived, rest)
    case Reject => Attempt(Refused, arrived, rest)
    case TooLong => Attempt(Unread(f), arrived, rest)
    case Keep => w.Awaited(arrived + OctetsOf(h), rest)
    case _ => w.Awaited(arrived, rest)
  }

  lemma AwaitedNext(w: Waiting, arrived: set<(nat, int)>, f: Frag, rest: seq<Frag>)
    requires !w.Ready(arrived) && f.number < |w.ms|
    ensures w.Awaited(arrived, [f] + rest) == NextAttempt(w, arrived, f, HeaderOf(w.ms, f), rest)
  {
    assert ([f] + rest)[1..] == rest;
  }

  // Whole runs.

  /** A receiver between calls: the message expected, what is in the queue, the fragments to come, and whether a call
      has failed for another reason than lack of input */
  datatype Inbox = Inbox(next: nat, arrived: set<(nat, int)>, coming: seq<Frag>, over: bool)

  /** A record with fragments arrives, or a message is asked for. */
  ghost function After(w: Waiting, b: Inbox, e: Option<seq<Frag>>): Inbox {
    if b.over then b
    else match e
         case Some(fs) => b.(coming := b.coming + fs)
         case None =>
           var a := w.(next := b.next).Awaited(b.arrived, b.coming);
           Inbox(if a.end == Given then b.next + 1 else b.next, a.arrived, a.rest, a.end == Refused || a.end.Unread?)
  }

  ghost function AfterAll(w: Waiting, b: Inbox, es: seq<Option<seq<Frag>>>): Inbox
    decreases |es|
  {
    if es == [] then b else AfterAll(w, After(w, b, es[0]), es[1..])
  }

  lemma {:induction false} OverStays(w: Waiting, b: Inbox, es: seq<Option<seq<Frag>>>)
    requires b.over
    ensures AfterAll(w, b, es) == b
    decreases |es|
  {
    if es != [] {
      OverStays(w, b, es[1..]);
    }
  }

  ghost predicate AllRecordsGenuine(ms: seq<Message>, es: seq<Option<seq<Frag>>>) {
    forall e <- es :: e.Some? ==> AllGenuine(ms, e.value)
  }

  /** The fragment came in a record. */
  ghost predicate Came(f: Frag, es: seq<Option<seq<Frag>>>) {
    exists e <- es :: e.Some? && f in e.value
  }

  lemma AfterGenuine(w: Waiting, b: Inbox, e: Option<seq<Frag>>)
    requires AllGenuine(w.ms, b.coming) && (e.Some? ==> AllGenuine(w.ms, e.value))
    ensures AllGenuine(w.ms, After(w, b, e).coming)
    ensures forall f <- After(w, b, e).coming :: f in b.coming || (e.Some? && f in e.value)
    ensures b.next <= After(w, b, e).next <= b.next + 1
  {
    hide Genuine, Waiting.Awaited;
    AwaitedRest(w.(next := b.next), b.arrived, b.coming);
  }

  /** A message that ends the handshake: too long to be put together, longer than expected, or a HelloRequest with a
      body for a client */
  ghost predicate Ends(w: Waiting, m: Message) {
    Oversize(|m.body|, w.maxCertList) || |m.body| > w.max || (!w.server && m.kind == 0 && m.body != [])
  }

  /** A run fails for want of input only, unless there is a message that ends it. */
  lemma {:induction false} RunOver(w: Waiting, b: Inbox, es: seq<Option<seq<Frag>>>)
    requires AllGenuine(w.ms, b.coming) && AllRecordsGenuine(w.ms, es)
    ensures !b.over && AfterAll(w, b, es).over ==> exists m <- w.ms :: Ends(w, m)
    decreases |es|
  {
    hide Genuine, After;
    if es != [] && !b.over {
      var c := After(w, b, es[0]);
      assert es[0] in es && forall e <- es[1..] :: e in es;
      AfterGenuine(w, b, es[0]);
      if c.over {
        OverWhy(w, b, es[0]);
      } else {
        RunOver(w, c, es[1..]);
      }
    }
  }

  lemma OverWhy(w: Waiting, b: Inbox, e: Option<seq<Frag>>)
    requires AllGenuine(w.ms, b.coming) && !b.over && After(w, b, e).over
    ensures exists m <- w.ms :: Ends(w, m)
  {
    hide Genuine, Waiting.Awaited, Oversize;
    var v := w.(next := b.next);
    var a := v.Awaited(b.arrived, b.coming);
    if a.end == Refused {
      RefusedWhy(v, b.arrived, b.coming);
      assert w.ms[b.next] in w.ms;
    } else {
      UnreadWhy(v, b.arrived, b.coming);
      assert w.ms[a.end.frag.number] in w.ms;
    }
  }

  /** While anything of an older message is in the queue nothing leaves it, in any run, and the messages given have come
      in one piece. */
  lemma {:induction false} RunBlocked(w: Waiting, b: Inbox, es: seq<Option<seq<Frag>>>)
    requires AllGenuine(w.ms, b.coming) && AllRecordsGenuine(w.ms, es)
    requires exists x <- b.arrived :: x.0 < b.next
    ensures var c := AfterAll(w, b, es);
            && b.arrived <= c.arrived && b.next <= c.next
            && forall k :: b.next <= k < c.next ==> var f := w.(next := k).Whole(); f in b.coming || Came(f, es)
    decreases |es|
  {
    hide Genuine, After, Came, Waiting.Whole;
    if es != [] {
      var c := After(w, b, es[0]);
      assert es[0] in es && forall e <- es[1..] :: e in es;
      AfterGenuine(w, b, es[0]);
      BlockedAfter(w, b, es[0]);
      RunBlocked(w, c, es[1..]);
      forall k | b.next <= k < AfterAll(w, b, es).next
        ensures var f := w.(next := k).Whole(); f in b.coming || Came(f, es)
      {
        CameLater(w.(next := k).Whole(), es);
      }
    }
  }

  lemma CameLater(f: Frag, es: seq<Option<seq<Frag>>>)
    requires es != []
    ensures Came(f, es[1..]) || (es[0].Some? && f in es[0].value) ==> Came(f, es)
  {
    assert es[0] in es && forall e <- es[1..] :: e in es;
  }

  lemma BlockedAfter(w: Waiting, b: Inbox, e: Option<seq<Frag>>)
    requires AllGenuine(w.ms, b.coming) && exists x <- b.arrived :: x.0 < b.next
    ensures var c := After(w, b, e);
            && b.arrived <= c.arrived && (exists x <- c.arrived :: x.0 < c.next)
            && (c.next > b.next ==> w.(next := b.next).Whole() in b.coming)
  {
    hide Genuine, Waiting.Awaited, Waiting.Whole;
    BlockedStays(w.(next := b.next), b.arrived, b.coming);
  }
}

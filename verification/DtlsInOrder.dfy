/** Over a network that loses nothing and keeps the order, everything is delivered. */
module DtlsInOrder {
  import opened DtlsDelivery
  import opened DtlsSend
  import opened HandshakeHeader
  import opened HandshakeStream
  import opened Wrappers

  lemma OctetsMore(number: nat, lo: nat, mid: nat, hi: nat)
    requires lo <= mid <= hi
    ensures Octets(number, lo, mid) + Octets(number, mid, hi) == Octets(number, lo, hi)
  {}

  lemma NotAll(number: nat, off: nat, len: nat)
    requires off < len
    ensures !(Octets(number, 0, len) <= Octets(number, 0, off)) && !(Octets(number, 0, len) <= {})
  {
    assert (number, off) in Octets(number, 0, len);
  }

  /** The slices from the k-th on, the octets before them being in the queue */
  lemma {:induction false} PartsDeliver(w: Waiting, frags: seq<Frag>, k: nat, rest: seq<Frag>)
    requires w.Acceptable() && !Oversize(|w.ms[w.next].body|, w.maxCertList)
    requires Cuts(frags, w.next, |w.ms[w.next].body|) && |frags| > 1 && 0 < k < |frags|
    ensures w.Awaited(Octets(w.next, 0, frags[k].off), frags[k..] + rest) == Attempt(Given, {}, rest)
    decreases |frags| - k
  {
    hide Octets;
    var len, f := |w.ms[w.next].body|, frags[k];
    CutsOrdered(frags, w.next, len);
    assert f.off > 0 && f.off + f.len <= len && 0 < f.len < len;
    NotAll(w.next, f.off, len);
    AwaitedNext(w, Octets(w.next, 0, f.off), f, frags[k + 1..] + rest);
    assert frags[k..] + rest == [f] + (frags[k + 1..] + rest);
    OctetsMore(w.next, 0, f.off, f.off + f.len);
    if k + 1 < |frags| {
      PartsDeliver(w, frags, k + 1, rest);
    } else {
      OctetsOne(w.next, 0, len);
      AwaitedReady(w, Octets(w.next, 0, len), rest);
      assert frags[k + 1..] + rest == rest;
      assert (set x | x in Octets(w.next, 0, len) && x.0 != w.next) == {};
    }
  }

  /** A message cut into slices that come in order is given by one call. */
  lemma CutDelivers(w: Waiting, frags: seq<Frag>, rest: seq<Frag>)
    requires w.Acceptable() && !Oversize(|w.ms[w.next].body|, w.maxCertList)
    requires Cuts(frags, w.next, |w.ms[w.next].body|)
    ensures w.Awaited({}, frags + rest) == Attempt(Given, {}, rest)
  {
    hide Octets;
    var len, f := |w.ms[w.next].body|, frags[0];
    assert frags + rest == [f] + (frags[1..] + rest);
    HeaderIn(w.next, len);
    AwaitedNext(w, {}, f, frags[1..] + rest);
    if |frags| == 1 {
      assert frags[1..] + rest == rest;
    } else {
      CutsOrdered(frags, w.next, len);
      assert frags[1].off == f.len && f.len > 0 && frags[1].len > 0;
      assert {} + Octets(w.next, 0, f.len) == Octets(w.next, 0, f.len);
      PartsDeliver(w, frags, 1, rest);
    }
  }

  lemma HeaderIn(number: nat, len: nat)
    ensures !(Octets(number, 0, len) <= {})
  {
    assert (number, -1) in Octets(number, 0, len);
  }

  /** Each message is cut into slices. */
  ghost predicate AllCut(ms: seq<Message>, cuts: seq<seq<Frag>>) {
    |cuts| <= |ms| && forall k :: 0 <= k < |cuts| ==> Cuts(cuts[k], k, |ms[k].body|)
  }

  /** All messages can be received. */
  ghost predicate AllAcceptable(w: Waiting) {
    && (forall k :: 0 <= k < |w.ms| ==> w.(next := k).Acceptable())
    && forall m <- w.ms :: !Oversize(|m.body|, w.maxCertList)
  }

  function Calls(n: nat): seq<Option<seq<Frag>>> {
    seq(n, _ => None)
  }

  /** As many calls as there are messages give them all. */
  lemma {:induction false} CallsDeliver(w: Waiting, cuts: seq<seq<Frag>>, k: nat)
    requires AllAcceptable(w) && AllCut(w.ms, cuts) && k <= |cuts| == |w.ms|
    ensures AfterAll(w, Inbox(k, {}, InAll(cuts[k..]), false), Calls(|cuts| - k)) == Inbox(|cuts|, {}, [], false)
    decreases |cuts| - k
  {
    hide Cuts, Waiting.Awaited, Oversize;
    if k < |cuts| {
      var v := w.(next := k);
      assert w.ms[k] in w.ms;
      assert cuts[k..][0] == cuts[k] && cuts[k..][1..] == cuts[k + 1..];
      CutDelivers(v, cuts[k], InAll(cuts[k + 1..]));
      assert Calls(|cuts| - k)[1..] == Calls(|cuts| - (k + 1));
      CallsDeliver(w, cuts, k + 1);
    }
  }

  /** Each fragment comes in a record of its own. */
  function OneByOne(fs: seq<Frag>): seq<Option<seq<Frag>>> {
    seq(|fs|, i requires 0 <= i < |fs| => Some([fs[i]]))
  }

  lemma {:induction false} RecordsCome(w: Waiting, b: Inbox, fs: seq<Frag>, es: seq<Option<seq<Frag>>>)
    requires !b.over
    ensures AfterAll(w, b, OneByOne(fs) + es) == AfterAll(w, b.(coming := b.coming + fs), es)
    decreases |fs|
  {
    if fs == [] {
      assert OneByOne(fs) + es == es && b.coming + fs == b.coming;
    } else {
      assert (OneByOne(fs) + es)[0] == Some([fs[0]]);
      assert (OneByOne(fs) + es)[1..] == OneByOne(fs[1..]) + es;
      RecordsCome(w, b.(coming := b.coming + [fs[0]]), fs[1..], es);
      assert b.coming + [fs[0]] + fs[1..] == b.coming + fs;
    }
  }

  /** The fragments of all messages come one after the other, in order, and then the messages are asked for: all are
      given. */
  lemma InOrderDelivers(w: Waiting, cuts: seq<seq<Frag>>)
    requires AllAcceptable(w) && AllCut(w.ms, cuts) && |cuts| == |w.ms|
    ensures AfterAll(w, Inbox(0, {}, [], false), OneByOne(InAll(cuts)) + Calls(|cuts|)) == Inbox(|cuts|, {}, [], false)
  {
    hide AllAcceptable, AllCut;
    RecordsCome(w, Inbox(0, {}, [], false), InAll(cuts), Calls(|cuts|));
    assert [] + InAll(cuts) == InAll(cuts) && cuts[0..] == cuts;
    CallsDeliver(w, cuts, 0);
  }
}

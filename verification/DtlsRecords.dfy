/** How d1_pkt.c takes in records: the code whose steps RecordStates describes. */
module DtlsRecords {
  import opened Bytes
  import opened PriorityQueue
  import opened RecordStates
  import opened ReplayWindow

  class RecordLayer {
    const version: nat
    var firstPacket: bool
    var readEpoch: nat
    var inHandshake: bool
    const bitmap: Bitmap
    const nextBitmap: Bitmap
    var unprocessedEpoch: nat
    const unprocessed: PQueue<Record>
    var rrec: Record
    // rrec has been opened and its content not been used yet
    var pending: bool
    // The slots of the records accepted so far: from the network, out of the queue, and all of them.
    ghost var taken: seq<Slot>
    ghost var drained: seq<Slot>
    ghost var accepted: seq<Slot>

    ghost function Footprint(): set<object>
      reads unprocessed
    {
      {this, bitmap, nextBitmap, unprocessed} + set n | n in unprocessed.nodes
    }

    ghost predicate Valid()
      reads bitmap, nextBitmap, unprocessed, (set n | n in unprocessed.nodes), `rrec
    {
      && bitmap != nextBitmap && bitmap.Valid() && nextBitmap.Valid() && bitmap.width == nextBitmap.width
      && unprocessed.Valid() && (forall n <- unprocessed.nodes :: |n.data.number| == 8 && n.priority == n.data.number)
      && |rrec.number| == 8
    }

    /** The state as a value */
    ghost function View(): State
      reads this, bitmap, nextBitmap, unprocessed
    {
      State(bitmap.width, version, firstPacket, inHandshake, readEpoch, bitmap.View(), nextBitmap.View(),
            unprocessedEpoch, unprocessed.Queue(), rrec, pending, taken, drained, accepted)
    }

    /** The state dtls1_clear leaves */
    constructor (width: nat, version: nat, epoch: nat)
      requires width <= 128
      ensures Valid() && fresh(Footprint()) && View() == Initial(width, version, epoch)
    {
      this.version, readEpoch, firstPacket, inHandshake, pending := version, epoch, true, true, false;
      bitmap := new Bitmap(width);
      nextBitmap := new Bitmap(width);
      unprocessed := new PQueue<Record>();
      unprocessedEpoch := epoch + 1;
      rrec := CLEARED;
      taken, drained, accepted := [], [], [];
    }

    /** dtls1_buffer_record, for which rr->seq_num is the priority */
    method BufferRecord(priority: bytes) returns (r: int)
      requires Valid() && priority == rrec.number
      modifies `rrec, unprocessed, (set n | n in unprocessed.nodes)
      ensures Valid() && fresh((set n | n in unprocessed.nodes) - old(set n | n in unprocessed.nodes))
      ensures var q := old(unprocessed.Queue());
              && r == (if |q| >= 100 then 0 else if Has(q, old(rrec).Number()) then -1 else 1)
              && rrec == (if r == 0 then old(rrec) else CLEARED)
              && unprocessed.Queue() == if r == 1 then Inserted(q, (old(rrec).Number(), old(rrec))) else q
    {
      hide FromBe, Ascending, Marks, Linked, Has, Inserted;
      var size := unprocessed.Size();
      if size >= MAX_QUEUE {
        return 0;
      }
      var item := new Item(priority, rrec);
      rrec := CLEARED;
      var ret := unprocessed.Insert(item);
      if ret == null {
        return -1;
      }
      r := 1;
    }

    /** dtls1_process_record */
    method ProcessRecord() returns (ok: bool)
      modifies `pending
      ensures ok <==> rrec.verdict != Fatal
      ensures pending <==> rrec.verdict == Opened
    {
      pending := rrec.verdict == Opened;
      ok := rrec.verdict != Fatal;
    }

    /** dtls1_process_buffered_record */
    method ProcessBufferedRecord() returns (r: int)
      requires Valid()
      modifies `unprocessedEpoch, `rrec, `pending, `accepted, `drained, unprocessed
      ensures Valid() && forall n <- unprocessed.nodes :: n in old(unprocessed.nodes)
      ensures (View(), r) == FromQueue(old(View()))
    {
      hide FromBe, Ascending, Marks, Linked, Entries;
      if unprocessedEpoch != readEpoch {
        return 0;
      }
      unprocessed.FirstItem();
      if unprocessed.items == null {
        assert unprocessed.nodes == [];
        unprocessedEpoch := readEpoch + 1;
        return 0;
      }
      var item := unprocessed.Pop();
      rrec := item.data;
      var ok := ProcessRecord();
      if !ok {
        return -1;
      }
      accepted, drained := accepted + [(readEpoch, rrec.Number())], drained + [(readEpoch, rrec.Number())];
      r := 1;
    }

    /** dtls1_get_bitmap */
    method GetBitmap() returns (b: Bitmap?, isNextEpoch: bool)
      ensures b == if rrec.epoch == readEpoch then bitmap else if View().Early() then nextBitmap else null
      ensures isNextEpoch <==> View().Early()
    {
      isNextEpoch := false;
      if rrec.epoch == readEpoch {
        return bitmap, false;
      }
      if rrec.epoch == readEpoch + 1 && (rrec.kind == HANDSHAKE || rrec.kind == ALERT) {
        return nextBitmap, true;
      }
      b := null;
    }

    /** The part of dtls1_get_record that deals with a complete record: 0 is the jump to again. */
    method Receive() returns (r: int)
      requires Valid()
      modifies `pending, `rrec, `taken, `accepted, bitmap, nextBitmap, unprocessed, (set n | n in unprocessed.nodes)
      ensures Valid() && fresh((set n | n in unprocessed.nodes) - old(set n | n in unprocessed.nodes))
      ensures (View(), r) == Received(old(View()))
    {
      hide FromBe, Marks, Linked, Ascending, Entries, Has, Inserted;
      r := 0;
      var b, isNextEpoch := GetBitmap();
      if b == null {
        return;
      }
      var unseen := b.ReplayCheck(rrec.number);
      if !unseen {
        return;
      }
      if rrec.length == 0 {
        return;
      }
      if isNextEpoch {
        if inHandshake {
          ClearedNumber();
          var stored := BufferRecord(rrec.number);
          if stored < 0 {
            return -1;
          }
          b.Update(rrec.number);
        }
        return;
      }
      var ok := ProcessRecord();
      if !ok {
        return;
      }
      b.Update(rrec.number);
      taken, accepted := taken + [rrec.Slot()], accepted + [rrec.Slot()];
      r := 1;
    }

    /** dtls1_get_record; wire holds what the reads will bring, r is 0 when they bring no more. */
    method GetRecord(wire: seq<Arrival>) returns (r: int, rest: seq<Arrival>)
      requires Valid() && forall a <- wire :: a.Whole? ==> |a.record.number| == 8
      modifies Footprint()
      ensures Valid() && fresh(Footprint() - old(Footprint()))
      ensures Outcome(View(), r, rest) == Got(old(View()), wire)
    {
      hide FromBe, Marks, Linked, Ascending, Entries, FromQueue, Received;
      r := ProcessBufferedRecord();
      rest := wire;
      if r != 0 {
        return;
      }
      ghost var start := View();
      while rest != []
        invariant Valid() && fresh(Footprint() - old(Footprint()))
        invariant forall a <- rest :: a.Whole? ==> |a.record.number| == 8
        invariant FromWire(View(), rest) == FromWire(start, wire)
      {
        var a := rest[0];
        ghost var was := View();
        rest := rest[1..];
        if a.Whole? {
          rrec := a.record;
          if !firstPacket && rrec.version != version {
          } else if rrec.version / 256 != version / 256 {
          } else if rrec.length > MAX_ENCRYPTED_LENGTH {
          } else {
            r := Receive();
            if r != 0 {
              return;
            }
          }
        }
      }
      r := 0;
    }

    /** A ChangeCipherSpec is used: the next epoch begins and dtls1_reset_read_seq_numbers is called. */
    method ChangeEpoch()
      requires Valid()
      modifies `readEpoch, `pending, bitmap, nextBitmap
      ensures Valid() && View() == Changed(old(View()))
    {
      hide FromBe, Marks, Linked, Ascending, Entries;
      readEpoch, pending := readEpoch + 1, false;
      bitmap.Assign(nextBitmap);
      nextBitmap.Clear();
    }

    /** One event. */
    method Happen(e: Event)
      requires Valid() && (e.Read? ==> forall a <- e.wire :: a.Whole? ==> |a.record.number| == 8)
      modifies Footprint()
      ensures Valid() && fresh(Footprint() - old(Footprint()))
      ensures View() == After(old(View()), e)
    {
      hide FromBe, Marks, Linked, Ascending, Entries, Got;
      match e
      case Read(wire) =>
        pending := false;
        var _, _ := GetRecord(wire);
      case UseChange =>
        if pending && rrec.kind == CHANGE_CIPHER_SPEC {
          ChangeEpoch();
        }
      case Phase(a, b) =>
        inHandshake, firstPacket := a, b;
    }

    /** Any run: the queue stays bounded and is drained in order, a slot is accepted at most twice, and none is accepted
        twice exactly when no arriving record repeats one that the queue has given. */
    method Run(events: seq<Event>)
      requires Valid() && Sound(View()) && Distinct(accepted)
      requires forall e <- events :: e.Read? ==> forall a <- e.wire :: a.Whole? ==> |a.record.number| == 8
      modifies Footprint()
      ensures Valid() && View() == AfterAll(old(View()), events)
      ensures old(accepted) <= accepted && |unprocessed.Queue()| <= 100 && Increasing(drained)
      ensures forall x: Slot :: multiset(accepted)[x] <= 2
      ensures Distinct(accepted) <==> forall m <- Met(old(View()), events) :: !m.Repeats()
    {
      hide After, Sound, Marks, Linked, Ascending, Entries;
      RunExact(View(), events);
      ghost var end := AfterAll(View(), events);
      forall x: Slot
        ensures multiset(end.accepted)[x] <= 2
      {
        AtMostTwice(end, x);
      }
      assert events[0..] == events;
      for i := 0 to |events|
        invariant Valid() && fresh(Footprint() - old(Footprint()))
        invariant AfterAll(View(), events[i..]) == end
      {
        assert events[i] in events && events[i..][1..] == events[i + 1..];
        Happen(events[i]);
      }
    }
  }
}

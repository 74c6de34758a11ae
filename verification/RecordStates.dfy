/** What d1_pkt.c does with arriving records, as steps of a state: the replay windows of two epochs and the queue of
    early records. */
module RecordStates {
  import opened Bytes
  import opened PriorityQueue

  const CHANGE_CIPHER_SPEC: nat := 20
  const ALERT: nat := 21
  const HANDSHAKE: nat := 22
  const MAX_ENCRYPTED_LENGTH: nat := 16384 + 256 + 64
  const MAX_QUEUE: nat := 100

  /** What opening a record leads to: its content, a discarded bad MAC, or a fatal alert. */
  datatype Verdict = Opened | BadMac | Fatal

  /** A record with its parsed header; the number is eight octets whose first two are zero. */
  datatype Record = Record(kind: nat, version: nat, epoch: nat, number: bytes, length: nat, verdict: Verdict) {
    ghost function Number(): nat { FromBe(number) }

    ghost function Slot(): Slot { (epoch, Number()) }

    predicate Bufferable() { kind == HANDSHAKE || kind == ALERT }
  }

  /** memset(&(s->s3->rrec), 0, sizeof(SSL3_RECORD_INTERNAL)) */
  const CLEARED := Record(0, 0, 0, Zeros(8), 0, Opened)

  lemma ClearedNumber()
    ensures CLEARED.Number() == 0
  {
    ToBeZero(8);
    Pow256Values();
    FromToBe(0, 8);
  }

  /** What one read from the network brings. */
  datatype Arrival = Partial | Whole(record: Record)

  /** What can happen to the record layer: a read, once the content of the last record is used up, the use of a
      ChangeCipherSpec, and the phases of a handshake. */
  datatype Event = Read(wire: seq<Arrival>) | UseChange | Phase(inHandshake: bool, firstPacket: bool)

  /** An epoch and a sequence number in it. */
  type Slot = (nat, nat)

  predicate Before(a: Slot, b: Slot) {
    a.0 < b.0 || (a.0 == b.0 && a.1 < b.1)
  }

  ghost predicate Distinct(s: seq<Slot>) {
    forall i, j :: 0 <= i < j < |s| ==> s[i] != s[j]
  }

  ghost predicate Increasing(s: seq<Slot>) {
    forall i, j :: 0 <= i < j < |s| ==> Before(s[i], s[j])
  }

  /** The numbers marked in a replay window, and the highest of them or 0. */
  datatype Window = Window(max: int, marked: set<int>)

  const EMPTY := Window(0, {})

  predicate Fresh(width: nat, w: Window, n: int) {
    n > w.max || (w.max - n < width && n !in w.marked)
  }

  function Mark(w: Window, n: int): Window {
    Window(if n > w.max then n else w.max, w.marked + {n})
  }

  /** Accepted records are those drained from the queue and those taken from the network. */
  datatype State = State(width: nat, version: nat, firstPacket: bool, inHandshake: bool, readEpoch: nat,
                         window: Window, nextWindow: Window, queueEpoch: nat, queue: seq<(nat, Record)>, rrec: Record,
                         pending: bool, taken: seq<Slot>, drained: seq<Slot>, accepted: seq<Slot>)
  {
    /** rrec belongs to the next epoch and is of a kind that is kept for it. */
    predicate Early() { rrec.epoch == readEpoch + 1 && rrec.Bufferable() }

    /** The header of a record makes it worth reading. */
    predicate Filtered(r: Record) {
      || (!firstPacket && r.version != version)
      || r.version / 256 != version / 256
      || r.length > MAX_ENCRYPTED_LENGTH
    }

    /** rrec reaches the queue. */
    ghost predicate ToQueue() {
      Early() && Fresh(width, nextWindow, rrec.Number()) && rrec.length != 0 && inHandshake
    }

    /** rrec is taken from the network. */
    ghost predicate ToTake() {
      rrec.epoch == readEpoch && Fresh(width, window, rrec.Number()) && rrec.length != 0 && rrec.verdict != Fatal
    }

    /** Inserting rrec into the queue fails. */
    ghost predicate Collides() { ToQueue() && |queue| < MAX_QUEUE && Has(queue, rrec.Number()) }

    /** rrec is put into the queue, and will open when it is taken out. */
    ghost predicate Enqueued() {
      ToQueue() && |queue| < MAX_QUEUE && !Has(queue, rrec.Number()) && rrec.verdict != Fatal
    }

    /** rrec is taken although the queue has given the same record before. */
    ghost predicate Repeats() { ToTake() && rrec.Slot() in drained }
  }

  /** What a step leads to: 1 for an accepted record, -1 for a failure, 0 to go on; rest has not been read. */
  datatype Outcome = Outcome(state: State, r: int, rest: seq<Arrival>)

  /** dtls1_process_buffered_record */
  ghost function FromQueue(s: State): (State, int) {
    if s.queueEpoch != s.readEpoch then (s, 0)
    else if s.queue == [] then (s.(queueEpoch := s.readEpoch + 1), 0)
    else
      var r := s.queue[0].1;
      var t := s.(queue := s.queue[1..], rrec := r, pending := r.verdict == Opened);
      if r.verdict == Fatal then (t, -1)
      else
        var slot := (s.readEpoch, r.Number());
        (t.(drained := s.drained + [slot], accepted := s.accepted + [slot]), 1)
  }

  /** The end of dtls1_get_record, for a complete record in rrec. A record that is queued is cleared before its number
      is marked, so that zero is marked instead. */
  ghost function Received(s: State): (State, int) {
    var n := s.rrec.Number();
    if s.ToQueue() then
      if |s.queue| >= MAX_QUEUE then (s.(nextWindow := Mark(s.nextWindow, n)), 0)
      else if Has(s.queue, n) then (s.(rrec := CLEARED), -1)
      else
        (s.(queue := Inserted(s.queue, (n, s.rrec)), rrec := CLEARED, nextWindow := Mark(s.nextWindow, 0)), 0)
    else if s.ToTake() then
      (s.(pending := s.rrec.verdict == Opened, window := Mark(s.window, n), taken := s.taken + [s.rrec.Slot()],
          accepted := s.accepted + [s.rrec.Slot()]), 1)
    else if s.rrec.epoch == s.readEpoch && Fresh(s.width, s.window, n) && s.rrec.length != 0 then
      (s.(pending := false), 0)
    else (s, 0)
  }

  /** The loop of dtls1_get_record over what the network gives. */
  ghost function FromWire(s: State, wire: seq<Arrival>): Outcome
    decreases |wire|
  {
    if wire == [] then Outcome(s, 0, [])
    else if wire[0].Partial? then FromWire(s, wire[1..])
    else
      var t := s.(rrec := wire[0].record);
      if s.Filtered(wire[0].record) then FromWire(t, wire[1..])
      else
        var (u, r) := Received(t);
        if r != 0 then Outcome(u, r, wire[1..]) else FromWire(u, wire[1..])
  }

  /** dtls1_get_record */
  ghost function Got(s: State, wire: seq<Arrival>): Outcome {
    var (t, r) := FromQueue(s);
    if r != 0 then Outcome(t, r, wire) else FromWire(t, wire)
  }

  /** The next epoch begins: dtls1_reset_read_seq_numbers */
  function Changed(s: State): State {
    s.(readEpoch := s.readEpoch + 1, pending := false, window := s.nextWindow, nextWindow := EMPTY)
  }

  ghost function After(s: State, e: Event): State {
    match e
    case Read(wire) => Got(s.(pending := false), wire).state
    case UseChange => if s.pending && s.rrec.kind == CHANGE_CIPHER_SPEC then Changed(s) else s
    case Phase(inHandshake, firstPacket) => s.(inHandshake := inHandshake, firstPacket := firstPacket)
  }

  ghost function AfterAll(s: State, events: seq<Event>): State
    decreases |events|
  {
    if events == [] then s else AfterAll(After(s, events[0]), events[1..])
  }

  // The arriving records that a run looks at, each with the state that it meets.

  ghost function MetOnWire(s: State, wire: seq<Arrival>): seq<State>
    decreases |wire|
  {
    if wire == [] then []
    else if wire[0].Partial? then MetOnWire(s, wire[1..])
    else
      var t := s.(rrec := wire[0].record);
      if s.Filtered(wire[0].record) then MetOnWire(t, wire[1..])
      else
        var (u, r) := Received(t);
        [t] + if r != 0 then [] else MetOnWire(u, wire[1..])
  }

  ghost function MetIn(s: State, e: Event): seq<State> {
    match e
    case Read(wire) =>
      var (t, r) := FromQueue(s.(pending := false));
      if r != 0 then [] else MetOnWire(t, wire)
    case _ => []
  }

  ghost function Met(s: State, events: seq<Event>): seq<State>
    decreases |events|
  {
    if events == [] then [] else MetIn(s, events[0]) + Met(After(s, events[0]), events[1..])
  }

  // What every step keeps.

  /** The queue holds early records of one epoch, all after those drained. */
  ghost predicate Queued(queue: seq<(nat, Record)>, epoch: nat, drained: seq<Slot>) {
    && |queue| <= MAX_QUEUE && Ascending(queue)
    && (forall q <- queue :: q.1.Number() == q.0 && q.1.epoch == epoch && q.1.Bufferable())
    && forall q <- queue, d <- drained :: Before(d, (epoch, q.0))
  }

  ghost predicate Marked(w: Window) {
    w.max >= 0 && forall n <- w.marked :: n <= w.max
  }

  /** Records taken from the network are marked and hence distinct. */
  ghost predicate Taken(taken: seq<Slot>, readEpoch: nat, w: Window) {
    && Distinct(taken)
    && forall t <- taken :: t.0 < readEpoch || (t.0 == readEpoch && t.1 in w.marked)
  }

  ghost predicate Sound(s: State) {
    && (s.queueEpoch == s.readEpoch || s.queueEpoch == s.readEpoch + 1)
    && Queued(s.queue, s.queueEpoch, s.drained) && Marked(s.window) && Marked(s.nextWindow)
    && Increasing(s.drained) && (forall d <- s.drained :: d.0 <= s.readEpoch)
    && Taken(s.taken, s.readEpoch, s.window)
    && (s.queueEpoch == s.readEpoch && s.queue != [] ==> forall t <- s.taken :: t.0 < s.readEpoch)
    && multiset(s.accepted) == multiset(s.taken) + multiset(s.drained)
    && (s.pending && s.rrec.kind == CHANGE_CIPHER_SPEC ==> s.queueEpoch == s.readEpoch + 1)
  }

  /** The state dtls1_clear leaves */
  function Initial(width: nat, version: nat, epoch: nat): State {
    State(width, version, true, true, epoch, EMPTY, EMPTY, epoch + 1, [], CLEARED, false, [], [], [])
  }

  lemma InitialSound(width: nat, version: nat, epoch: nat)
    ensures Sound(Initial(width, version, epoch))
  {}

  lemma InsertedQueued(queue: seq<(nat, Record)>, epoch: nat, drained: seq<Slot>, r: Record)
    requires Queued(queue, epoch, drained) && |queue| < MAX_QUEUE && !Has(queue, r.Number())
    requires r.epoch == epoch && r.Bufferable() && forall d <- drained :: d.0 < epoch
    ensures Queued(Inserted(queue, (r.Number(), r)), epoch, drained)
  {
    hide Inserted, FromBe, Has, Ascending;
    var x := (r.Number(), r);
    InsertedAscending(queue, x);
    var q := Inserted(queue, x);
    assert |q| == |queue| + 1 by {
      assert |multiset(q)| == |multiset(queue) + multiset{x}|;
    }
    forall e | e in q
      ensures e in queue || e == x
    {
      assert multiset(q)[e] > 0;
    }
  }

  lemma FirstDrained(queue: seq<(nat, Record)>, epoch: nat, drained: seq<Slot>)
    requires Queued(queue, epoch, drained) && queue != []
    ensures Queued(queue[1..], epoch, drained)
    ensures Queued(queue[1..], epoch, drained + [(epoch, queue[0].0)])
    ensures queue[0].1.Number() == queue[0].0 && queue[0].1.Bufferable() && queue[0].1.epoch == epoch
    ensures Increasing(drained) ==> Increasing(drained + [(epoch, queue[0].0)])
  {
    hide FromBe;
    assert queue[0] in queue;
    forall q | q in queue[1..]
      ensures q in queue && q.0 > queue[0].0
    {
      var i :| 0 <= i < |queue[1..]| && queue[1..][i] == q;
    }
    assert forall i :: 0 <= i < |drained| ==> drained[i] in drained;
  }

  lemma DrainingSound(s: State)
    requires Sound(s)
    ensures var (t, r) := FromQueue(s);
            && Sound(t) && (r == 0 ==> t.queueEpoch == t.readEpoch + 1)
            && (r == 1 ==> t.accepted == s.accepted + [t.rrec.Slot()] && t.rrec.Slot() !in s.accepted)
            && (r != 1 ==> t.accepted == s.accepted)
  {
    hide FromBe, Ascending, Increasing, Taken, Queued, Marked;
    if s.queueEpoch == s.readEpoch && s.queue != [] {
      DrainFirst(s);
    } else {
      NoneQueued(s.readEpoch + 1, s.drained);
    }
  }

  lemma DrainFirst(s: State)
    requires Sound(s) && s.queueEpoch == s.readEpoch && s.queue != []
    ensures var (t, r) := FromQueue(s);
            && Sound(t) && r != 0
            && (r == 1 ==> t.accepted == s.accepted + [t.rrec.Slot()] && t.rrec.Slot() !in s.accepted)
            && (r != 1 ==> t.accepted == s.accepted)
  {
    hide FromBe, Ascending, Increasing, Taken, Queued, Marked;
    FirstDrained(s.queue, s.queueEpoch, s.drained);
    FirstNew(s);
  }

  lemma NoneQueued(epoch: nat, drained: seq<Slot>)
    ensures Queued([], epoch, drained)
  {}

  /** What the queue gives was not accepted before. */
  lemma FirstNew(s: State)
    requires Sound(s) && s.queueEpoch == s.readEpoch && s.queue != []
    ensures (s.readEpoch, s.queue[0].0) !in s.accepted
  {
    hide FromBe, Ascending, Increasing, Taken, Has, Inserted, Marked;
    var slot := (s.readEpoch, s.queue[0].0);
    assert s.queue[0] in s.queue;
    assert slot !in s.drained && slot !in s.taken;
    assert slot in s.accepted <==> multiset(s.accepted)[slot] > 0;
  }

  lemma TakenMore(taken: seq<Slot>, readEpoch: nat, w: Window, n: nat)
    requires Taken(taken, readEpoch, w) && n !in w.marked
    ensures Taken(taken + [(readEpoch, n)], readEpoch, Mark(w, n)) && (readEpoch, n) !in taken
  {
    assert forall i :: 0 <= i < |taken| ==> taken[i] in taken;
  }

  lemma ReceivingSound(s: State)
    requires Sound(s) && s.queueEpoch == s.readEpoch + 1 && !s.pending
    ensures var (t, r) := Received(s);
            && Sound(t) && t.queueEpoch == t.readEpoch + 1 && (r != 1 ==> !t.pending)
            && (r == 1 <==> s.ToTake()) && (r == -1 <==> s.Collides())
            && (r == 1 ==> t.accepted == s.accepted + [s.rrec.Slot()]
                           && (s.rrec.Slot() in s.accepted <==> s.Repeats()))
            && (r != 1 ==> t.accepted == s.accepted)
  {
    hide FromBe, Ascending, Increasing, Has, Inserted, Taken, Queued;
    var n := s.rrec.Number();
    if s.ToQueue() {
      if |s.queue| < MAX_QUEUE && !Has(s.queue, n) {
        InsertedQueued(s.queue, s.queueEpoch, s.drained, s.rrec);
      }
    } else if s.ToTake() {
      TakenMore(s.taken, s.readEpoch, s.window, n);
      var slot := s.rrec.Slot();
      assert slot in s.accepted <==> multiset(s.accepted)[slot] > 0;
    }
  }

  // Whole runs.

  lemma DistinctMore(s: seq<Slot>, x: Slot)
    ensures Distinct(s + [x]) <==> Distinct(s) && x !in s
  {
    var t := s + [x];
    assert t[|s|] == x;
    assert forall i :: 0 <= i < |s| ==> t[i] == s[i];
  }

  lemma DistinctPrefix(s: seq<Slot>, t: seq<Slot>)
    requires s <= t && Distinct(t)
    ensures Distinct(s)
  {
    assert forall i :: 0 <= i < |s| ==> t[i] == s[i];
  }

  /** One read from the network: it fails exactly when a record collides, and accepts a slot again exactly when a record
      repeats one of the queue. */
  lemma {:induction false} WireExact(s: State, wire: seq<Arrival>)
    requires Sound(s) && s.queueEpoch == s.readEpoch + 1 && !s.pending
    ensures var o := FromWire(s, wire);
            && Sound(o.state) && s.accepted <= o.state.accepted
            && (o.r == -1 <==> exists m <- MetOnWire(s, wire) :: m.Collides())
            && (Distinct(s.accepted) ==>
                  (Distinct(o.state.accepted) <==> forall m <- MetOnWire(s, wire) :: !m.Repeats()))
    decreases |wire|
  {
    hide Sound, Received, Distinct, State.Repeats, State.Collides, State.ToTake, State.Filtered;
    if wire != [] {
      if wire[0].Partial? {
        WireExact(s, wire[1..]);
      } else {
        var t := s.(rrec := wire[0].record);
        NewRecord(s, wire[0].record);
        if s.Filtered(wire[0].record) {
          WireExact(t, wire[1..]);
        } else {
          ReceivingSound(t);
          TakesOnly(t);
          DistinctMore(s.accepted, t.rrec.Slot());
          var (u, r) := Received(t);
          if r == 0 {
            WireExact(u, wire[1..]);
          }
        }
      }
    }
  }

  lemma NewRecord(s: State, r: Record)
    requires Sound(s) && !s.pending
    ensures Sound(s.(rrec := r))
  {
    hide FromBe, Ascending, Increasing, Taken, Queued, Marked;
  }

  lemma TakesOnly(s: State)
    ensures !(s.ToTake() && s.Collides())
    ensures s.Repeats() ==> s.ToTake()
  {}

  lemma Settled(s: State)
    requires Sound(s)
    ensures Sound(s.(pending := false))
  {
    hide FromBe, Ascending, Increasing, Taken, Queued, Marked;
  }

  lemma EventExact(s: State, e: Event)
    requires Sound(s)
    ensures var t := After(s, e);
            && Sound(t) && s.accepted <= t.accepted
            && (Distinct(s.accepted) ==> (Distinct(t.accepted) <==> forall m <- MetIn(s, e) :: !m.Repeats()))
  {
    hide FromWire, MetOnWire, FromBe, Ascending, Increasing, Taken, Queued, Distinct, State.Repeats, Marked;
    match e
    case Read(wire) =>
      var quiet := s.(pending := false);
      Settled(s);
      DrainingSound(quiet);
      var (t, r) := FromQueue(quiet);
      DistinctMore(s.accepted, t.rrec.Slot());
      if r == 0 {
        WireExact(t, wire);
      }
    case UseChange =>
      if s.pending && s.rrec.kind == CHANGE_CIPHER_SPEC {
        ChangeSound(s);
      }
    case Phase(_, _) =>
  }

  lemma ChangeSound(s: State)
    requires Sound(s) && s.pending && s.rrec.kind == CHANGE_CIPHER_SPEC
    ensures Sound(Changed(s))
  {
    hide FromBe, Ascending, Increasing, Queued, Distinct;
  }

  /** Over any run no slot is accepted twice, exactly when no arriving record repeats one that the queue has given; and
      the queue stays bounded and is drained in increasing order. */
  lemma {:induction false} RunExact(s: State, events: seq<Event>)
    requires Sound(s) && Distinct(s.accepted)
    ensures var t := AfterAll(s, events);
            && Sound(t) && s.accepted <= t.accepted && |t.queue| <= 100 && Increasing(t.drained)
            && (Distinct(t.accepted) <==> forall m <- Met(s, events) :: !m.Repeats())
    decreases |events|
  {
    hide Distinct, After, MetIn, State.Repeats;
    if events != [] {
      var t := After(s, events[0]);
      EventExact(s, events[0]);
      if Distinct(t.accepted) {
        RunExact(t, events[1..]);
      } else {
        RunSound(t, events[1..]);
        if Distinct(AfterAll(t, events[1..]).accepted) {
          DistinctPrefix(t.accepted, AfterAll(t, events[1..]).accepted);
        }
      }
    }
  }

  lemma {:induction false} RunSound(s: State, events: seq<Event>)
    requires Sound(s)
    ensures Sound(AfterAll(s, events)) && s.accepted <= AfterAll(s, events).accepted
    decreases |events|
  {
    hide Sound, After;
    if events != [] {
      EventExact(s, events[0]);
      RunSound(After(s, events[0]), events[1..]);
    }
  }

  /** A slot is accepted at most twice: once out of the queue and once from the network. */
  lemma AtMostTwice(s: State, x: Slot)
    requires Sound(s)
    ensures multiset(s.accepted)[x] == (if x in s.drained then 1 else 0) + (if x in s.taken then 1 else 0)
  {
    hide Queued, Marked, FromBe;
    assert Distinct(s.drained);
    Multiplicity(s.drained, x);
    Multiplicity(s.taken, x);
  }

  lemma {:induction false} Multiplicity(s: seq<Slot>, x: Slot)
    requires Distinct(s)
    ensures multiset(s)[x] == if x in s then 1 else 0
  {
    if s != [] {
      var init, last := s[..|s| - 1], s[|s| - 1];
      assert s == init + [last];
      DistinctMore(init, last);
      Multiplicity(init, x);
    }
  }

  // Records that all have different slots.

  /** The slots that the queue holds or has given. */
  ghost function Held(s: State): set<Slot> {
    (set q | q in s.queue :: (s.queueEpoch, q.0)) + set d | d in s.drained
  }

  ghost predicate Different(met: seq<State>, held: set<Slot>) {
    && (forall m <- met :: m.rrec.Slot() !in held)
    && forall i, j :: 0 <= i < j < |met| ==> met[i].rrec.Slot() != met[j].rrec.Slot()
  }

  ghost function Slots(met: seq<State>): set<Slot> {
    set m | m in met :: m.rrec.Slot()
  }

  lemma HeldAfter(s: State)
    requires Sound(s) && s.queueEpoch == s.readEpoch + 1
    ensures Held(Received(s).0) <= Held(s) + {s.rrec.Slot()}
    ensures s.rrec.Slot() !in Held(s) ==> !s.Collides() && !s.Repeats()
  {
    hide FromBe, Inserted, Ascending, Increasing, Taken, Marked, Queued;
    var n := s.rrec.Number();
    if s.ToQueue() {
      if Has(s.queue, n) {
        var i :| 0 <= i < |s.queue| && s.queue[i].0 == n;
        assert s.queue[i] in s.queue;
      } else if |s.queue| < MAX_QUEUE {
        HeldInserted(s.queue, s.rrec, s.queueEpoch, s.drained);
      }
    }
  }

  lemma HeldInserted(queue: seq<(nat, Record)>, r: Record, epoch: nat, drained: seq<Slot>)
    requires Queued(queue, epoch, drained) && !Has(queue, r.Number())
    ensures forall q :: q in Inserted(queue, (r.Number(), r)) <==> q in queue || q == (r.Number(), r)
  {
    hide FromBe, Inserted, Has;
    InsertedAscending(queue, (r.Number(), r));
    assert forall q :: q in Inserted(queue, (r.Number(), r)) <==> q in multiset(Inserted(queue, (r.Number(), r)));
  }

  lemma HeldDrained(s: State)
    requires Sound(s)
    ensures Held(FromQueue(s).0) <= Held(s)
  {
    hide FromBe, Inserted, Ascending, Increasing, Taken, Marked;
    if s.queueEpoch == s.readEpoch && s.queue != [] {
      assert s.queue[0] in s.queue;
      assert forall q <- s.queue[1..] :: q in s.queue;
    }
  }

  lemma {:induction false} WireDifferent(s: State, wire: seq<Arrival>)
    requires Sound(s) && s.queueEpoch == s.readEpoch + 1 && !s.pending
    requires Different(MetOnWire(s, wire), Held(s))
    ensures forall m <- MetOnWire(s, wire) :: !m.Collides() && !m.Repeats()
    ensures Held(FromWire(s, wire).state) <= Held(s) + Slots(MetOnWire(s, wire))
    decreases |wire|
  {
    hide Sound, Received, Held, State.Repeats, State.Collides, State.ToTake, State.Filtered;
    if wire != [] {
      if wire[0].Partial? {
        WireDifferent(s, wire[1..]);
      } else {
        var t := s.(rrec := wire[0].record);
        NewRecord(s, wire[0].record);
        SameHeld(s, t);
        if s.Filtered(wire[0].record) {
          WireDifferent(t, wire[1..]);
        } else {
          ReceivingSound(t);
          HeldAfter(t);
          var (u, r) := Received(t);
          assert MetOnWire(s, wire)[0] == t;
          if r == 0 {
            LessDifferent(MetOnWire(s, wire), Held(s), Held(u));
            assert MetOnWire(s, wire)[1..] == MetOnWire(u, wire[1..]);
            WireDifferent(u, wire[1..]);
          }
        }
      }
    }
  }

  lemma SameHeld(s: State, t: State)
    requires s.queue == t.queue && s.queueEpoch == t.queueEpoch && s.drained == t.drained
    ensures Held(s) == Held(t)
  {}

  lemma LessDifferent(met: seq<State>, held: set<Slot>, after: set<Slot>)
    requires met != [] && Different(met, held) && after <= held + {met[0].rrec.Slot()}
    ensures Different(met[1..], after)
  {
    forall m | m in met[1..]
      ensures m in met && m.rrec.Slot() != met[0].rrec.Slot()
    {
      var i :| 0 <= i < |met[1..]| && met[1..][i] == m;
      assert met[i + 1] == m;
    }
  }

  lemma SplitDifferent(a: seq<State>, b: seq<State>, held: set<Slot>, after: set<Slot>)
    requires Different(a + b, held) && after <= held + Slots(a)
    ensures Different(a, held) && Different(b, after)
  {
    var c := a + b;
    assert forall i :: 0 <= i < |a| ==> c[i] == a[i];
    assert forall i :: 0 <= i < |b| ==> c[|a| + i] == b[i];
    assert forall m <- a :: m in c;
    assert forall m <- b :: m in c;
    forall m, n | m in a && n in b
      ensures m.rrec.Slot() != n.rrec.Slot()
    {
      var i :| 0 <= i < |a| && a[i] == m;
      var j :| 0 <= j < |b| && b[j] == n;
      assert c[i] == m && c[|a| + j] == n;
    }
  }

  /** If all records that arrive have different slots, none of them collides and none repeats another. */
  lemma {:induction false} RunDifferent(s: State, events: seq<Event>)
    requires Sound(s) && Different(Met(s, events), Held(s))
    ensures forall m <- Met(s, events) :: !m.Collides() && !m.Repeats()
    decreases |events|
  {
    hide Sound, Different, After, MetIn, Held, Slots, State.Repeats, State.Collides;
    if events != [] {
      var t := After(s, events[0]);
      EventExact(s, events[0]);
      var a, b := MetIn(s, events[0]), Met(t, events[1..]);
      SplitDifferent(a, b, Held(s), Held(s) + Slots(a));
      EventDifferent(s, events[0]);
      SplitDifferent(a, b, Held(s), Held(t));
      RunDifferent(t, events[1..]);
    }
  }

  lemma EventDifferent(s: State, e: Event)
    requires Sound(s) && Different(MetIn(s, e), Held(s))
    ensures forall m <- MetIn(s, e) :: !m.Collides() && !m.Repeats()
    ensures Held(After(s, e)) <= Held(s) + Slots(MetIn(s, e))
  {
    hide FromWire, MetOnWire, Sound, Different, FromQueue, Slots, Held, State.Repeats, State.Collides;
    match e
    case Read(wire) =>
      var quiet := s.(pending := false);
      Settled(s);
      SameHeld(s, quiet);
      DrainingSound(quiet);
      HeldDrained(quiet);
      var (t, r) := FromQueue(quiet);
      QuietAfter(quiet);
      if r == 0 {
        FewerHeld(MetOnWire(t, wire), Held(s), Held(t));
        WireDifferent(t, wire);
      }
    case UseChange =>
      SameHeld(s, Changed(s));
    case Phase(a, b) =>
      SameHeld(s, s.(inHandshake := a, firstPacket := b));
  }

  lemma QuietAfter(s: State)
    requires !s.pending
    ensures FromQueue(s).1 == 0 ==> !FromQueue(s).0.pending
  {}

  lemma FewerHeld(met: seq<State>, held: set<Slot>, after: set<Slot>)
    requires Different(met, held) && after <= held
    ensures Different(met, after)
  {}

  /** What becomes of a record of another epoch: a handshake (22) or alert (21) record of the next one goes to the queue
      during a handshake if it is not empty, was not seen and the queue has room; no other changes the queue. */
  lemma QueuesExact(s: State)
    requires Sound(s) && s.queueEpoch == s.readEpoch + 1 && s.rrec.epoch != s.readEpoch
    ensures var t, n := Received(s).0, s.rrec.Number();
            t.queue != s.queue <==>
            && s.rrec.epoch == s.readEpoch + 1 && (s.rrec.kind == 21 || s.rrec.kind == 22)
            && s.inHandshake && s.rrec.length != 0 && Fresh(s.width, s.nextWindow, n)
            && |s.queue| < 100 && !Has(s.queue, n)
    ensures Received(s).0.queue != s.queue ==> Received(s).0.queue == Inserted(s.queue, (s.rrec.Number(), s.rrec))
    ensures Received(s).1 == 1 ==> s.rrec.epoch == s.readEpoch
  {
    hide FromBe, Inserted, Ascending, Increasing, Taken, Queued, Marked, Has;
    if !Has(s.queue, s.rrec.Number()) {
      NowThere(s.queue, s.rrec);
    }
  }

  lemma NowThere(queue: seq<(nat, Record)>, r: Record)
    requires !Has(queue, r.Number())
    ensures Inserted(queue, (r.Number(), r)) != queue
  {
    hide FromBe;
    InsertedHas(queue, (r.Number(), r), r.Number());
  }

  // A record that is queued is not marked.

  /** The same early record again: the queue has it already and the read fails, unless its number is zero. */
  lemma QueuedAgain(s: State)
    requires Sound(s) && s.queueEpoch == s.readEpoch + 1
    requires s.ToQueue() && |s.queue| < MAX_QUEUE && !Has(s.queue, s.rrec.Number())
    ensures var again := Received(s).0.(rrec := s.rrec);
            && (again.ToQueue() <==> s.rrec.Number() != 0)
            && (again.Collides() <==> s.rrec.Number() != 0 && |s.queue| + 1 < MAX_QUEUE)
  {
    hide FromBe, Inserted, Ascending, Increasing, Taken, Queued;
    var n := s.rrec.Number();
    InsertedAscending(s.queue, (n, s.rrec)) by { AscendingQueue(s); }
    assert |Inserted(s.queue, (n, s.rrec))| == |s.queue| + 1 by {
      assert |multiset(Inserted(s.queue, (n, s.rrec)))| == |multiset(s.queue) + multiset{(n, s.rrec)}|;
    }
    assert Has(Inserted(s.queue, (n, s.rrec)), n);
  }

  lemma AscendingQueue(s: State)
    requires Sound(s)
    ensures Ascending(s.queue)
  {
    hide FromBe, Increasing, Taken;
  }

  /** Once any record of the next epoch is queued, the record with number zero is refused. */
  lemma ZeroLost(s: State, r: Record)
    requires Sound(s) && s.queueEpoch == s.readEpoch + 1
    requires s.ToQueue() && |s.queue| < MAX_QUEUE && !Has(s.queue, s.rrec.Number())
    requires r.epoch == s.rrec.epoch && r.Number() == 0
    ensures var t := Received(s).0.(rrec := r); Received(t) == (t, 0)
  {
    hide FromBe, Inserted, Ascending, Increasing, Taken, Queued, Has;
  }

  /** An early record of the handshake, a ChangeCipherSpec, and the early record again: it is accepted twice unless its
      number is zero. */
  lemma AcceptedAgain(width: nat, early: Record, ccs: Record)
    requires 0 < width && early.version == ccs.version && early.epoch == 1 && ccs.epoch == 0
    requires early.Bufferable() && ccs.kind == CHANGE_CIPHER_SPEC
    requires 0 < early.length <= MAX_ENCRYPTED_LENGTH && 0 < ccs.length <= MAX_ENCRYPTED_LENGTH
    requires early.verdict == Opened && ccs.verdict == Opened
    ensures var s := Initial(width, early.version, 0);
            var events := [Read([Whole(early)]), Read([Whole(ccs)]), UseChange, Read([]), Read([Whole(early)])];
            AfterAll(s, events).accepted ==
            [ccs.Slot(), early.Slot()] + if early.Number() == 0 then [] else [early.Slot()]
  {
    hide FromBe;
    var s0 := Initial(width, early.version, 0);
    var n := early.Number();
    InsertedFirst((n, early));
    ReadOne(s0, early);
    var s1 := s0.(queue := [(n, early)], rrec := CLEARED, nextWindow := Mark(EMPTY, 0));
    assert After(s0, Read([Whole(early)])) == s1;
    ReadOne(s1, ccs);
    var s2 := After(s1, Read([Whole(ccs)]));
    assert s2 == s1.(rrec := ccs, pending := true, window := Mark(EMPTY, ccs.Number()), taken := [ccs.Slot()],
                         accepted := [ccs.Slot()]);
    var s3 := After(s2, UseChange);
    assert s3 == Changed(s2);
    var s4 := After(s3, Read([]));
    assert s4 == s3.(queue := [], rrec := early, pending := true, drained := [early.Slot()],
                         accepted := [ccs.Slot(), early.Slot()]);
    ReadOne(s4, early);
    var s5 := After(s4, Read([Whole(early)]));
    assert s5.accepted == s4.accepted + if n == 0 then [] else [early.Slot()];
    FiveEvents(s0, Read([Whole(early)]), Read([Whole(ccs)]), UseChange, Read([]), Read([Whole(early)]));
  }

  lemma InsertedFirst(x: (nat, Record))
    ensures Inserted([], x) == [x]
  {}

  /** One whole record arrives. */
  lemma ReadOne(s: State, r: Record)
    ensures var (t, q) := FromQueue(s.(pending := false));
            After(s, Read([Whole(r)])) ==
            if q != 0 then t else if t.Filtered(r) then t.(rrec := r) else Received(t.(rrec := r)).0
  {
    hide FromQueue, Received, State.Filtered;
    var wire := [Whole(r)];
    var t := FromQueue(s.(pending := false)).0;
    assert wire[1..] == [];
    assert FromWire(t.(rrec := r), []).state == t.(rrec := r);
    var u := Received(t.(rrec := r)).0;
    assert FromWire(u, []).state == u;
  }

  /** When nothing is queued for this epoch, a record is thrown away unread exactly when it is longer than any under
      protection can be, of another major version, or, once the version is settled, of another minor one. */
  lemma Discarded(s: State, r: Record)
    requires s.queueEpoch != s.readEpoch
    ensures var t := s.(pending := false, rrec := r);
            After(s, Read([Whole(r)])) ==
            if || r.length > 16384 + 256 + 64
               || r.version / 256 != s.version / 256
               || (!s.firstPacket && r.version % 256 != s.version % 256)
            then t else Received(t).0
  {
    hide Received;
    ReadOne(s, r);
  }

  lemma FiveEvents(s: State, a: Event, b: Event, c: Event, d: Event, e: Event)
    ensures AfterAll(s, [a, b, c, d, e]) == After(After(After(After(After(s, a), b), c), d), e)
  {
    hide After;
    assert [a, b, c, d, e][1..] == [b, c, d, e] && [b, c, d, e][1..] == [c, d, e];
    assert [c, d, e][1..] == [d, e] && [d, e][1..] == [e] && [e][1..] == [];
    var s1 := After(s, a);
    var s2 := After(s1, b);
    var s3 := After(s2, c);
    var s4 := After(s3, d);
    assert AfterAll(After(s4, e), []) == After(s4, e);
    assert AfterAll(s4, [e]) == After(s4, e);
    assert AfterAll(s3, [d, e]) == AfterAll(s4, [e]);
    assert AfterAll(s2, [c, d, e]) == AfterAll(s3, [d, e]);
    assert AfterAll(s1, [b, c, d, e]) == AfterAll(s2, [c, d, e]);
  }

  // What has been taken is not taken again, authentic or not.

  lemma TakenAfter(s: State, x: Slot)
    requires Sound(s) && s.queueEpoch == s.readEpoch + 1 && x in s.taken
    ensures x in Received(s).0.taken && (s.rrec.Slot() == x ==> !s.ToTake())
  {
    hide FromBe, Inserted, Ascending, Increasing, Queued, Has;
  }

  lemma {:induction false} WireRefused(s: State, wire: seq<Arrival>, x: Slot)
    requires Sound(s) && s.queueEpoch == s.readEpoch + 1 && !s.pending && x in s.taken
    ensures x in FromWire(s, wire).state.taken
    ensures forall m <- MetOnWire(s, wire) :: m.rrec.Slot() == x ==> !m.ToTake()
    decreases |wire|
  {
    hide Sound, Received, State.ToTake, State.Filtered;
    if wire != [] {
      if wire[0].Partial? {
        WireRefused(s, wire[1..], x);
      } else {
        var t := s.(rrec := wire[0].record);
        NewRecord(s, wire[0].record);
        if s.Filtered(wire[0].record) {
          WireRefused(t, wire[1..], x);
        } else {
          ReceivingSound(t);
          TakenAfter(t, x);
          var (u, r) := Received(t);
          if r == 0 {
            WireRefused(u, wire[1..], x);
          }
        }
      }
    }
  }

  lemma EventRefused(s: State, e: Event, x: Slot)
    requires Sound(s) && x in s.taken
    ensures x in After(s, e).taken
    ensures forall m <- MetIn(s, e) :: m.rrec.Slot() == x ==> !m.ToTake()
  {
    hide Sound, FromWire, MetOnWire, State.ToTake;
    match e
    case Read(wire) =>
      var quiet := s.(pending := false);
      Settled(s);
      DrainingSound(quiet);
      QuietAfter(quiet);
      var (t, r) := FromQueue(quiet);
      if r == 0 {
        WireRefused(t, wire, x);
      }
    case UseChange =>
    case Phase(_, _) =>
  }

  lemma {:induction false} RunRefused(s: State, events: seq<Event>, x: Slot)
    requires Sound(s) && x in s.taken
    ensures forall m <- Met(s, events) :: m.rrec.Slot() == x ==> !m.ToTake()
    decreases |events|
  {
    hide Sound, After, MetIn, State.ToTake;
    if events != [] {
      EventExact(s, events[0]);
      EventRefused(s, events[0], x);
      RunRefused(After(s, events[0]), events[1..], x);
    }
  }

  /** A record that fails authentication changes nothing if it is not fresh or empty; otherwise no record of its epoch
      and number, the genuine one included, is taken in any run that follows. */
  lemma UnauthenticatedRefused(s: State, events: seq<Event>)
    requires Sound(s) && s.queueEpoch == s.readEpoch + 1 && !s.pending
    requires s.rrec.verdict == BadMac && s.rrec.epoch == s.readEpoch
    ensures var t := Received(s).0;
            if Fresh(s.width, s.window, s.rrec.Number()) && s.rrec.length != 0
            then forall m <- Met(t, events) :: m.rrec.Slot() == s.rrec.Slot() ==> !m.ToTake()
            else t == s
  {
    hide Sound, FromBe, Met;
    if Fresh(s.width, s.window, s.rrec.Number()) && s.rrec.length != 0 {
      ReceivingSound(s);
      RunRefused(Received(s).0, events, s.rrec.Slot());
    }
  }

  // Repeated records in terms of those that arrive.

  /** The slots of the records that the queue has given or will give. */
  ghost function Given(s: State): set<Slot> {
    (set q | q in s.queue && q.1.verdict != Fatal :: (s.queueEpoch, q.0)) + set d | d in s.drained
  }

  ghost function EnqueuedIn(met: seq<State>): set<Slot> {
    set m | m in met && m.Enqueued() :: m.rrec.Slot()
  }

  /** Each record repeats one exactly when it is taken and its slot was given before or enqueued earlier. */
  ghost predicate RepeatsEarlier(met: seq<State>, given: set<Slot>) {
    forall i :: 0 <= i < |met| ==>
      (met[i].Repeats() <==> met[i].ToTake() && met[i].rrec.Slot() in given + EnqueuedIn(met[..i]))
  }

  lemma GivenAfter(s: State)
    requires Sound(s) && s.queueEpoch == s.readEpoch + 1
    ensures Given(Received(s).0) == Given(s) + if s.Enqueued() then {s.rrec.Slot()} else {}
    ensures s.Repeats() <==> s.ToTake() && s.rrec.Slot() in Given(s)
  {
    hide FromBe, Inserted, Ascending, Increasing, Taken, Marked, Queued, Has;
    if s.ToQueue() && |s.queue| < MAX_QUEUE && !Has(s.queue, s.rrec.Number()) {
      HeldInserted(s.queue, s.rrec, s.queueEpoch, s.drained);
    }
  }

  lemma GivenDrained(s: State)
    requires Sound(s)
    ensures Given(FromQueue(s).0) == Given(s)
  {
    hide FromBe, Increasing, Taken, Marked;
    if s.queueEpoch == s.readEpoch && s.queue != [] {
      assert s.queue[0] in s.queue;
      forall q | q in s.queue
        ensures q == s.queue[0] || q in s.queue[1..]
      {
        var i :| 0 <= i < |s.queue| && s.queue[i] == q;
        assert i > 0 ==> s.queue[1..][i - 1] == q;
      }
      assert forall q <- s.queue[1..] :: q in s.queue;
    }
  }

  lemma SameGiven(s: State, t: State)
    requires s.queue == t.queue && s.queueEpoch == t.queueEpoch && s.drained == t.drained
    ensures Given(s) == Given(t)
  {}

  lemma EnqueuedConcat(a: seq<State>, b: seq<State>)
    ensures EnqueuedIn(a + b) == EnqueuedIn(a) + EnqueuedIn(b)
  {}

  lemma EarlierConcat(a: seq<State>, b: seq<State>, given: set<Slot>)
    requires RepeatsEarlier(a, given) && RepeatsEarlier(b, given + EnqueuedIn(a))
    ensures RepeatsEarlier(a + b, given)
  {
    hide EnqueuedIn, State.Repeats, State.ToTake;
    var c := a + b;
    forall i | 0 <= i < |c|
      ensures c[i].Repeats() <==> c[i].ToTake() && c[i].rrec.Slot() in given + EnqueuedIn(c[..i])
    {
      if i < |a| {
        assert c[..i] == a[..i];
      } else {
        var j := i - |a|;
        assert c[..i] == a + b[..j];
        EnqueuedConcat(a, b[..j]);
        assert given + EnqueuedIn(a) + EnqueuedIn(b[..j]) == given + (EnqueuedIn(a) + EnqueuedIn(b[..j]));
      }
    }
  }

  lemma OneMet(m: State)
    ensures EnqueuedIn([m]) == if m.Enqueued() then {m.rrec.Slot()} else {}
    ensures EnqueuedIn([]) == {}
  {}

  lemma OneEarlier(m: State, given: set<Slot>)
    requires m.Repeats() <==> m.ToTake() && m.rrec.Slot() in given
    ensures RepeatsEarlier([m], given)
  {
    OneMet(m);
    assert [m][..0] == [];
  }

  lemma {:induction false} WireEarlier(s: State, wire: seq<Arrival>)
    requires Sound(s) && s.queueEpoch == s.readEpoch + 1 && !s.pending
    ensures RepeatsEarlier(MetOnWire(s, wire), Given(s))
    ensures Given(FromWire(s, wire).state) == Given(s) + EnqueuedIn(MetOnWire(s, wire))
    decreases |wire|
  {
    hide Sound, Received, Given, RepeatsEarlier, EnqueuedIn, State.Repeats, State.Enqueued, State.ToTake;
    hide State.Filtered;
    NoneEarlier(Given(s));
    if wire != [] {
      if wire[0].Partial? {
        WireEarlier(s, wire[1..]);
      } else {
        var t := s.(rrec := wire[0].record);
        NewRecord(s, wire[0].record);
        SameGiven(s, t);
        if s.Filtered(wire[0].record) {
          WireEarlier(t, wire[1..]);
        } else {
          ReceivingSound(t);
          GivenAfter(t);
          OneMet(t);
          OneEarlier(t, Given(s));
          var (u, r) := Received(t);
          var more := if r == 0 then MetOnWire(u, wire[1..]) else [];
          NoneEarlier(Given(u));
          if r == 0 {
            WireEarlier(u, wire[1..]);
          }
          EarlierConcat([t], more, Given(s));
          EnqueuedConcat([t], more);
        }
      }
    }
  }

  lemma NoneEarlier(given: set<Slot>)
    ensures RepeatsEarlier([], given) && EnqueuedIn([]) == {}
  {}

  lemma EventEarlier(s: State, e: Event)
    requires Sound(s)
    ensures RepeatsEarlier(MetIn(s, e), Given(s))
    ensures Given(After(s, e)) == Given(s) + EnqueuedIn(MetIn(s, e))
  {
    hide FromWire, MetOnWire, Sound, FromQueue, Given, RepeatsEarlier, EnqueuedIn;
    NoneEarlier(Given(s));
    match e
    case Read(wire) =>
      var quiet := s.(pending := false);
      Settled(s);
      SameGiven(s, quiet);
      DrainingSound(quiet);
      GivenDrained(quiet);
      QuietAfter(quiet);
      var (t, r) := FromQueue(quiet);
      if r == 0 {
        WireEarlier(t, wire);
      }
    case UseChange =>
      SameGiven(s, Changed(s));
    case Phase(a, b) =>
      SameGiven(s, s.(inHandshake := a, firstPacket := b));
  }

  lemma {:induction false} RunEarlier(s: State, events: seq<Event>)
    requires Sound(s)
    ensures RepeatsEarlier(Met(s, events), Given(s))
    decreases |events|
  {
    hide Sound, After, MetIn, Given, RepeatsEarlier, EnqueuedIn;
    NoneEarlier(Given(s));
    if events != [] {
      var t := After(s, events[0]);
      EventExact(s, events[0]);
      EventEarlier(s, events[0]);
      RunEarlier(t, events[1..]);
      EarlierConcat(MetIn(s, events[0]), Met(t, events[1..]), Given(s));
    }
  }

  /** From the start of a connection, no slot is accepted twice exactly when no record is taken from the network whose
      slot an earlier record had that was put into the queue; and no such record has the number zero. */
  lemma RunArriving(width: nat, version: nat, epoch: nat, events: seq<Event>)
    ensures var s := Initial(width, version, epoch);
            var met := Met(s, events);
            Distinct(AfterAll(s, events).accepted) <==>
            forall i, j :: 0 <= i < j < |met| && met[i].Enqueued() && met[j].ToTake() ==>
                             met[i].rrec.Slot() != met[j].rrec.Slot()
    ensures forall m <- Met(Initial(width, version, epoch), events) :: m.Repeats() ==> m.rrec.Number() != 0
  {
    hide AfterAll, Met, Distinct, State.Enqueued, State.ToTake, State.Repeats;
    var s := Initial(width, version, epoch);
    var met := Met(s, events);
    InitialSound(width, version, epoch);
    InitialZero(width, version, epoch);
    NoneAccepted();
    RunExact(s, events);
    RunNotZero(s, events);
    RunEarlier(s, events);
    assert Given(s) == {};
    forall j | 0 <= j < |met|
      ensures met[j].Repeats() <==>
              met[j].ToTake() && exists i :: 0 <= i < j && met[i].Enqueued() && met[i].rrec.Slot() == met[j].rrec.Slot()
    {
      EarlierIndex(met, j, met[j].rrec.Slot());
    }
  }

  lemma NoneAccepted()
    ensures Distinct([])
  {}

  lemma EarlierIndex(met: seq<State>, j: nat, x: Slot)
    requires j <= |met|
    ensures x in EnqueuedIn(met[..j]) <==> exists i :: 0 <= i < j && met[i].Enqueued() && met[i].rrec.Slot() == x
  {
    hide State.Enqueued;
    if x in EnqueuedIn(met[..j]) {
      var m :| m in met[..j] && m.Enqueued() && m.rrec.Slot() == x;
      var i :| 0 <= i < j && met[..j][i] == m;
      assert met[i] == m;
    }
    if i :| 0 <= i < j && met[i].Enqueued() && met[i].rrec.Slot() == x {
      assert met[..j][i] in met[..j];
    }
  }

  // The number zero is marked whenever the queue gives anything.

  ghost predicate ZeroMarked(s: State) {
    && (s.queue != [] ==> 0 in (if s.queueEpoch == s.readEpoch then s.window else s.nextWindow).marked)
    && forall d <- s.drained :: d.0 == s.readEpoch ==> 0 in s.window.marked
  }

  lemma ZeroAfter(s: State)
    requires Sound(s) && ZeroMarked(s) && s.queueEpoch == s.readEpoch + 1
    ensures ZeroMarked(Received(s).0) && (s.Repeats() ==> s.rrec.Number() != 0)
  {
    hide FromBe, Inserted, Ascending, Increasing, Taken, Queued, Has;
  }

  lemma ZeroDrained(s: State)
    requires Sound(s) && ZeroMarked(s)
    ensures ZeroMarked(FromQueue(s).0)
  {
    hide FromBe, Inserted, Ascending, Increasing, Taken, Queued, Has;
  }

  lemma {:induction false} WireZero(s: State, wire: seq<Arrival>)
    requires Sound(s) && ZeroMarked(s) && s.queueEpoch == s.readEpoch + 1 && !s.pending
    ensures ZeroMarked(FromWire(s, wire).state)
    ensures forall m <- MetOnWire(s, wire) :: m.Repeats() ==> m.rrec.Number() != 0
    decreases |wire|
  {
    hide Sound, Received, State.Repeats, State.ToTake, State.Filtered;
    if wire != [] {
      if wire[0].Partial? {
        WireZero(s, wire[1..]);
      } else {
        var t := s.(rrec := wire[0].record);
        NewRecord(s, wire[0].record);
        if s.Filtered(wire[0].record) {
          WireZero(t, wire[1..]);
        } else {
          ReceivingSound(t);
          ZeroAfter(t);
          var (u, r) := Received(t);
          if r == 0 {
            WireZero(u, wire[1..]);
          }
        }
      }
    }
  }

  lemma EventZero(s: State, e: Event)
    requires Sound(s) && ZeroMarked(s)
    ensures ZeroMarked(After(s, e))
    ensures forall m <- MetIn(s, e) :: m.Repeats() ==> m.rrec.Number() != 0
  {
    hide FromWire, MetOnWire, FromQueue, FromBe, Ascending, Increasing, Taken, Queued, Marked, State.Repeats;
    match e
    case Read(wire) =>
      var quiet := s.(pending := false);
      Settled(s);
      DrainingSound(quiet);
      ZeroDrained(quiet);
      QuietAfter(quiet);
      var (t, r) := FromQueue(quiet);
      if r == 0 {
        WireZero(t, wire);
      }
    case UseChange =>
    case Phase(_, _) =>
  }

  /** A record that is accepted again never has the number zero. */
  lemma {:induction false} RunNotZero(s: State, events: seq<Event>)
    requires Sound(s) && ZeroMarked(s)
    ensures forall m <- Met(s, events) :: m.Repeats() ==> m.rrec.Number() != 0
    decreases |events|
  {
    hide Sound, After, MetIn, ZeroMarked, State.Repeats;
    if events != [] {
      EventExact(s, events[0]);
      EventZero(s, events[0]);
      RunNotZero(After(s, events[0]), events[1..]);
    }
  }

  lemma InitialZero(width: nat, version: nat, epoch: nat)
    ensures ZeroMarked(Initial(width, version, epoch))
  {}
}

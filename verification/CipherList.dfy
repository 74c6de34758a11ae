/** The doubly linked preference list of ssl_ciph.c. */
module CipherPreference {
  import opened Bits
  import opened CipherDefaults
  import opened CipherRules
  import opened CipherRuns
  import opened Filtering
  import opened Wrappers

  class CipherOrder {
    const cipher: Cipher
    var active: bool
    var next: CipherOrder?
    var prev: CipherOrder?

    constructor (cipher: Cipher)
      ensures this.cipher == cipher && !active && next == null && prev == null
    {
      this.cipher := cipher;
      active, next, prev := false, null, null;
    }
  }

  /** The nodes form a doubly linked list in this order. */
  ghost predicate Linked(head: CipherOrder?, tail: CipherOrder?, nodes: seq<CipherOrder>)
    reads nodes
  {
    && (forall i, j :: 0 <= i < j < |nodes| ==> nodes[i] != nodes[j])
    && (forall i, j :: 0 <= i && j == i + 1 && j < |nodes| ==> nodes[i].next == nodes[j] && nodes[j].prev == nodes[i])
    && if nodes == [] then head == null && tail == null
       else
         && head == nodes[0] && head.prev == null
         && tail == nodes[|nodes| - 1] && tail.next == null
  }

  ghost function EntriesOf(nodes: seq<CipherOrder>): (s: seq<Entry>)
    reads nodes
    ensures |s| == |nodes|
    ensures forall i :: 0 <= i < |s| ==> s[i] == Entry(nodes[i].cipher, nodes[i].active)
  {
    seq(|nodes|, i requires 0 <= i < |nodes| reads nodes => Entry(nodes[i].cipher, nodes[i].active))
  }

  ghost predicate Among<T>(s: seq<T>, all: seq<T>) {
    forall x <- s :: x in all
  }

  function Without<T>(s: seq<T>, k: nat): (r: seq<T>)
    requires k < |s|
    ensures |r| == |s| - 1
    ensures forall i :: 0 <= i < |r| ==> r[i] == s[if i < k then i else i + 1]
  {
    s[..k] + s[k + 1..]
  }

  /** The entries visited so far have been split as the rule asks; the others are untouched. */
  ghost predicate Split(r: Rule, was: seq<Entry>, stay: seq<Entry>, todo: seq<Entry>, moved: seq<Entry>) {
    && |todo| <= |was|
    && var n, m := |todo|, |was| - |todo|;
       if r.action == Del then stay == Stay(r, was[n..]) && moved == Move(r, was[n..]) && todo == was[..n]
       else stay == Stay(r, was[..m]) && moved == Move(r, was[..m]) && todo == was[m..]
  }

  /** The index of the node that comes next when these are still to be visited. */
  ghost function Near<T>(r: Rule, todo: seq<T>): (k: nat)
    requires todo != []
    ensures k < |todo|
  {
    if r.action == Del then |todo| - 1 else 0
  }

  /** The index of the node that comes last. */
  ghost function Far<T>(r: Rule, todo: seq<T>): (k: nat)
    requires todo != []
    ensures k < |todo|
  {
    if r.action == Del then 0 else |todo| - 1
  }

  /** The list while a rule is applied: todo has not been visited, stay and moved have. */
  datatype Halfway = Halfway(stay: seq<CipherOrder>, todo: seq<CipherOrder>, moved: seq<CipherOrder>) {

    /** The nodes as they are linked. */
    ghost function Nodes(r: Rule): seq<CipherOrder> {
      if r.action == Del then moved + todo + stay else stay + todo + moved
    }

    /** The index in the list of the node that comes next. */
    ghost function Index(r: Rule): nat
      requires todo != []
    {
      if r.action == Del then |moved| + |todo| - 1 else |stay|
    }

    ghost predicate Done(r: Rule, was: seq<Entry>)
      reads stay, todo, moved
    {
      Split(r, was, EntriesOf(stay), EntriesOf(todo), EntriesOf(moved))
    }

    lemma DoneSplit(r: Rule, was: seq<Entry>)
      requires Done(r, was)
      ensures Split(r, was, EntriesOf(stay), EntriesOf(todo), EntriesOf(moved))
    {}

    ghost function Next(r: Rule, taken: bool): Halfway
      requires todo != []
    {
      var k, x := Near(r, todo), todo[Near(r, todo)];
      var rest := Without(todo, k);
      if !taken then Halfway(if r.action == Del then [x] + stay else stay + [x], rest, moved)
      else match r.action
           case Del => Halfway(stay, rest, [x] + moved)
           case Kill => Halfway(stay, rest, moved)
           case _ => Halfway(stay, rest, moved + [x])
    }
  }

  lemma NextNodes(l: Halfway, r: Rule, taken: bool)
    requires l.todo != []
    ensures l.Next(r, taken).todo == Without(l.todo, Near(r, l.todo))
    ensures l.Next(r, taken).Nodes(r) ==
            if !taken then l.Nodes(r)
            else match r.action
                 case Del => [l.todo[Near(r, l.todo)]] + Without(l.Nodes(r), l.Index(r))
                 case Kill => Without(l.Nodes(r), l.Index(r))
                 case _ => Without(l.Nodes(r), l.Index(r)) + [l.todo[Near(r, l.todo)]]
  {
    hide Without;
    if r.action == Del {
      TakeLast(l.moved, l.todo, l.stay);
    } else {
      TakeFirst(l.stay, l.todo, l.moved);
    }
  }

  lemma TakeLast<T>(a: seq<T>, t: seq<T>, c: seq<T>)
    requires t != []
    ensures var k, x, rest := |t| - 1, t[|t| - 1], Without(t, |t| - 1);
            && a + t + c == a + rest + ([x] + c)
            && Without(a + t + c, |a| + k) == a + rest + c
            && [x] + (a + rest + c) == [x] + a + rest + c
  {
    assert t == Without(t, |t| - 1) + [t[|t| - 1]];
  }

  lemma TakeFirst<T>(a: seq<T>, t: seq<T>, c: seq<T>)
    requires t != []
    ensures var x, rest := t[0], Without(t, 0);
            && a + t + c == a + [x] + rest + c
            && Without(a + t + c, |a|) == a + rest + c
            && (a + rest + c) + [x] == a + rest + (c + [x])
  {
    hide Without;
    var x, rest := t[0], t[1..];
    WithoutFirst(t);
    Joined(a, [x], rest, c);
    assert t == [x] + rest;
    WithoutMiddle(a, x, rest + c);
    Joined(a, rest, c, [x]);
  }

  lemma WithoutFirst<T>(t: seq<T>)
    requires t != []
    ensures Without(t, 0) == t[1..]
  {}

  lemma WithoutMiddle<T>(a: seq<T>, x: T, b: seq<T>)
    ensures Without(a + [x] + b, |a|) == a + b
  {}

  lemma Joined<T>(a: seq<T>, b: seq<T>, c: seq<T>, d: seq<T>)
    ensures a + b + c + d == a + (b + c) + d == a + b + (c + d) && a + (c + d) == a + c + d
  {}

  /** What one more visited entry adds on either side. */
  lemma NextDone(l: Halfway, r: Rule, was: seq<Entry>, x: CipherOrder, e: Entry,
                 stay: seq<Entry>, todo: seq<Entry>, moved: seq<Entry>)
    requires l.todo != [] && Split(r, was, stay, todo, moved) && |todo| == |l.todo| && e == todo[Near(r, l.todo)]
    requires x == l.todo[Near(r, l.todo)] && x.cipher == e.cipher
    requires Takes(r, e) && r.action != Kill ==> x.active == (r.action != Del)
    requires !Takes(r, e) ==> x.active == e.active
    requires EntriesOf(l.stay) == stay && EntriesOf(l.moved) == moved
    requires EntriesOf(Without(l.todo, Near(r, l.todo))) == Without(todo, Near(r, l.todo))
    ensures l.Next(r, Takes(r, e)).Done(r, was)
  {
    hide Takes, Stay, Move, Split, Without;
    SingleEntry(r, e);
    SplitMore(r, was, stay, todo, moved);
    JoinEntries(x, l.stay);
    JoinEntries(x, l.moved);
    assert [] + stay == stay && stay + [] == stay && [] + moved == moved && moved + [] == moved;
  }

  lemma JoinEntries(x: CipherOrder, s: seq<CipherOrder>)
    ensures EntriesOf([x] + s) == [Entry(x.cipher, x.active)] + EntriesOf(s)
    ensures EntriesOf(s + [x]) == EntriesOf(s) + [Entry(x.cipher, x.active)]
  {}

  /** One more entry is split off. */
  lemma SplitMore(r: Rule, was: seq<Entry>, stay: seq<Entry>, todo: seq<Entry>, moved: seq<Entry>)
    requires Split(r, was, stay, todo, moved) && todo != []
    ensures var e := todo[Near(r, todo)];
            if r.action == Del
            then Split(r, was, Stay(r, [e]) + stay, Without(todo, Near(r, todo)), Move(r, [e]) + moved)
            else Split(r, was, stay + Stay(r, [e]), Without(todo, Near(r, todo)), moved + Move(r, [e]))
  {
    hide Takes, Stay, Move;
    var n, e := |todo|, todo[Near(r, todo)];
    if r.action == Del {
      assert was[n - 1..] == [e] + was[n..];
      assert Without(todo, n - 1) == was[..n - 1];
      StayConcat(r, [e], was[n..]);
      MoveConcat(r, [e], was[n..]);
    } else {
      var m := |was| - n;
      assert was[..m + 1] == was[..m] + [e];
      assert Without(todo, 0) == was[m + 1..];
      StayConcat(r, was[..m], [e]);
      MoveConcat(r, was[..m], [e]);
    }
  }

  /** The next node occurs nowhere else. */
  lemma Apart(head: CipherOrder?, tail: CipherOrder?, l: Halfway, r: Rule)
    requires Linked(head, tail, l.Nodes(r)) && l.todo != []
    ensures l.Index(r) < |l.Nodes(r)| && l.Nodes(r)[l.Index(r)] == l.todo[Near(r, l.todo)]
    ensures forall n <- l.stay + Without(l.todo, Near(r, l.todo)) + l.moved ::
              n != l.todo[Near(r, l.todo)] && n in l.Nodes(r)
  {
    var nodes, x := l.Nodes(r), l.todo[Near(r, l.todo)];
    assert nodes[l.Index(r)] == x;
    forall n | n in l.stay + Without(l.todo, Near(r, l.todo)) + l.moved
      ensures exists i :: 0 <= i < |nodes| && i != l.Index(r) && nodes[i] == n
    {
      if n in l.stay {
        var j :| 0 <= j < |l.stay| && l.stay[j] == n;
        assert nodes[if r.action == Del then |l.moved| + |l.todo| + j else j] == n;
      } else if n in l.moved {
        var j :| 0 <= j < |l.moved| && l.moved[j] == n;
        assert nodes[if r.action == Del then j else |l.stay| + |l.todo| + j] == n;
      } else {
        var j :| 0 <= j < |l.todo| && l.todo[j] == n && j != Near(r, l.todo);
        assert nodes[if r.action == Del then |l.moved| + j else |l.stay| + j] == n;
      }
    }
  }

  lemma Start(head: CipherOrder?, tail: CipherOrder?, nodes: seq<CipherOrder>, r: Rule)
    requires Linked(head, tail, nodes)
    ensures var l := Halfway([], nodes, []);
            && l.Nodes(r) == nodes && l.Done(r, EntriesOf(nodes)) && Among(nodes, nodes)
            && (nodes == [] ==> head == tail == null)
            && (nodes != [] ==> nodes[Near(r, l.todo)] == if r.action == Del then tail else head)
            && (nodes != [] ==> nodes[Far(r, l.todo)] == if r.action == Del then head else tail)
  {
    hide Stay, Move;
    NothingRuled(r);
    var was := EntriesOf(nodes);
    assert was[..0] == was[|was|..] == [] && was[..|was|] == was[0..] == was;
  }

  /** The link followed from the next node leads to the one after it; neither occurs again. */
  lemma Neighbour(head: CipherOrder?, tail: CipherOrder?, l: Halfway, r: Rule)
    requires Linked(head, tail, l.Nodes(r)) && l.todo != []
    ensures var x, rest := l.todo[Near(r, l.todo)], Without(l.todo, Near(r, l.todo));
            && x in l.Nodes(r) && (forall k :: 0 <= k < |rest| ==> rest[k] != x)
            && if rest == [] then l.todo[Far(r, l.todo)] == x
               else
                 && rest[Near(r, rest)] == (if r.action == Del then x.prev else x.next)
                 && rest[Far(r, rest)] == l.todo[Far(r, l.todo)]
  {
    Apart(head, tail, l, r);
    var nodes, k := l.Nodes(r), l.Index(r);
    if |l.todo| > 1 {
      assert nodes[if r.action == Del then k - 1 else k + 1] == l.todo[if r.action == Del then |l.todo| - 2 else 1];
    }
  }

  lemma Finish(l: Halfway, r: Rule, was: seq<Entry>)
    requires l.Done(r, was) && l.todo == []
    ensures EntriesOf(l.Nodes(r)) == Ruled(r, was)
  {
    hide Stay, Move;
    assert was[0..] == was[..|was|] == was;
    assert EntriesOf(l.moved + l.stay) == EntriesOf(l.moved) + EntriesOf(l.stay);
    assert EntriesOf(l.stay + l.moved) == EntriesOf(l.stay) + EntriesOf(l.moved);
  }

  /** A count is positive exactly for the strengths of active entries. */
  ghost predicate Counted(s: seq<Entry>, numberUses: seq<nat>, max: nat) {
    |numberUses| == max + 1 && forall b :: 0 <= b <= max ==> (numberUses[b] > 0 <==> Used(s, b))
  }

  lemma NoneUsed()
    ensures forall b :: !Used([], b)
  {}

  class CipherList {
    var head: CipherOrder?
    var tail: CipherOrder?
    ghost var nodes: seq<CipherOrder>

    ghost predicate Valid()
      reads this, nodes
    {
      Linked(head, tail, nodes)
    }

    ghost function Entries(): seq<Entry>
      reads this, nodes
    {
      EntriesOf(nodes)
    }

    /** The neighbours of an entry are linked past it; there are others. */
    method TakeOut(curr: CipherOrder, ghost k: nat)
      requires Valid() && k < |nodes| && nodes[k] == curr && |nodes| > 1
      modifies `head, `tail, `nodes, (set n | n in nodes && n != curr)`next, (set n | n in nodes && n != curr)`prev
      ensures Valid() && nodes == Without(old(nodes), k)
    {
      hide Without;
      assert curr.next == if k + 1 < |nodes| then nodes[k + 1] else null;
      assert curr.prev == if k == 0 then null else nodes[k - 1];
      if curr == head {
        head := curr.next;
      }
      if curr == tail {
        tail := curr.prev;
      }
      if curr.prev != null {
        curr.prev.next := curr.next;
      }
      if curr.next != null {
        curr.next.prev := curr.prev;
      }
      ghost var rest := Without(nodes, k);
      forall i, j | 0 <= i && j == i + 1 && j < |rest|
        ensures rest[i].next == rest[j] && rest[j].prev == rest[i]
      {
        assert rest[i] == nodes[if i < k then i else j] && rest[j] == nodes[if j < k then j else j + 1];
      }
      nodes := rest;
    }

    /** ll_append_tail */
    method AppendTail(curr: CipherOrder, ghost k: nat)
      requires Valid() && k < |nodes| && nodes[k] == curr
      modifies `head, `tail, `nodes, (set n | n in nodes)`next, (set n | n in nodes)`prev
      ensures Valid() && nodes == Without(old(nodes), k) + [curr]
    {
      hide Without;
      if curr == tail {
        return;
      }
      TakeOut(curr, k);
      tail.next := curr;
      curr.prev := tail;
      curr.next := null;
      tail := curr;
      nodes := nodes + [curr];
    }

    /** ll_append_head */
    method AppendHead(curr: CipherOrder, ghost k: nat)
      requires Valid() && k < |nodes| && nodes[k] == curr
      modifies `head, `tail, `nodes, (set n | n in nodes)`next, (set n | n in nodes)`prev
      ensures Valid() && nodes == [curr] + Without(old(nodes), k)
    {
      hide Without;
      if curr == head {
        return;
      }
      TakeOut(curr, k);
      head.prev := curr;
      curr.next := head;
      curr.prev := null;
      head := curr;
      nodes := [curr] + nodes;
    }

    /** The CIPHER_KILL branch of ssl_cipher_apply_rule. */
    method Unlink(curr: CipherOrder, ghost k: nat)
      requires Valid() && k < |nodes| && nodes[k] == curr
      modifies `head, `tail, `nodes, (set n | n in nodes)
      ensures Valid() && nodes == Without(old(nodes), k)
      ensures curr.next == null && curr.prev == null && !curr.active
      ensures forall n <- old(nodes) :: n != curr ==> n.active == old(n.active)
    {
      hide Without;
      assert curr.prev == if k == 0 then null else nodes[k - 1];
      assert curr.next == if k + 1 == |nodes| then null else nodes[k + 1];
      if head == curr {
        head := curr.next;
      } else {
        curr.prev.next := curr.next;
      }
      if tail == curr {
        tail := curr.prev;
      }
      curr.active := false;
      if curr.next != null {
        curr.next.prev := curr.prev;
      }
      if curr.prev != null {
        curr.prev.next := curr.next;
      }
      curr.next := null;
      curr.prev := null;
      nodes := Without(nodes, k);
    }

    /** curr->active = active */
    method SetActive(curr: CipherOrder, active: bool)
      requires Valid()
      modifies curr`active
      ensures Valid() && curr.active == active
    {
      curr.active := active;
    }

    /** The body of the loop of ssl_cipher_apply_rule. */
    method Treat(r: Rule, curr: CipherOrder, ghost k: nat) returns (ghost taken: bool)
      requires Valid() && k < |nodes| && nodes[k] == curr
      modifies this, (set n | n in nodes)
      ensures Valid()
      ensures taken == Takes(r, Entry(curr.cipher, old(curr.active)))
      ensures forall n <- old(nodes) :: n != curr ==> n.active == old(n.active)
      ensures Among(nodes, old(nodes))
      ensures taken && r.action != Kill ==> curr.active == (r.action != Del)
      ensures !taken ==> nodes == old(nodes) && curr.active == old(curr.active)
      ensures taken ==> nodes == match r.action
                                 case Del => [curr] + Without(old(nodes), k)
                                 case Kill => Without(old(nodes), k)
                                 case _ => Without(old(nodes), k) + [curr]
    {
      hide Linked, Without, Matches;
      taken := Takes(r, Entry(curr.cipher, curr.active));
      if !Matches(r, curr.cipher) {
        return;
      }
      if r.action == Add {
        if !curr.active {
          AppendTail(curr, k);
          SetActive(curr, true);
        }
      } else if r.action == Ord {
        if curr.active {
          AppendTail(curr, k);
        }
      } else if r.action == Del {
        if curr.active {
          AppendHead(curr, k);
          SetActive(curr, false);
        }
      } else {
        Unlink(curr, k);
      }
    }

    /** One turn of the loop: the entry at the near end of todo is dealt with. */
    method Turn(r: Rule, curr: CipherOrder, ghost l: Halfway, ghost was: seq<Entry>) returns (ghost after: Halfway)
      requires Valid() && nodes == l.Nodes(r) && l.Done(r, was)
      requires l.todo != [] && curr == l.todo[Near(r, l.todo)]
      modifies this, (set n | n in nodes)
      ensures Valid() && nodes == after.Nodes(r) && after.Done(r, was)
      ensures after.todo == Without(l.todo, Near(r, l.todo))
      ensures Among(nodes, old(nodes))
    {
      hide Among, Linked, Matches, Filter, Takes, Stay, Move, Without, Split, Halfway.Nodes, Halfway.Done, Halfway.Next,
           Halfway.Index, Near;
      ghost var k, e, rest := l.Index(r), Entry(curr.cipher, curr.active), Without(l.todo, Near(r, l.todo));
      ghost var stay, todo, moved := EntriesOf(l.stay), EntriesOf(l.todo), EntriesOf(l.moved);
      assert Split(r, was, stay, todo, moved) by { l.DoneSplit(r, was); }
      Apart(head, tail, l, r);
      assert EntriesOf(rest) == Without(todo, Near(r, l.todo));
      ghost var taken := Treat(r, curr, k);
      after := l.Next(r, taken);
      NextNodes(l, r, taken);
      NextDone(l, r, was, curr, e, stay, todo, moved);
    }

    /** ssl_cipher_apply_rule */
    method ApplyRule(r: Rule)
      requires Valid()
      modifies this, (set n | n in nodes)
      ensures Valid() && Entries() == Ruled(r, old(Entries()))
      ensures Among(nodes, old(nodes))
    {
      hide Linked, Matches, Filter, Takes, Stay, Move, Without, Halfway.Nodes, Halfway.Done, Near, Far, Halfway.Index;
      hide Ruled;
      ghost var all, was := nodes, Entries();
      ghost var l := Halfway([], nodes, []);
      Start(head, tail, nodes, r);
      var reverse := r.action == Del;
      var next, last := head, tail;
      if reverse {
        next, last := tail, head;
      }
      var curr: CipherOrder? := null;
      while curr != last
        invariant Valid() && nodes == l.Nodes(r) && l.Done(r, was) && Among(nodes, all)
        invariant l.todo != [] ==> next == l.todo[Near(r, l.todo)] && last == l.todo[Far(r, l.todo)]
        invariant forall k :: 0 <= k < |l.todo| ==> l.todo[k] != curr
        invariant l.todo == [] ==> curr == last
        decreases |l.todo|
      {
        curr := next;
        Neighbour(head, tail, l, r);
        next := if reverse then curr.prev else curr.next;
        l := Turn(r, curr, l, was);
      }
      Finish(l, r, was);
    }

    /** The entry behind the cursor of a loop over the list. */
    lemma Cursor(k: nat)
      requires Valid() && k < |nodes|
      ensures nodes[k].next == if k + 1 < |nodes| then nodes[k + 1] else null
      ensures Entries()[..k + 1] == Entries()[..k] + [Entry(nodes[k].cipher, nodes[k].active)]
      ensures |Entries()| == |nodes| && Entries()[k] == Entry(nodes[k].cipher, nodes[k].active)
    {
      if k + 1 < |nodes| {
        assert nodes[k].next == nodes[k + 1];
      }
    }

    /** The first loop of ssl_cipher_strength_sort. */
    method MaxStrengthBits() returns (max: nat)
      requires Valid()
      ensures forall e <- Entries() :: e.active ==> e.cipher.bits <= max
      ensures max == 0 || exists e <- Entries() :: e.active && e.cipher.bits == max
    {
      max := 0;
      ghost var s := Entries();
      ghost var k := 0;
      var curr := head;
      while curr != null
        invariant k <= |nodes| && curr == if k < |nodes| then nodes[k] else null
        invariant forall e <- s[..k] :: e.active ==> e.cipher.bits <= max
        invariant max == 0 || exists e <- s[..k] :: e.active && e.cipher.bits == max
        decreases |nodes| - k
      {
        Cursor(k);
        if curr.active && curr.cipher.bits > max {
          max := curr.cipher.bits;
          assert s[k] in s[..k + 1];
        }
        curr := curr.next;
        k := k + 1;
      }
      assert s[..k] == s;
    }

    /** The second loop of ssl_cipher_strength_sort. */
    method CountUses(max: nat) returns (numberUses: array<nat>)
      requires Valid() && forall e <- Entries() :: e.active ==> e.cipher.bits <= max
      ensures fresh(numberUses) && Counted(Entries(), numberUses[..], max)
    {
      hide Linked, Used, EntriesOf;
      numberUses := new nat[max + 1](_ => 0);
      ghost var s := Entries();
      ghost var k := 0;
      var curr := head;
      FirstNode();
      NoneUsed();
      assert s[..0] == [];
      while curr != null
        invariant k <= |nodes| && curr == if k < |nodes| then nodes[k] else null
        invariant Counted(s[..k], numberUses[..], max)
        decreases |nodes| - k
      {
        Cursor(k);
        assert s[k] in s;
        UsedSnoc(s[..k], s[k]);
        if curr.active {
          numberUses[curr.cipher.bits] := numberUses[curr.cipher.bits] + 1;
        }
        curr := curr.next;
        k := k + 1;
      }
      assert s[..k] == s;
    }

    /** ssl_cipher_strength_sort */
    method StrengthSort()
      requires Valid()
      modifies this, (set n | n in nodes)
      ensures Valid() && Entries() == Sorted(old(Entries()))
      ensures Among(nodes, old(nodes))
    {
      hide Linked, Filter, Descending, Ruled, Sorted, Used, Counted, EntriesOf;
      ghost var s, all := Entries(), nodes;
      var max := MaxStrengthBits();
      var numberUses := CountUses(max);
      SortEnds(s, max + 1);
      for i := max + 1 downto 0
        invariant Valid() && Among(nodes, all) && Counted(s, numberUses[..], max)
        invariant Entries() == Filter(Weaker(i), s) + Descending(s, i, max + 1)
      {
        SortPass(s, i, max, numberUses);
      }
    }

    /** One pass: the entries of one strength, if there are any, move to the tail. */
    method SortPass(ghost s: seq<Entry>, i: nat, ghost max: nat, numberUses: array<nat>)
      requires Valid() && i <= max && Counted(s, numberUses[..], max)
      requires Entries() == Filter(Weaker(i + 1), s) + Descending(s, i + 1, max + 1)
      modifies this, (set n | n in nodes)
      ensures Valid() && Entries() == Filter(Weaker(i), s) + Descending(s, i, max + 1)
      ensures Among(nodes, old(nodes))
    {
      hide Linked, Filter, Descending, Ruled, Used, EntriesOf;
      if numberUses[i] > 0 {
        SortStep(s, i, max + 1);
        ApplyRule(ByBits(i));
      } else {
        SortSkip(s, i, max + 1);
      }
    }

    /** The lookup of a cipher by its name, as far as it tells TLS 1.3 */
    method NamesTls13(value: nat, names: seq<Cipher>) returns (seen: bool)
      ensures seen <==> value != 0 && exists n <- names :: n.value == value && n.ssl == TLSV1_3
    {
      seen := false;
      if value == 0 {
        return;
      }
      for j := 0 to |names|
        invariant seen <==> exists n <- names[..j] :: n.value == value && n.ssl == TLSV1_3
      {
        assert names[..j + 1] == names[..j] + [names[j]];
        if names[j].value == value && names[j].ssl == TLSV1_3 {
          assert names[j] in names[..j + 1];
          seen := true;
        }
      }
      assert names[..|names|] == names;
    }

    /** A rule is about TLS 1.3. */
    method MentionsTls13(c: Command, names: seq<Cipher>) returns (mentioned: bool)
      ensures mentioned <==> Mentions(c, names)
    {
      mentioned := false;
      if c.Apply? {
        var named := NamesTls13(c.rule.value, names);
        mentioned := c.rule.ssl == TLSV1_3 || named;
      }
    }

    /** The loop of ssl_cipher_process_rulestr over commands already parsed. */
    method Process(cs: seq<Command>, names: seq<Cipher>) returns (tls13Seen: bool)
      requires Valid()
      modifies this, (set n | n in nodes)
      ensures Valid() && Entries() == Run(cs, old(Entries()))
      ensures Among(nodes, old(nodes))
      ensures tls13Seen <==> AnyMentions(cs, names)
    {
      hide Linked, Ruled, Sorted, Run, Mentions;
      ghost var s, all := Entries(), nodes;
      RunNothing(cs, s);
      tls13Seen := false;
      for i := 0 to |cs|
        invariant Valid() && Among(nodes, all)
        invariant Entries() == Run(cs[..i], s)
        invariant tls13Seen <==> AnyMentions(cs[..i], names)
      {
        RunPrefix(cs, i, s);
        assert cs[..i + 1] == cs[..i] + [cs[i]];
        var mentioned := MentionsTls13(cs[i], names);
        if mentioned {
          tls13Seen := true;
        }
        match cs[i]
        case Apply(r) => ApplyRule(r);
        case Strength => StrengthSort();
      }
      assert cs[..|cs|] == cs;
    }

    /** The commands of the default list, if the string starts with its name, and those behind it, if there are any */
    method Configure(first: Option<seq<Command>>, rest: Option<seq<Command>>, names: seq<Cipher>)
      returns (tls13Seen: bool)
      requires Valid()
      modifies this, (set n | n in nodes)
      ensures Valid() && Entries() == Run(Commands(rest), Run(Commands(first), old(Entries())))
      ensures tls13Seen <==> AnyMentions(Commands(if rest.Some? then rest else first), names)
    {
      hide Run, AnyMentions, Linked, EntriesOf;
      tls13Seen := false;
      NothingMentioned(names);
      RunNothing([], Entries());
      if first.Some? {
        tls13Seen := Process(first.value, names);
      }
      RunNothing([], Entries());
      if rest.Some? {
        tls13Seen := Process(rest.value, names);
      }
    }

    /** The last loop of ssl_create_cipher_list. */
    method Select(tls13: Option<seq<Cipher>>, tls13Seen: bool) returns (stack: seq<Cipher>)
      requires Valid()
      ensures stack == Stack(Entries(), tls13, tls13Seen)
    {
      hide Linked, Survivors, NoneActive, Picked;
      var front, seen := [], tls13Seen;
      if tls13.Some? {
        front, seen := tls13.value, true;
      }
      var picked, anyActive := PickCiphers(seen);
      stack := front + picked;
      if !anyActive {
        stack := [];
      }
    }

    /** The loop that picks ciphers from the list */
    method PickCiphers(seen: bool) returns (picked: seq<Cipher>, anyActive: bool)
      requires Valid()
      ensures picked == Survivors(Picked(seen), Entries()) && (anyActive <==> !NoneActive(Entries()))
    {
      hide Linked, Survivors, NoneActive, Survivor, Picked, EntriesOf;
      ghost var s := Entries();
      ghost var k := 0;
      picked, anyActive := [], false;
      NothingPicked(Picked(seen));
      var curr := head;
      FirstNode();
      assert s[..0] == [];
      while curr != null
        invariant k <= |nodes| && curr == if k < |nodes| then nodes[k] else null
        invariant picked == Survivors(Picked(seen), s[..k])
        invariant anyActive <==> !NoneActive(s[..k])
        decreases |nodes| - k
      {
        Cursor(k);
        PickNext(seen, s, k);
        if curr.active || (!seen && curr.cipher.ssl == TLSV1_3) {
          picked := picked + [curr.cipher];
        }
        anyActive := anyActive || curr.active;
        curr := curr.next;
        k := k + 1;
      }
      assert s[..k] == s;
    }

    lemma FirstNode()
      requires Valid()
      ensures head == if |nodes| > 0 then nodes[0] else null
    {}

    /** ssl_cipher_collect_ciphers */
    constructor Collect(table: seq<Option<Cipher>>, disabled: Cipher)
      ensures Valid() && fresh(set n | n in nodes)
      ensures Entries() == Available(table, disabled)
    {
      head, tail, nodes := null, null, [];
      new;
      var coList: seq<CipherOrder> := [];
      for i := |table| downto 0
        invariant head == null && tail == null && nodes == [] && fresh(set n | n in coList)
        invariant forall j, k :: 0 <= j < k < |coList| ==> coList[j] != coList[k]
        invariant forall n <- coList :: n.next == null && n.prev == null
        invariant EntriesOf(coList) == Available(table[i..], disabled)
      {
        assert table[i..][1..] == table[i + 1..];
        if table[i].Some? && Usable(table[i].value, disabled) {
          var co := new CipherOrder(table[i].value);
          coList := coList + [co];
        }
      }
      assert table[0..] == table;
      Link(coList);
    }

    /** The second half of ssl_cipher_collect_ciphers. */
    method Link(coList: seq<CipherOrder>)
      requires head == null && tail == null && nodes == []
      requires forall j, k :: 0 <= j < k < |coList| ==> coList[j] != coList[k]
      requires forall n <- coList :: n.next == null && n.prev == null
      modifies this, (set n | n in coList)`next, (set n | n in coList)`prev
      ensures Valid() && nodes == coList
    {
      if |coList| > 0 {
        coList[0].prev := null;
        if |coList| > 1 {
          coList[0].next := coList[1];
          for i := 1 to |coList| - 1
            invariant forall j, k :: 0 <= j < i && k == j + 1 ==> coList[j].next == coList[k]
            invariant forall j, k :: 0 <= j && k == j + 1 < i ==> coList[k].prev == coList[j]
            invariant coList[0].prev == null && coList[|coList| - 1].next == null
          {
            coList[i].prev := coList[i - 1];
            coList[i].next := coList[i + 1];
          }
          coList[|coList| - 1].prev := coList[|coList| - 2];
        }
        coList[|coList| - 1].next := null;
        head, tail := coList[0], coList[|coList| - 1];
      }
      nodes := coList;
    }
  }

  /** ssl_create_cipher_list. The rule string has been parsed: first holds the commands of the default list, if the
      string starts with its name, and rest those of what else is there, if anything is. */
  method CreateCipherList(table: seq<Option<Cipher>>, disabled: Cipher, aes: bool, first: Option<seq<Command>>,
                          rest: Option<seq<Command>>, tls13: Option<seq<Cipher>>)
    returns (stack: seq<Cipher>)
    ensures var known := Available(table, disabled);
            var sorted := Run(Commands(rest), Run(Commands(first), Run(Defaults(aes), known)));
            stack == Stack(sorted, tls13, AnyMentions(Commands(if rest.Some? then rest else first), CiphersOf(known)))
  {
    hide Run, AnyMentions, Linked, EntriesOf, Stack, Available, Defaults, CiphersOf;
    var list := new CipherList.Collect(table, disabled);
    var names := CiphersOf(Available(table, disabled));
    var _ := list.Process(Defaults(aes), names);
    var tls13Seen := list.Configure(first, rest, names);
    stack := list.Select(tls13, tls13Seen);
  }
}

/** The priority queue of pqueue.c: a singly linked list kept in ascending order of 64-bit priorities. */
module PriorityQueue {
  import opened Bits
  import opened Bytes

  /** The sign of memcmp over strings of one length. */
  function Memcmp(a: bytes, b: bytes): int
    requires |a| == |b|
  {
    if a == [] then 0 else if a[0] != b[0] then a[0] - b[0] else Memcmp(a[1..], b[1..])
  }

  /** Comparing big-endian octets compares the numbers. */
  lemma {:induction false} MemcmpOrder(a: bytes, b: bytes)
    requires |a| == |b|
    ensures Memcmp(a, b) < 0 <==> FromBe(a) < FromBe(b)
    ensures Memcmp(a, b) == 0 <==> FromBe(a) == FromBe(b)
    ensures Memcmp(a, b) == 0 <==> a == b
  {
    if a != [] {
      FromBeHead(a);
      FromBeHead(b);
      FromBeBound(a[1..]);
      FromBeBound(b[1..]);
      if a[0] < b[0] {
        DigitOrder(a[0], b[0], Pow256(|a| - 1));
      } else if a[0] > b[0] {
        DigitOrder(b[0], a[0], Pow256(|a| - 1));
      } else {
        MemcmpOrder(a[1..], b[1..]);
        assert a == [a[0]] + a[1..] && b == [b[0]] + b[1..];
      }
    }
  }

  lemma DigitOrder(x: int, y: int, p: int)
    requires x < y && p > 0
    ensures x * p + p <= y * p
  {
    MulMono(x + 1, y, p);
  }

  /** seq64be: eight octets for a priority */
  function PriorityOctets(p: nat): (s: bytes)
    ensures |s| == 8
  {
    [0, 0, 0, 0, 0, 0, p / 256 % 256, p % 256]
  }

  lemma PriorityOctetsValue(p: nat)
    requires p < 0x1_0000
    ensures FromBe(PriorityOctets(p)) == p
  {
    hide FromBe, ToBe;
    WideField(p, 4);
    assert PriorityOctets(p) == ToBe(p, 8);
    Pow256Values();
    FromToBe(p, 8);
  }

  // The queue as a value.

  /** Ascending, hence without duplicates. */
  ghost predicate Ascending<T>(q: seq<(nat, T)>) {
    forall i, j :: 0 <= i < j < |q| ==> q[i].0 < q[j].0
  }

  /** Some entry has this priority. */
  ghost predicate Has<T>(q: seq<(nat, T)>, p: nat) {
    exists i :: 0 <= i < |q| && q[i].0 == p
  }

  /** The number of entries with a lower priority, in an ascending queue the place for a new one. */
  function Place<T>(q: seq<(nat, T)>, p: nat): (k: nat)
    ensures k <= |q|
  {
    if q == [] || q[0].0 >= p then 0 else 1 + Place(q[1..], p)
  }

  function InsertAt<T>(s: seq<T>, k: nat, x: T): (r: seq<T>)
    requires k <= |s|
    ensures |r| == |s| + 1
    ensures forall i {:trigger r[i]} :: 0 <= i < |r| ==> r[i] == if i < k then s[i] else if i == k then x else s[i - 1]
  {
    seq(|s| + 1, i requires 0 <= i <= |s| => if i < k then s[i] else if i == k then x else s[i - 1])
  }

  lemma InsertAtMembers<T>(s: seq<T>, k: nat, x: T)
    requires k <= |s|
    ensures forall n :: n in InsertAt(s, k, x) <==> n in s || n == x
  {
    InsertAtCounts(s, k, x);
    assert s == s[..k] + s[k..];
  }

  lemma InsertAtCounts<T>(s: seq<T>, k: nat, x: T)
    requires k <= |s|
    ensures InsertAt(s, k, x) == s[..k] + [x] + s[k..]
    ensures multiset(InsertAt(s, k, x)) == multiset(s) + multiset{x}
  {
    assert s == s[..k] + s[k..];
    assert InsertAt(s, k, x) == s[..k] + [x] + s[k..];
  }

  function Inserted<T>(q: seq<(nat, T)>, x: (nat, T)): seq<(nat, T)> {
    InsertAt(q, Place(q, x.0), x)
  }

  lemma {:induction false} PlaceSplits<T>(q: seq<(nat, T)>, p: nat)
    ensures forall i :: 0 <= i < Place(q, p) ==> q[i].0 < p
    ensures Place(q, p) < |q| ==> q[Place(q, p)].0 >= p
  {
    if q != [] && q[0].0 < p {
      PlaceSplits(q[1..], p);
      forall i | 0 <= i < Place(q, p)
        ensures q[i].0 < p
      {
        assert i > 0 ==> q[i] == q[1..][i - 1];
      }
    }
  }

  /** The place is determined by its neighbours. */
  lemma PlaceIs<T>(q: seq<(nat, T)>, p: nat, k: nat)
    requires k <= |q| && (forall i :: 0 <= i < k ==> q[i].0 < p) && (k < |q| ==> q[k].0 >= p)
    ensures Place(q, p) == k
  {
    PlaceSplits(q, p);
  }

  lemma NotHere<T>(q: seq<(nat, T)>, p: nat, k: nat)
    requires Ascending(q) && k <= |q|
    requires (forall i :: 0 <= i < k ==> q[i].0 < p) && (k < |q| ==> q[k].0 > p)
    ensures !Has(q, p)
  {
    assert forall i :: k < i < |q| ==> q[k].0 < q[i].0;
  }

  lemma InsertedHas<T>(q: seq<(nat, T)>, x: (nat, T), p: nat)
    ensures Has(Inserted(q, x), p) <==> Has(q, p) || p == x.0
  {
    hide InsertAt, Place;
    var k, r := Place(q, x.0), Inserted(q, x);
    assert r[k] == x;
    if Has(q, p) {
      var i :| 0 <= i < |q| && q[i].0 == p;
      assert r[if i < k then i else i + 1] == q[i];
    }
  }

  /** Inserting a new priority keeps the order and adds the entry, nothing else. */
  lemma InsertedAscending<T>(q: seq<(nat, T)>, x: (nat, T))
    requires Ascending(q) && !Has(q, x.0)
    ensures Ascending(Inserted(q, x))
    ensures multiset(Inserted(q, x)) == multiset(q) + multiset{x}
    ensures forall p :: Has(Inserted(q, x), p) <==> Has(q, p) || p == x.0
  {
    hide InsertAt, Place;
    var k, r := Place(q, x.0), Inserted(q, x);
    PlaceSplits(q, x.0);
    assert forall i :: k <= i < |q| ==> q[i].0 > x.0 by {
      assert k < |q| ==> q[k].0 != x.0;
    }
    InsertAtCounts(q, k, x);
    forall p {
      InsertedHas(q, x, p);
    }
  }

  class Item<T> {
    const priority: bytes
    const data: T
    var next: Item?<T>

    /** pitem_new */
    constructor (priority: bytes, data: T)
      ensures this.priority == priority && this.data == data && next == null
    {
      this.priority, this.data := priority, data;
      next := null;
    }
  }

  ghost function Entries<T>(nodes: seq<Item<T>>): (q: seq<(nat, T)>)
    ensures |q| == |nodes|
    ensures forall i :: 0 <= i < |q| ==> q[i] == (FromBe(nodes[i].priority), nodes[i].data)
  {
    seq(|nodes|, i requires 0 <= i < |nodes| => (FromBe(nodes[i].priority), nodes[i].data))
  }

  lemma EntriesInsertAt<T>(nodes: seq<Item<T>>, k: nat, item: Item<T>)
    requires k <= |nodes|
    ensures Entries(InsertAt(nodes, k, item)) == InsertAt(Entries(nodes), k, (FromBe(item.priority), item.data))
  {
    hide FromBe;
  }

  /** The nodes are linked in this order. */
  ghost predicate Linked<T>(items: Item?<T>, nodes: seq<Item<T>>)
    reads nodes
  {
    && items == (if nodes == [] then null else nodes[0])
    && (forall i, j :: 0 <= i && j == i + 1 && j < |nodes| ==> nodes[i].next == nodes[j])
    && (nodes != [] ==> nodes[|nodes| - 1].next == null)
  }

  /** An item put between lower and higher priorities makes the queue that inserting its entry makes. */
  lemma Fitting<T>(nodes: seq<Item<T>>, k: nat, item: Item<T>)
    requires Ascending(Entries(nodes)) && k <= |nodes| && item !in nodes
    requires forall i :: 0 <= i < k ==> Entries(nodes)[i].0 < FromBe(item.priority)
    requires k < |nodes| ==> Entries(nodes)[k].0 > FromBe(item.priority)
    ensures forall i, j :: 0 <= i < j < |nodes| ==> nodes[i] != nodes[j]
    ensures forall i :: 0 <= i < |nodes| ==> nodes[i] != item
    ensures !Has(Entries(nodes), FromBe(item.priority))
    ensures Entries(InsertAt(nodes, k, item)) == Inserted(Entries(nodes), (FromBe(item.priority), item.data))
    ensures Ascending(Entries(InsertAt(nodes, k, item)))
    ensures forall n <- InsertAt(nodes, k, item) :: n in nodes || n == item
  {
    hide FromBe, InsertAt;
    var q, p := Entries(nodes), FromBe(item.priority);
    assert forall i, j :: 0 <= i < j < |nodes| ==> q[i].0 < q[j].0;
    PlaceIs(q, p, k);
    EntriesInsertAt(nodes, k, item);
    NotHere(q, p, k);
    InsertedAscending(q, (p, item.data));
  }

  class PQueue<T> {
    var items: Item?<T>
    ghost var nodes: seq<Item<T>>

    ghost predicate Valid()
      reads this, nodes
    {
      && (forall n <- nodes :: |n.priority| == 8)
      && Ascending(Queue())
      && Linked(items, nodes)
    }

    /** The priorities and data held, in order. */
    ghost function Queue(): seq<(nat, T)>
      reads this
    {
      Entries(nodes)
    }

    lemma FirstItem()
      requires Valid()
      ensures items == if nodes == [] then null else nodes[0]
    {}

    /** pqueue_new */
    constructor ()
      ensures Valid() && nodes == []
    {
      items, nodes := null, [];
    }

    /** pqueue_insert */
    method Insert(item: Item<T>) returns (ret: Item?<T>)
      requires Valid() && |item.priority| == 8 && item !in nodes && item.next == null
      modifies this, (set n | n in nodes)`next, item`next
      ensures Valid()
      ensures ret == null <==> Has(old(Queue()), FromBe(item.priority))
      ensures ret == null ==> nodes == old(nodes)
      ensures ret != null ==> ret == item && Queue() == Inserted(old(Queue()), (FromBe(item.priority), item.data))
      ensures ret != null ==> forall n :: n in nodes <==> n in old(nodes) || n == item
    {
      hide FromBe, InsertAt, Inserted, Ascending, Entries;
      ghost var p, q := FromBe(item.priority), Queue();
      if items == null {
        Fitting([], 0, item);
        assert InsertAt([], 0, item) == [item];
        items, nodes := item, [item];
        return item;
      }
      var curr: Item?<T>, next := null, items;
      ghost var k := 0;
      while next != null
        invariant Valid() && nodes == old(nodes) && item.next == null
        invariant k <= |nodes| && next == if k < |nodes| then nodes[k] else null
        invariant curr == if k == 0 then null else nodes[k - 1]
        invariant forall i :: 0 <= i < k ==> q[i].0 < p
        decreases |nodes| - k
      {
        MemcmpOrder(next.priority, item.priority);
        var cmp := Memcmp(next.priority, item.priority);
        if cmp > 0 {
          Fitting(nodes, k, item);
          InsertAtMembers(nodes, k, item);
          Splice(curr, item, next, k);
          return item;
        } else if cmp == 0 {
          assert q[k].0 == p;
          return null;
        }
        assert k + 1 < |nodes| ==> nodes[k].next == nodes[k + 1];
        curr, next := next, next.next;
        k := k + 1;
      }
      Fitting(nodes, k, item);
      InsertAtMembers(nodes, k, item);
      Splice(curr, item, null, k);
      ret := item;
    }

    /** The relinking in pqueue_insert. */
    method Splice(curr: Item?<T>, item: Item<T>, next: Item?<T>, ghost k: nat)
      requires Linked(items, nodes) && k <= |nodes|
      requires forall i, j :: 0 <= i < j < |nodes| ==> nodes[i] != nodes[j]
      requires forall i :: 0 <= i < |nodes| ==> nodes[i] != item
      requires next == if k < |nodes| then nodes[k] else null
      requires curr == if k == 0 then null else nodes[k - 1]
      modifies this, (set n | n in nodes)`next, item`next
      ensures Linked(items, nodes) && nodes == InsertAt(old(nodes), k, item)
    {
      hide InsertAt;
      item.next := next;
      if curr == null {
        items := item;
      } else {
        curr.next := item;
      }
      nodes := InsertAt(nodes, k, item);
    }

    /** pqueue_pop */
    method Pop() returns (item: Item?<T>)
      requires Valid()
      modifies this
      ensures Valid()
      ensures old(nodes) == [] ==> item == null && nodes == []
      ensures old(nodes) != [] ==> item == old(nodes)[0] && nodes == old(nodes)[1..] && Queue() == old(Queue())[1..]
    {
      item := items;
      if items != null {
        assert |nodes| > 1 ==> nodes[0].next == nodes[1];
        items := items.next;
        nodes := nodes[1..];
      }
    }

    /** pqueue_find */
    method Find(priority: bytes) returns (item: Item?<T>)
      requires Valid() && |priority| == 8
      ensures item == null <==> !Has(Queue(), FromBe(priority))
      ensures item != null ==> item in nodes && item.priority == priority
    {
      item := items;
      ghost var k := 0;
      while item != null
        invariant k <= |nodes| && item == if k < |nodes| then nodes[k] else null
        invariant forall i :: 0 <= i < k ==> Queue()[i].0 != FromBe(priority)
        decreases |nodes| - k
      {
        MemcmpOrder(item.priority, priority);
        if Memcmp(item.priority, priority) == 0 {
          assert Queue()[k].0 == FromBe(priority);
          return;
        }
        assert k + 1 < |nodes| ==> nodes[k].next == nodes[k + 1];
        item := item.next;
        k := k + 1;
      }
    }

    /** pqueue_size */
    method Size() returns (count: nat)
      requires Valid()
      ensures count == |nodes|
    {
      var item := items;
      count := 0;
      while item != null
        invariant count <= |nodes| && item == if count < |nodes| then nodes[count] else null
        decreases |nodes| - count
      {
        assert count + 1 < |nodes| ==> nodes[count].next == nodes[count + 1];
        count := count + 1;
        item := item.next;
      }
    }

    /** pqueue_next: the item under the iterator and the iterator moved on. */
    method Next(item: Item?<T>, ghost k: nat) returns (ret: Item?<T>, after: Item?<T>)
      requires Valid() && k <= |nodes| && item == if k < |nodes| then nodes[k] else null
      ensures ret == item
      ensures after == if k + 1 < |nodes| then nodes[k + 1] else null
    {
      if item == null {
        return null, null;
      }
      assert k + 1 < |nodes| ==> nodes[k].next == nodes[k + 1];
      ret, after := item, item.next;
    }
  }
}

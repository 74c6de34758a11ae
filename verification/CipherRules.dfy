/** Sequences filtered by a predicate. */
module Filtering {

  function Filter<T>(p: T -> bool, s: seq<T>): seq<T> {
    if s == [] then [] else (if p(s[0]) then [s[0]] else []) + Filter(p, s[1..])
  }

  lemma {:induction false} FilterConcat<T>(p: T -> bool, a: seq<T>, b: seq<T>)
    ensures Filter(p, a + b) == Filter(p, a) + Filter(p, b)
  {
    if a == [] {
      assert a + b == b;
    } else {
      var h, x, y := if p(a[0]) then [a[0]] else [], Filter(p, a[1..]), Filter(p, b);
      assert (a + b)[1..] == a[1..] + b && (a + b)[0] == a[0];
      FilterConcat(p, a[1..], b);
      calc {
        Filter(p, a + b);
        h + Filter(p, a[1..] + b);
        h + (x + y);
        (h + x) + y;
        Filter(p, a) + y;
      }
    }
  }

  lemma FilterSingle<T>(p: T -> bool, x: T)
    ensures Filter(p, [x]) == if p(x) then [x] else []
  {
    assert [x][1..] == [];
    assert Filter(p, [x][1..]) == [];
  }

  lemma {:induction false} FilterMembers<T>(p: T -> bool, s: seq<T>)
    ensures forall x <- Filter(p, s) :: p(x) && x in s
    ensures forall x <- s :: p(x) ==> x in Filter(p, s)
  {
    if s != [] {
      FilterMembers(p, s[1..]);
    }
  }

  /** Filtering by predicates that agree on the elements. */
  lemma {:induction false} FilterSame<T>(p: T -> bool, q: T -> bool, s: seq<T>)
    requires forall x <- s :: p(x) == q(x)
    ensures Filter(p, s) == Filter(q, s)
  {
    if s != [] {
      FilterSame(p, q, s[1..]);
    }
  }

  lemma {:induction false} FilterAll<T>(p: T -> bool, s: seq<T>)
    requires forall x <- s :: p(x)
    ensures Filter(p, s) == s
  {
    if s != [] {
      FilterAll(p, s[1..]);
    }
  }

  lemma {:induction false} FilterNone<T>(p: T -> bool, s: seq<T>)
    requires forall x <- s :: !p(x)
    ensures Filter(p, s) == []
  {
    if s != [] {
      FilterNone(p, s[1..]);
    }
  }

  /** Filtering twice is filtering by the conjunction. */
  lemma {:induction false} FilterTwice<T>(p: T -> bool, q: T -> bool, both: T -> bool, s: seq<T>)
    requires forall x <- s :: both(x) == (p(x) && q(x))
    ensures Filter(p, Filter(q, s)) == Filter(both, s)
  {
    if s != [] {
      FilterTwice(p, q, both, s[1..]);
      FilterConcat(p, if q(s[0]) then [s[0]] else [], Filter(q, s[1..]));
    }
  }

  /** A filter and its complement split the elements. */
  lemma {:induction false} FilterSplit<T>(p: T -> bool, q: T -> bool, s: seq<T>)
    requires forall x <- s :: p(x) != q(x)
    ensures multiset(Filter(p, s)) + multiset(Filter(q, s)) == multiset(s)
  {
    if s != [] {
      FilterSplit(p, q, s[1..]);
      assert s == [s[0]] + s[1..];
    }
  }

  /** Any two elements in order are related. */
  ghost predicate Pairwise<T>(rel: (T, T) -> bool, s: seq<T>) {
    forall i, j :: 0 <= i < j < |s| ==> rel(s[i], s[j])
  }

  lemma PairwiseConcat<T>(rel: (T, T) -> bool, a: seq<T>, b: seq<T>)
    requires Pairwise(rel, a) && Pairwise(rel, b)
    requires forall x <- a, y <- b :: rel(x, y)
    ensures Pairwise(rel, a + b)
  {
    forall i, j | 0 <= i < j < |a + b|
      ensures rel((a + b)[i], (a + b)[j])
    {
      if i < |a| <= j {
        assert a[i] in a && b[j - |a|] in b;
      }
    }
  }

  lemma {:induction false} FilterPairwise<T>(rel: (T, T) -> bool, p: T -> bool, s: seq<T>)
    requires Pairwise(rel, s)
    ensures Pairwise(rel, Filter(p, s))
  {
    if s != [] {
      PairwiseTail(rel, s);
      FilterPairwise(rel, p, s[1..]);
      FilterMembers(p, s[1..]);
      PairwiseConcat(rel, if p(s[0]) then [s[0]] else [], Filter(p, s[1..]));
    }
  }

  lemma FilterStep<T>(p: T -> bool, s: seq<T>)
    requires s != []
    ensures Filter(p, s) == (if p(s[0]) then [s[0]] else []) + Filter(p, s[1..])
  {
  }

  /** A sequence in which p holds of a prefix only is cut in two by it. */
  lemma {:induction false} Cut<T>(p: T -> bool, q: T -> bool, s: seq<T>)
    requires forall i, j :: 0 <= i < j < |s| && p(s[j]) ==> p(s[i])
    requires forall x <- s :: p(x) != q(x)
    ensures s == Filter(p, s) + Filter(q, s)
  {
    hide Filter;
    if s == [] {
      FilterNothing(p);
      FilterNothing(q);
    } else {
      var t := s[1..];
      assert forall i :: 0 <= i < |t| ==> t[i] == s[i + 1];
      Cut(p, q, t);
      FilterStep(p, s);
      FilterStep(q, s);
      assert s[0] in s;
      CutFirst(s[0], t, Filter(p, t), Filter(q, t));
      if !p(s[0]) {
        FilterNone(p, t);
      }
    }
  }

  lemma FilterNothing<T>(p: T -> bool)
    ensures Filter(p, []) == []
  {}

  lemma CutFirst<T>(first: T, t: seq<T>, x: seq<T>, y: seq<T>)
    requires t == x + y
    ensures [first] + t == ([first] + x) + y
    ensures x == [] ==> [first] + t == [] + ([first] + y)
  {}

  lemma PairwiseTail<T>(rel: (T, T) -> bool, s: seq<T>)
    requires s != [] && Pairwise(rel, s)
    ensures Pairwise(rel, s[1..]) && forall y <- s[1..] :: rel(s[0], y)
  {
    var t := s[1..];
    assert forall i :: 0 <= i < |t| ==> t[i] == s[i + 1];
  }
}

/** What the cipher preference rules of ssl_ciph.c do to a list of entries. */
module CipherRules {
  import opened Bits
  import opened Filtering
  import opened Wrappers

  /** The fields of SSL_CIPHER that the rules look at. */
  datatype Cipher = Cipher(value: nat, mkey: nat, auth: nat, enc: nat, mac: nat, ssl: nat, strength: nat, bits: nat)

  datatype Entry = Entry(cipher: Cipher, active: bool)

  datatype Action = Add | Kill | Del | Ord

  /** The parameters of ssl_cipher_apply_rule; bits is negative when the algorithms select. */
  datatype Rule =
    Rule(action: Action, value: nat, mkey: nat, auth: nat, enc: nat, mac: nat, ssl: nat, strength: nat, bits: int)

  const STRONG_MASK := 0x1fc
  const TLSV1_3 := 0x8

  /** A zero mask selects everything. */
  predicate Meets(mask: nat, algorithm: nat) {
    mask == 0 || And(mask, algorithm) != 0
  }

  /** The selection criteria of ssl_cipher_apply_rule. */
  predicate Matches(r: Rule, c: Cipher) {
    && (r.value == 0 || c.value == r.value)
    && if r.bits >= 0 then c.bits == r.bits
       else
         && Meets(r.mkey, c.mkey) && Meets(r.auth, c.auth) && Meets(r.enc, c.enc)
         && Meets(r.mac, c.mac) && Meets(r.ssl, c.ssl)
         && Meets(And(r.strength, STRONG_MASK), c.strength)
  }

  /** The entries a rule takes from their place. */
  predicate Takes(r: Rule, e: Entry) {
    && Matches(r, e.cipher)
    && match r.action
       case Add => !e.active
       case Ord => e.active
       case Del => e.active
       case Kill => true
  }

  function Taken(r: Rule): Entry -> bool { e => Takes(r, e) }

  function Left(r: Rule): Entry -> bool { e => !Takes(r, e) }

  function Flagged(active: bool, s: seq<Entry>): (f: seq<Entry>)
    ensures |f| == |s|
    ensures forall i :: 0 <= i < |s| ==> f[i] == Entry(s[i].cipher, active)
  {
    seq(|s|, i requires 0 <= i < |s| => Entry(s[i].cipher, active))
  }

  lemma FlaggedSame(active: bool, s: seq<Entry>)
    requires forall e <- s :: e.active == active
    ensures Flagged(active, s) == s
  {
    forall i | 0 <= i < |s|
      ensures Flagged(active, s)[i] == s[i]
    {
      assert s[i] in s;
    }
  }

  /** The entries a rule leaves where they are, in order. */
  function Stay(r: Rule, s: seq<Entry>): seq<Entry> {
    Filter(Left(r), s)
  }

  /** The entries a rule moves, in order, with their new activity. */
  function Move(r: Rule, s: seq<Entry>): seq<Entry> {
    if r.action == Kill then [] else Flagged(r.action != Del, Filter(Taken(r), s))
  }

  /** The list after a rule: deletions go to the front, additions and reorderings to the back. */
  function Ruled(r: Rule, s: seq<Entry>): seq<Entry> {
    if r.action == Del then Move(r, s) + Stay(r, s) else Stay(r, s) + Move(r, s)
  }

  lemma StayConcat(r: Rule, a: seq<Entry>, b: seq<Entry>)
    ensures Stay(r, a + b) == Stay(r, a) + Stay(r, b)
  {
    FilterConcat(Left(r), a, b);
  }

  lemma MoveConcat(r: Rule, a: seq<Entry>, b: seq<Entry>)
    ensures Move(r, a + b) == Move(r, a) + Move(r, b)
  {
    FilterConcat(Taken(r), a, b);
  }

  lemma SingleEntry(r: Rule, e: Entry)
    ensures Stay(r, [e]) == if Takes(r, e) then [] else [e]
    ensures Move(r, [e]) == if !Takes(r, e) || r.action == Kill then [] else [Entry(e.cipher, r.action != Del)]
  {
    FilterSingle(Left(r), e);
    FilterSingle(Taken(r), e);
  }

  lemma NothingRuled(r: Rule)
    ensures Stay(r, []) == [] && Move(r, []) == []
  {
  }

  // The strength sort.

  /** The rule of ssl_cipher_strength_sort for one strength. */
  function ByBits(b: nat): Rule {
    Rule(Ord, 0, 0, 0, 0, 0, 0, 0, b)
  }

  function Idle(): Entry -> bool { (e: Entry) => !e.active }

  function Level(b: nat): Entry -> bool { (e: Entry) => e.active && e.cipher.bits == b }

  /** Some active entry has this strength. */
  ghost predicate Used(s: seq<Entry>, b: nat) {
    exists e <- s :: Level(b)(e)
  }

  lemma UsedSnoc(s: seq<Entry>, x: Entry)
    ensures forall b :: Used(s + [x], b) <==> Used(s, b) || (x.active && x.cipher.bits == b)
  {
    forall b: nat
      ensures Used(s + [x], b) <==> Used(s, b) || (x.active && x.cipher.bits == b)
    {
      assert x in s + [x];
      if Used(s, b) {
        var e :| e in s && Level(b)(e);
        assert e in s + [x];
      }
      if x.active && x.cipher.bits == b {
        assert Level(b)(x);
      }
    }
  }

  /** The entries not stronger than the bound, among which all inactive ones. */
  function Weaker(b: nat): Entry -> bool { (e: Entry) => e.active ==> e.cipher.bits < b }

  /** The active entries with strengths in [lo, hi), the strongest first, ties in list order. */
  function Descending(s: seq<Entry>, lo: nat, hi: nat): seq<Entry>
    decreases hi - lo
  {
    if lo >= hi then [] else Descending(s, lo + 1, hi) + Filter(Level(lo), s)
  }

  /** A strength above that of every active entry. */
  function Limit(s: seq<Entry>): (n: nat)
    ensures forall e <- s :: e.active ==> e.cipher.bits < n
  {
    if s == [] then 0
    else
      var m := Limit(s[1..]);
      if s[0].active && s[0].cipher.bits >= m then s[0].cipher.bits + 1 else m
  }

  /** The list after the strength sort. */
  function Sorted(s: seq<Entry>): seq<Entry> {
    Filter(Idle(), s) + Descending(s, 0, Limit(s))
  }

  lemma {:induction false} DescendingMembers(s: seq<Entry>, lo: nat, hi: nat)
    ensures forall e <- Descending(s, lo, hi) :: e.active && lo <= e.cipher.bits < hi && e in s
    decreases hi - lo
  {
    if lo < hi {
      DescendingMembers(s, lo + 1, hi);
      FilterMembers(Level(lo), s);
    }
  }

  /** One pass moves one more strength behind the stronger ones. */
  lemma SortStep(s: seq<Entry>, b: nat, hi: nat)
    requires b < hi
    ensures Ruled(ByBits(b), Filter(Weaker(b + 1), s) + Descending(s, b + 1, hi))
            == Filter(Weaker(b), s) + Descending(s, b, hi)
  {
    hide Filter, Stay, Move, Takes;
    var r, low, high := ByBits(b), Filter(Weaker(b + 1), s), Descending(s, b + 1, hi);
    DescendingMembers(s, b + 1, hi);
    StayConcat(r, low, high);
    MoveConcat(r, low, high);
    HighStays(r, b, high);
    LowSplits(s, b);
    var stay, moved := Filter(Weaker(b), s), Filter(Level(b), s);
    assert (stay + high) + (moved + []) == stay + (high + moved);
  }

  lemma HighStays(r: Rule, b: nat, high: seq<Entry>)
    requires r == ByBits(b) && forall e <- high :: e.active && e.cipher.bits > b
    ensures Stay(r, high) == high && Move(r, high) == []
  {
    hide Filter;
    FilterAll(Left(r), high);
    FilterNone(Taken(r), high);
  }

  lemma LowSplits(s: seq<Entry>, b: nat)
    ensures Stay(ByBits(b), Filter(Weaker(b + 1), s)) == Filter(Weaker(b), s)
    ensures Move(ByBits(b), Filter(Weaker(b + 1), s)) == Filter(Level(b), s)
  {
    hide Filter;
    var r := ByBits(b);
    FilterTwice(Left(r), Weaker(b + 1), Weaker(b), s);
    FilterTwice(Taken(r), Weaker(b + 1), Level(b), s);
    FilterMembers(Level(b), s);
    FlaggedSame(true, Filter(Level(b), s));
  }

  /** Nothing of this strength is active: the pass would change nothing and is left out. */
  lemma SortSkip(s: seq<Entry>, b: nat, hi: nat)
    requires b < hi && !Used(s, b)
    ensures Filter(Weaker(b), s) + Descending(s, b, hi) == Filter(Weaker(b + 1), s) + Descending(s, b + 1, hi)
  {
    hide Filter;
    assert forall e <- s :: !Level(b)(e);
    FilterNone(Level(b), s);
    FilterSame(Weaker(b), Weaker(b + 1), s);
  }

  /** Where the passes start and where they end; any bound above all strengths in use will do. */
  lemma SortEnds(s: seq<Entry>, hi: nat)
    requires forall e <- s :: e.active ==> e.cipher.bits < hi
    ensures Filter(Weaker(hi), s) + Descending(s, hi, hi) == s
    ensures Filter(Weaker(0), s) + Descending(s, 0, hi) == Sorted(s)
  {
    hide Filter;
    FilterAll(Weaker(hi), s);
    FilterSame(Weaker(0), Idle(), s);
    DescendingBound(s, 0, hi, Limit(s));
  }

  lemma {:induction false} DescendingBound(s: seq<Entry>, lo: nat, h: nat, k: nat)
    requires forall e <- s :: e.active ==> e.cipher.bits < h && e.cipher.bits < k
    ensures Descending(s, lo, h) == Descending(s, lo, k)
    decreases h + k - lo
  {
    if lo < h || lo < k {
      DescendingBound(s, lo + 1, h, k);
      if lo >= h || lo >= k {
        FilterNone(Level(lo), s);
      }
    }
  }
}

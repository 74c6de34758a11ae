/** What holds of the preference list after any run of rules. */
module CipherRuns {
  import opened CipherRules
  import opened Filtering
  import opened Wrappers

  /** One command of a rule string. */
  datatype Command = Apply(rule: Rule) | Strength

  function Step(c: Command, s: seq<Entry>): seq<Entry> {
    match c
    case Apply(r) => Ruled(r, s)
    case Strength => Sorted(s)
  }

  function Run(cs: seq<Command>, s: seq<Entry>): seq<Entry> {
    if cs == [] then s else Step(cs[|cs| - 1], Run(cs[..|cs| - 1], s))
  }

  lemma RunNothing(cs: seq<Command>, s: seq<Entry>)
    ensures Run([], s) == s && Run(cs[..0], s) == s
  {}

  lemma RunPrefix(cs: seq<Command>, k: nat, s: seq<Entry>)
    requires k < |cs|
    ensures Run(cs[..k + 1], s) == Step(cs[k], Run(cs[..k], s))
  {
    assert cs[..k + 1][..k] == cs[..k];
  }

  /** What one command does to an entry, wherever it stands. */
  function Fate(c: Command): Entry -> Option<Entry> {
    (e: Entry) =>
      if c.Strength? || !Matches(c.rule, e.cipher) then Some(e)
      else match c.rule.action
           case Add => Some(Entry(e.cipher, true))
           case Del => Some(Entry(e.cipher, false))
           case Ord => Some(e)
           case Kill => None
  }

  /** What a run does to an entry. */
  function FateOf(cs: seq<Command>): Entry -> Option<Entry> {
    (e: Entry) =>
      if cs == [] then Some(e)
      else match FateOf(cs[..|cs| - 1])(e)
           case Some(f) => Fate(cs[|cs| - 1])(f)
           case None => None
  }

  /** The entries that survive, each in its old place. */
  function Survivors<T>(fate: Entry -> Option<T>, s: seq<Entry>): seq<T> {
    if s == [] then [] else Survivor(fate(s[0])) + Survivors(fate, s[1..])
  }

  function Survivor<T>(e: Option<T>): seq<T> {
    match e case Some(f) => [f] case None => []
  }

  lemma {:induction false} SurvivorsConcat<T>(fate: Entry -> Option<T>, a: seq<Entry>, b: seq<Entry>)
    ensures Survivors(fate, a + b) == Survivors(fate, a) + Survivors(fate, b)
  {
    if a == [] {
      assert a + b == b;
    } else {
      assert (a + b)[1..] == a[1..] + b;
      SurvivorsConcat(fate, a[1..], b);
    }
  }

  lemma SurvivorsSingle<T>(fate: Entry -> Option<T>, x: Entry)
    ensures Survivors(fate, [x]) == Survivor(fate(x))
  {
    assert [x][1..] == [];
    assert Survivors(fate, [x][1..]) == [];
  }

  lemma TakeOut<T>(x: T, s: seq<T>) returns (l: seq<T>, r: seq<T>)
    requires x in multiset(s)
    ensures s == l + [x] + r && multiset(s) == multiset(l + r) + multiset{x}
  {
    var k :| 0 <= k < |s| && s[k] == x;
    l, r := s[..k], s[k + 1..];
    assert s == l + [x] + r;
  }

  /** The order in which the entries stand does not matter for what survives. */
  lemma {:induction false} SurvivorsPermuted<T>(fate: Entry -> Option<T>, a: seq<Entry>, b: seq<Entry>)
    requires multiset(a) == multiset(b)
    ensures multiset(Survivors(fate, a)) == multiset(Survivors(fate, b))
  {
    hide Survivors, Survivor;
    if a == [] {
      assert |multiset(b)| == 0;
    } else {
      var x, rest := a[0], a[1..];
      assert a == [x] + rest;
      assert multiset(a) == multiset(rest) + multiset{x};
      var l, r := TakeOut(x, b);
      assert multiset(rest) == multiset(a) - multiset{x} == multiset(b) - multiset{x} == multiset(l + r);
      SurvivorsPermuted(fate, rest, l + r);
      SurvivorsConcat(fate, [x], rest);
      SurvivorsConcat(fate, l, r);
      SurvivorsConcat(fate, l + [x], r);
      SurvivorsConcat(fate, l, [x]);
    }
  }

  /** Surviving twice is surviving both. */
  lemma {:induction false} SurvivorsTwice<T>(f: Entry -> Option<Entry>, g: Entry -> Option<T>, both: Entry -> Option<T>,
                                             s: seq<Entry>)
    requires forall e <- s :: both(e) == match f(e) case Some(x) => g(x) case None => None
    ensures Survivors(g, Survivors(f, s)) == Survivors(both, s)
  {
    if s != [] {
      SurvivorsConcat(g, Survivor(f(s[0])), Survivors(f, s[1..]));
      SurvivorsTwice(f, g, both, s[1..]);
      if f(s[0]).Some? {
        SurvivorsSingle(g, f(s[0]).value);
      }
    }
  }

  lemma {:induction false} SurvivorsSame<T>(f: Entry -> Option<T>, g: Entry -> Option<T>, s: seq<Entry>)
    requires forall e <- s :: f(e) == g(e)
    ensures Survivors(f, s) == Survivors(g, s)
  {
    if s != [] {
      SurvivorsSame(f, g, s[1..]);
    }
  }

  lemma {:induction false} SurvivorsMember<T>(fate: Entry -> Option<T>, s: seq<Entry>, e: Entry)
    requires e in s && fate(e).Some?
    ensures fate(e).value in Survivors(fate, s)
  {
    if e != s[0] {
      SurvivorsMember(fate, s[1..], e);
    }
  }

  /** Only a kill can remove a cipher. */
  lemma {:induction false} NoKill(cs: seq<Command>, e: Entry)
    requires forall c <- cs :: c.Apply? ==> c.rule.action != Kill
    ensures FateOf(cs)(e).Some? && FateOf(cs)(e).value.cipher == e.cipher
  {
    hide Matches;
    if cs != [] {
      NoKill(cs[..|cs| - 1], e);
      assert cs[|cs| - 1] in cs;
    }
  }

  lemma {:induction false} SurvivorsAll(fate: Entry -> Option<Entry>, s: seq<Entry>)
    requires forall e <- s :: fate(e) == Some(e)
    ensures Survivors(fate, s) == s
  {
    if s != [] {
      SurvivorsAll(fate, s[1..]);
    }
  }

  lemma {:induction false} RuledSurvivors(r: Rule, s: seq<Entry>)
    ensures multiset(Ruled(r, s)) == multiset(Survivors(Fate(Apply(r)), s))
  {
    hide Matches, Filter;
    if s == [] {
      NothingRuled(r);
    } else {
      hide Survivors;
      var x, rest := s[0], s[1..];
      assert s == [x] + rest;
      RuledSurvivors(r, rest);
      StayConcat(r, [x], rest);
      MoveConcat(r, [x], rest);
      SingleEntry(r, x);
      SurvivorsConcat(Fate(Apply(r)), [x], rest);
      SurvivorsSingle(Fate(Apply(r)), x);
      hide Stay, Move;
      assert multiset(Ruled(r, s)) == multiset(Stay(r, [x]) + Move(r, [x])) + multiset(Ruled(r, rest));
      assert multiset(Stay(r, [x]) + Move(r, [x])) == multiset(Survivor(Fate(Apply(r))(x)));
    }
  }

  lemma {:induction false} DescendingCount(s: seq<Entry>, lo: nat, hi: nat)
    requires lo <= hi
    ensures multiset(Filter(Weaker(lo), s)) + multiset(Descending(s, lo, hi)) == multiset(Filter(Weaker(hi), s))
    decreases hi - lo
  {
    if lo < hi {
      DescendingCount(s, lo + 1, hi);
      var t := Filter(Weaker(lo + 1), s);
      FilterMembers(Weaker(lo + 1), s);
      FilterTwice(Weaker(lo), Weaker(lo + 1), Weaker(lo), s);
      FilterTwice(Level(lo), Weaker(lo + 1), Level(lo), s);
      FilterSplit(Weaker(lo), Level(lo), t);
    }
  }

  /** The strength sort loses and invents nothing. */
  lemma SortedPermutes(s: seq<Entry>)
    ensures multiset(Sorted(s)) == multiset(s)
  {
    SortEnds(s, Limit(s));
    DescendingCount(s, 0, Limit(s));
    hide Filter, Descending;
    FilterAll(Weaker(Limit(s)), s);
  }

  /** After any run the list holds exactly the entries no rule killed, each as the rules matching it left it. */
  lemma {:induction false} RunKeeps(cs: seq<Command>, s: seq<Entry>)
    ensures multiset(Run(cs, s)) == multiset(Survivors(FateOf(cs), s))
  {
    hide Survivors, Ruled, Sorted;
    if cs == [] {
      SurvivorsAll(FateOf(cs), s);
    } else {
      var c, before := cs[|cs| - 1], cs[..|cs| - 1];
      RunKeeps(before, s);
      SurvivorsPermuted(Fate(c), Run(before, s), Survivors(FateOf(before), s));
      SurvivorsTwice(FateOf(before), Fate(c), FateOf(cs), s);
      if c.Apply? {
        RuledSurvivors(c.rule, Run(before, s));
      } else {
        SortedPermutes(Run(before, s));
        SurvivorsAll(Fate(c), Run(before, s));
      }
    }
  }

  // Order.

  /** Inactive before active. */
  function IdleBefore(): (Entry, Entry) -> bool { (d: Entry, e: Entry) => d.active ==> e.active }

  /** No run can put an active cipher before an inactive one. */
  lemma {:induction false} RunIdleFirst(cs: seq<Command>, s: seq<Entry>)
    requires Pairwise(IdleBefore(), s)
    ensures Pairwise(IdleBefore(), Run(cs, s))
  {
    hide Pairwise, Ruled, Sorted;
    if cs != [] {
      RunIdleFirst(cs[..|cs| - 1], s);
      StepIdleFirst(cs[|cs| - 1], Run(cs[..|cs| - 1], s));
    }
  }

  lemma MovedIdleFirst(r: Rule, s: seq<Entry>)
    ensures Pairwise(IdleBefore(), Move(r, s))
  {
    hide Filter, Matches;
  }

  lemma StrongerIsIdleFirst(s: seq<Entry>)
    requires Pairwise(Stronger(), s)
    ensures Pairwise(IdleBefore(), s)
  {}

  lemma StepIdleFirst(c: Command, s: seq<Entry>)
    requires Pairwise(IdleBefore(), s)
    ensures Pairwise(IdleBefore(), Step(c, s))
  {
    hide Filter, Matches, Descending, Pairwise;
    match c
    case Apply(r) =>
      MovedIdleFirst(r, s);
      FilterPairwise(IdleBefore(), Left(r), s);
      FilterMembers(Left(r), s);
      if r.action == Del {
        PairwiseConcat(IdleBefore(), Move(r, s), Stay(r, s));
      } else {
        PairwiseConcat(IdleBefore(), Stay(r, s), Move(r, s));
      }
    case Strength =>
      SortedOrders(s);
      StrongerIsIdleFirst(Sorted(s));
  }

  // The strength sort.

  /** The order the strength sort is for: inactive entries, then active ones by descending strength. */
  function Stronger(): (Entry, Entry) -> bool {
    (d: Entry, e: Entry) => d.active ==> e.active && d.cipher.bits >= e.cipher.bits
  }

  /** The entries of each class, the inactive ones or the active ones of one strength, stand in the same order. */
  ghost predicate SameClasses(s: seq<Entry>, t: seq<Entry>) {
    && Filter(Idle(), s) == Filter(Idle(), t)
    && forall b :: Filter(Level(b), s) == Filter(Level(b), t)
  }

  lemma {:induction false} DescendingOrdered(s: seq<Entry>, lo: nat, hi: nat)
    ensures Pairwise(Stronger(), Descending(s, lo, hi))
    decreases hi - lo
  {
    hide Filter;
    if lo < hi {
      var a, b := Descending(s, lo + 1, hi), Filter(Level(lo), s);
      DescendingOrdered(s, lo + 1, hi);
      DescendingMembers(s, lo + 1, hi);
      FilterMembers(Level(lo), s);
      assert forall i :: 0 <= i < |b| ==> b[i] in b;
      PairwiseConcat(Stronger(), a, b);
    }
  }

  lemma {:induction false} DescendingClasses(s: seq<Entry>, lo: nat, hi: nat, b: nat)
    ensures Filter(Idle(), Descending(s, lo, hi)) == []
    ensures Filter(Level(b), Descending(s, lo, hi)) == if lo <= b < hi then Filter(Level(b), s) else []
    decreases hi - lo
  {
    if lo < hi {
      var t := Filter(Level(lo), s);
      DescendingClasses(s, lo + 1, hi, b);
      FilterMembers(Level(lo), s);
      FilterConcat(Idle(), Descending(s, lo + 1, hi), t);
      FilterConcat(Level(b), Descending(s, lo + 1, hi), t);
      FilterNone(Idle(), t);
      if b == lo {
        FilterAll(Level(b), t);
      } else {
        FilterNone(Level(b), t);
      }
    }
  }

  /** The sort orders the list and keeps ties, inactive entries among them, in their old order. */
  lemma SortedOrders(s: seq<Entry>)
    ensures Pairwise(Stronger(), Sorted(s)) && SameClasses(Sorted(s), s)
  {
    hide Filter, Descending;
    var a, d := Filter(Idle(), s), Descending(s, 0, Limit(s));
    FilterMembers(Idle(), s);
    DescendingMembers(s, 0, Limit(s));
    DescendingOrdered(s, 0, Limit(s));
    assert forall i :: 0 <= i < |a| ==> a[i] in a;
    PairwiseConcat(Stronger(), a, d);
    FilterConcat(Idle(), a, d);
    FilterAll(Idle(), a);
    DescendingClasses(s, 0, Limit(s), 0);
    forall b: nat
      ensures Filter(Level(b), Sorted(s)) == Filter(Level(b), s)
    {
      FilterConcat(Level(b), a, d);
      FilterNone(Level(b), a);
      DescendingClasses(s, 0, Limit(s), b);
      if b >= Limit(s) {
        FilterNone(Level(b), s);
      }
    }
  }

  /** The only list in that order with the same classes is the sorted one. */
  lemma SortedIsTheOnly(s: seq<Entry>, t: seq<Entry>)
    requires Pairwise(Stronger(), t) && SameClasses(t, s)
    ensures t == Sorted(s)
  {
    hide Filter, Descending;
    var hi := Limit(s) + Limit(t);
    OrderedSplit(t, 0, hi);
    FilterAll(AtLeast(0), t);
    DescendingBound(s, 0, Limit(s), hi);
    DescendingSame(s, t, 0, hi);
  }

  lemma {:induction false} DescendingSame(s: seq<Entry>, t: seq<Entry>, lo: nat, hi: nat)
    requires SameClasses(t, s)
    ensures Descending(s, lo, hi) == Descending(t, lo, hi)
    decreases hi - lo
  {
    if lo < hi {
      DescendingSame(s, t, lo + 1, hi);
    }
  }

  function AtLeast(b: nat): Entry -> bool { (e: Entry) => e.active ==> e.cipher.bits >= b }

  lemma {:induction false} OrderedSplit(t: seq<Entry>, lo: nat, hi: nat)
    requires Pairwise(Stronger(), t) && lo <= hi
    requires forall e <- t :: e.active ==> e.cipher.bits < hi
    ensures Filter(AtLeast(lo), t) == Filter(Idle(), t) + Descending(t, lo, hi)
    decreases hi - lo
  {
    hide Filter, Pairwise, Stronger;
    if lo == hi {
      FilterSame(AtLeast(lo), Idle(), t);
    } else {
      OrderedSplit(t, lo + 1, hi);
      CutLevel(t, lo);
      Regroup(Filter(Idle(), t), Descending(t, lo + 1, hi), Filter(Level(lo), t));
    }
  }

  lemma Regroup(a: seq<Entry>, b: seq<Entry>, c: seq<Entry>)
    ensures (a + b) + c == a + (b + c)
  {}

  /** The weakest of the entries from a strength on come last. */
  lemma CutLevel(t: seq<Entry>, lo: nat)
    requires Pairwise(Stronger(), t)
    ensures Filter(AtLeast(lo), t) == Filter(AtLeast(lo + 1), t) + Filter(Level(lo), t)
  {
    hide Filter;
    var u := Filter(AtLeast(lo), t);
    FilterPairwise(Stronger(), AtLeast(lo), t);
    FilterMembers(AtLeast(lo), t);
    Cut(AtLeast(lo + 1), Level(lo), u);
    FilterTwice(AtLeast(lo + 1), AtLeast(lo), AtLeast(lo + 1), t);
    FilterTwice(Level(lo), AtLeast(lo), Level(lo), t);
  }

  // The stack handed to the application.

  /** The cipher of an entry the stack takes from the list. */
  function Picked(tls13Seen: bool): Entry -> Option<Cipher> {
    (e: Entry) => if e.active || (!tls13Seen && e.cipher.ssl == TLSV1_3) then Some(e.cipher) else None
  }

  lemma PickedCipher(tls13Seen: bool, e: Entry)
    ensures Survivor(Picked(tls13Seen)(e)) ==
            if e.active || (!tls13Seen && e.cipher.ssl == TLSV1_3) then [e.cipher] else []
  {}

  predicate NoneActive(s: seq<Entry>) {
    forall e <- s :: !e.active
  }

  lemma NoneActiveSnoc(s: seq<Entry>, x: Entry)
    ensures NoneActive(s + [x]) <==> NoneActive(s) && !x.active
  {
    assert forall e :: e in s + [x] <==> e in s || e == x;
  }

  /** A rule for TLS 1.3 (8), or for a cipher of TLS 1.3 by its name; names are the ciphers that have one. */
  ghost predicate Mentions(c: Command, names: seq<Cipher>) {
    c.Apply? && (c.rule.ssl == 8 || (c.rule.value != 0 && exists n <- names :: n.value == c.rule.value && n.ssl == 8))
  }

  /** Whether one run of ssl_cipher_process_rulestr sees TLS 1.3. */
  ghost predicate AnyMentions(cs: seq<Command>, names: seq<Cipher>) {
    exists c <- cs :: Mentions(c, names)
  }

  lemma NothingPicked(fate: Entry -> Option<Cipher>)
    ensures Survivors(fate, []) == [] && NoneActive([])
  {}

  /** One more entry of the list */
  lemma PickNext(seen: bool, s: seq<Entry>, k: nat)
    requires k < |s|
    ensures Survivors(Picked(seen), s[..k + 1]) ==
            Survivors(Picked(seen), s[..k])
            + if s[k].active || (!seen && s[k].cipher.ssl == TLSV1_3) then [s[k].cipher] else []
    ensures NoneActive(s[..k + 1]) <==> NoneActive(s[..k]) && !s[k].active
  {
    hide Survivors, Survivor, Picked, NoneActive;
    assert s[..k + 1] == s[..k] + [s[k]];
    SurvivorsConcat(Picked(seen), s[..k], [s[k]]);
    SurvivorsSingle(Picked(seen), s[k]);
    NoneActiveSnoc(s[..k], s[k]);
    PickedCipher(seen, s[k]);
  }

  lemma NothingMentioned(names: seq<Cipher>)
    ensures !AnyMentions([], names)
  {}

  function CiphersOf(s: seq<Entry>): (r: seq<Cipher>)
    ensures |r| == |s| && forall i :: 0 <= i < |s| ==> r[i] == s[i].cipher
  {
    seq(|s|, i requires 0 <= i < |s| => s[i].cipher)
  }

  function Commands(cs: Option<seq<Command>>): seq<Command> { if cs.Some? then cs.value else [] }

  /** The stack: the TLS 1.3 ciphers configured apart, then those of the list; nothing if no cipher is active. */
  function Stack(s: seq<Entry>, tls13: Option<seq<Cipher>>, tls13Seen: bool): seq<Cipher> {
    if NoneActive(s) then []
    else match tls13
         case Some(front) => front + Survivors(Picked(true), s)
         case None => Survivors(Picked(tls13Seen), s)
  }

  /** The cipher of an entry that a run would leave in the stack. */
  function PickedAfter(cs: seq<Command>, tls13Seen: bool): Entry -> Option<Cipher> {
    (e: Entry) => match FateOf(cs)(e) case Some(f) => Picked(tls13Seen)(f) case None => None
  }

  /** Which ciphers end up in the stack depends, cipher by cipher, on the rules alone. */
  lemma StackExact(cs: seq<Command>, s: seq<Entry>, t: seq<Entry>, tls13Seen: bool)
    requires multiset(t) == multiset(s)
    ensures multiset(Survivors(Picked(tls13Seen), Run(cs, t))) == multiset(Survivors(PickedAfter(cs, tls13Seen), s))
  {
    hide Run, Survivors, FateOf, Picked;
    RunKeeps(cs, t);
    SurvivorsPermuted(Picked(tls13Seen), Run(cs, t), Survivors(FateOf(cs), t));
    SurvivorsTwice(FateOf(cs), Picked(tls13Seen), PickedAfter(cs, tls13Seen), t);
    SurvivorsPermuted(PickedAfter(cs, tls13Seen), t, s);
  }
}

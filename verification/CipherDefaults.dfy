/** The order ssl_create_cipher_list gives the ciphers before any rule string is looked at. */
module CipherDefaults {
  import opened Bits
  import opened CipherRules
  import opened CipherRuns
  import opened Filtering
  import opened Wrappers

  const KRSA := 0x1
  const KECDHE := 0x80
  const ANULL := 0x4
  const RC4 := 0x4
  const AES := 0xc60
  const CHACHA20POLY1305 := 0x1000
  const MD5 := 0x1

  function ByMkey(a: Action, mask: nat): Rule { Rule(a, 0, mask, 0, 0, 0, 0, 0, -1) }
  function ByAuth(a: Action, mask: nat): Rule { Rule(a, 0, 0, mask, 0, 0, 0, 0, -1) }
  function ByEnc(a: Action, mask: nat): Rule { Rule(a, 0, 0, 0, mask, 0, 0, 0, -1) }
  function ByMac(a: Action, mask: nat): Rule { Rule(a, 0, 0, 0, 0, mask, 0, 0, -1) }
  function BySsl(a: Action, mask: nat): Rule { Rule(a, 0, 0, 0, 0, 0, mask, 0, -1) }

  /** None of the algorithms of a cipher is disabled; the masks are given as those of a cipher. */
  predicate Usable(c: Cipher, disabled: Cipher) {
    && And(c.mkey, disabled.mkey) == 0 && And(c.auth, disabled.auth) == 0 && And(c.enc, disabled.enc) == 0
    && And(c.mac, disabled.mac) == 0 && And(c.ssl, disabled.ssl) == 0
  }

  /** The usable ciphers of the table, from its end to its start, none active. */
  function Available(table: seq<Option<Cipher>>, disabled: Cipher): seq<Entry> {
    if table == [] then []
    else Available(table[1..], disabled)
         + if table[0].Some? && Usable(table[0].value, disabled) then [Entry(table[0].value, false)] else []
  }

  /** The preferred symmetric cipher comes first: AES where the processor supports it. */
  function FirstEnc(aes: bool): nat { if aes then AES else CHACHA20POLY1305 }
  function SecondEnc(aes: bool): nat { if aes then CHACHA20POLY1305 else AES }

  /** The calls ssl_create_cipher_list makes, in order. */
  function Defaults(aes: bool): seq<Command> {
    [ Apply(ByMkey(Add, KECDHE)), Apply(ByMkey(Del, KECDHE)),
      Apply(ByEnc(Add, FirstEnc(aes))), Apply(ByEnc(Add, SecondEnc(aes))), Apply(ByEnc(Add, 0)),
      Apply(ByMac(Ord, MD5)), Apply(ByAuth(Ord, ANULL)), Apply(ByMkey(Ord, KRSA)),
      Apply(ByEnc(Ord, RC4)), Strength, Apply(ByEnc(Del, 0)),
      Apply(BySsl(Add, TLSV1_3)), Apply(BySsl(Del, TLSV1_3)) ]
  }

  /** 0 before 1. */
  function Later(b: bool): int { if b then 1 else 0 }

  /** What makes one cipher preferable to another, the most important first. */
  function Preference(aes: bool, c: Cipher): (p: seq<int>)
    ensures |p| == 8
  {
    var bits: int := c.bits;
    [ Later(!Meets(TLSV1_3, c.ssl)), -bits, Later(Meets(RC4, c.enc)), Later(Meets(KRSA, c.mkey)),
      Later(Meets(ANULL, c.auth)), Later(Meets(MD5, c.mac)),
      if Meets(FirstEnc(aes), c.enc) then 0 else if Meets(SecondEnc(aes), c.enc) then 1 else 2,
      Later(!Meets(KECDHE, c.mkey)) ]
  }

  /** Lexicographic order. */
  predicate Less(a: seq<int>, b: seq<int>) {
    a != [] && b != [] && (a[0] < b[0] || (a[0] == b[0] && Less(a[1..], b[1..])))
  }

  /** Entries in the order of a key of their ciphers. */
  function Keyed(key: Cipher -> seq<int>): (Entry, Entry) -> bool {
    (d: Entry, e: Entry) => Less(key(d.cipher), key(e.cipher))
  }

  lemma LessCons(x: int, a: seq<int>, y: int, b: seq<int>)
    ensures Less([x] + a, [y] + b) <==> x < y || (x == y && Less(a, b))
  {
    assert ([x] + a)[1..] == a && ([y] + b)[1..] == b;
  }

  // Each step refines the order by one more important criterion.

  /** The key with a more important criterion before it. */
  ghost predicate Refines(fine: Cipher -> seq<int>, b: Cipher -> int, key: Cipher -> seq<int>) {
    forall c :: fine(c) == [b(c)] + key(c)
  }

  lemma RefineClass(key: Cipher -> seq<int>, b: Cipher -> int, fine: Cipher -> seq<int>, s: seq<Entry>, v: int)
    requires Pairwise(Keyed(key), s) && Refines(fine, b, key)
    requires forall e <- s :: b(e.cipher) == v
    ensures Pairwise(Keyed(fine), s)
  {
    forall i, j | 0 <= i < j < |s|
      ensures Keyed(fine)(s[i], s[j])
    {
      assert Keyed(key)(s[i], s[j]);
      assert s[i] in s && s[j] in s;
      LessCons(v, key(s[i].cipher), v, key(s[j].cipher));
    }
  }

  lemma RefineConcat(key: Cipher -> seq<int>, b: Cipher -> int, fine: Cipher -> seq<int>, s: seq<Entry>, t: seq<Entry>)
    requires Pairwise(Keyed(fine), s) && Pairwise(Keyed(fine), t) && Refines(fine, b, key)
    requires forall d <- s, e <- t :: b(d.cipher) < b(e.cipher)
    ensures Pairwise(Keyed(fine), s + t)
  {
    forall d, e | d in s && e in t
      ensures Keyed(fine)(d, e)
    {
      LessCons(b(d.cipher), key(d.cipher), b(e.cipher), key(e.cipher));
    }
    PairwiseConcat(Keyed(fine), s, t);
  }

  /** Splitting a list in two by a criterion. */
  lemma RefineSplit(key: Cipher -> seq<int>, b: Cipher -> int, fine: Cipher -> seq<int>, s: seq<Entry>,
                    p: Entry -> bool, q: Entry -> bool)
    requires Pairwise(Keyed(key), s) && Refines(fine, b, key)
    requires forall e <- s :: b(e.cipher) == Later(q(e)) && p(e) == !q(e)
    ensures Pairwise(Keyed(fine), Filter(p, s) + Filter(q, s))
  {
    hide Keyed, Filter;
    FilterPairwise(Keyed(key), p, s);
    FilterPairwise(Keyed(key), q, s);
    FilterMembers(p, s);
    FilterMembers(q, s);
    RefineClass(key, b, fine, Filter(p, s), 0);
    RefineClass(key, b, fine, Filter(q, s), 1);
    RefineConcat(key, b, fine, Filter(p, s), Filter(q, s));
  }

  lemma FlaggedKeyed(key: Cipher -> seq<int>, active: bool, s: seq<Entry>)
    requires Pairwise(Keyed(key), s)
    ensures Pairwise(Keyed(key), Flagged(active, s))
  {
    forall i, j | 0 <= i < j < |s|
      ensures Keyed(key)(Flagged(active, s)[i], Flagged(active, s)[j])
    {
      assert Keyed(key)(s[i], s[j]);
    }
  }

  ghost predicate All(active: bool, s: seq<Entry>) {
    forall e <- s :: e.active == active
  }

  lemma FlaggedAll(active: bool, s: seq<Entry>)
    ensures All(active, Flagged(active, s))
  {
  }

  /** The entries a rule selects, whatever its action. */
  function Selected(r: Rule): Entry -> bool { (e: Entry) => Matches(r, e.cipher) }
  function Others(r: Rule): Entry -> bool { (e: Entry) => !Matches(r, e.cipher) }

  /** Adding to a list of inactive entries followed by active ones. */
  lemma AddStep(r: Rule, idle: seq<Entry>, active: seq<Entry>)
    requires r.action == Add && All(false, idle) && All(true, active)
    ensures Ruled(r, idle + active) == Filter(Others(r), idle) + (active + Flagged(true, Filter(Selected(r), idle)))
  {
    hide Filter, Matches;
    StayConcat(r, idle, active);
    MoveConcat(r, idle, active);
    FilterSame(Left(r), Others(r), idle);
    FilterSame(Taken(r), Selected(r), idle);
    FilterAll(Left(r), active);
    FilterNone(Taken(r), active);
    assert Move(r, active) == [];
  }

  /** Reordering a list of active entries. */
  lemma OrdStep(r: Rule, s: seq<Entry>)
    requires r.action == Ord && All(true, s)
    ensures Ruled(r, s) == Filter(Others(r), s) + Filter(Selected(r), s) && All(true, Ruled(r, s))
  {
    hide Filter, Matches;
    FilterSame(Left(r), Others(r), s);
    FilterSame(Taken(r), Selected(r), s);
    FilterMembers(Selected(r), s);
    FilterMembers(Others(r), s);
    FlaggedSame(true, Filter(Selected(r), s));
  }

  lemma SameMatches(r: Rule, a: Action, c: Cipher)
    ensures Matches(r, c) == Matches(r.(action := a), c)
  {}

  /** Adding and then deleting the selected entries of an inactive list brings them to the front. */
  lemma FrontStep(r: Rule, s: seq<Entry>)
    requires r.action == Add && All(false, s)
    ensures var t := Ruled(r.(action := Del), Ruled(r, s));
            t == Filter(Selected(r), s) + Filter(Others(r), s) && All(false, t)
  {
    hide Filter, Matches;
    var d, rest, front := r.(action := Del), Filter(Others(r), s), Filter(Selected(r), s);
    var added := Flagged(true, front);
    AddStep(r, s, []);
    assert s + [] == s && rest + ([] + added) == rest + added;
    StayConcat(d, rest, added);
    MoveConcat(d, rest, added);
    FilterMembers(Others(r), s);
    FilterMembers(Selected(r), s);
    FilterAll(Left(d), rest);
    FilterNone(Taken(d), rest);
    forall e | e in added
      ensures Takes(d, e)
    {
      var i :| 0 <= i < |added| && added[i] == e;
      assert front[i] in front;
      SameMatches(r, Del, front[i].cipher);
    }
    FilterNone(Left(d), added);
    FilterAll(Taken(d), added);
    FlaggedSame(false, front);
    assert Flagged(false, added) == front;
    assert Move(d, rest) == [] && Stay(d, added) == [];
  }

  /** The n least important criteria and, for ties, the position in the initial list. */
  function Key(aes: bool, pos: Cipher -> int, n: nat): Cipher -> seq<int>
    requires n <= 8
  {
    (c: Cipher) => (Preference(aes, c) + [pos(c)])[8 - n..]
  }

  function Criterion(aes: bool, n: nat): Cipher -> int
    requires n < 8
  {
    (c: Cipher) => Preference(aes, c)[7 - n]
  }

  lemma KeyRefines(aes: bool, pos: Cipher -> int, n: nat)
    requires n < 8
    ensures Refines(Key(aes, pos, n + 1), Criterion(aes, n), Key(aes, pos, n))
  {
    forall c: Cipher
      ensures Key(aes, pos, n + 1)(c) == [Criterion(aes, n)(c)] + Key(aes, pos, n)(c)
    {
      var x := Preference(aes, c) + [pos(c)];
      assert x[7 - n..] == [x[7 - n]] + x[8 - n..];
    }
  }

  /** The list after the first k calls. */
  function After(aes: bool, k: nat, s: seq<Entry>): seq<Entry>
    requires k <= 13
  {
    Run(Defaults(aes)[..k], s)
  }

  lemma AfterNext(aes: bool, k: nat, s: seq<Entry>)
    requires k < 13
    ensures After(aes, k + 1, s) == Step(Defaults(aes)[k], After(aes, k, s))
  {
    RunPrefix(Defaults(aes), k, s);
  }

  lemma AfterNone(aes: bool, s: seq<Entry>)
    ensures After(aes, 0, s) == s
  {}

  /** An empty mask asks for nothing. */
  lemma MeetsNothing()
    ensures forall x :: Meets(0, x) && Meets(And(0, STRONG_MASK), x)
  {}

  lemma EcdheCriterion(aes: bool, e: Entry)
    ensures Criterion(aes, 0)(e.cipher) == Later(Others(ByMkey(Add, KECDHE))(e))
  {
    hide Meets;
    MeetsNothing();
  }

  lemma OrdCriterion(aes: bool, k: nat, e: Entry)
    requires 5 <= k < 9
    ensures Criterion(aes, k - 3)(e.cipher) == Later(Selected(Defaults(aes)[k].rule)(e))
  {
    hide Meets;
    MeetsNothing();
  }

  lemma TlsCriterion(aes: bool, e: Entry)
    ensures Criterion(aes, 7)(e.cipher) == Later(Others(BySsl(Add, TLSV1_3))(e))
  {
    hide Meets;
    MeetsNothing();
  }

  lemma EcdheStage(aes: bool, pos: Cipher -> int, s: seq<Entry>)
    requires All(false, s) && Pairwise(Keyed(Key(aes, pos, 0)), s)
    ensures All(false, After(aes, 2, s)) && Pairwise(Keyed(Key(aes, pos, 1)), After(aes, 2, s))
  {
    hide Run, Filter, Ruled, Matches, Pairwise, Keyed, Key, Meets, Criterion;
    var r := ByMkey(Add, KECDHE);
    AfterNone(aes, s);
    forall e <- s { EcdheCriterion(aes, e); }
    AfterNext(aes, 0, s);
    AfterNext(aes, 1, s);
    FrontStep(r, s);
    KeyRefines(aes, pos, 0);
    RefineSplit(Key(aes, pos, 0), Criterion(aes, 0), Key(aes, pos, 1), s, Selected(r), Others(r));
  }

  /** The entries of the three classes of symmetric ciphers. */
  function EncClass(aes: bool, v: int): Entry -> bool { (e: Entry) => Criterion(aes, 1)(e.cipher) == v }

  lemma EncSelected(aes: bool, e: Entry)
    ensures var r0, r1, r2 := ByEnc(Add, FirstEnc(aes)), ByEnc(Add, SecondEnc(aes)), ByEnc(Add, 0);
            && EncClass(aes, 0)(e) == Selected(r0)(e)
            && EncClass(aes, 1)(e) == (Selected(r1)(e) && Others(r0)(e))
            && EncClass(aes, 2)(e) == (Others(r1)(e) && Others(r0)(e))
            && Selected(r2)(e) && !Others(r2)(e)
  {
    hide Meets;
    MeetsNothing();
    var c := e.cipher;
    assert Criterion(aes, 1)(c) ==
           if Meets(FirstEnc(aes), c.enc) then 0 else if Meets(SecondEnc(aes), c.enc) then 1 else 2;
    assert Matches(ByEnc(Add, FirstEnc(aes)), c) == Meets(FirstEnc(aes), c.enc);
    assert Matches(ByEnc(Add, SecondEnc(aes)), c) == Meets(SecondEnc(aes), c.enc);
  }

  /** Adding the first class, the second and everything else. */
  lemma ThreeAdds(aes: bool, s: seq<Entry>)
    requires All(false, s)
    ensures var r0, r1, r2 := ByEnc(Add, FirstEnc(aes)), ByEnc(Add, SecondEnc(aes)), ByEnc(Add, 0);
            Ruled(r2, Ruled(r1, Ruled(r0, s))) ==
            Flagged(true, Filter(EncClass(aes, 0), s))
            + (Flagged(true, Filter(EncClass(aes, 1), s)) + Flagged(true, Filter(EncClass(aes, 2), s)))
  {
    hide Filter, Matches, Ruled, EncClass, Selected, Others;
    var r0, r1, r2 := ByEnc(Add, FirstEnc(aes)), ByEnc(Add, SecondEnc(aes)), ByEnc(Add, 0);
    forall e: Entry { EncSelected(aes, e); }
    var rest0 := Filter(Others(r0), s);
    var rest1 := Filter(Others(r1), rest0);
    var a := Flagged(true, Filter(EncClass(aes, 0), s));
    var b := Flagged(true, Filter(EncClass(aes, 1), s));
    var c := Flagged(true, Filter(EncClass(aes, 2), s));
    FilterMembers(Others(r0), s);
    FilterMembers(Others(r1), rest0);
    AddStep(r0, s, []);
    FilterSame(Selected(r0), EncClass(aes, 0), s);
    assert s + [] == s && Ruled(r0, s) == rest0 + a;
    AddStep(r1, rest0, a);
    FilterTwice(Selected(r1), Others(r0), EncClass(aes, 1), s);
    assert Ruled(r1, Ruled(r0, s)) == rest1 + (a + b);
    AddStep(r2, rest1, a + b);
    FilterTwice(Others(r1), Others(r0), EncClass(aes, 2), s);
    assert rest1 == Filter(EncClass(aes, 2), s);
    FilterAll(Selected(r2), rest1);
    FilterNone(Others(r2), rest1);
    assert [] + (a + b + c) == a + (b + c);
  }

  lemma RefineEnc(aes: bool, pos: Cipher -> int, s: seq<Entry>, v: int)
    requires Pairwise(Keyed(Key(aes, pos, 1)), s)
    ensures Pairwise(Keyed(Key(aes, pos, 2)), Flagged(true, Filter(EncClass(aes, v), s)))
    ensures forall e <- Flagged(true, Filter(EncClass(aes, v), s)) :: e.active && Criterion(aes, 1)(e.cipher) == v
  {
    hide Filter, Keyed, Key, Pairwise, Criterion;
    var f := Filter(EncClass(aes, v), s);
    FilterMembers(EncClass(aes, v), s);
    FilterPairwise(Keyed(Key(aes, pos, 1)), EncClass(aes, v), s);
    KeyRefines(aes, pos, 1);
    RefineClass(Key(aes, pos, 1), Criterion(aes, 1), Key(aes, pos, 2), f, v);
    FlaggedKeyed(Key(aes, pos, 2), true, f);
    forall e | e in Flagged(true, f)
      ensures e.active && Criterion(aes, 1)(e.cipher) == v
    {
      var i :| 0 <= i < |f| && Flagged(true, f)[i] == e;
      assert f[i] in f;
    }
  }

  lemma EncStage(aes: bool, pos: Cipher -> int, s: seq<Entry>)
    requires All(false, After(aes, 2, s)) && Pairwise(Keyed(Key(aes, pos, 1)), After(aes, 2, s))
    ensures All(true, After(aes, 5, s)) && Pairwise(Keyed(Key(aes, pos, 2)), After(aes, 5, s))
  {
    hide Run, Filter, Ruled, Matches, Pairwise, Keyed, Key, Criterion;
    AfterNext(aes, 2, s);
    AfterNext(aes, 3, s);
    AfterNext(aes, 4, s);
    var t := After(aes, 2, s);
    ThreeAdds(aes, t);
    RefineEnc(aes, pos, t, 0);
    RefineEnc(aes, pos, t, 1);
    RefineEnc(aes, pos, t, 2);
    KeyRefines(aes, pos, 1);
    var a := Flagged(true, Filter(EncClass(aes, 0), t));
    var b := Flagged(true, Filter(EncClass(aes, 1), t));
    var c := Flagged(true, Filter(EncClass(aes, 2), t));
    RefineConcat(Key(aes, pos, 1), Criterion(aes, 1), Key(aes, pos, 2), b, c);
    RefineConcat(Key(aes, pos, 1), Criterion(aes, 1), Key(aes, pos, 2), a, b + c);
  }

  /** The four reorderings, numbered from 5. */
  lemma OrdStage(aes: bool, pos: Cipher -> int, s: seq<Entry>, k: nat)
    requires 5 <= k < 9
    requires All(true, After(aes, k, s)) && Pairwise(Keyed(Key(aes, pos, k - 3)), After(aes, k, s))
    ensures All(true, After(aes, k + 1, s)) && Pairwise(Keyed(Key(aes, pos, k - 2)), After(aes, k + 1, s))
  {
    hide Run, Filter, Ruled, Matches, Pairwise, Keyed, Key, Meets, Criterion;
    var r, t := Defaults(aes)[k].rule, After(aes, k, s);
    forall e <- t { OrdCriterion(aes, k, e); }
    AfterNext(aes, k, s);
    OrdStep(r, t);
    KeyRefines(aes, pos, k - 3);
    RefineSplit(Key(aes, pos, k - 3), Criterion(aes, k - 3), Key(aes, pos, k - 2), t, Others(r), Selected(r));
  }

  lemma {:induction false} RefineDescending(aes: bool, pos: Cipher -> int, s: seq<Entry>, lo: nat, hi: nat)
    requires Pairwise(Keyed(Key(aes, pos, 6)), s)
    ensures Pairwise(Keyed(Key(aes, pos, 7)), Descending(s, lo, hi))
    decreases hi - lo
  {
    hide Filter, Keyed, Key;
    if lo < hi {
      RefineDescending(aes, pos, s, lo + 1, hi);
      DescendingMembers(s, lo + 1, hi);
      FilterPairwise(Keyed(Key(aes, pos, 6)), Level(lo), s);
      FilterMembers(Level(lo), s);
      KeyRefines(aes, pos, 6);
      var minus: int := lo;
      RefineClass(Key(aes, pos, 6), Criterion(aes, 6), Key(aes, pos, 7), Filter(Level(lo), s), -minus);
      RefineConcat(Key(aes, pos, 6), Criterion(aes, 6), Key(aes, pos, 7), Descending(s, lo + 1, hi),
                   Filter(Level(lo), s));
    }
  }

  /** Sorting a list of active entries. */
  lemma SortActive(aes: bool, pos: Cipher -> int, t: seq<Entry>)
    requires All(true, t) && Pairwise(Keyed(Key(aes, pos, 6)), t)
    ensures All(true, Sorted(t)) && Pairwise(Keyed(Key(aes, pos, 7)), Sorted(t))
  {
    hide Filter, Pairwise, Keyed, Key, Descending, Limit;
    FilterNone(Idle(), t);
    DescendingMembers(t, 0, Limit(t));
    RefineDescending(aes, pos, t, 0, Limit(t));
    assert Sorted(t) == Descending(t, 0, Limit(t));
  }

  /** Deleting everything from a list of active entries. */
  lemma DeleteAll(d: seq<Entry>)
    requires All(true, d)
    ensures Ruled(ByEnc(Del, 0), d) == Flagged(false, d)
  {
    hide Filter;
    var del := ByEnc(Del, 0);
    FilterAll(Taken(del), d);
    FilterNone(Left(del), d);
  }

  lemma SortStage(aes: bool, pos: Cipher -> int, s: seq<Entry>)
    requires All(true, After(aes, 9, s)) && Pairwise(Keyed(Key(aes, pos, 6)), After(aes, 9, s))
    ensures All(false, After(aes, 11, s)) && Pairwise(Keyed(Key(aes, pos, 7)), After(aes, 11, s))
  {
    hide Run, Filter, Ruled, Sorted, Pairwise, Keyed, Key, All, Flagged;
    AfterNext(aes, 9, s);
    AfterNext(aes, 10, s);
    var t := After(aes, 9, s);
    SortActive(aes, pos, t);
    DeleteAll(Sorted(t));
    FlaggedKeyed(Key(aes, pos, 7), false, Sorted(t));
    FlaggedAll(false, Sorted(t));
  }

  lemma TlsStage(aes: bool, pos: Cipher -> int, s: seq<Entry>)
    requires All(false, After(aes, 11, s)) && Pairwise(Keyed(Key(aes, pos, 7)), After(aes, 11, s))
    ensures All(false, After(aes, 13, s)) && Pairwise(Keyed(Key(aes, pos, 8)), After(aes, 13, s))
  {
    hide Run, Filter, Ruled, Matches, Pairwise, Keyed, Key, Meets, Criterion;
    var r, t := BySsl(Add, TLSV1_3), After(aes, 11, s);
    forall e <- t { TlsCriterion(aes, e); }
    AfterNext(aes, 11, s);
    AfterNext(aes, 12, s);
    FrontStep(r, t);
    KeyRefines(aes, pos, 7);
    RefineSplit(Key(aes, pos, 7), Criterion(aes, 7), Key(aes, pos, 8), t, Selected(r), Others(r));
  }

  /** The least key is the position alone. */
  lemma KeyedByPosition(aes: bool, pos: Cipher -> int, s: seq<Entry>)
    requires forall i, j :: 0 <= i < j < |s| ==> pos(s[i].cipher) < pos(s[j].cipher)
    ensures Pairwise(Keyed(Key(aes, pos, 0)), s)
  {
    hide Preference;
    forall i, j | 0 <= i < j < |s|
      ensures Keyed(Key(aes, pos, 0))(s[i], s[j])
    {
      var c, d := s[i].cipher, s[j].cipher;
      assert (Preference(aes, c) + [pos(c)])[8..] == [pos(c)] && (Preference(aes, d) + [pos(d)])[8..] == [pos(d)];
      assert Key(aes, pos, 0)(c) == [pos(c)] && Key(aes, pos, 0)(d) == [pos(d)];
    }
  }

  /** Calls without a kill that leave nothing active keep an inactive list, in some order. */
  lemma NothingLost(cs: seq<Command>, s: seq<Entry>)
    requires forall c <- cs :: c.Apply? ==> c.rule.action != Kill
    requires All(false, s) && All(false, Run(cs, s))
    ensures multiset(Run(cs, s)) == multiset(s)
  {
    hide Run, FateOf, Survivors;
    RunKeeps(cs, s);
    forall e | e in s
      ensures FateOf(cs)(e) == Some(e)
    {
      NoKill(cs, e);
      SurvivorsMember(FateOf(cs), s, e);
      assert FateOf(cs)(e).value in multiset(Run(cs, s));
    }
    SurvivorsAll(FateOf(cs), s);
  }

  /** By preference, and by position in the initial list where preferences are the same. */
  function Preferred(aes: bool, pos: Cipher -> int): (Entry, Entry) -> bool {
    (d: Entry, e: Entry) => 
      Less(Preference(aes, d.cipher) + [pos(d.cipher)], Preference(aes, e.cipher) + [pos(e.cipher)])
  }

  lemma KeyedByPreference(aes: bool, pos: Cipher -> int, s: seq<Entry>)
    requires Pairwise(Keyed(Key(aes, pos, 8)), s)
    ensures Pairwise(Preferred(aes, pos), s)
  {
    hide Preference, Less;
    forall i, j | 0 <= i < j < |s|
      ensures Preferred(aes, pos)(s[i], s[j])
    {
      assert Keyed(Key(aes, pos, 8))(s[i], s[j]);
    }
  }

  /** The default order is the initial one sorted, stably, by the preferences, with nothing active, lost or added. */
  lemma {:induction false} DefaultOrder(aes: bool, pos: Cipher -> int, s: seq<Entry>)
    requires All(false, s) && forall i, j :: 0 <= i < j < |s| ==> pos(s[i].cipher) < pos(s[j].cipher)
    ensures All(false, Run(Defaults(aes), s)) && multiset(Run(Defaults(aes), s)) == multiset(s)
    ensures Pairwise(Preferred(aes, pos), Run(Defaults(aes), s))
  {
    hide Run, Key, Pairwise, All, Keyed, Preferred;
    KeyedByPosition(aes, pos, s);
    EcdheStage(aes, pos, s);
    EncStage(aes, pos, s);
    OrdStage(aes, pos, s, 5);
    OrdStage(aes, pos, s, 6);
    OrdStage(aes, pos, s, 7);
    OrdStage(aes, pos, s, 8);
    SortStage(aes, pos, s);
    TlsStage(aes, pos, s);
    assert Defaults(aes)[..13] == Defaults(aes);
    NothingLost(Defaults(aes), s);
    KeyedByPreference(aes, pos, Run(Defaults(aes), s));
  }
}

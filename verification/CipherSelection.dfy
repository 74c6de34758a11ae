/** Which ciphers a rule selects, said bit by bit, and that it does nothing to the others. */
module CipherSelection {
  import opened Bits
  import opened CipherDefaults
  import opened CipherRules
  import opened CipherRuns
  import opened Filtering
  import opened Wrappers

  /** A mask without any bit lets everything pass, another one what has one of its bits. */
  ghost predicate Passes(mask: nat, x: nat) {
    (exists k: nat :: Bit(mask, k)) ==> exists k: nat :: Bit(mask, k) && Bit(x, k)
  }

  /** Of the mask of strength classes bits 2 to 8 count. */
  ghost predicate PassesStrong(mask: nat, x: nat) {
    (exists k: nat :: 2 <= k < 9 && Bit(mask, k)) ==> exists k: nat :: 2 <= k < 9 && Bit(mask, k) && Bit(x, k)
  }

  /** A cipher is selected by its value, if the rule has one, and by its strength in bits or else by the algorithms. */
  ghost predicate Selects(r: Rule, c: Cipher) {
    && (r.value != 0 ==> c.value == r.value)
    && (r.bits >= 0 ==> c.bits == r.bits)
    && (r.bits < 0 ==>
          && Passes(r.mkey, c.mkey) && Passes(r.auth, c.auth) && Passes(r.enc, c.enc) && Passes(r.mac, c.mac)
          && Passes(r.ssl, c.ssl) && PassesStrong(r.strength, c.strength))
  }

  lemma {:induction false} SomeBit(x: nat) returns (k: nat)
    requires x != 0
    ensures Bit(x, k)
  {
    if x % 2 == 1 {
      k := 0;
    } else {
      var j := SomeBit(x / 2);
      k := j + 1;
    }
  }

  lemma NoBits()
    ensures forall k: nat :: !Bit(0, k)
  {
    forall k: nat
      ensures !Bit(0, k)
    {
      BitZero(k);
    }
  }

  lemma AndBits(x: nat, y: nat)
    ensures forall k: nat :: Bit(And(x, y), k) == (Bit(x, k) && Bit(y, k))
  {
    forall k: nat
      ensures Bit(And(x, y), k) == (Bit(x, k) && Bit(y, k))
    {
      BitAnd(x, y, k);
    }
  }

  lemma MeetsExact(mask: nat, x: nat)
    ensures Meets(mask, x) <==> Passes(mask, x)
  {
    hide And, Bit;
    NoBits();
    AndBits(mask, x);
    if mask != 0 {
      var _ := SomeBit(mask);
    }
    if And(mask, x) != 0 {
      var _ := SomeBit(And(mask, x));
    }
  }

  /** The mask is 0x1fc. */
  lemma StrongBits()
    ensures forall k: nat :: Bit(STRONG_MASK, k) <==> 2 <= k < 9
  {
    forall k: nat
      ensures Bit(STRONG_MASK, k) <==> 2 <= k < 9
    {
      SevenOnes();
      BitShl(127, 2, k);
      if k >= 2 {
        BitOnes(7, k - 2);
      }
    }
  }

  lemma SevenOnes()
    ensures Pow2(7) - 1 == 127 && STRONG_MASK == Shl(127, 2)
  {
    assert Pow2(3) == 8;
    assert Pow2(5) == 32;
  }

  lemma StrengthExact(mask: nat, x: nat)
    ensures Meets(And(mask, STRONG_MASK), x) <==> PassesStrong(mask, x)
  {
    hide And, Bit;
    AndBits(mask, STRONG_MASK);
    StrongBits();
    MeetsExact(And(mask, STRONG_MASK), x);
  }

  lemma MatchesExact(r: Rule, c: Cipher)
    ensures Matches(r, c) <==> Selects(r, c)
  {
    hide Meets, And, Passes, PassesStrong;
    MeetsExact(r.mkey, c.mkey);
    MeetsExact(r.auth, c.auth);
    MeetsExact(r.enc, c.enc);
    MeetsExact(r.mac, c.mac);
    MeetsExact(r.ssl, c.ssl);
    StrengthExact(r.strength, c.strength);
  }

  // What a rule does to the list.

  ghost function Chosen(r: Rule): Entry -> bool { (e: Entry) => Selects(r, e.cipher) }

  ghost function Rest(r: Rule): Entry -> bool { (e: Entry) => !Selects(r, e.cipher) }

  /** Entries that a rule does not select keep their activity and stand in the same order. Those it selects are gone
      after a kill and otherwise are there in the same number, all active after an addition, all inactive after a
      deletion, and as they were after a reordering. */
  lemma RuleSelects(r: Rule, s: seq<Entry>)
    ensures Filter(Rest(r), Ruled(r, s)) == Filter(Rest(r), s)
    ensures r.action == Kill ==> Filter(Chosen(r), Ruled(r, s)) == []
    ensures r.action == Add ==> forall e <- Filter(Chosen(r), Ruled(r, s)) :: e.active
    ensures r.action == Del ==> forall e <- Filter(Chosen(r), Ruled(r, s)) :: !e.active
    ensures r.action == Ord ==> multiset(Filter(Chosen(r), Ruled(r, s))) == multiset(Filter(Chosen(r), s))
    ensures r.action != Kill ==> |Filter(Chosen(r), Ruled(r, s))| == |Filter(Chosen(r), s)|
  {
    hide Filter, Matches, Selects, Flagged, Stay, Move;
    var stay, moved := Stay(r, s), Move(r, s);
    FilterConcat(Rest(r), stay, moved);
    FilterConcat(Rest(r), moved, stay);
    FilterConcat(Chosen(r), stay, moved);
    FilterConcat(Chosen(r), moved, stay);
    StayParts(r, s);
    MoveParts(r, s);
  }

  /** What stays: all that is not selected, and of what is selected that whose activity does not fit the rule. */
  lemma StayParts(r: Rule, s: seq<Entry>)
    ensures Filter(Rest(r), Stay(r, s)) == Filter(Rest(r), s)
    ensures r.action == Kill ==> Filter(Chosen(r), Stay(r, s)) == []
    ensures forall e <- Filter(Chosen(r), Stay(r, s)) ::
              (r.action == Add ==> e.active) && (r.action == Del ==> !e.active)
    ensures multiset(Filter(Chosen(r), Stay(r, s))) + multiset(Filter(Taken(r), s)) ==
            multiset(Filter(Chosen(r), s))
    ensures |Filter(Chosen(r), Stay(r, s))| + |Filter(Taken(r), s)| == |Filter(Chosen(r), s)|
  {
    hide Filter, Matches, Selects;
    forall c {
      MatchesExact(r, c);
    }
    FilterTwice(Rest(r), Left(r), Rest(r), s);
    var chosen := Filter(Chosen(r), s);
    var kept: Entry -> bool := (e: Entry) => Chosen(r)(e) && Left(r)(e);
    FilterTwice(Chosen(r), Left(r), kept, s);
    FilterTwice(Left(r), Chosen(r), kept, s);
    FilterTwice(Taken(r), Chosen(r), Taken(r), s);
    FilterSplit(Left(r), Taken(r), chosen);
    assert |multiset(Filter(Left(r), chosen)) + multiset(Filter(Taken(r), chosen))| == |multiset(chosen)|;
    FilterMembers(kept, s);
    FilterNone(kept, if r.action == Kill then s else []);
  }

  lemma MoveParts(r: Rule, s: seq<Entry>)
    ensures Filter(Rest(r), Move(r, s)) == [] && Filter(Chosen(r), Move(r, s)) == Move(r, s)
    ensures forall e <- Move(r, s) :: e.active == (r.action != Del)
    ensures r.action != Kill ==> |Move(r, s)| == |Filter(Taken(r), s)|
    ensures r.action == Kill ==> Move(r, s) == []
    ensures r.action == Ord ==> Move(r, s) == Filter(Taken(r), s)
  {
    hide Filter, Matches, Selects;
    var taken, moved := Filter(Taken(r), s), Move(r, s);
    FilterMembers(Taken(r), s);
    forall e | e in moved
      ensures Chosen(r)(e)
    {
      var i :| 0 <= i < |moved| && moved[i] == e;
      assert taken[i] in taken;
      MatchesExact(r, e.cipher);
    }
    FilterNone(Rest(r), moved);
    FilterAll(Chosen(r), moved);
    if r.action == Ord {
      FlaggedSame(true, taken);
    }
  }

  /** A rule for one cipher by its value takes that cipher and no other. */
  lemma OneCipher(r: Rule, s: seq<Entry>)
    requires r.value != 0 && r.bits < 0
    requires r.mkey == 0 && r.auth == 0 && r.enc == 0 && r.mac == 0 && r.ssl == 0 && r.strength == 0
    ensures forall c: Cipher :: Matches(r, c) <==> c.value == r.value
    ensures var others := (e: Entry) => e.cipher.value != r.value; Filter(others, Ruled(r, s)) == Filter(others, s)
    ensures r.action == Add ==> forall e <- Ruled(r, s) :: e.cipher.value == r.value ==> e.active
    ensures r.action == Del ==> forall e <- Ruled(r, s) :: e.cipher.value == r.value ==> !e.active
    ensures r.action == Kill ==> forall e <- Ruled(r, s) :: e.cipher.value != r.value
  {
    hide Filter, Ruled, Matches, Meets, Bit, Selects;
    forall c: Cipher
      ensures Selects(r, c) <==> c.value == r.value
    {
      NoBits();
      NothingAsked(r, c);
    }
    forall c: Cipher {
      MatchesExact(r, c);
    }
    var others := (e: Entry) => e.cipher.value != r.value;
    RuleSelects(r, s);
    FilterSame(Rest(r), others, s);
    FilterSame(Rest(r), others, Ruled(r, s));
    FilterMembers(Chosen(r), Ruled(r, s));
  }

  lemma NothingAsked(r: Rule, c: Cipher)
    requires r.bits < 0 && r.mkey == 0 && r.auth == 0 && r.enc == 0 && r.mac == 0 && r.ssl == 0 && r.strength == 0
    requires forall k: nat :: !Bit(0, k)
    ensures Selects(r, c) <==> (r.value != 0 ==> c.value == r.value)
  {}

  // The ciphers of the table that are used at all.

  /** None of the bits is set in both. */
  ghost predicate Disjoint(x: nat, y: nat) {
    forall k: nat :: !(Bit(x, k) && Bit(y, k))
  }

  lemma DisjointExact(x: nat, y: nat)
    ensures And(x, y) == 0 <==> Disjoint(x, y)
  {
    hide And, Bit;
    NoBits();
    AndBits(x, y);
    if And(x, y) != 0 {
      var _ := SomeBit(And(x, y));
    }
  }

  /** A cipher is usable exactly when each of its algorithms is enabled. */
  lemma UsableExact(c: Cipher, disabled: Cipher)
    ensures Usable(c, disabled) <==>
            && Disjoint(c.mkey, disabled.mkey) && Disjoint(c.auth, disabled.auth) && Disjoint(c.enc, disabled.enc)
            && Disjoint(c.mac, disabled.mac) && Disjoint(c.ssl, disabled.ssl)
  {
    hide And, Disjoint;
    DisjointExact(c.mkey, disabled.mkey);
    DisjointExact(c.auth, disabled.auth);
    DisjointExact(c.enc, disabled.enc);
    DisjointExact(c.mac, disabled.mac);
    DisjointExact(c.ssl, disabled.ssl);
  }

  /** The initial list: what is usable in the table, from its end to its start. */
  lemma {:induction false} AvailableExact(table: seq<Option<Cipher>>, disabled: Cipher)
    ensures forall e <- Available(table, disabled) ::
              !e.active && Some(e.cipher) in table && Usable(e.cipher, disabled)
    ensures forall i :: 0 <= i < |table| && table[i].Some? && Usable(table[i].value, disabled) ==>
              Entry(table[i].value, false) in Available(table, disabled)
    ensures |Available(table, disabled)| <= |table|
    ensures table != [] && table[0].Some? && Usable(table[0].value, disabled) ==>
              Available(table, disabled) == Available(table[1..], disabled) + [Entry(table[0].value, false)]
  {
    hide Usable;
    if table != [] {
      AvailableExact(table[1..], disabled);
      forall i | 0 <= i < |table| && table[i].Some? && Usable(table[i].value, disabled)
        ensures Entry(table[i].value, false) in Available(table, disabled)
      {
        assert i > 0 ==> table[i] == table[1..][i - 1];
      }
    }
  }

  // The criteria of the default order, bit by bit.

  lemma OneBit(n: nat, x: nat)
    ensures Meets(Shl(1, n), x) <==> Bit(x, n)
  {
    hide And, Shl;
    MeetsExact(Shl(1, n), x);
    forall k: nat
      ensures Bit(Shl(1, n), k) <==> k == n
    {
      BitShl(1, n, k);
      if k >= n {
        BitOnes(1, k - n);
        OneIsOnes();
      }
    }
    assert Bit(Shl(1, n), n);
  }

  lemma OneIsOnes()
    ensures Pow2(1) - 1 == 1 && Pow2(2) - 1 == 3
  {
    assert Pow2(0) == 1;
  }

  lemma AesBits(x: nat)
    ensures Meets(0xc60, x) <==> Bit(x, 5) || Bit(x, 6) || Bit(x, 10) || Bit(x, 11)
  {
    hide And, Or, Shl, Bit;
    MeetsExact(0xc60, x);
    forall k: nat
      ensures Bit(0xc60, k) <==> k == 5 || k == 6 || k == 10 || k == 11
    {
      AesParts();
      BitOr(Shl(3, 5), Shl(3, 10), k);
      BitShl(3, 5, k);
      BitShl(3, 10, k);
      OneIsOnes();
      if k >= 5 {
        BitOnes(2, k - 5);
      }
      if k >= 10 {
        BitOnes(2, k - 10);
      }
    }
    assert Bit(0xc60, 5);
  }

  lemma AesParts()
    ensures Or(Shl(3, 5), Shl(3, 10)) == 0xc60
  {
    hide Or, Shl;
    AesShifts();
    OrDouble(3, 96);
    OrDouble(6, 192);
    OrDouble(12, 384);
    OrDouble(24, 768);
    OrDouble(48, 1536);
    SmallOr();
  }

  lemma OrDouble(x: nat, y: nat)
    ensures Or(2 * x, 2 * y) == 2 * Or(x, y)
  {}

  lemma SmallOr()
    ensures Or(3, 96) == 99
  {
    assert Or(0, 24) == 24 by {
      assert Or(0, 3) == 3;
    }
  }

  lemma AesShifts()
    ensures Shl(3, 5) == 96 && Shl(3, 10) == 3072
  {
    hide Or;
    assert Shl(3, 3) == 24;
    assert Shl(3, 7) == 384;
  }

  lemma MaskShifts()
    ensures Shl(1, 0) == 1 && Shl(1, 2) == 4 && Shl(1, 3) == 8 && Shl(1, 7) == 0x80 && Shl(1, 12) == 0x1000
  {
    assert Shl(1, 5) == 0x20;
    assert Shl(1, 9) == 0x200;
  }

  /** The criteria in terms of the algorithms: TLS 1.3 (bit 3 of the protocol), strength, RC4 (bit 2 of the symmetric
      cipher), plain RSA (bit 0 of the key exchange), no authentication (bit 2), MD5 (bit 0 of the MAC), the preferred
      symmetric cipher (AES has bits 5, 6, 10 and 11, ChaCha20 bit 12) and ephemeral ECDH (bit 7). */
  lemma PreferenceExact(aes: bool, c: Cipher)
    ensures var p, isAes := Preference(aes, c), Bit(c.enc, 5) || Bit(c.enc, 6) || Bit(c.enc, 10) || Bit(c.enc, 11);
            var first, second := if aes then isAes else Bit(c.enc, 12), if aes then Bit(c.enc, 12) else isAes;
            && p[0] == (if Bit(c.ssl, 3) then 0 else 1) && p[1] + c.bits == 0
            && p[2] == (if Bit(c.enc, 2) then 1 else 0)
            && p[3] == (if Bit(c.mkey, 0) then 1 else 0) && p[4] == (if Bit(c.auth, 2) then 1 else 0)
            && p[5] == (if Bit(c.mac, 0) then 1 else 0) && p[6] == (if first then 0 else if second then 1 else 2)
            && p[7] == (if Bit(c.mkey, 7) then 0 else 1)
  {
    hide Meets, Bit, Shl;
    MaskShifts();
    OneBit(3, c.ssl);
    OneBit(2, c.enc);
    OneBit(0, c.mkey);
    OneBit(2, c.auth);
    OneBit(0, c.mac);
    OneBit(12, c.enc);
    OneBit(7, c.mkey);
    AesBits(c.enc);
  }

  // The stack.

  /** An entry of which the stack takes the cipher: an active one, and one of TLS 1.3 unless the ciphers of TLS 1.3 are
      configured apart or named in the rules. */
  function Stacked(tls13: Option<seq<Cipher>>, tls13Seen: bool): Entry -> bool {
    (e: Entry) => e.active || (tls13.None? && !tls13Seen && e.cipher.ssl == 8)
  }

  /** If any cipher is active, the stack begins with the configured ciphers of TLS 1.3, and those of the list follow in
      its order; otherwise it is empty. */
  lemma StackParts(s: seq<Entry>, tls13: Option<seq<Cipher>>, tls13Seen: bool)
    ensures (exists e <- s :: e.active) ==>
              Stack(s, tls13, tls13Seen) ==
              (if tls13.Some? then tls13.value else []) + CiphersOf(Filter(Stacked(tls13, tls13Seen), s))
    ensures !(exists e <- s :: e.active) ==> Stack(s, tls13, tls13Seen) == []
  {
    hide Survivors, Filter, CiphersOf;
    PickedAre(s, tls13, tls13Seen);
    assert [] + CiphersOf(Filter(Stacked(tls13, tls13Seen), s)) == CiphersOf(Filter(Stacked(tls13, tls13Seen), s));
  }

  lemma {:induction false} PickedAre(s: seq<Entry>, tls13: Option<seq<Cipher>>, tls13Seen: bool)
    ensures Survivors(Picked(tls13.Some? || tls13Seen), s) == CiphersOf(Filter(Stacked(tls13, tls13Seen), s))
  {
    if s != [] {
      PickedAre(s[1..], tls13, tls13Seen);
      var p := Stacked(tls13, tls13Seen);
      var h := if p(s[0]) then [s[0]] else [];
      assert CiphersOf(h + Filter(p, s[1..])) == CiphersOf(h) + CiphersOf(Filter(p, s[1..]));
    }
  }
}

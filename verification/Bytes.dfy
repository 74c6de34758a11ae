/** Octets and numbers written in octets. */
module Bytes {
  import Bits

  type byte = x: int | 0 <= x < 256

  type bytes = seq<byte>

  function Zeros(n: nat): (z: bytes)
    ensures |z| == n && forall i :: 0 <= i < n ==> z[i] == 0
  {
    seq(n, _ => 0)
  }

  /** The low n octets of v, most significant first. */
  function ToBe(v: nat, n: nat): (s: bytes)
    ensures |s| == n
  {
    if n == 0 then [] else ToBe(v / 256, n - 1) + [v % 256]
  }

  /** The low n octets of v, least significant first. */
  function ToLe(v: nat, n: nat): (s: bytes)
    ensures |s| == n
  {
    if n == 0 then [] else [v % 256] + ToLe(v / 256, n - 1)
  }

  lemma {:induction false} ToBeZero(n: nat)
    ensures ToBe(0, n) == Zeros(n)
  {
    if n != 0 { ToBeZero(n - 1); }
  }

  lemma {:induction false} ToLeZero(n: nat)
    ensures ToLe(0, n) == Zeros(n)
  {
    if n != 0 { ToLeZero(n - 1); }
  }

  lemma ToBeStep(v: nat, n: nat)
    ensures ToBe(v, n + 1) == ToBe(v / 256, n) + [v % 256]
    ensures ToLe(v, n + 1) == [v % 256] + ToLe(v / 256, n)
  {}

  /** The four octets of a 32-bit value, most significant first. */
  function Octets4(v: nat): (s: bytes)
    requires v < 0x1_0000_0000
    ensures |s| == 4
  {
    [v / 0x100_0000, v / 0x1_0000 % 256, v / 0x100 % 256, v % 256]
  }

  /** In a wider field a 32-bit value leaves the other octets zero. */
  lemma WideField(v: nat, n: nat)
    requires v < 0x1_0000_0000
    ensures ToBe(v, n + 4) == Zeros(n) + Octets4(v)
    ensures var o := Octets4(v); ToLe(v, n + 4) == [o[3], o[2], o[1], o[0]] + Zeros(n)
  {
    hide ToBe, ToLe, Zeros;
    var v1 := v / 256;
    var v2 := v1 / 256;
    var v3 := v2 / 256;
    assert v2 == v / 0x1_0000 && v3 == v / 0x100_0000 && v3 / 256 == 0;
    ToBeStep(v, n + 3);
    ToBeStep(v1, n + 2);
    ToBeStep(v2, n + 1);
    ToBeStep(v3, n);
    ToBeZero(n);
    ToLeZero(n);
    assert ToBe(v, n + 4) == Zeros(n) + [v3 % 256] + [v2 % 256] + [v1 % 256] + [v % 256];
    assert ToLe(v, n + 4) == [v % 256] + ([v1 % 256] + ([v2 % 256] + ([v3 % 256] + Zeros(n))));
  }

  function Pow256(n: nat): (p: nat)
    ensures p >= 1
  {
    if n == 0 then 1 else 256 * Pow256(n - 1)
  }

  lemma DivTwice(v: nat, p: nat)
    requires p > 0
    ensures v / 256 / p == v / (256 * p)
  {
    var q, r := v / 256, v % 256;
    var a, b := q / p, q % p;
    assert q == p * a + b && v == 256 * q + r;
    assert v == 256 * p * a + (256 * b + r) by {
      assert 256 * (p * a + b) == 256 * p * a + 256 * b;
    }
    Bits.DivMod(v, 256 * p, a, 256 * b + r);
  }

  /** The octets of a number, from its high end and from its low end */
  lemma {:induction false} OctetAt(v: nat, n: nat, k: nat)
    requires k < n
    ensures ToBe(v, n)[n - 1 - k] == v / Pow256(k) % 256
    ensures ToLe(v, n)[k] == v / Pow256(k) % 256
  {
    if k > 0 {
      OctetAt(v / 256, n - 1, k - 1);
      DivTwice(v, Pow256(k - 1));
    }
  }

  lemma Pow256Values()
    ensures Pow256(0) == 1 && Pow256(1) == 0x100 && Pow256(2) == 0x1_0000 && Pow256(3) == 0x100_0000
    ensures Pow256(4) == 0x1_0000_0000 && Pow256(7) == 0x100_0000_0000_0000
    ensures Pow256(8) == 0x1_0000_0000_0000_0000
  {
    assert Pow256(2) == 0x1_0000;
    assert Pow256(4) == 0x1_0000_0000;
    assert Pow256(6) == 0x1_0000_0000_0000;
  }

  /** The number a string of octets stands for, most significant first. */
  function FromBe(s: bytes): nat {
    if s == [] then 0 else FromBe(s[..|s| - 1]) * 256 + s[|s| - 1]
  }

  lemma {:induction false} FromBeBound(s: bytes)
    ensures FromBe(s) < Pow256(|s|)
  {
    if s != [] { FromBeBound(s[..|s| - 1]); }
  }

  lemma {:induction false} FromToBe(v: nat, n: nat)
    requires v < Pow256(n)
    ensures FromBe(ToBe(v, n)) == v
  {
    if n != 0 {
      FromToBe(v / 256, n - 1);
      assert ToBe(v, n)[..n - 1] == ToBe(v / 256, n - 1);
    }
  }

  lemma {:induction false} ToFromBe(s: bytes)
    ensures ToBe(FromBe(s), |s|) == s
  {
    if s != [] {
      var t := s[..|s| - 1];
      ToFromBe(t);
      assert FromBe(s) / 256 == FromBe(t) && FromBe(s) % 256 == s[|s| - 1];
    }
  }

  /** Each further octet multiplies by 256. */
  lemma FromBeSnoc(s: bytes, b: byte)
    ensures FromBe(s + [b]) == FromBe(s) * 256 + b
  {
    assert (s + [b])[..|s|] == s;
  }

  lemma {:induction false} FromBeConcat(s: bytes, t: bytes)
    ensures FromBe(s + t) == FromBe(s) * Pow256(|t|) + FromBe(t)
  {
    hide FromBe, Pow256;
    if t == [] {
      assert s + t == s;
      NoOctets();
    } else {
      var u, b := t[..|t| - 1], t[|t| - 1];
      FromBeConcat(s, u);
      FromBeSnoc(s + u, b);
      FromBeSnoc(u, b);
      assert t == u + [b];
      assert s + t == (s + u) + [b];
      Pow256Next(|u|);
      ShiftSum(FromBe(s), Pow256(|u|), FromBe(u), b);
    }
  }

  lemma NoOctets()
    ensures FromBe([]) == 0 && Pow256(0) == 1
  {}

  lemma Pow256Next(n: nat)
    ensures Pow256(n + 1) == 256 * Pow256(n)
  {}

  lemma ShiftSum(a: int, p: int, u: int, b: int)
    ensures (a * p + u) * 256 + b == a * (256 * p) + (u * 256 + b)
  {}

  lemma FromBeHead(s: bytes)
    requires s != []
    ensures FromBe(s) == s[0] * Pow256(|s| - 1) + FromBe(s[1..])
  {
    FromBeConcat([s[0]], s[1..]);
    assert [s[0]] + s[1..] == s;
    assert FromBe([s[0]]) == s[0] by { FromBeSnoc([], s[0]); }
  }

  /** The value of the first i + 1 octets from the value of the first i. */
  lemma FromBePrefix(s: bytes, i: nat)
    requires i < |s|
    ensures FromBe(s[..i + 1]) == FromBe(s[..i]) * 256 + s[i]
  {
    assert s[..i + 1][..i] == s[..i];
  }
}

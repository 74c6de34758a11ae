/** The cursor of bs_cbs.c. */
module ByteReader {
  import opened Bytes
  import opened Der
  import opened Wrappers

  class Cbs {
    // The bytes delimited by data and len.
    var data: bytes

    constructor Init(s: bytes)
      ensures data == s
    {
      data := s;
    }

    /** cbs_get */
    method Get(n: nat) returns (ok: bool, p: bytes)
      modifies this
      ensures ok <==> n <= |old(data)|
      ensures ok ==> p == old(data)[..n] && data == old(data)[n..]
      ensures !ok ==> data == old(data)
    {
      if |data| < n {
        return false, [];
      }
      p := data[..n];
      data := data[n..];
      ok := true;
    }

    /** cbs_get_u: a big-endian number of one to four octets. */
    method GetU(n: nat) returns (ok: bool, v: nat)
      modifies this
      ensures ok <==> 1 <= n <= 4 && n <= |old(data)|
      ensures ok ==> v == FromBe(old(data)[..n]) < Pow256(n) && data == old(data)[n..]
      ensures !ok ==> data == old(data)
    {
      v := 0;
      if n < 1 || n > 4 {
        return false, 0;
      }
      var p;
      ok, p := Get(n);
      if !ok {
        return;
      }
      for i := 0 to n
        invariant data == old(data)[n..] && v == FromBe(p[..i])
      {
        FromBeSnoc(p[..i], p[i]);
        assert p[..i + 1] == p[..i] + [p[i]];
        v := v * 256 + p[i];
      }
      assert p[..n] == p;
      FromBeBound(p);
    }

    /** CBS_get_u8 */
    method GetU8() returns (ok: bool, v: byte)
      modifies this
      ensures ok <==> old(data) != []
      ensures ok ==> v == old(data)[0] && data == old(data)[1..]
      ensures !ok ==> data == old(data)
    {
      var p;
      v := 0;
      ok, p := Get(1);
      if ok {
        v := p[0];
      }
    }

    /** cbs_get_length_prefixed; when only the contents are cut short, the prefix is consumed all the same. */
    method GetLengthPrefixed(n: nat) returns (ok: bool, out: bytes)
      modifies this
      ensures ok <==> 1 <= n <= 4 && n <= |old(data)| && n + FromBe(old(data)[..n]) <= |old(data)|
      ensures ok ==> var len := FromBe(old(data)[..n]);
                     out == old(data)[n..n + len] && data == old(data)[n + len..]
      ensures !ok ==> data == if 1 <= n <= 4 && n <= |old(data)| then old(data)[n..] else old(data)
    {
      out := [];
      var len;
      ok, len := GetU(n);
      if ok {
        ok, out := Get(len);
      }
    }

    /** cbs_get_any_asn1_element_internal */
    method GetAnyElement(strict: bool) returns (ok: bool, out: bytes, tag: byte, headerLen: nat)
      modifies this
      ensures ok <==> GetAny(old(data), strict).Some?
      ensures ok ==> Element(tag, headerLen, out, data) == GetAny(old(data), strict).value
      ensures !ok ==> data == old(data)
    {
      hide FromBe;
      out, headerLen := [], 0;
      var header := new Cbs.Init(data);
      var lengthByte, n;
      ok, tag := header.GetU8();
      if !ok {
        return;
      }
      ok, lengthByte := header.GetU8();
      if !ok {
        return;
      }
      if tag % 32 == 31 {
        return false, out, tag, headerLen;
      }
      if lengthByte < 0x80 {
        n := lengthByte + 2;
        headerLen := 2;
      } else {
        var numBytes := lengthByte - 0x80;
        if numBytes == 0x7f {
          return false, out, tag, headerLen;
        }
        if numBytes == 0 {
          if strict || !IsConstructed(tag) {
            return false, out, tag, headerLen;
          }
          headerLen := 2;
          ok, out := Get(2);
          return;
        }
        if numBytes > 4 {
          return false, out, tag, headerLen;
        }
        var len32;
        ok, len32 := header.GetU(numBytes);
        if !ok {
          return;
        }
        assert old(data)[1..][1..][..numBytes] == old(data)[2..2 + numBytes];
        if len32 < 128 || len32 < Pow256(numBytes - 1) {
          return false, out, tag, headerLen;
        }
        n := len32 + 2 + numBytes;
        headerLen := 2 + numBytes;
      }
      ok, out := Get(n);
    }

    /** cbs_get_asn1 without the header; an element with another tag is consumed before it is refused. */
    method GetAsn1Contents(tag: int) returns (ok: bool, out: bytes)
      modifies this
      ensures ok <==> GetAsn1(old(data), tag).Some?
      ensures ok ==> Read(out, data) == GetAsn1(old(data), tag).value
      ensures !ok ==> data == match GetAny(old(data), true) case Some(e) => e.rest case None => old(data)
    {
      var t, headerLen;
      ok, out, t, headerLen := GetAnyElement(true);
      if !ok {
        return;
      }
      if t != tag {
        return false, out;
      }
      out := out[headerLen..];
    }

    /** CBS_get_asn1_uint64; the overflow test precedes every shift. */
    method GetUint64() returns (ok: bool, v: nat)
      modifies this
      ensures ok <==> GetAsn1Uint(old(data)).Some?
      ensures ok ==> v < U64 && Read(v, data) == GetAsn1Uint(old(data)).value
    {
      var c;
      v := 0;
      ok, c := GetAsn1Contents(INTEGER);
      if !ok {
        return;
      }
      if |c| == 0 || c[0] >= 0x80 || (c[0] == 0 && |c| > 1 && c[1] < 0x80) {
        return false, 0;
      }
      Pow256Values();
      ghost var rest := data;
      for i := 0 to |c|
        invariant data == rest
        invariant v == FromBe(c[..i]) < U64
      {
        FromBeSnoc(c[..i], c[i]);
        assert c[..i + 1] == c[..i] + [c[i]];
        if v / 0x100_0000_0000_0000 != 0 {
          FromBeGrows(c, i + 1);
          return false, 0;
        }
        v := v * 256 + c[i];
      }
      assert c[..|c|] == c;
    }

    /** CBS_get_optional_asn1 */
    method GetOptionalAsn1(tag: int) returns (ok: bool, out: bytes, present: bool)
      modifies this
      ensures ok <==> GetOptional(old(data), tag).Some?
      ensures ok ==> Read(if present then Some(out) else None, data) == GetOptional(old(data), tag).value
    {
      if |data| >= 1 && TagOk(tag) && data[0] == tag {
        ok, out := GetAsn1Contents(tag);
        present := ok;
      } else {
        ok, out, present := true, [], false;
      }
    }

    /** CBS_get_optional_asn1_octet_string */
    method GetOptionalOctetString(tag: int) returns (ok: bool, out: bytes, present: bool)
      modifies this
      ensures ok <==> GetOptionalOctets(old(data), tag).Some?
      ensures ok ==> Read(if present then Some(out) else None, data) == GetOptionalOctets(old(data), tag).value
    {
      ok, out, present := GetOptionalAsn1(tag);
      if ok && present {
        var child := new Cbs.Init(out);
        ok, out := child.GetAsn1Contents(OCTET_STRING);
        ok := ok && child.data == [];
      }
    }

    /** CBS_get_optional_asn1_uint64 */
    method GetOptionalUint64(tag: int, default: nat) returns (ok: bool, v: nat)
      requires default < U64
      modifies this
      ensures ok <==> GetOptionalUint(old(data), tag, default).Some?
      ensures ok ==> v < U64 && Read(v, data) == GetOptionalUint(old(data), tag, default).value
    {
      var out, present;
      v := default;
      ok, out, present := GetOptionalAsn1(tag);
      if ok && present {
        var child := new Cbs.Init(out);
        ok, v := child.GetUint64();
        ok := ok && child.data == [];
      }
    }
  }

  /** Reading further octets never makes the number smaller. */
  lemma {:induction false} FromBeGrows(s: bytes, i: nat)
    requires i <= |s|
    ensures FromBe(s) >= FromBe(s[..i])
    decreases |s|
  {
    if i == |s| {
      assert s[..i] == s;
    } else {
      FromBeGrows(s[..|s| - 1], i);
      assert s[..|s| - 1][..i] == s[..i];
    }
  }
}

/** Identifier octets (section 8.1.2 of ITU-T X.690) and the `AsnTag` representation. */
module Tags {
  import opened Octets
  import opened ExpBufs

  const UNIV: int := 0
  const APPL: int := 0x40
  const CNTX: int := 0x80
  const PRIV: int := 0xC0

  const PRIM: int := 0
  const CONS: int := 0x20

  type Class = c: int | c == UNIV || c == APPL || c == CNTX || c == PRIV
  type Form = f: int | f == PRIM || f == CONS

  const EOC_TAG_ID: int := 0
  const BOOLEAN_TAG_CODE: int := 1
  const INTEGER_TAG_CODE: int := 2
  const OCTETSTRING_TAG_CODE: int := 4
  const NULLTYPE_TAG_CODE: int := 5
  const ENUM_TAG_CODE: int := 10
  const SEQ_TAG_CODE: int := 16
  const PRINTABLESTRING_TAG_CODE: int := 19

  /** Seven bits of `code`, as they go into one octet of a long identifier. */
  function Septet(code: nat, shift: nat): (s: int)
    requires shift == 0 || shift == 7 || shift == 14 || shift == 21
    ensures 0 <= s < 128
  {
    (if shift == 0 then code
     else if shift == 7 then code / 0x80
     else if shift == 14 then code / 0x4000
     else code / 0x20_0000) % 128
  }

  /** `MAKE_TAG_ID`: the identifier octets shifted to the top of 32 bits. */
  function MakeTagId(cl: Class, fm: Form, cd: nat): nat
    requires cd < 0x20_0000
  {
    (cl + fm) * 0x100_0000 +
    if cd < 31 then cd * 0x100_0000
    else if cd < 128 then 31 * 0x100_0000 + cd * 0x1_0000
    else if cd < 16384 then
      31 * 0x100_0000 + (0x80 + Septet(cd, 7)) * 0x1_0000 + Septet(cd, 0) * 0x100
    else
      31 * 0x100_0000 + (0x80 + Septet(cd, 14)) * 0x1_0000 + (0x80 + Septet(cd, 7)) * 0x100 + Septet(cd, 0)
  }

  function TagByteLen(tagCode: nat): (n: nat)
    ensures 1 <= n <= 5
  {
    if tagCode < 31 then 1
    else if tagCode < 128 then 2
    else if tagCode < 16384 then 3
    else if tagCode < 2097152 then 4
    else 5
  }

  /** The identifier octets that the macro `BEncTag<n>` writes, `n` being `TagByteLen`. */
  function TagOctets(cl: Class, fm: Form, code: nat): (s: seq<byte>)
    ensures |s| == TagByteLen(code)
  {
    if code < 31 then [cl + fm + code]
    else if code < 128 then [cl + fm + 31, code]
    else if code < 16384 then [cl + fm + 31, 0x80 + Septet(code, 7), Septet(code, 0)]
    else if code < 2097152 then
      [cl + fm + 31, 0x80 + Septet(code, 14), 0x80 + Septet(code, 7), Septet(code, 0)]
    else
      [cl + fm + 31, 0x80 + Septet(code, 21), 0x80 + Septet(code, 14), 0x80 + Septet(code, 7), Septet(code, 0)]
  }

  /** The octets in base 128, the first one counting most; all but the last one are marked with bit 8. */
  function Base128(s: seq<byte>): nat
  {
    if s == [] then 0 else 0x80 * Base128(s[..|s| - 1]) + s[|s| - 1] % 0x80
  }

  /** What the identifier octets are (section 8.1.2 of ITU-T X.690), for all classes and forms. */
  lemma TagOctetsDenote(cl: Class, fm: Form, code: nat)
    requires code < 0x1000_0000
    ensures UNIV == 0x00 && APPL == 0x40 && CNTX == 0x80 && PRIV == 0xC0 && PRIM == 0x00 && CONS == 0x20
    ensures
      var e := TagOctets(cl, fm, code);
      && e[0] == cl + fm + (if code < 31 then code else 31)
      && (code < 31 ==> |e| == 1)
      && (code >= 31 ==>
            && |e| >= 2 && Base128(e[1..]) == code && e[|e| - 1] < 0x80
            && e[1] != 0x80 && forall k :: 1 <= k < |e| - 1 ==> e[k] >= 0x80)
  {
    hide Septet, Base128;
    var e := TagOctets(cl, fm, code);
    if code >= 31 {
      SeptetsUp(code);
      var a, b, c, d := Septet(code, 21), Septet(code, 14), Septet(code, 7), Septet(code, 0);
      if code < 128 {
        Base128Of1(code);
        assert e[1..] == [code];
      } else if code < 16384 {
        Base128Of2(c, d);
        assert e[1..] == [0x80 + c, d];
      } else if code < 2097152 {
        Base128Of3(b, c, d);
        assert e[1..] == [0x80 + b, 0x80 + c, d];
      } else {
        Base128Of4(a, b, c, d);
        assert e[1..] == [0x80 + a, 0x80 + b, 0x80 + c, d];
      }
    }
  }

  lemma SeptetsUp(code: nat)
    requires code < 0x1000_0000
    ensures code == Septet(code, 21) * 0x20_0000 + Septet(code, 14) * 0x4000 + Septet(code, 7) * 0x80 + Septet(code, 0)
    ensures code < 0x20_0000 ==> Septet(code, 21) == 0
    ensures code < 0x4000 ==> Septet(code, 14) == 0
    ensures code < 0x80 ==> Septet(code, 7) == 0
    ensures code >= 0x20_0000 ==> Septet(code, 21) > 0
    ensures 0x4000 <= code < 0x20_0000 ==> Septet(code, 14) > 0
    ensures 0x80 <= code < 0x4000 ==> Septet(code, 7) > 0
  {
    var a := code / 0x80;
    var b := a / 0x80;
    assert code / 0x4000 == b && code / 0x20_0000 == b / 0x80;
  }

  lemma Base128Snoc(s: seq<byte>, octet: byte)
    ensures Base128(s + [octet]) == 0x80 * Base128(s) + octet % 0x80
  {
    assert (s + [octet])[..|s|] == s;
  }

  lemma Base128Of1(d: byte)
    requires d < 0x80
    ensures Base128([d]) == d && Base128([0x80 + d]) == d
  {
    Base128Snoc([], d);
    Base128Snoc([], 0x80 + d);
    assert [] + [d] == [d] && [] + [0x80 + d] == [0x80 + d] && Base128([]) == 0;
  }

  lemma Base128Of2(c: byte, d: byte)
    requires c < 0x80 && d < 0x80
    ensures Base128([0x80 + c, d]) == c * 0x80 + d as int && Base128([0x80 + c, 0x80 + d]) == c * 0x80 + d as int
  {
    hide Base128;
    Base128Of1(c);
    Base128Snoc([0x80 + c], d);
    Base128Snoc([0x80 + c], 0x80 + d);
    assert [0x80 + c] + [d] == [0x80 + c, d] && [0x80 + c] + [0x80 + d] == [0x80 + c, 0x80 + d];
  }

  lemma Base128Of3(b: byte, c: byte, d: byte)
    requires b < 0x80 && c < 0x80 && d < 0x80
    ensures Base128([0x80 + b, 0x80 + c, d]) == b * 0x4000 + c as int * 0x80 + d
    ensures Base128([0x80 + b, 0x80 + c, 0x80 + d]) == b * 0x4000 + c as int * 0x80 + d
  {
    hide Base128;
    Base128Of2(b, c);
    var front := [0x80 + b, 0x80 + c];
    Base128Snoc(front, d);
    Base128Snoc(front, 0x80 + d);
    assert front + [d] == [0x80 + b, 0x80 + c, d] && front + [0x80 + d] == [0x80 + b, 0x80 + c, 0x80 + d];
  }

  lemma Base128Of4(a: byte, b: byte, c: byte, d: byte)
    requires a < 0x80 && b < 0x80 && c < 0x80 && d < 0x80
    ensures Base128([0x80 + a, 0x80 + b, 0x80 + c, d]) == a * 0x20_0000 + b as int * 0x4000 + c as int * 0x80 + d
  {
    hide Base128;
    Base128Of3(a, b, c);
    var front := [0x80 + a, 0x80 + b, 0x80 + c];
    Base128Snoc(front, d);
    assert front + [d] == [0x80 + a, 0x80 + b, 0x80 + c, d];
  }

  method BEncTag1(b: BufHandle, cl: Class, fm: Form, code: nat) returns (n: nat)
    requires b.WriteValid() && code < 31
    modifies b.Repr
    ensures b.WriteValid() && fresh(b.Repr - old(b.Repr))
    ensures b.out == TagOctets(cl, fm, code) + old(b.out)
    ensures n == 1
  {
    hide BufHandle.WriteValid;
    b.PutByteRvs(cl + fm + code);
    return 1;
  }

  /** `BEncTag<n>` for the length that `TagByteLen` picks. */
  method BEncTag(b: BufHandle, cl: Class, fm: Form, code: nat) returns (n: nat)
    requires b.WriteValid()
    modifies b.Repr
    ensures b.WriteValid() && fresh(b.Repr - old(b.Repr))
    ensures b.out == TagOctets(cl, fm, code) + old(b.out)
    ensures n == TagByteLen(code)
  {
    hide BufHandle.WriteValid;
    if code < 31 {
      n := BEncTag1(b, cl, fm, code);
      return;
    }
    PutCode(b, code);
    b.PutByteRvs(cl + fm + 31);
    return TagByteLen(code);
  }

  /** The octets of a long identifier after the first, written from the last one backwards. */
  method PutCode(b: BufHandle, code: nat)
    requires b.WriteValid() && code >= 31
    modifies b.Repr
    ensures b.WriteValid() && fresh(b.Repr - old(b.Repr))
    ensures b.out == TagOctets(UNIV, PRIM, code)[1..] + old(b.out)
  {
    hide BufHandle.WriteValid;
    if code < 128 {
      b.PutByteRvs(code);
      return;
    }
    b.PutByteRvs(Septet(code, 0));
    b.PutByteRvs(0x80 + Septet(code, 7));
    if code >= 16384 {
      b.PutByteRvs(0x80 + Septet(code, 14));
    }
    if code >= 2097152 {
      b.PutByteRvs(0x80 + Septet(code, 21));
    }
  }

  /** `1 << (4 - i) * 8`: the weight of the `i`-th identifier octet. */
  function Weight(i: nat): nat
    requires 1 <= i <= 4
  {
    if i == 1 then 0x100_0000 else if i == 2 then 0x1_0000 else if i == 3 then 0x100 else 1
  }

  /** The octets after the first one of a long identifier, from the `i`-th on. */
  function DecTagTail(tagId: nat, s: seq<byte>, i: nat, n: nat): (d: Dec<nat>)
    requires 2 <= i <= 4
    ensures d.Got? ==> |d.rest| < |s| && d.n == n + |s| - |d.rest|
    decreases 4 - i
  {
    if s == [] then Fail(-26)
    else
      var tagId' := tagId + s[0] * Weight(i);
      if s[0] >= 0x80 && i < 4 then DecTagTail(tagId', s[1..], i + 1, n + 1)
      else Got(tagId', n + 1, s[1..])
  }

  function DecTag(s: seq<byte>): (d: Dec<nat>)
    ensures d.Got? ==> |d.rest| < |s| && d.n == |s| - |d.rest|
  {
    if s == [] then Fail(-26)
    else if s[0] % 32 == 31 then DecTagTail(s[0] * Weight(1), s[1..], 2, 1)
    else Got(s[0] * Weight(1), 1, s[1..])
  }

  method BDecTag(b: BufHandle, bytesDecoded: nat) returns (r: Result<nat>, n: nat)
    requires b.ReadValid() && !b.ReadError()
    modifies b.Repr
    ensures b.ReadValid() && b.Repr == old(b.Repr)
    ensures Ran(DecTag(old(b.rest)), b, bytesDecoded, r, n)
  {
    hide BufHandle.ReadValid;
    ghost var s := b.rest;
    var octet := b.GetByte();
    var tagId: nat := octet * Weight(1);
    n := bytesDecoded + 1;
    if octet % 32 == 31 {
      var i := 2;
      while true
        invariant b.ReadValid() && b.Repr == old(b.Repr) && !b.ReadError()
        invariant 2 <= i <= 4 && n >= bytesDecoded
        invariant DecTag(s) == DecTagTail(tagId, b.rest, i, n - bytesDecoded)
        decreases 4 - i
      {
        octet := b.GetByte();
        tagId := tagId + octet * Weight(i);
        n := n + 1;
        if octet < 0x80 || i == 4 {
          break;
        }
        i := i + 1;
      }
    }
    if b.ReadError() {
      return Jump(-26), n;
    }
    return Ok(tagId), n;
  }

  lemma FirstOctet(cl: Class, fm: Form, low: nat)
    requires low < 32
    ensures var o := cl + fm + low; 0 <= o < 256 && o % 32 == low && o / 64 * 64 == cl && o / 32 % 2 * 32 == fm
  {
  }

  /** Identifier octets after the first one, placed from the `i`-th on. */
  function Placed(o: seq<byte>, i: nat): nat
    requires 2 <= i && i + |o| <= 5
    decreases |o|
  {
    if o == [] then 0 else o[0] * Weight(i) + Placed(o[1..], i + 1)
  }

  /** The loop stops at the first octet below 0x80, or at the fourth of the identifier. */
  lemma {:induction false} DecTagTailReads(tagId: nat, o: seq<byte>, rest: seq<byte>, i: nat, n: nat)
    requires o != [] && 2 <= i && i + |o| <= 5
    requires forall j :: 0 <= j < |o| - 1 ==> o[j] >= 0x80
    requires o[|o| - 1] < 0x80 || i + |o| == 5
    ensures DecTagTail(tagId, o + rest, i, n) == Got(tagId + Placed(o, i), n + |o|, rest)
    decreases |o|
  {
    assert (o + rest)[0] == o[0] && (o + rest)[1..] == o[1..] + rest;
    if |o| == 1 {
      assert Placed(o[1..], i + 1) == 0;
    } else {
      DecTagTailReads(tagId + o[0] * Weight(i), o[1..], rest, i + 1, n + 1);
    }
  }

  /** `BDecTag` inverts the identifier octets of every code below 2^21. */
  lemma DecTagTagOctets(cl: Class, fm: Form, code: nat, rest: seq<byte>)
    requires code < 0x20_0000
    ensures DecTag(TagOctets(cl, fm, code) + rest) == Got(MakeTagId(cl, fm, code), TagByteLen(code), rest)
  {
    var e := TagOctets(cl, fm, code);
    assert (e + rest)[0] == e[0] && (e + rest)[1..] == e[1..] + rest;
    FirstOctet(cl, fm, if code < 31 then code else 31);
    if code < 31 {
      assert e[1..] + rest == rest;
    } else {
      LongTagOctets(cl, fm, code);
      PlacedOctets(cl, fm, code);
      hide TagOctets, DecTag, MakeTagId;
      LongTagReads(e, rest);
    }
  }

  lemma LongTagOctets(cl: Class, fm: Form, code: nat)
    requires 31 <= code < 0x20_0000
    ensures var e := TagOctets(cl, fm, code);
      && 2 <= |e| <= 4 && e[0] == cl + fm + 31
      && (forall j :: 1 <= j < |e| - 1 ==> e[j] >= 0x80)
      && e[|e| - 1] < 0x80
  {
    hide Septet;
  }

  lemma LongTagReads(e: seq<byte>, rest: seq<byte>)
    requires 2 <= |e| <= 4 && e[0] % 32 == 31
    requires forall j :: 1 <= j < |e| - 1 ==> e[j] >= 0x80
    requires e[|e| - 1] < 0x80
    ensures DecTag(e + rest) == Got(e[0] * Weight(1) + Placed(e[1..], 2), |e|, rest)
  {
    assert (e + rest)[0] == e[0] && (e + rest)[1..] == e[1..] + rest;
    DecTagTailReads(e[0] * Weight(1), e[1..], rest, 2, 1);
  }

  lemma PlacedOctets(cl: Class, fm: Form, code: nat)
    requires 31 <= code < 0x20_0000
    ensures var e := TagOctets(cl, fm, code);
      e[0] * Weight(1) + Placed(e[1..], 2) == MakeTagId(cl, fm, code)
  {
    var o := TagOctets(cl, fm, code)[1..];
    var w: int := Placed(o, 2);
    assert w == o[0] * Weight(2) + Placed(o[1..], 3);
    if |o| > 1 {
      assert Placed(o[1..], 3) == o[1] * Weight(3) + Placed(o[1..][1..], 4);
      if |o| > 2 {
        assert o[1..][1..][0] == o[2];
        assert Placed(o[1..][1..], 4) == o[2] * Weight(4) + Placed(o[1..][1..][1..], 5);
      }
    }
  }

  /** From 2^21 on, `BDecTag` stops one octet early. */
  lemma DecTagFiveOctets(cl: Class, fm: Form, code: nat, rest: seq<byte>)
    requires code >= 0x20_0000
    ensures var d := DecTag(TagOctets(cl, fm, code) + rest);
      d.Got? && d.n == 4 && d.rest == [Septet(code, 0)] + rest
  {
    var e := TagOctets(cl, fm, code);
    assert (e + rest)[0] == e[0] && (e + rest)[1..] == e[1..4] + ([e[4]] + rest);
    DecTagTailReads(e[0] * Weight(1), e[1..4], [e[4]] + rest, 2, 1);
  }

  /** The identifier octets are consumed exactly if and only if the code is below 2^21. */
  lemma TagConsumedIff(cl: Class, fm: Form, code: nat, rest: seq<byte>)
    ensures var d := DecTag(TagOctets(cl, fm, code) + rest);
      d.Got? && (d.rest == rest <==> code < 0x20_0000)
  {
    if code < 0x20_0000 {
      DecTagTagOctets(cl, fm, code, rest);
    } else {
      DecTagFiveOctets(cl, fm, code, rest);
    }
  }

  /** Reads class, form and code back from the four octets of an `AsnTag`. */
  function ParseTagId(o1: int, o2: int, o3: int, o4: int): (int, int, int)
  {
    (o1 / 64 * 64, o1 / 32 % 2 * 32,
     if o1 % 32 < 31 then o1 % 32
     else if o2 < 0x80 then o2
     else if o3 < 0x80 then (o2 - 0x80) * 128 + o3
     else (o2 - 0x80) * 16384 + (o3 - 0x80) * 128 + o4)
  }

  /** The `i`-th octet of an `AsnTag`, most significant first. */
  function Octet(cl: Class, fm: Form, code: nat, i: nat): int
    requires code < 0x20_0000 && 1 <= i <= 4
  {
    MakeTagId(cl, fm, code) / Weight(i) % 256
  }

  lemma ParseMakeTagId(cl: Class, fm: Form, code: nat)
    requires code < 0x20_0000
    ensures MakeTagId(cl, fm, code) < TWO_32
    ensures ParseTagId(Octet(cl, fm, code, 1), Octet(cl, fm, code, 2), Octet(cl, fm, code, 3),
              Octet(cl, fm, code, 4)) == (cl, fm, code)
  {
    OctetsOfTagId(cl, fm, code);
    FirstOctet(cl, fm, if code < 31 then code else 31);
    SeptetsRejoin(code);
    hide Octet, MakeTagId, Septet;
  }

  lemma OctetsOfTagId(cl: Class, fm: Form, code: nat)
    requires code < 0x20_0000
    ensures MakeTagId(cl, fm, code) < TWO_32
    ensures Octet(cl, fm, code, 1) == cl + fm + if code < 31 then code else 31
    ensures 31 <= code < 128 ==> Octet(cl, fm, code, 2) == code
    ensures 128 <= code < 16384 ==>
      Octet(cl, fm, code, 2) == 0x80 + Septet(code, 7) && Octet(cl, fm, code, 3) == Septet(code, 0)
    ensures code >= 16384 ==>
      && Octet(cl, fm, code, 2) == 0x80 + Septet(code, 14)
      && Octet(cl, fm, code, 3) == 0x80 + Septet(code, 7)
      && Octet(cl, fm, code, 4) == Septet(code, 0)
  {
    var tag := MakeTagId(cl, fm, code);
    hide Septet;
    if code < 31 {
      Digits(tag, cl + fm + code, 0, 0, 0);
    } else if code < 128 {
      Digits(tag, cl + fm + 31, code, 0, 0);
    } else if code < 16384 {
      Digits(tag, cl + fm + 31, 0x80 + Septet(code, 7), Septet(code, 0), 0);
    } else {
      Digits(tag, cl + fm + 31, 0x80 + Septet(code, 14), 0x80 + Septet(code, 7), Septet(code, 0));
    }
  }

  lemma SeptetsRejoin(code: nat)
    requires code < 0x20_0000
    ensures code == Septet(code, 14) * 16384 + Septet(code, 7) * 128 + Septet(code, 0)
  {
    assert code / 0x4000 == code / 0x80 / 0x80;
  }

  lemma Digits(tag: nat, o1: byte, o2: byte, o3: byte, o4: byte)
    requires tag == o1 * 0x100_0000 + o2 * 0x1_0000 + o3 * 0x100 + o4
    ensures tag / 0x100_0000 % 256 == o1 && tag / 0x1_0000 % 256 == o2
    ensures tag / 0x100 % 256 == o3 && tag % 256 == o4
  {
    assert tag / 0x100_0000 == o1;
    assert tag / 0x100 == o1 * 0x1_0000 + o2 * 0x100 + o3;
    assert tag / 0x1_0000 == o1 * 0x100 + o2;
  }

  /** Comparing `AsnTag`s compares class, form and code. */
  lemma MakeTagIdInjective(cl: Class, fm: Form, code: nat, cl': Class, fm': Form, code': nat)
    requires code < 0x20_0000 && code' < 0x20_0000
    ensures MakeTagId(cl, fm, code) == MakeTagId(cl', fm', code') <==> (cl, fm, code) == (cl', fm', code')
  {
    ParseMakeTagId(cl, fm, code);
    ParseMakeTagId(cl', fm', code');
  }
}

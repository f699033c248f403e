/** INTEGER contents (section 8.3 of ITU-T X.690), signed and unsigned. */
module Ints {
  import opened Octets
  import opened ExpBufs

  /** Values of `AsnInt`. */
  type AsnInt = n: int | -TWO_31 <= n < TWO_31
  /** Values of `UAsnInt`. */
  type UAsnInt = n: int | 0 <= n < TWO_32

  /** Conversion to a 32-bit signed `long`. */
  function ToLong(n: int): (r: AsnInt)
    ensures (r - n) % TWO_32 == 0
  {
    var m := n % TWO_32;
    if m < TWO_31 then m else m - TWO_32
  }

  /** The range of a two's-complement number of `len` octets. */
  ghost predicate Fits(n: int, len: nat)
    requires len >= 1
  {
    -128 * Pow256(len - 1) <= n < 128 * Pow256(len - 1)
  }

  /** The content octets that `BEncAsnIntContent` writes. */
  function EncInt(n: AsnInt): (s: seq<byte>)
    ensures 1 <= |s| <= 4
  {
    Be(n, if -0x80 <= n < 0x80 then 1
          else if -0x8000 <= n < 0x8000 then 2
          else if -0x80_0000 <= n < 0x80_0000 then 3
          else 4)
  }

  /** `n & mask` for a `mask` of eight adjacent one bits. */
  function AndMask(n: int, mask: nat): nat
    requires mask >= 255
  {
    n % TWO_32 / (mask / 255) % 256 * (mask / 255)
  }

  /** `INT_MASK`: the nine top bits but the sign. */
  const INT_MASK: int := 0x7f80_0000

  method BEncAsnIntContent(b: BufHandle, data: AsnInt) returns (n: nat)
    requires b.WriteValid()
    modifies b.Repr
    ensures b.WriteValid() && fresh(b.Repr - old(b.Repr))
    ensures b.out == EncInt(data) + old(b.out)
    ensures n == |EncInt(data)|
  {
    hide BufHandle.WriteValid;
    var len := ContentLen(data);
    PutLowOctets(b, data, len);
    return len;
  }

  /** The mask selects the nine top bits of `len` octets but the sign. */
  lemma Window(n: AsnInt, len: nat, mask: nat)
    requires 2 <= len <= 4 && Fits(n, len) && mask == 255 * 128 * Pow256(len - 2)
    ensures n < 0 ==> (AndMask(n, mask) == mask <==> Fits(n, len - 1))
    ensures n >= 0 ==> (AndMask(n, mask) == 0 <==> Fits(n, len - 1))
  {
    PowValues();
    var low := 128 * Pow256(len - 2);
    if n >= 0 {
      LowByte(n, low);
    } else {
      HighByte(n, low, if len == 4 then 2 else if len == 3 then 0x200 else 0x2_0000);
    }
  }

  lemma LowByte(n: nat, low: nat)
    requires low > 0 && n < 256 * low
    ensures n / low % 256 == n / low
    ensures n / low == 0 <==> n < low
  {
    DivBounds(n, low, 0, 256);
    if n < low {
      DivBounds(n, low, 0, 1);
    } else {
      DivBounds(n, low, 1, 256);
    }
  }

  lemma HighByte(n: int, low: nat, c: nat)
    requires low > 0 && c > 0 && c * (256 * low) == TWO_32
    requires -256 * low <= n < 0
    ensures (n + TWO_32) / low % 256 == 255 <==> n + low >= 0
  {
    var m := n + TWO_32;
    var w := m / low - 256 * (c - 1);
    assert (256 * c) * low == TWO_32;
    if n + low >= 0 {
      DivBounds(m, low, 256 * c - 1, 256 * c);
    } else {
      DivBounds(m, low, 256 * c - 256, 256 * c - 1);
    }
    DivModUnique(m / low, 256, c - 1, w);
  }

  /** Drops leading octets while nine bits at the top are alike. */
  method ContentLen(dataCpy: AsnInt) returns (len: nat)
    ensures len == |EncInt(dataCpy)|
  {
    var mask: nat := INT_MASK;
    len := 4;
    PowValues();
    if dataCpy < 0 {
      while len > 1
        invariant 1 <= len <= 4 && Fits(dataCpy, len)
        invariant len > 1 ==> mask == 255 * 128 * Pow256(len - 2)
      {
        Window(dataCpy, len, mask);
        if AndMask(dataCpy, mask) == mask {
          mask := mask / 256;
        } else {
          break;
        }
        len := len - 1;
      }
    } else {
      while len > 1
        invariant 1 <= len <= 4 && Fits(dataCpy, len)
        invariant len > 1 ==> mask == 255 * 128 * Pow256(len - 2)
      {
        Window(dataCpy, len, mask);
        if AndMask(dataCpy, mask) == 0 {
          mask := mask / 256;
        } else {
          break;
        }
        len := len - 1;
      }
    }
  }

  method PutLowOctets(b: BufHandle, data: int, len: nat)
    requires b.WriteValid()
    modifies b.Repr
    ensures b.WriteValid() && fresh(b.Repr - old(b.Repr))
    ensures b.out == Be(data, len) + old(b.out)
  {
    hide BufHandle.WriteValid, Be;
    var dataCpy := data;
    for i := 0 to len
      invariant b.WriteValid() && fresh(b.Repr - old(b.Repr))
      invariant dataCpy == data / Pow256(i)
      invariant b.out == Be(data, i) + old(b.out)
    {
      b.PutByteRvs(dataCpy % 256);
      BeCons(data, i);
      DivDiv(data, Pow256(i), 256);
      dataCpy := dataCpy / 256;
    }
  }

  /** What the decoder makes of the content octets: the sign is seeded with `0x80 << 8`. */
  function IntValue(s: seq<byte>): AsnInt
    requires s != []
  {
    ToLong(Val(s) + if s[0] >= 0x80 then 0x8000 * Pow256(|s| - 1) else 0)
  }

  lemma ToLongCongruent(a: int, b: int, t: int)
    requires a == b + t * TWO_32
    ensures ToLong(a) == ToLong(b)
  {
    assert a % TWO_32 == b % TWO_32;
  }

  lemma FirstIntValue(s: seq<byte>)
    requires s != []
    ensures Val(s[..1]) == s[0]
    ensures IntValue(s[..1]) == if s[0] >= 0x80 then 0x8000 + s[0] as int else s[0]
  {
    ValSnoc([], s[0]);
    assert [] + [s[0]] == s[..1];
  }

  /** Shifting in one more octet of a 32-bit `long` loses nothing of the value. */
  lemma NextIntValue(s: seq<byte>, octet: byte)
    requires s != []
    ensures IntValue(s + [octet]) == ToLong(IntValue(s) * 256 + octet)
  {
    ValSnoc(s, octet);
    var seed := if s[0] >= 0x80 then 0x8000 * Pow256(|s| - 1) else 0;
    var raw := Val(s) + seed;
    var t := (IntValue(s) - raw) / TWO_32;
    assert IntValue(s) == raw + t * TWO_32;
    ToLongCongruent(IntValue(s) * 256 + octet, raw * 256 + octet, t * 256);
  }

  /** One octet is read even when `len` is zero. */
  function DecInt(s: seq<byte>, len: nat): (d: Dec<AsnInt>)
  {
    var m := if len == 0 then 1 else len;
    if len > 4 then Fail(-7)
    else if |s| < m then Fail(-8)
    else Got(IntValue(s[..m]), len, s[m..])
  }

  method BDecAsnIntContent(b: BufHandle, len: nat, bytesDecoded: nat) returns (r: Result<AsnInt>, n: nat)
    requires b.ReadValid() && !b.ReadError()
    modifies b.Repr
    ensures b.ReadValid() && b.Repr == old(b.Repr)
    ensures Ran(DecInt(old(b.rest), len), b, bytesDecoded, r, n)
  {
    hide BufHandle.ReadValid, IntValue, ToLong;
    n := bytesDecoded;
    if len > 4 {
      return Jump(-7), n;
    }
    ghost var s := b.rest;
    var octet: int := b.GetByte();
    var retVal: AsnInt := if octet >= 0x80 then 0x8000 + octet else octet;
    if s != [] {
      FirstIntValue(s);
    }
    var i := 1;
    while i < len
      invariant b.ReadValid() && b.Repr == old(b.Repr)
      invariant 1 <= i && if len == 0 then i == 1 else i <= len
      invariant b.ReadError() <==> |s| < i
      invariant i <= |s| ==> b.rest == s[i..] && retVal == IntValue(s[..i])
    {
      octet := b.GetByte();
      if i < |s| {
        NextIntValue(s[..i], octet);
        assert s[..i] + [octet] == s[..i + 1];
      }
      retVal := ToLong(retVal * 256 + octet);
      i := i + 1;
    }
    if b.ReadError() {
      return Jump(-8), n;
    }
    n := n + len;
    return Ok(retVal), n;
  }

  /** The number that content octets denote (section 8.3.3 of ITU-T X.690). */
  ghost function TwosComplement(s: seq<byte>): int
    requires s != []
  {
    Val(s) - if s[0] >= 0x80 then Pow256(|s|) else 0
  }

  lemma {:induction false} ValBound(s: seq<byte>)
    ensures Val(s) < Pow256(|s|)
    ensures s != [] ==> s[0] * Pow256(|s| - 1) <= Val(s) < (s[0] + 1) * Pow256(|s| - 1)
  {
    if |s| == 1 {
      assert Val(s[..0]) == 0;
    } else if s != [] {
      ValBound(s[..|s| - 1]);
      var p := Pow256(|s| - 2);
      var lead: int := s[0];
      assert s[..|s| - 1][0] == s[0];
      assert (lead * p) * 256 == lead * (256 * p);
      assert ((lead + 1) * p) * 256 == (lead + 1) * (256 * p);
      MulMonotone(lead + 1, 256, 256 * p);
    }
  }

  lemma TwosComplementFits(s: seq<byte>)
    requires s != []
    ensures Fits(TwosComplement(s), |s|)
  {
    ValBound(s);
    var p := Pow256(|s| - 1);
    if s[0] >= 0x80 {
      MulMonotone(128, s[0], p);
    } else {
      MulMonotone(s[0] + 1, 128, p);
    }
  }

  /** The encoder writes the shortest two's-complement form of every 32-bit integer. */
  lemma EncIntShortest(n: AsnInt)
    ensures TwosComplement(EncInt(n)) == n
    ensures forall s: seq<byte> :: s != [] && TwosComplement(s) == n ==> |s| >= |EncInt(n)|
  {
    EncIntDenotes(n);
    forall s: seq<byte> | s != [] && TwosComplement(s) == n
      ensures |s| >= |EncInt(n)|
    {
      TwosComplementFits(s);
      PowValues();
    }
  }

  lemma EncIntDenotes(n: AsnInt)
    ensures TwosComplement(EncInt(n)) == n
    ensures EncInt(n)[0] >= 0x80 <==> n < 0
    ensures Val(EncInt(n)) == if n < 0 then n + Pow256(|EncInt(n)|) else n
  {
    var k := |EncInt(n)|;
    assert Fits(n, k) by { PowValues(); }
    ValBe(n, k);
    BeCons(n, k - 1);
    SignInLeadingOctet(n, Pow256(k - 1));
  }

  lemma SignInLeadingOctet(n: int, p: nat)
    requires p > 0 && -128 * p <= n < 128 * p
    ensures n / p % 256 >= 0x80 <==> n < 0
    ensures n % (256 * p) == if n < 0 then n + 256 * p else n
  {
    var q := n / p;
    assert n == q * p + n % p;
    if q < -128 {
      MulMonotone(q, -129, p);
    } else if q >= 128 {
      MulMonotone(128, q, p);
    }
    if n < 0 {
      if q >= 0 { MulMonotone(0, q, p); }
      DivModUnique(n, 256 * p, -1, n + 256 * p);
    } else {
      if q < 0 { MulMonotone(q, -1, p); }
      DivModUnique(n, 256 * p, 0, n);
    }
  }

  /** What comes back of `n`: short negative contents keep the decoder's wrong sign seed. */
  function Decoded(n: AsnInt): AsnInt
  {
    var k := |EncInt(n)|;
    if n >= 0 || k == 4 then n else ToLong(n + 129 * Pow256(k))
  }

  lemma DecIntEncInt(n: AsnInt, rest: seq<byte>)
    ensures var e := EncInt(n); DecInt(e + rest, |e|) == Got(Decoded(n), |e|, rest)
  {
    var e := EncInt(n);
    assert (e + rest)[..|e|] == e && (e + rest)[|e|..] == rest;
    IntValueEncInt(n);
  }

  lemma IntValueEncInt(n: AsnInt)
    ensures IntValue(EncInt(n)) == Decoded(n)
  {
    var k := |EncInt(n)|;
    EncIntDenotes(n);
    hide Val, EncInt;
    if n < 0 {
      assert 0x8000 * Pow256(k - 1) == 128 * Pow256(k);
      if k == 4 {
        PowValues();
        ToLongCongruent(n + 129 * TWO_32, n, 129);
      }
    }
  }

  /** The decoder inverts the encoder exactly for `n >= 0` and for `n` of four octets. */
  lemma DecodedIff(n: AsnInt)
    ensures Decoded(n) == n <==> n >= 0 || n < -0x80_0000
  {
    PowValues();
  }

  /** The octets that `BEncUAsnIntContent` writes: a zero first when the top bit is set. */
  function EncUInt(u: UAsnInt): (s: seq<byte>)
    ensures 1 <= |s| <= 5
  {
    if u >= TWO_31 then [0] + Be(u, 4) else EncInt(u)
  }

  method BEncUAsnIntContent(b: BufHandle, data: UAsnInt) returns (n: nat)
    requires b.WriteValid()
    modifies b.Repr
    ensures b.WriteValid() && fresh(b.Repr - old(b.Repr))
    ensures b.out == EncUInt(data) + old(b.out)
    ensures n == |EncUInt(data)|
  {
    hide BufHandle.WriteValid;
    if data >= TWO_31 {
      PutLowOctets(b, data, 4);
      b.PutByteRvs(0);
      return 5;
    }
    var len := ContentLen(data);
    PutLowOctets(b, data, len);
    return len;
  }

  function DecUInt(s: seq<byte>, len: nat): (d: Dec<UAsnInt>)
  {
    var m := if len == 0 then 1 else len;
    var first := if s == [] then 0 else s[0];
    if len > 5 then Fail(-9)
    else if first >= 0x80 then Fail(-10)
    else if len == 5 && first != 0 then Fail(-11)
    else if |s| < m then Fail(-12)
    else Got(Val(s[..m]) % TWO_32, len, s[m..])
  }

  method BDecUAsnIntContent(b: BufHandle, len: nat, bytesDecoded: nat) returns (r: Result<UAsnInt>, n: nat)
    requires b.ReadValid() && !b.ReadError()
    modifies b.Repr
    ensures b.ReadValid() && b.Repr == old(b.Repr)
    ensures Ran(DecUInt(old(b.rest), len), b, bytesDecoded, r, n)
  {
    hide BufHandle.ReadValid, Val, IntValue;
    n := bytesDecoded;
    ghost var s := b.rest;
    var retVal: UAsnInt := b.GetByte();
    if len > 5 {
      return Jump(-9), n;
    } else if retVal >= 0x80 {
      return Jump(-10), n;
    } else if len == 5 && retVal != 0 {
      return Jump(-11), n;
    }
    if s != [] {
      FirstIntValue(s);
    }
    var i := 1;
    while i < len
      invariant b.ReadValid() && b.Repr == old(b.Repr)
      invariant 1 <= i && if len == 0 then i == 1 else i <= len
      invariant b.ReadError() <==> |s| < i
      invariant i <= |s| ==> b.rest == s[i..] && retVal == Val(s[..i]) % TWO_32
    {
      var octet := b.GetByte();
      if i < |s| {
        ValSnoc(s[..i], octet);
        assert s[..i] + [octet] == s[..i + 1];
        WrapStep(Val(s[..i]), octet);
      }
      retVal := (retVal * 256 + octet) % TWO_32;
      i := i + 1;
    }
    if b.ReadError() {
      return Jump(-12), n;
    }
    n := n + len;
    return Ok(retVal), n;
  }

  lemma WrapStep(v: nat, octet: byte)
    ensures (v % TWO_32 * 256 + octet) % TWO_32 == (v * 256 + octet) % TWO_32
  {
    var q, r := v / TWO_32, v % TWO_32;
    var t := r * 256 + octet;
    DivModUnique(v * 256 + octet, TWO_32, q * 256 + t / TWO_32, t % TWO_32);
  }

  /** With a 32-bit `long` the unsigned pair round-trips every value. */
  lemma DecUIntEncUInt(u: UAsnInt, rest: seq<byte>)
    ensures var e := EncUInt(u); DecUInt(e + rest, |e|) == Got(u, |e|, rest)
  {
    var e := EncUInt(u);
    assert (e + rest)[..|e|] == e && (e + rest)[|e|..] == rest && (e + rest)[0] == e[0];
    PowValues();
    if u >= TWO_31 {
      ValBe(u, 4);
      ValLeadingZero(Be(u, 4));
    } else {
      EncIntDenotes(u);
    }
  }

  lemma {:induction false} ValLeadingZero(s: seq<byte>)
    ensures Val([0] + s) == Val(s)
  {
    if s == [] {
      assert ([0] + s)[..0] == [];
    } else {
      ValLeadingZero(s[..|s| - 1]);
      assert ([0] + s)[..|s|] == [0] + s[..|s| - 1];
    }
  }
}

/** REAL contents (section 8.5 of ITU-T X.690) in binary form, with doubles and their rounding. */
module Reals {
  import opened Octets
  import opened ExpBufs
  import opened Lengths
  import opened Ints

  /** An infinity, not a number, or `num * 2^exp` with a sign. */
  datatype AsnReal = PlusInfinity | MinusInfinity | NotANumber | Finite(neg: bool, num: nat, exp: int)

  const TWO_52: int := 0x10_0000_0000_0000
  const TWO_53: int := 0x20_0000_0000_0000

  /** The finite doubles without their sign. */
  predicate Represents(num: nat, exp: int)
  {
    num < TWO_53 && -1074 <= exp <= 971
  }

  /** The values of an IEEE double that are numbers. */
  predicate IsDouble(v: AsnReal)
  {
    !v.NotANumber? && (v.Finite? ==> Represents(v.num, v.exp))
  }

  function Pow2(k: nat): (p: nat)
    ensures p > 0
  {
    if k == 0 then 1 else 2 * Pow2(k - 1)
  }

  function Max0(d: int): nat
  {
    if d > 0 then d else 0
  }

  /** The same number; zero has no sign. */
  predicate SameValue(a: AsnReal, b: AsnReal)
  {
    if a.Finite? && b.Finite? then
      (a.neg == b.neg || (a.num == 0 && b.num == 0)) && SameNumber(a.num, a.exp, b.num, b.exp)
    else a == b
  }

  /** `n1 * 2^e1 == n2 * 2^e2` */
  predicate SameNumber(n1: nat, e1: int, n2: nat, e2: int)
  {
    n1 * Pow2(Max0(e1 - e2)) == n2 * Pow2(Max0(e2 - e1))
  }

  lemma {:induction false} Pow2Add(a: nat, b: nat)
    ensures Pow2(a + b) == Pow2(a) * Pow2(b)
  {
    if a > 0 {
      Pow2Add(a - 1, b);
    }
  }

  lemma {:induction false} Pow2Octets(k: nat)
    ensures Pow2(8 * k) == Pow256(k)
  {
    if k > 0 {
      Pow2Octets(k - 1);
      var p := Pow2(8 * k - 8);
      assert Pow2(8 * k - 4) == 16 * p && Pow2(8 * k) == 16 * Pow2(8 * k - 4) by {
        assert Pow2(8 * k - 6) == 4 * p && Pow2(8 * k - 4) == 4 * Pow2(8 * k - 6);
        assert Pow2(8 * k - 2) == 4 * Pow2(8 * k - 4) && Pow2(8 * k) == 4 * Pow2(8 * k - 2);
      }
    }
  }

  lemma PowsOf2()
    ensures Pow2(53) == TWO_53 && Pow256(8) == 0x800 * TWO_53 && Pow256(8) == 256 * Pow256(7)
  {
    Pow2Octets(6);
    PowValues();
    assert Pow256(5) == 256 * Pow256(4) && Pow256(6) == 256 * Pow256(5);
    assert Pow256(7) == 256 * Pow256(6) && Pow256(8) == 256 * Pow256(7);
    Pow2Add(48, 5);
    assert Pow2(5) == 32 by {
      assert Pow2(2) == 4 && Pow2(4) == 4 * Pow2(2);
    }
  }

  /** By how many bits `frexp` moves the significand up. */
  function Shift(num: nat): (s: nat)
    requires 0 < num < TWO_53
    ensures TWO_52 <= num * Pow2(s) < TWO_53
    decreases TWO_53 - num
  {
    if num >= TWO_52 then 0
    else
      var s := Shift(2 * num);
      Doubled(num, s);
      1 + s
  }

  lemma Doubled(num: nat, s: nat)
    ensures 2 * num * Pow2(s) == num * Pow2(1 + s)
  {
  }

  lemma {:induction false} Pow2Grows(a: nat, b: nat)
    requires a <= b
    ensures Pow2(a) <= Pow2(b)
  {
    if a < b {
      Pow2Grows(a, b - 1);
    }
  }

  lemma ShiftBound(num: nat)
    requires 0 < num < TWO_53
    ensures Shift(num) <= 52
  {
    if Shift(num) > 52 {
      PowsOf2();
      Pow2Grows(53, Shift(num));
      MulMonotone(1, num, Pow2(Shift(num)));
    }
  }

  /** `frexp`: the significand in units of `2^-53`, at least a half and below one. */
  function Significand(v: AsnReal): (m: nat)
    requires IsDouble(v) && v.Finite? && v.num > 0
    ensures TWO_52 <= m < TWO_53
  {
    v.num * Pow2(Shift(v.num))
  }

  /** `frexp`: the exponent that goes with it. */
  function Exponent(v: AsnReal): (e: int)
    requires IsDouble(v) && v.Finite? && v.num > 0
    ensures -1073 <= e <= 1024
  {
    ShiftBound(v.num);
    v.exp + 53 - Shift(v.num)
  }

  const ENC_PLUS_INFINITY: byte := 0x40
  const ENC_MINUS_INFINITY: byte := 0x41
  const REAL_BINARY: byte := 0x80
  const REAL_SIGN: byte := 0x40

  function TrimZeros(s: seq<byte>): (t: seq<byte>)
    ensures |t| <= |s| && t == s[..|t|] && (t != [] ==> t[|t| - 1] != 0)
  {
    if s == [] || s[|s| - 1] != 0 then s else TrimZeros(s[..|s| - 1])
  }

  /** The mantissa octets: the significand to 64 bits, without trailing zeros. */
  function Mantissa(m: nat): (s: seq<byte>)
    ensures |s| <= 8
  {
    TrimZeros(Be(m * 0x800, 8))
  }

  /** The content octets that `BEncAsnRealContent` writes. */
  function EncReal(v: AsnReal): seq<byte>
    requires IsDouble(v)
  {
    match v
    case PlusInfinity => [ENC_PLUS_INFINITY]
    case MinusInfinity => [ENC_MINUS_INFINITY]
    case NotANumber => []
    case Finite(neg, num, _) =>
      if num == 0 then []
      else
        var mantissa := Mantissa(Significand(v));
        BinaryReal(neg, EncInt(Exponent(v) - 8 * |mantissa|), mantissa)
  }

  function BinaryReal(neg: bool, exponent: seq<byte>, mantissa: seq<byte>): seq<byte>
    requires |exponent| <= 4
  {
    [FirstOctet(neg, |exponent|)] + (if |exponent| > 3 then [|exponent|] else []) + exponent + mantissa
  }

  /** The sign, base 2, no scaling and the length of the exponent. */
  function FirstOctet(neg: bool, expLen: nat): byte
  {
    REAL_BINARY + (if neg then REAL_SIGN else 0) + if 1 <= expLen <= 3 then expLen - 1 else 3
  }

  /** What trimming leaves out is a power of 256. */
  lemma {:induction false} ValTrim(s: seq<byte>)
    ensures Val(s) == Val(TrimZeros(s)) * Pow256(|s| - |TrimZeros(s)|)
  {
    if s != [] && s[|s| - 1] == 0 {
      var t := TrimZeros(s);
      ValTrim(s[..|s| - 1]);
      var p := Pow256(|s| - 1 - |t|);
      assert Pow256(|s| - |t|) == 256 * p;
      assert Val(t) * p * 256 == Val(t) * (256 * p);
    }
  }

  lemma Cancel(a: nat, b: nat, p: nat)
    requires p > 0 && a * p == b * p
    ensures a == b
  {
    if a < b {
      MulMonotone(a + 1, b, p);
    } else if b < a {
      MulMonotone(b + 1, a, p);
    }
  }

  lemma {:induction false} Pow256Add(a: nat, b: nat)
    ensures Pow256(a + b) == Pow256(a) * Pow256(b)
  {
    if a > 0 {
      Pow256Add(a - 1, b);
      MulAssoc(256, Pow256(a - 1), Pow256(b));
    }
  }

  lemma MulAssoc(a: int, b: int, c: int)
    ensures a * (b * c) == (a * b) * c
  {
  }

  /** The mantissa octets, taken as a number, are the significand exactly. */
  lemma MantissaDenotes(m: nat)
    requires TWO_52 <= m < TWO_53
    ensures Mantissa(m) != [] && Mantissa(m)[|Mantissa(m)| - 1] != 0
    ensures Val(Mantissa(m)) * TWO_53 == m * Pow256(|Mantissa(m)|)
  {
    hide Val, Be, TrimZeros;
    var t := Mantissa(m);
    PowsOf2();
    ValBe(m * 0x800, 8);
    DivModUnique(m * 0x800, Pow256(8), 0, m * 0x800);
    ValTrim(Be(m * 0x800, 8));
    ValNone(t);
    Pow256Add(|t|, 8 - |t|);
    CrossMultiply(Val(t), Pow256(8 - |t|), m, Pow256(|t|));
  }

  lemma ValNone(t: seq<byte>)
    ensures t == [] ==> Val(t) == 0
  {
  }

  lemma CrossMultiply(v: nat, p: nat, m: nat, q: nat)
    requires p > 0 && v * p == m * 0x800 && q * p == 0x800 * TWO_53
    ensures v * TWO_53 == m * q
  {
    assert (v * TWO_53) * p == (v * p) * TWO_53;
    assert (m * q) * p == m * (q * p);
    Cancel(v * TWO_53, m * q, p);
  }

  /** The fewest octets that hold the number. */
  method SignedIntOctetLen(given: AsnInt) returns (retVal: nat)
    ensures retVal == |EncInt(given)|
  {
    var mask: nat := INT_MASK;
    var val: int := given;
    retVal := 4;
    PowValues();
    if val < 0 {
      val := -val - 1;
    }
    while retVal > 1 && AndMask(val, mask) == 0
      invariant 1 <= retVal <= 4 && Fits(val, retVal)
      invariant retVal > 1 ==> mask == 255 * 128 * Pow256(retVal - 2)
    {
      Window(val, retVal, mask);
      mask := mask / 256;
      retVal := retVal - 1;
    }
    if retVal > 1 {
      Window(val, retVal, mask);
    }
  }

  /** A number's octets are determined by its value. */
  lemma {:induction false} BeVal(s: seq<byte>)
    ensures Be(Val(s), |s|) == s
  {
    if s != [] {
      BeVal(s[..|s| - 1]);
      DivModUnique(Val(s), 256, Val(s[..|s| - 1]), s[|s| - 1]);
    }
  }

  /** Takes the significand apart octet by octet, and notes the last octet that is not zero. */
  method MantissaOctets(mantissa: nat) returns (buf: array<byte>, mantissaLen: nat)
    requires TWO_52 <= mantissa < TWO_53
    ensures fresh(buf) && mantissaLen <= buf.Length && buf[..mantissaLen] == Mantissa(mantissa)
  {
    hide Val, Be, TrimZeros;
    buf := new byte[8];
    mantissaLen := 0;
    var tmpMantissa := mantissa;
    ValNone([]);
    TrimNone();
    assert buf[..0] == [];
    for i := 0 to 8
      invariant 0 <= tmpMantissa < TWO_53
      invariant mantissa * Pow256(i) == Val(buf[..i]) * TWO_53 + tmpMantissa
      invariant mantissaLen <= i && buf[..mantissaLen] == TrimZeros(buf[..i])
    {
      ghost var done := buf[..i];
      tmpMantissa := tmpMantissa * 256;
      var truncatedMantissa := tmpMantissa / TWO_53;
      NextOctet(mantissa, i, done, tmpMantissa, truncatedMantissa);
      tmpMantissa := tmpMantissa - truncatedMantissa * TWO_53;
      buf[i] := truncatedMantissa;
      assert buf[..i + 1] == done + [truncatedMantissa];
      TrimNext(done, truncatedMantissa);
      if truncatedMantissa != 0 {
        mantissaLen := i + 1;
      }
    }
    LastOctet(mantissa, buf[..8], tmpMantissa);
  }

  lemma TrimNone()
    ensures TrimZeros([]) == []
  {
  }

  lemma TrimNext(s: seq<byte>, octet: byte)
    ensures TrimZeros(s + [octet]) == if octet != 0 then s + [octet] else TrimZeros(s)
  {
    assert (s + [octet])[..|s|] == s;
  }

  lemma NextOctet(m: nat, i: nat, done: seq<byte>, tmp: nat, octet: nat)
    requires tmp < 256 * TWO_53 && octet == tmp / TWO_53
    requires (m * Pow256(i)) * 256 == Val(done) * TWO_53 * 256 + tmp
    ensures octet < 256 && tmp - octet * TWO_53 == tmp % TWO_53
    ensures m * Pow256(i + 1) == Val(done + [octet]) * TWO_53 + (tmp - octet * TWO_53)
  {
    DivBounds(tmp, TWO_53, 0, 256);
    ValSnoc(done, octet);
    assert m * Pow256(i + 1) == (m * Pow256(i)) * 256;
  }

  lemma LastOctet(m: nat, s: seq<byte>, tmp: nat)
    requires |s| == 8 && tmp < TWO_53 && m * Pow256(8) == Val(s) * TWO_53 + tmp
    ensures s == Be(m * 0x800, 8)
  {
    PowsOf2();
    MulAssoc(m, 0x800, TWO_53);
    DivModUnique(m * Pow256(8), TWO_53, Val(s), tmp);
    DivModUnique(m * Pow256(8), TWO_53, m * 0x800, 0);
    BeVal(s);
  }

  lemma EncIntIsBe(n: AsnInt)
    ensures EncInt(n) == Be(n, |EncInt(n)|)
  {
  }

  method BEncAsnRealContent(b: BufHandle, value: AsnReal) returns (encLen: nat)
    requires b.WriteValid() && IsDouble(value)
    modifies b.Repr
    ensures b.WriteValid() && fresh(b.Repr - old(b.Repr))
    ensures b.out == EncReal(value) + old(b.out)
    ensures encLen == |EncReal(value)|
  {
    hide BufHandle.WriteValid, Significand, Exponent, Be, EncInt, Mantissa;
    if value.Finite? && value.num == 0 {
      return 0;
    }
    if value == MinusInfinity {
      b.PutByteRvs(ENC_MINUS_INFINITY);
      encLen := 1;
    } else if value == PlusInfinity {
      b.PutByteRvs(ENC_PLUS_INFINITY);
      encLen := 1;
    } else {
      var exponent := Exponent(value);
      var buf, mantissaLen := MantissaOctets(Significand(value));
      exponent := exponent - mantissaLen * 8;
      encLen := PutBinary(b, value.neg, buf, mantissaLen, exponent);
    }
  }

  /** Writes the mantissa, the exponent and the format octet, last things first. */
  method PutBinary(b: BufHandle, neg: bool, buf: array<byte>, mantissaLen: nat, exponent: AsnInt)
    returns (encLen: nat)
    requires b.WriteValid() && mantissaLen <= buf.Length && buf !in b.Repr
    modifies b.Repr
    ensures b.WriteValid() && fresh(b.Repr - old(b.Repr))
    ensures b.out == BinaryReal(neg, EncInt(exponent), buf[..mantissaLen]) + old(b.out)
    ensures encLen == |BinaryReal(neg, EncInt(exponent), buf[..mantissaLen])|
  {
    hide BufHandle.WriteValid, Be, EncInt;
    ghost var mantissa, was := buf[..mantissaLen], b.out;
    var firstOctet := REAL_BINARY;
    if neg {
      firstOctet := firstOctet + REAL_SIGN;
    }
    var expLen := SignedIntOctetLen(exponent);
    EncIntIsBe(exponent);
    match expLen {
      case 1 =>
      case 2 => firstOctet := firstOctet + 1;
      case 3 => firstOctet := firstOctet + 2;
      case _ => firstOctet := firstOctet + 3;
    }
    encLen := mantissaLen + expLen + 1;
    b.PutSegRvs(buf[..mantissaLen]);
    PutLowOctets(b, exponent, expLen);
    assert b.out == EncInt(exponent) + mantissa + was;
    if expLen > 3 {
      encLen := encLen + 1;
      b.PutByteRvs(expLen);
    }
    b.PutByteRvs(firstOctet);
  }

  /** The exponent's octets by the first octet; the long form aborts. */
  function ExpLen(firstOctet: byte): nat
  {
    firstOctet % 4 + 1
  }

  /** How far the decoder reads when it is told that there are `len` octets. */
  function Needed(s: seq<byte>, len: nat): nat
  {
    if len == INDEFINITE_LEN then 0
    else if s == [] || len <= 1 || s[0] < REAL_BINARY || s[0] % 4 == 3 then (if len == 0 then 0 else 1)
    else if len < 1 + ExpLen(s[0]) then 1 + ExpLen(s[0]) else len
  }

  /** The power of two that is the base. */
  function BaseLog(firstOctet: byte): nat
  {
    match firstOctet / 16 % 4
    case 0 => 1
    case 1 => 3
    case _ => 4
  }

  const ABORT := 0

  /** What double arithmetic computes, without the sign: a double, an infinity, or not a number. */
  datatype Magnitude = Fin(num: nat, exp: int) | Inf | Nan

  function BitLen(n: nat): nat
  {
    if n == 0 then 0 else 1 + BitLen(n / 2)
  }

  /** `n / d` to the nearest integer, a half to the even one. */
  function HalfEven(n: nat, d: nat): nat
    requires d > 0
  {
    var q, r := n / d, n % d;
    if 2 * r > d || (2 * r == d && q % 2 == 1) then q + 1 else q
  }

  /** How many low bits of `num * 2^exp` a double has no room for. */
  function Excess(num: nat, exp: int): nat
  {
    Max0(if BitLen(num) - 53 > -1074 - exp then BitLen(num) - 53 else -1074 - exp)
  }

  /** `num * 2^exp` rounded to a double. */
  function Round(num: nat, exp: int): Magnitude
  {
    if num == 0 then Fin(0, 0)
    else
      var q := HalfEven(num, Pow2(Excess(num, exp)));
      var e := exp + Excess(num, exp);
      if BitLen(q) + e > 1024 then Inf else Fin(q, e)
  }

  /** `m * 2^k` */
  function Scaled(m: Magnitude, k: nat): Magnitude
  {
    if m.Fin? then Round(m.num, m.exp + k) else m
  }

  /** `m + octet` */
  function Plus(m: Magnitude, octet: byte): Magnitude
  {
    if m.Fin? then Round(m.num * Pow2(Max0(m.exp)) + octet * Pow2(Max0(-m.exp)), if m.exp < 0 then m.exp else 0)
    else m
  }

  /** `pow(2, k)` */
  function Power(k: int): Magnitude
  {
    if k < -1074 then Fin(0, 0) else if k > 1023 then Inf else Fin(1, k)
  }

  function Times(a: Magnitude, b: Magnitude): Magnitude
  {
    match (a, b)
    case (Fin(m, d), Fin(n, e)) => Round(m * n, d + e)
    case (Inf, Fin(n, _)) => if n == 0 then Nan else Inf
    case (Fin(m, _), Inf) => if m == 0 then Nan else Inf
    case (Inf, Inf) => Inf
    case _ => Nan
  }

  function Signed(neg: bool, m: Magnitude): AsnReal
  {
    match m
    case Fin(num, exp) => Finite(neg, num, exp)
    case Inf => if neg then MinusInfinity else PlusInfinity
    case Nan => NotANumber
  }

  /** The mantissa's octets accumulated in a double. */
  function MantissaOf(s: seq<byte>): Magnitude
  {
    if s == [] then Fin(0, 0) else Plus(Scaled(MantissaOf(s[..|s| - 1]), 8), s[|s| - 1])
  }

  /** What the decoder makes of the octets, as long as there are enough of them. */
  ghost function DecReal(s: seq<byte>, len: nat): Dec<AsnReal>
    requires |s| >= Needed(s, len)
  {
    if len == 0 then Got(Finite(false, 0, 0), 0, s)
    else if len == INDEFINITE_LEN then Fail(-67)
    else if len == 1 then
      if s[0] == ENC_PLUS_INFINITY then Got(PlusInfinity, 1, s[1..])
      else if s[0] == ENC_MINUS_INFINITY then Got(MinusInfinity, 1, s[1..])
      else Fail(-22)
    else if s[0] < REAL_BINARY then Fail(-24)
    else if s[0] % 4 == 3 then Fail(ABORT)
    else if s[0] / 16 % 4 == 3 then Fail(-23)
    else
      var k := ExpLen(s[0]);
      var mantissa := Scaled(MantissaOf(s[1 + k..Needed(s, len)]), s[0] / 4 % 4);
      var power := Power(BaseLog(s[0]) * TwosComplement(s[1..1 + k]));
      Got(Signed(s[0] / 64 % 2 == 1, Times(mantissa, power)), len, s[Needed(s, len)..])
  }

  /** The exponent's octets as a number. */
  lemma ExponentValue(s: seq<byte>)
    requires 1 <= |s| <= 3
    ensures
      var lead: int := s[0];
      var sign := if lead >= 0x80 then -1 else 0;
      TwosComplement(s) ==
      match |s|
      case 1 => sign * 0x100 + lead
      case 2 => sign * 0x1_0000 + lead * 0x100 + s[1]
      case _ => (sign * 0x1_0000 + lead * 0x100 + s[1]) * 0x100 + s[2]
  {
    hide Val;
    PowValues();
    Vals(s);
  }

  lemma Vals(s: seq<byte>)
    ensures |s| == 1 ==> Val(s) == s[0]
    ensures |s| == 2 ==> Val(s) == 256 * (s[0] as int) + s[1]
    ensures |s| == 3 ==> Val(s) == 0x1_0000 * (s[0] as int) + 256 * (s[1] as int) + s[2]
    decreases |s|
  {
    hide Val;
    if 1 <= |s| <= 3 {
      Vals(s[..|s| - 1]);
      ValNone([]);
      ValSnoc(s[..|s| - 1], s[|s| - 1]);
      assert s == s[..|s| - 1] + [s[|s| - 1]];
      assert |s| == 1 ==> s[..0] == [];
    }
  }

  /** Reads the octets of an exponent of one to three octets, the first of which was read before. */
  method ReadExponent(b: BufHandle, expLen: nat, firstExpOctet: byte, ghost s: seq<byte>) returns (exponent: int)
    requires b.ReadValid() && 1 <= expLen <= 3 && (b.ReadError() <==> s == [])
    requires s != [] ==> firstExpOctet == s[0] && b.rest == s[1..]
    requires s == [] ==> b.rest == []
    modifies b.Repr
    ensures b.ReadValid() && b.Repr == old(b.Repr) && (b.ReadError() <==> |s| < expLen)
    ensures |s| >= expLen ==> exponent == TwosComplement(s[..expLen]) && b.rest == s[expLen..]
    ensures |s| < expLen ==> b.rest == []
  {
    hide BufHandle.ReadValid, TwosComplement;
    exponent := if firstExpOctet >= 0x80 then -1 else 0;
    if |s| >= expLen {
      ExponentValue(s[..expLen]);
    }
    match expLen {
      case 1 =>
        exponent := exponent * 0x100 + firstExpOctet;
      case 2 =>
        var octet: int := b.GetByte();
        exponent := exponent * 0x1_0000 + firstExpOctet * 0x100 + octet;
      case _ =>
        var octet: int := b.GetByte();
        exponent := exponent * 0x1_0000 + firstExpOctet * 0x100 + octet;
        octet := b.GetByte();
        exponent := exponent * 0x100 + octet;
    }
  }

  /** Accumulates octets number `from` to `len` in a double. */
  method ReadMantissa(b: BufHandle, from: nat, len: nat, ghost s: seq<byte>) returns (mantissa: Magnitude)
    requires b.ReadValid() && (b.ReadError() <==> |s| < from)
    requires |s| >= from ==> b.rest == s[from..]
    requires |s| < from ==> b.rest == []
    modifies b.Repr
    ensures b.ReadValid() && b.Repr == old(b.Repr)
    ensures
      var end := if len < from then from else len;
      && (b.ReadError() <==> |s| < end)
      && (|s| >= end ==> mantissa == MantissaOf(s[from..end]) && b.rest == s[end..])
  {
    hide BufHandle.ReadValid, Plus, Scaled, MantissaOf;
    mantissa := Fin(0, 0);
    MantissaNone();
    assert |s| >= from ==> s[from..from] == [];
    var i := from;
    while i < len
      invariant b.ReadValid() && b.Repr == old(b.Repr)
      invariant from <= i && (i <= len || i == from)
      invariant b.ReadError() <==> |s| < i
      invariant |s| >= i ==> mantissa == MantissaOf(s[from..i]) && b.rest == s[i..]
      invariant |s| < i ==> b.rest == []
    {
      mantissa := Scaled(mantissa, 8);
      var octet := b.GetByte();
      if i < |s| {
        MantissaSnoc(s[from..i], octet);
        assert s[from..i] + [octet] == s[from..i + 1];
      }
      mantissa := Plus(mantissa, octet);
      i := i + 1;
    }
  }

  lemma MantissaNone()
    ensures MantissaOf([]) == Fin(0, 0)
  {
  }

  lemma MantissaSnoc(s: seq<byte>, octet: byte)
    ensures MantissaOf(s + [octet]) == Plus(Scaled(MantissaOf(s), 8), octet)
  {
    assert (s + [octet])[..|s|] == s;
  }

  method BDecAsnRealContent(b: BufHandle, len: nat, bytesDecoded: nat) returns (r: Result<AsnReal>, n: nat)
    requires b.ReadValid() && !b.ReadError()
    modifies b.Repr
    ensures b.ReadValid() && b.Repr == old(b.Repr)
    ensures |old(b.rest)| >= Needed(old(b.rest), len) ==> Ran(DecReal(old(b.rest), len), b, bytesDecoded, r, n)
    ensures |old(b.rest)| < Needed(old(b.rest), len) ==> r.Jump? || b.ReadError()
  {
    hide BufHandle.ReadValid, TwosComplement, MantissaOf, Scaled, Times, Power, Signed;
    n := bytesDecoded;
    ghost var s := b.rest;
    if len == 0 {
      return Ok(Finite(false, 0, 0)), n;
    }
    if len == INDEFINITE_LEN {
      return Jump(-67), n;
    }
    var firstOctet := b.GetByte();
    if len == 1 {
      n := n + 1;
      if firstOctet == ENC_PLUS_INFINITY {
        return Ok(PlusInfinity), n;
      }
      if firstOctet == ENC_MINUS_INFINITY {
        return Ok(MinusInfinity), n;
      }
      return Jump(-22), n;
    }
    if firstOctet < REAL_BINARY {
      return Jump(-24), n;
    }
    ghost var s1 := s[1..];
    var firstExpOctet := b.GetByte();
    if firstOctet % 4 == 3 {
      return Jump(ABORT), n;
    }
    var expLen := ExpLen(firstOctet);
    var exponent := ReadExponent(b, expLen, firstExpOctet, s1);
    assert |s| >= 1 + expLen ==> s1[..expLen] == s[1..1 + expLen] && s1[expLen..] == s[1 + expLen..];
    var mantissa := ReadMantissa(b, 1 + expLen, len, s);
    mantissa := Scaled(mantissa, firstOctet / 4 % 4);
    if firstOctet / 16 % 4 == 3 {
      return Jump(-23), n;
    }
    n := n + len;
    var result := Times(mantissa, Power(BaseLog(firstOctet) * exponent));
    return Ok(Signed(firstOctet / 64 % 2 == 1, result)), n;
  }

  /** The first octet read back. */
  lemma FirstOctetParts(neg: bool, k: nat)
    requires 1 <= k <= 2
    ensures
      var f := FirstOctet(neg, k);
      f >= REAL_BINARY && ExpLen(f) == k && f % 4 != 3 && f / 4 % 4 == 0 && f / 16 % 4 == 0
      && (f / 64 % 2 == 1 <==> neg)
  {
  }

  /** A shorter and a longer way to write the same dyadic number. */
  lemma SameDyadic(n1: nat, e1: int, n2: nat, e2: int, k: nat)
    requires k + e1 - e2 >= 0 && n1 * Pow2(k + e1 - e2) == n2 * Pow2(k)
    ensures SameNumber(n1, e1, n2, e2)
  {
    var d := e1 - e2;
    var j: nat := if d >= 0 then k else k + d;
    Pow2Add(Max0(d), j);
    Pow2Add(Max0(-d), j);
    MulAssoc(n1, Pow2(Max0(d)), Pow2(j));
    MulAssoc(n2, Pow2(Max0(-d)), Pow2(j));
    Cancel(n1 * Pow2(Max0(d)), n2 * Pow2(Max0(-d)), Pow2(j));
  }

  /** Mantissa and exponent, as they are written, denote the value exactly. */
  lemma WrittenIsValue(v: AsnReal)
    requires IsDouble(v) && v.Finite? && v.num > 0
    ensures
      var mantissa := Mantissa(Significand(v));
      SameValue(Finite(v.neg, Val(mantissa), Exponent(v) - 8 * |mantissa|), v)
  {
    hide Val, Mantissa, Shift;
    var m, s := Significand(v), Shift(v.num);
    var l := |Mantissa(m)|;
    var n := Val(Mantissa(m));
    MantissaDenotes(m);
    PowsOf2();
    Pow2Octets(l);
    Pow2Add(s, 8 * l);
    MulAssoc(v.num, Pow2(s), Pow2(8 * l));
    assert v.num * Pow2(s + 8 * l) == n * Pow2(53);
    SameDyadic(n, Exponent(v) - 8 * l, v.num, v.exp, s + 8 * l);
  }

  lemma {:induction false} BitLenBounds(n: nat)
    requires n > 0
    ensures BitLen(n) > 0 && Pow2(BitLen(n) - 1) <= n < Pow2(BitLen(n))
  {
    if n == 1 {
      assert BitLen(1) == 1 + BitLen(0) == 1;
    } else {
      BitLenBounds(n / 2);
    }
  }

  /** The bits of a number that is known to be small. */
  lemma BitLenBelow(n: nat, k: nat, j: nat)
    requires n > 0 && n * Pow2(k) < Pow2(j)
    ensures BitLen(n) + k <= j
  {
    BitLenBounds(n);
    var l := BitLen(n) - 1;
    if l + k >= j {
      Pow2Add(l, k);
      MulMonotone(Pow2(l), n, Pow2(k));
      Pow2Grows(j, l + k);
    }
  }

  lemma HalfEvenExact(q: nat, d: nat)
    requires d > 0
    ensures HalfEven(q * d, d) == q
  {
    DivModUnique(q * d, d, q, 0);
  }

  /** Multiplying by a power of two. */
  lemma Shifted(n: nat, a: nat, b: nat)
    ensures n * Pow2(a + b) == (n * Pow2(a)) * Pow2(b)
  {
    Pow2Add(a, b);
    MulAssoc(n, Pow2(a), Pow2(b));
  }

  /** Whatever a double can represent is not changed by rounding. */
  lemma RoundExact(num: nat, exp: int, n: nat, e: int)
    requires Represents(n, e) && SameNumber(num, exp, n, e)
    ensures Round(num, exp).Fin?
    ensures SameNumber(Round(num, exp).num, Round(num, exp).exp, n, e)
  {
    if num == 0 {
      if n > 0 {
        MulMonotone(1, n, Pow2(Max0(e - exp)));
      }
    } else if exp >= e {
      RoundKeeps(num, exp, n, e);
    } else {
      RoundDrops(num, exp, n, e);
    }
  }

  lemma RoundKeeps(num: nat, exp: int, n: nat, e: int)
    requires Represents(n, e) && num > 0 && exp >= e && num * Pow2(exp - e) == n
    ensures Round(num, exp) == Fin(num, exp)
  {
    PowsOf2();
    BitLenBelow(num, exp - e, 53);
    HalfEvenExact(num, 1);
    assert Excess(num, exp) == 0 && Pow2(0) == 1;
  }

  lemma RoundDrops(num: nat, exp: int, n: nat, e: int)
    requires Represents(n, e) && num > 0 && exp < e && num == n * Pow2(e - exp)
    ensures Round(num, exp).Fin?
    ensures SameNumber(Round(num, exp).num, Round(num, exp).exp, n, e)
  {
    hide BitLen, HalfEven, Excess, Round, Pow2, Represents, SameNumber;
    var t: nat := e - exp;
    DropBound(num, exp, n, e);
    var d := Excess(num, exp);
    var q := n * Pow2(t - d);
    Shifted(n, t - d, d);
    DropFits(n, e, t - d);
    RoundTo(num, exp, q, d);
    Pow256AsPow2();
    SameDyadic(q, exp + d, n, e, t - d);
  }

  lemma RoundTo(num: nat, exp: int, q: nat, d: nat)
    requires num > 0 && num == q * Pow2(d) && d == Excess(num, exp) && BitLen(q) + exp + d <= 1024
    ensures Round(num, exp) == Fin(q, exp + d)
  {
    hide BitLen, HalfEven, Excess, Pow2;
    HalfEvenExact(q, Pow2(d));
  }

  /** No more bits are dropped than are zero. */
  lemma DropBound(num: nat, exp: int, n: nat, e: int)
    requires Represents(n, e) && num > 0 && exp < e && num == n * Pow2(e - exp)
    ensures n > 0 && Excess(num, exp) <= e - exp
  {
    hide BitLen;
    PowsOf2();
    NotZero(n, Pow2(e - exp));
    assert n * Pow2(0) == n;
    BitLenBelow(n, 0, 53);
    ProductBits(n, e - exp);
  }

  lemma DropFits(n: nat, e: int, k: nat)
    requires Represents(n, e) && n > 0
    ensures n * Pow2(k) > 0 && BitLen(n * Pow2(k)) + e - k <= 1024
  {
    hide BitLen;
    PowsOf2();
    assert n * Pow2(0) == n;
    BitLenBelow(n, 0, 53);
    ProductBits(n, k);
  }

  lemma NotZero(n: nat, p: nat)
    ensures n * p > 0 ==> n > 0 && p > 0
    ensures n > 0 && p > 0 ==> n * p > 0
  {
  }

  lemma ProductBits(n: nat, t: nat)
    requires n > 0
    ensures n * Pow2(t) > 0 && BitLen(n * Pow2(t)) <= BitLen(n) + t
  {
    BitLenBounds(n);
    NotZero(n, Pow2(t));
    Pow2Add(BitLen(n), t);
    MulStrict(n, Pow2(BitLen(n)), Pow2(t));
    assert Pow2(0) == 1;
    BitLenBelow(n * Pow2(t), 0, BitLen(n) + t);
  }

  lemma MulStrict(a: nat, b: nat, p: nat)
    requires a < b && p > 0
    ensures a * p < b * p
  {
  }

  /** Being the same number is transitive, and does not depend on a common factor. */
  lemma SameTrans(n1: nat, e1: int, n2: nat, e2: int, n3: nat, e3: int)
    requires SameNumber(n1, e1, n2, e2) && SameNumber(n2, e2, n3, e3)
    ensures SameNumber(n1, e1, n3, e3)
  {
    var k: nat := Max0(e1) + Max0(-e1) + Max0(e2) + Max0(-e2) + Max0(e3) + Max0(-e3);
    SameAt(n1, e1, n2, e2, k);
    SameAt(n2, e2, n3, e3, k);
    SameDyadic(n1, e1, n3, e3, k + e3);
  }

  /** The numbers brought to the exponent `-k`. */
  lemma SameAt(n1: nat, e1: int, n2: nat, e2: int, k: nat)
    requires SameNumber(n1, e1, n2, e2) && k + e1 >= 0 && k + e2 >= 0
    ensures n1 * Pow2(k + e1) == n2 * Pow2(k + e2)
  {
    var j: nat := if e1 > e2 then k + e2 else k + e1;
    Shifted(n1, Max0(e1 - e2), j);
    Shifted(n2, Max0(e2 - e1), j);
  }

  lemma SameScaled(n1: nat, e1: int, n2: nat, e2: int, k: int)
    requires SameNumber(n1, e1, n2, e2)
    ensures SameNumber(n1, e1 + k, n2, e2 + k)
  {
  }

  /** Up to six octets are accumulated without any rounding. */
  lemma {:induction false} SixOctets(s: seq<byte>)
    requires |s| <= 6
    ensures MantissaOf(s) == Fin(Val(s), 0) && Val(s) < 0x1_0000_0000_0000
  {
    hide Plus, Scaled;
    if s != [] {
      var init, octet := s[..|s| - 1], s[|s| - 1];
      SixOctets(init);
      SixValues(init);
      SixValues(s);
      AddOctet(Val(init), octet);
    }
  }

  lemma SixValues(s: seq<byte>)
    ensures |s| <= 5 ==> Val(s) < 0x100_0000_0000
    ensures |s| <= 6 ==> Val(s) < 0x1_0000_0000_0000
  {
    hide Val;
    ValBound(s);
    PowValues();
    assert Pow256(0) == 1 && Pow256(5) == 256 * Pow256(4) && Pow256(6) == 256 * Pow256(5);
  }

  lemma AddOctet(n: nat, octet: byte)
    requires n < 0x100_0000_0000
    ensures Plus(Scaled(Fin(n, 0), 8), octet) == Fin(n * 256 + octet, 0)
  {
    hide BitLen, HalfEven, Round;
    RoundInteger(n, 8);
    RoundInteger(n * 256 + octet, 0);
    RoundInteger(octet, 0);
    Pow256AsPow2();
  }

  lemma Pow256AsPow2()
    ensures Pow2(8) == 256 && Pow2(0) == 1
  {
    Pow2Octets(1);
    PowValues();
  }

  lemma RoundInteger(n: nat, k: nat)
    requires n < TWO_53 && k <= 8
    ensures Round(n, k) == Fin(n, if n == 0 then 0 else k)
  {
    assert Pow2(0) == 1;
    if n > 0 {
      RoundKeeps(n, k, n, k);
    }
  }

  function Pow(base: nat, k: nat): nat
  {
    if k == 0 then 1 else base * Pow(base, k - 1)
  }

  /** `num * 2^exp == n * base^e` */
  predicate IsTimesPower(num: nat, exp: int, n: nat, base: nat, e: int)
  {
    num * Pow2(Max0(exp)) * Pow(base, Max0(-e)) == n * Pow(base, Max0(e)) * Pow2(Max0(-exp))
  }

  /** A double holds `n * base^e`. */
  ghost predicate Holds(n: nat, base: nat, e: int)
  {
    exists num, exp :: Represents(num, exp) && IsTimesPower(num, exp, n, base, e)
  }

  lemma {:induction false} PowOf2(base: nat, log: nat, k: nat)
    requires (base == 2 && log == 1) || (base == 8 && log == 3) || (base == 16 && log == 4)
    ensures Pow(base, k) == Pow2(log * k)
  {
    if k > 0 {
      PowOf2(base, log, k - 1);
      Pow2Add(log, log * (k - 1));
      assert Pow2(2) == 4 && Pow2(3) == 8 && Pow2(4) == 2 * Pow2(3);
    }
  }

  lemma TimesPowerIff(num: nat, exp: int, n: nat, base: nat, log: nat, e: int)
    requires (base == 2 && log == 1) || (base == 8 && log == 3) || (base == 16 && log == 4)
    ensures IsTimesPower(num, exp, n, base, e) <==> SameNumber(num, exp, n, log * e)
  {
    hide Pow2;
    var le := log * e;
    var k: nat := Max0(-exp) + Max0(-le);
    PowOf2(base, log, Max0(e));
    PowOf2(base, log, Max0(-e));
    assert log * Max0(e) == Max0(le) && log * Max0(-e) == Max0(-le);
    Shifted(num, Max0(exp), Max0(-le));
    Shifted(n, Max0(le), Max0(-exp));
    assert k + exp == Max0(exp) + Max0(-le) && k + le == Max0(le) + Max0(-exp);
    if SameNumber(num, exp, n, le) {
      SameAt(num, exp, n, le, k);
    }
    if num * Pow2(k + exp) == n * Pow2(k + le) {
      SameDyadic(num, exp, n, le, k + le);
    }
  }

  /** The front of a number that a double holds fits a double as well. */
  lemma FrontHeld(v: nat, octet: byte, n: nat, e: int) returns (m: nat, d: int)
    requires Represents(n, e) && SameNumber(v * 256 + octet, 0, n, e)
    ensures Represents(m, d) && SameNumber(v, 0, m, d)
    ensures d + 8 <= 971 && SameNumber(v * 256, 0, m, d + 8)
  {
    Pow256AsPow2();
    if e >= 8 {
      m, d := n, e - 8;
      assert Pow2(e) == Pow2(e - 8) * 256 by {
        Pow2Add(e - 8, 8);
      }
      MulAssoc(n, Pow2(e - 8), 256);
      DivModUnique(v * 256 + octet, 256, n * Pow2(e - 8), 0);
      DivModUnique(v * 256 + octet, 256, v, octet);
    } else {
      m, d := v, 0;
      SmallFront(v, octet, n, e);
    }
  }

  lemma SmallFront(v: nat, octet: byte, n: nat, e: int)
    requires Represents(n, e) && SameNumber(v * 256 + octet, 0, n, e) && e < 8
    ensures v < TWO_53 && SameNumber(v, 0, v, 0) && SameNumber(v * 256, 0, v, 8)
  {
    Pow256AsPow2();
    if e >= 0 {
      Pow2Grows(e, 8);
      MulMonotone(n, TWO_53 - 1, Pow2(e));
      MulMonotone(Pow2(e), 256, TWO_53 - 1);
    } else {
      MulMonotone(1, Pow2(-e), v * 256 + octet);
    }
  }

  /** A mantissa that a double holds is accumulated without rounding. */
  lemma {:induction false} MantissaExact(s: seq<byte>, n: nat, e: int)
    requires Represents(n, e) && SameNumber(Val(s), 0, n, e)
    ensures MantissaOf(s).Fin? && SameNumber(MantissaOf(s).num, MantissaOf(s).exp, Val(s), 0)
  {
    hide Round, Val, SameNumber, Represents;
    if s == [] {
      ValNone([]);
      ZeroSame();
    } else {
      var init, octet := s[..|s| - 1], s[|s| - 1];
      assert s == init + [octet];
      ValSnoc(init, octet);
      var m, d := FrontHeld(Val(init), octet, n, e);
      MantissaExact(init, m, d);
      AddExact(MantissaOf(init), Val(init), octet, m, d, n, e);
    }
  }

  lemma ZeroSame()
    ensures SameNumber(0, 0, 0, 0)
  {
  }

  /** One step of the accumulation, where both results fit. */
  lemma AddExact(front: Magnitude, v: nat, octet: byte, m: nat, d: int, n: nat, e: int)
    requires front.Fin? && SameNumber(front.num, front.exp, v, 0)
    requires Represents(m, d) && SameNumber(v, 0, m, d) && d + 8 <= 971 && SameNumber(v * 256, 0, m, d + 8)
    requires Represents(n, e) && SameNumber(v * 256 + octet, 0, n, e)
    ensures
      var all := Plus(Scaled(front, 8), octet);
      all.Fin? && SameNumber(all.num, all.exp, v * 256 + octet, 0)
  {
    hide Round, SameNumber;
    var k := Scaled(front, 8);
    SameTrans(front.num, front.exp, v, 0, m, d);
    SameScaled(front.num, front.exp, m, d, 8);
    RoundExact(front.num, front.exp + 8, m, d + 8);
    SameSymmetric(v * 256, 0, m, d + 8);
    SameTrans(k.num, k.exp, m, d + 8, v * 256, 0);
    SumSame(k.num, k.exp, v * 256, octet);
    var sum, exp := k.num * Pow2(Max0(k.exp)) + octet * Pow2(Max0(-k.exp)), if k.exp < 0 then k.exp else 0;
    SameTrans(sum, exp, v * 256 + octet, 0, n, e);
    RoundExact(sum, exp, n, e);
    var all := Round(sum, exp);
    SameSymmetric(v * 256 + octet, 0, n, e);
    SameTrans(all.num, all.exp, n, e, v * 256 + octet, 0);
  }

  lemma SumSame(num: nat, exp: int, v: nat, octet: nat)
    requires SameNumber(num, exp, v, 0)
    ensures SameNumber(num * Pow2(Max0(exp)) + octet * Pow2(Max0(-exp)), if exp < 0 then exp else 0, v + octet, 0)
  {
    assert Pow2(0) == 1;
    if exp < 0 {
      assert num == v * Pow2(-exp);
      assert (v + octet) * Pow2(-exp) == v * Pow2(-exp) + octet * Pow2(-exp);
    }
  }

  /**
   * The value law of binary contents: mantissa octets `N`, scaling by `2^F`, and the base, 2, 8 or 16, to the exponent
   * `E`. Where doubles hold `N`, `N * 2^F`, the power and the result, the result is that number, with the sign that the
   * first octet has. Contents that end within the exponent are taken as well, without a mantissa.
   */
  lemma DecodedValue(first: byte, expo: seq<byte>, mantissa: seq<byte>, rest: seq<byte>, len: nat, base: nat)
    requires first >= 0x80 && first % 4 != 3 && |expo| == first % 4 + 1
    requires len == 1 + |expo| + |mantissa| || (mantissa == [] && 1 < len <= |expo|)
    requires len < INDEFINITE_LEN
    requires first / 16 % 4 == 0 ==> base == 2
    requires first / 16 % 4 == 1 ==> base == 8
    requires first / 16 % 4 == 2 ==> base == 16
    requires first / 16 % 4 != 3
    requires
      var scaled, e := Val(mantissa) * Pow(2, first / 4 % 4), TwosComplement(expo);
      Holds(Val(mantissa), 2, 0) && Holds(scaled, 2, 0) && Holds(1, base, e) && Holds(scaled, base, e)
    ensures
      var s := [first] + expo + mantissa + rest;
      var scaled, e := Val(mantissa) * Pow(2, first / 4 % 4), TwosComplement(expo);
      && Needed(s, len) == 1 + |expo| + |mantissa|
      && var d := DecReal(s, len);
         && d.Got? && d.n == len && d.rest == rest && d.value.Finite?
         && (d.value.neg <==> first / 64 % 2 == 1) && IsTimesPower(d.value.num, d.value.exp, scaled, base, e)
  {
    hide Val, TwosComplement, Round, MantissaOf, Scaled, Times, Power, Pow, SameNumber, Represents, IsTimesPower,
      Needed, DecReal, Holds;
    var f, e, log := first / 4 % 4, TwosComplement(expo), BaseLog(first);
    MantissaHeld(mantissa);
    ScaledHeld(MantissaOf(mantissa), Val(mantissa), f);
    PowerHeld(base, log, e);
    ProductHeld(Scaled(MantissaOf(mantissa), f), Val(mantissa) * Pow(2, f), base, log, e);
    Parts(first, expo, mantissa, rest, len);
  }

  /** Powers that no double holds: the result is then infinite, or not a number for a zero mantissa, or zero. */
  lemma DecodedExtremes(first: byte, expo: seq<byte>, mantissa: seq<byte>, rest: seq<byte>, len: nat, base: nat)
    requires first >= 0x80 && first % 4 != 3 && |expo| == first % 4 + 1
    requires len == 1 + |expo| + |mantissa| || (mantissa == [] && 1 < len <= |expo|)
    requires len < INDEFINITE_LEN
    requires first / 16 % 4 == 0 ==> base == 2
    requires first / 16 % 4 == 1 ==> base == 8
    requires first / 16 % 4 == 2 ==> base == 16
    requires first / 16 % 4 != 3
    requires Holds(Val(mantissa), 2, 0) && Holds(Val(mantissa) * Pow(2, first / 4 % 4), 2, 0)
    ensures
      var s, e, negative := [first] + expo + mantissa + rest, TwosComplement(expo), first / 64 % 2 == 1;
      var log := if base == 2 then 1 else if base == 8 then 3 else 4;
      && Needed(s, len) == 1 + |expo| + |mantissa|
      && (log * e > 1023 && Val(mantissa) > 0 ==>
            DecReal(s, len) == Got(if negative then MinusInfinity else PlusInfinity, len, rest))
      && (log * e > 1023 && Val(mantissa) == 0 ==> DecReal(s, len) == Got(NotANumber, len, rest))
      && (log * e < -1074 ==> DecReal(s, len) == Got(Finite(negative, 0, 0), len, rest))
  {
    hide Val, TwosComplement, Round, MantissaOf, Scaled, Pow, SameNumber, Represents, IsTimesPower, Needed, DecReal,
      Holds;
    var f := first / 4 % 4;
    MantissaHeld(mantissa);
    ScaledHeld(MantissaOf(mantissa), Val(mantissa), f);
    var scaled := Scaled(MantissaOf(mantissa), f);
    SameZero(scaled.num, scaled.exp, Val(mantissa) * Pow(2, f));
    PowOf2(2, 1, f);
    NotZero(Val(mantissa), Pow2(f));
    RoundNothing(scaled.exp);
    Parts(first, expo, mantissa, rest, len);
  }

  lemma SameZero(num: nat, exp: int, n: nat)
    requires SameNumber(num, exp, n, 0)
    ensures num == 0 <==> n == 0
  {
    NotZero(num, Pow2(Max0(exp - 0)));
    NotZero(n, Pow2(Max0(0 - exp)));
  }

  lemma Parts(first: byte, expo: seq<byte>, mantissa: seq<byte>, rest: seq<byte>, len: nat)
    requires first >= 0x80 && first % 4 != 3 && |expo| == first % 4 + 1 && first / 16 % 4 != 3
    requires len == 1 + |expo| + |mantissa| || (mantissa == [] && 1 < len <= |expo|)
    requires len < INDEFINITE_LEN
    ensures
      var s := [first] + expo + mantissa + rest;
      var product := Times(Scaled(MantissaOf(mantissa), first / 4 % 4), Power(BaseLog(first) * TwosComplement(expo)));
      && Needed(s, len) == 1 + |expo| + |mantissa|
      && DecReal(s, len) == Got(Signed(first / 64 % 2 == 1, product), len, rest)
  {
    hide MantissaOf, Scaled, Times, Power, TwosComplement, BaseLog, Signed, ExpLen, Needed, DecReal;
    var s := [first] + expo + mantissa + rest;
    var k, end := |expo|, 1 + |expo| + |mantissa|;
    assert s[0] == first && s[1..1 + k] == expo && s[1 + k..end] == mantissa && s[end..] == rest;
    ContentsParts(s, len, k, end);
  }

  lemma ContentsParts(s: seq<byte>, len: nat, k: nat, end: nat)
    requires 1 + k <= end <= |s| && 1 < len < INDEFINITE_LEN && end == if len < 1 + k then 1 + k else len
    requires s[0] >= 0x80 && s[0] % 4 != 3 && k == s[0] % 4 + 1 && s[0] / 16 % 4 != 3
    ensures Needed(s, len) == end
    ensures
      var product := Times(Scaled(MantissaOf(s[1 + k..end]), s[0] / 4 % 4),
                           Power(BaseLog(s[0]) * TwosComplement(s[1..1 + k])));
      DecReal(s, len) == Got(Signed(s[0] / 64 % 2 == 1, product), len, s[end..])
  {
    hide MantissaOf, Scaled, Times, Power, TwosComplement, BaseLog, Signed, ExpLen;
    ExpLenIs(s[0]);
  }

  lemma ExpLenIs(first: byte)
    ensures ExpLen(first) == first % 4 + 1
  {
  }

  lemma MantissaHeld(s: seq<byte>)
    requires Holds(Val(s), 2, 0)
    ensures MantissaOf(s).Fin? && SameNumber(MantissaOf(s).num, MantissaOf(s).exp, Val(s), 0)
  {
    hide Val, Represents, IsTimesPower, SameNumber, MantissaOf;
    var n, e :| Represents(n, e) && IsTimesPower(n, e, Val(s), 2, 0);
    TimesPowerIff(n, e, Val(s), 2, 1, 0);
    SameSymmetric(n, e, Val(s), 0);
    MantissaExact(s, n, e);
  }

  lemma ScaledHeld(mantissa: Magnitude, n: nat, f: nat)
    requires mantissa.Fin? && SameNumber(mantissa.num, mantissa.exp, n, 0) && Holds(n * Pow(2, f), 2, 0)
    ensures
      var scaled := Scaled(mantissa, f);
      scaled.Fin? && SameNumber(scaled.num, scaled.exp, n * Pow(2, f), 0)
  {
    hide Represents, IsTimesPower, SameNumber, Round, Pow;
    var v := n * Pow(2, f);
    var m, e :| Represents(m, e) && IsTimesPower(m, e, v, 2, 0);
    TimesPowerIff(m, e, v, 2, 1, 0);
    PowOf2(2, 1, f);
    SameScaled(mantissa.num, mantissa.exp, n, 0, f);
    Widened(n, f);
    SameTrans(mantissa.num, mantissa.exp + f, n, f, v, 0);
    SameSymmetric(m, e, v, 0);
    SameTrans(mantissa.num, mantissa.exp + f, v, 0, m, e);
    RoundExact(mantissa.num, mantissa.exp + f, m, e);
    SameTrans(Scaled(mantissa, f).num, Scaled(mantissa, f).exp, m, e, v, 0);
  }

  lemma Widened(n: nat, f: nat)
    ensures SameNumber(n, f, n * Pow2(f), 0)
  {
  }

  lemma PowerHeld(base: nat, log: nat, e: int)
    requires (base == 2 && log == 1) || (base == 8 && log == 3) || (base == 16 && log == 4)
    requires Holds(1, base, e)
    ensures Power(log * e) == Fin(1, log * e)
  {
    hide IsTimesPower, SameNumber;
    var m, d :| Represents(m, d) && IsTimesPower(m, d, 1, base, e);
    TimesPowerIff(m, d, 1, base, log, e);
    PowerBounds(m, d, log * e);
  }

  lemma PowerBounds(m: nat, d: int, k: int)
    requires Represents(m, d) && SameNumber(m, d, 1, k)
    ensures -1074 <= k <= 1023
  {
    PowsOf2();
    EvenProduct(m, Pow2(Max0(d - k - 1)));
    if k - d > 52 {
      Pow2Grows(53, k - d);
    }
  }

  lemma ProductHeld(mantissa: Magnitude, n: nat, base: nat, log: nat, e: int)
    requires (base == 2 && log == 1) || (base == 8 && log == 3) || (base == 16 && log == 4)
    requires mantissa.Fin? && SameNumber(mantissa.num, mantissa.exp, n, 0)
    requires Power(log * e) == Fin(1, log * e) && Holds(n, base, e)
    ensures
      var p := Times(mantissa, Power(log * e));
      p.Fin? && IsTimesPower(p.num, p.exp, n, base, e)
  {
    hide Represents, IsTimesPower, SameNumber, Round, Pow, Power;
    var k := log * e;
    var m, d :| Represents(m, d) && IsTimesPower(m, d, n, base, e);
    TimesPowerIff(m, d, n, base, log, e);
    SameScaled(mantissa.num, mantissa.exp, n, 0, k);
    SameSymmetric(m, d, n, k);
    SameTrans(mantissa.num, mantissa.exp + k, n, k, m, d);
    RoundExact(mantissa.num, mantissa.exp + k, m, d);
    var p := Times(mantissa, Power(k));
    assert p == Round(mantissa.num, mantissa.exp + k);
    SameTrans(p.num, p.exp, m, d, n, k);
    TimesPowerIff(p.num, p.exp, n, base, log, e);
  }

  function Dist(a: int, b: int): nat
  {
    if a < b then b - a else a - b
  }

  /** No multiple of `d` is nearer to `n`, and of two at the same distance the even one is taken. */
  lemma NearestMultiple(n: nat, d: nat, m: int)
    requires d > 0
    ensures Dist(n, HalfEven(n, d) * d) <= Dist(n, m * d)
    ensures Dist(n, HalfEven(n, d) * d) == Dist(n, m * d) && m != HalfEven(n, d) ==> HalfEven(n, d) % 2 == 0
  {
    var q, r := n / d, n % d;
    assert n == q * d + r && (q + 1) * d == q * d + d;
    if m <= q {
      MulMonotone(m, q, d);
      if m < q {
        MulMonotone(m + 1, q, d);
      }
    } else {
      MulMonotone(q + 1, m, d);
      if m > q + 1 {
        MulMonotone(q + 2, m, d);
      }
    }
  }

  /** `n * 2^e` in units of `2^-k`. */
  function InUnits(n: nat, e: int, k: int): nat
    requires e + k >= 0
  {
    n * Pow2(e + k)
  }

  lemma DistScaled(a: int, b: int, p: nat)
    ensures Dist(a * p, b * p) == Dist(a, b) * p
  {
    if a < b {
      MulMonotone(a, b, p);
    } else {
      MulMonotone(b, a, p);
    }
  }

  /**
   * Numbers that do not fit are rounded to a nearest double: none is at a smaller distance, and of two at the same
   * distance the one with the even significand is taken. Distances are in units of `2^-k`, for any `k` large enough.
   */
  lemma RoundNearest(num: nat, exp: int, n: nat, e: int, k: int)
    requires Round(num, exp).Fin? && Represents(n, e) && exp + k >= 0 && e + k >= 0 && Round(num, exp).exp + k >= 0
    ensures
      var r := Round(num, exp);
      var given, rounded, other := InUnits(num, exp, k), InUnits(r.num, r.exp, k), InUnits(n, e, k);
      && Dist(given, rounded) <= Dist(given, other)
      && (Dist(given, rounded) == Dist(given, other) && rounded != other ==> r.num % 2 == 0)
  {
    hide BitLen, HalfEven, Excess, Pow2, Round;
    if num > 0 {
      var d := Excess(num, exp);
      RoundParts(num, exp);
      Shifted(HalfEven(num, Pow2(d)), d, exp + k);
      DistScaled(num, HalfEven(num, Pow2(d)) * Pow2(d), Pow2(exp + k));
      if d == 0 {
        Pow256AsPow2();
        HalfEvenExact(num, 1);
      } else if e >= exp + d {
        OnGrid(num, exp, n, e, k);
      } else {
        BelowGrid(num, exp, n, e, k);
      }
    } else {
      RoundNothing(exp);
    }
  }

  lemma RoundParts(num: nat, exp: int)
    requires num > 0 && Round(num, exp).Fin?
    ensures Round(num, exp) == Fin(HalfEven(num, Pow2(Excess(num, exp))), exp + Excess(num, exp))
  {
  }

  /** A double that is a multiple of the unit in which the number is rounded. */
  lemma OnGrid(num: nat, exp: int, n: nat, e: int, k: int)
    requires num > 0 && exp + k >= 0 && e >= exp + Excess(num, exp)
    ensures
      var d := Excess(num, exp);
      var q, p := HalfEven(num, Pow2(d)), Pow2(exp + k);
      && Dist(num, q * Pow2(d)) * p <= Dist(num * p, InUnits(n, e, k))
      && (Dist(num, q * Pow2(d)) * p == Dist(num * p, InUnits(n, e, k)) && q * Pow2(d) * p != InUnits(n, e, k) ==>
            q % 2 == 0)
  {
    hide HalfEven, Excess, Pow2;
    var d := Excess(num, exp);
    var q, p, m := HalfEven(num, Pow2(d)), Pow2(exp + k), n * Pow2(e - exp - d);
    NearestMultiple(num, Pow2(d), m);
    Shifted(n, e - exp - d, d + exp + k);
    Shifted(m, d, exp + k);
    DistScaled(num, m * Pow2(d), p);
    MulMonotone(Dist(num, q * Pow2(d)), Dist(num, m * Pow2(d)), p);
    if Dist(num, q * Pow2(d)) * p == Dist(num, m * Pow2(d)) * p {
      Cancel(Dist(num, q * Pow2(d)), Dist(num, m * Pow2(d)), p);
    }
  }

  /** A double that is not is further below the number than the least significand of full length. */
  lemma BelowGrid(num: nat, exp: int, n: nat, e: int, k: int)
    requires num > 0 && exp + k >= 0 && e + k >= 0 && Represents(n, e)
    requires 0 < Excess(num, exp) && e < exp + Excess(num, exp)
    ensures
      var d := Excess(num, exp);
      var q, p := HalfEven(num, Pow2(d)), Pow2(exp + k);
      Dist(num, q * Pow2(d)) * p < Dist(num * p, InUnits(n, e, k))
  {
    hide HalfEven, Excess, Pow2, BitLen;
    var d := Excess(num, exp);
    var q, p, least := HalfEven(num, Pow2(d)), Pow2(exp + k), TWO_52 * Pow2(d);
    FullLength(num, exp, e);
    NearestMultiple(num, Pow2(d), TWO_52);
    DistScaled(num, least, p);
    MulMonotone(Dist(num, q * Pow2(d)), Dist(num, least), p);
    MulMonotone(least, num, p);
    Shifted(TWO_52, d, exp + k);
    LessThanFull(n, e + k, exp + d + k);
  }

  /** Then the number has more than 53 bits, and the least ones of those beyond are what is rounded. */
  lemma FullLength(num: nat, exp: int, e: int)
    requires num > 0 && 0 < Excess(num, exp) && -1074 <= e < exp + Excess(num, exp)
    ensures TWO_52 * Pow2(Excess(num, exp)) <= num
  {
    hide Pow2, BitLen;
    var d := Excess(num, exp);
    assert d == BitLen(num) - 53;
    BitLenBounds(num);
    Pow2Add(52, d);
    Pow2Is52();
  }

  lemma Pow2Is52()
    ensures Pow2(52) == TWO_52
  {
    PowsOf2();
  }

  lemma LessThanFull(n: nat, a: nat, b: nat)
    requires n < TWO_53 && a < b
    ensures n * Pow2(a) < TWO_52 * Pow2(b)
  {
    Pow2Grows(a, b - 1);
    MulStrict(n, TWO_53, Pow2(a));
    MulMonotone(Pow2(a), Pow2(b - 1), TWO_53);
  }

  /** What is rounded is a double, unless it is infinite. */
  lemma RoundIsDouble(num: nat, exp: int) returns (n: nat, e: int)
    requires Round(num, exp).Fin?
    ensures Represents(n, e) && SameNumber(Round(num, exp).num, Round(num, exp).exp, n, e)
  {
    hide HalfEven, Excess, Pow2, BitLen;
    if num == 0 {
      n, e := 0, 0;
      RoundNothing(exp);
    } else {
      RoundParts(num, exp);
      var r := Round(num, exp);
      RoundedBits(num, exp);
      Pow256AsPow2();
      if r.exp > 971 {
        n, e := r.num * Pow2(r.exp - 971), 971;
        FitsBelow(r.num, r.exp - 971);
      } else if r.num < TWO_53 {
        n, e := r.num, r.exp;
      } else {
        n, e := TWO_52, r.exp + 1;
        Carry();
      }
    }
  }

  /** At most 53 bits, or the least number of 54. */
  lemma RoundedBits(num: nat, exp: int)
    requires num > 0 && Round(num, exp).Fin?
    ensures
      var r := Round(num, exp);
      r.num <= TWO_53 && r.exp >= -1074 && BitLen(r.num) + r.exp <= 1024 && (r.num == TWO_53 ==> r.exp <= 970)
  {
    hide HalfEven, Pow2, BitLen;
    var d := Excess(num, exp);
    PowsOf2();
    BitLenBounds(num);
    Pow2Grows(BitLen(num), 53 + d);
    Pow2Add(53, d);
    HalfEvenBelow(num, Pow2(d), TWO_53);
    Bits54();
  }

  lemma Bits54()
    ensures BitLen(TWO_53) == 54
  {
    PowsOf2();
    BitLenBounds(TWO_53);
    if BitLen(TWO_53) < 54 {
      Pow2Grows(BitLen(TWO_53), 53);
    } else {
      Pow2Grows(54, BitLen(TWO_53));
      BitLenBelow(TWO_53, 0, 54);
    }
  }

  lemma HalfEvenBelow(n: nat, d: nat, m: nat)
    requires d > 0 && n < m * d
    ensures HalfEven(n, d) <= m
  {
    if n / d >= m {
      MulMonotone(m, n / d, d);
    }
  }

  lemma FitsBelow(q: nat, k: nat)
    requires BitLen(q) + k <= 53
    ensures q * Pow2(k) < TWO_53
  {
    hide BitLen, Pow2;
    PowsOf2();
    if q > 0 {
      BitLenBounds(q);
      MulStrict(q, Pow2(BitLen(q)), Pow2(k));
      Pow2Add(BitLen(q), k);
      Pow2Grows(BitLen(q) + k, 53);
    }
  }

  lemma Carry()
    ensures TWO_53 == TWO_52 * Pow2(1) && Pow2(0) == 1
  {
    assert Pow2(1) == 2 * Pow2(0);
  }

  /** The exponent that is written with a value's mantissa. */
  function WrittenExponent(v: AsnReal): int
    requires IsDouble(v) && v.Finite? && v.num > 0
  {
    Exponent(v) - 8 * |Mantissa(Significand(v))|
  }

  /** The decoder's `pow(2, exponent)` does not vanish. */
  predicate Recoverable(v: AsnReal)
    requires IsDouble(v)
  {
    v.Finite? && v.num > 0 ==> WrittenExponent(v) >= -1074
  }

  /** There are at most seven mantissa octets, and with seven the number is a multiple of eight. */
  lemma MantissaSize(m: nat)
    requires TWO_52 <= m < TWO_53
    ensures |Mantissa(m)| <= 7
    ensures |Mantissa(m)| == 7 ==> Val(Mantissa(m)) == 8 * m
  {
    hide Val, Be, TrimZeros;
    MantissaDenotes(m);
    PowsOf2();
    var t := Mantissa(m);
    if |t| == 8 {
      MulAssoc(m, 0x800, TWO_53);
      Cancel(Val(t), m * 0x800, TWO_53);
      LastOctetOf(t, m * 8);
    } else if |t| == 7 {
      assert m * Pow256(7) == (8 * m) * TWO_53;
      Cancel(Val(t), 8 * m, TWO_53);
    }
  }

  lemma LastOctetOf(t: seq<byte>, n: nat)
    requires t != [] && Val(t) == n * 256
    ensures t[|t| - 1] == 0
  {
    hide Val;
    var init, octet := t[..|t| - 1], t[|t| - 1];
    assert t == init + [octet];
    ValSnoc(init, octet);
    DivModUnique(Val(t), 256, Val(init), octet);
    DivModUnique(Val(t), 256, n, 0);
  }

  /** Accumulated in a double, the mantissa octets that were written denote what they denoted. */
  lemma MantissaRead(m: nat)
    requires TWO_52 <= m < TWO_53
    ensures
      var t := Mantissa(m);
      MantissaOf(t).Fin? && SameNumber(MantissaOf(t).num, MantissaOf(t).exp, Val(t), 0)
      && exists n, e :: Represents(n, e) && SameNumber(Val(t), 0, n, e)
  {
    hide Mantissa, Round, Excess, BitLen;
    var t := Mantissa(m);
    MantissaSize(m);
    Pow256AsPow2();
    if |t| <= 6 {
      SixOctets(t);
      assert Represents(Val(t), 0) && SameNumber(Val(t), 0, Val(t), 0);
    } else {
      SeventhOctet(t, m);
    }
  }

  lemma SeventhOctet(t: seq<byte>, m: nat)
    requires |t| == 7 && Val(t) == 8 * m && TWO_52 <= m < TWO_53
    ensures MantissaOf(t).Fin? && SameNumber(MantissaOf(t).num, MantissaOf(t).exp, Val(t), 0)
    ensures Represents(m, 3) && SameNumber(Val(t), 0, m, 3)
  {
    hide Round, Val;
    var init, octet := t[..6], t[6];
    assert t == init + [octet];
    MantissaSnoc(init, octet);
    ValSnoc(init, octet);
    SixOctets(init);
    RoundInteger(Val(init), 8);
    Pow256AsPow2();
    assert Pow2(3) == 8;
    RoundExact(Val(t), 0, m, 3);
    SameTrans(MantissaOf(t).num, MantissaOf(t).exp, m, 3, Val(t), 0);
  }

  /** Mantissa times power: the value itself, or nothing where the power is too small for a double. */
  lemma Product(v: AsnReal, mantissa: Magnitude, n: nat, k: int)
    requires IsDouble(v) && v.Finite? && v.num > 0 && k <= 1023
    requires mantissa.Fin? && SameNumber(mantissa.num, mantissa.exp, n, 0) && SameNumber(n, k, v.num, v.exp)
    ensures
      var p := Times(mantissa, Power(k));
      p.Fin? && if k >= -1074 then SameNumber(p.num, p.exp, v.num, v.exp) else p.num == 0
  {
    hide Round, SameNumber, Represents;
    if k >= -1074 {
      SameScaled(mantissa.num, mantissa.exp, n, 0, k);
      SameTrans(mantissa.num, mantissa.exp + k, n, k, v.num, v.exp);
      RoundExact(mantissa.num, mantissa.exp + k, v.num, v.exp);
    } else {
      RoundNothing(mantissa.exp);
    }
  }

  lemma RoundNothing(exp: int)
    ensures Round(0, exp) == Fin(0, 0)
  {
  }

  /** The factor 1 that is read with the format octet. */
  lemma NoScaling(mantissa: Magnitude, v: nat)
    requires mantissa.Fin? && SameNumber(mantissa.num, mantissa.exp, v, 0)
    requires exists n, e :: Represents(n, e) && SameNumber(v, 0, n, e)
    ensures Scaled(mantissa, 0).Fin? && SameNumber(Scaled(mantissa, 0).num, Scaled(mantissa, 0).exp, v, 0)
  {
    hide Round, SameNumber, Represents;
    var n, e :| Represents(n, e) && SameNumber(v, 0, n, e);
    SameTrans(mantissa.num, mantissa.exp, v, 0, n, e);
    RoundExact(mantissa.num, mantissa.exp, n, e);
    SameSymmetric(v, 0, n, e);
    SameTrans(Scaled(mantissa, 0).num, Scaled(mantissa, 0).exp, n, e, v, 0);
  }

  lemma SameSymmetric(n1: nat, e1: int, n2: nat, e2: int)
    requires SameNumber(n1, e1, n2, e2)
    ensures SameNumber(n2, e2, n1, e1)
  {
  }

  /**
   * A double comes back as the same number if and only if the exponent written with its mantissa is at least -1074;
   * otherwise it comes back as zero. Zero and the infinities always come back. The decoder takes as many octets as
   * were written and leaves what follows.
   */
  lemma DecRealEncReal(v: AsnReal, rest: seq<byte>)
    requires IsDouble(v)
    ensures
      var e := EncReal(v);
      && |e| <= 11 && Needed(e + rest, |e|) == |e|
      && var d := DecReal(e + rest, |e|);
         && d.Got? && d.n == |e| && d.rest == rest
         && (SameValue(d.value, v) <==> Recoverable(v))
         && (!Recoverable(v) ==> d.value == Finite(v.neg, 0, 0))
  {
    hide Val, TwosComplement, Mantissa, MantissaOf, EncInt, Significand, Exponent, BinaryReal, SameNumber, Scaled,
      Times, Power, DecReal, EncReal;
    if v.Finite? && v.num > 0 {
      FiniteRead(v, rest);
    } else {
      DecSpecial(v, rest);
    }
  }

  lemma FiniteRead(v: AsnReal, rest: seq<byte>)
    requires IsDouble(v) && v.Finite? && v.num > 0
    ensures
      var e := EncReal(v);
      && |e| <= 11 && Needed(e + rest, |e|) == |e|
      && var d := DecReal(e + rest, |e|);
         && d.Got? && d.n == |e| && d.rest == rest
         && (SameValue(d.value, v) <==> Recoverable(v))
         && (!Recoverable(v) ==> d.value == Finite(v.neg, 0, 0))
  {
    hide Val, TwosComplement, Mantissa, MantissaOf, EncInt, Significand, Exponent, BinaryReal, SameNumber, Scaled,
      DecReal;
    var m := Significand(v);
    var mantissa := Mantissa(m);
    var exponent := WrittenExponent(v);
    ShortExponent(exponent);
    MantissaDenotes(m);
    MantissaSize(m);
    WrittenIsValue(v);
    EncIntDenotes(exponent);
    DecBinary(v.neg, EncInt(exponent), mantissa, rest);
    MantissaRead(m);
    NoScaling(MantissaOf(mantissa), Val(mantissa));
    Product(v, Scaled(MantissaOf(mantissa), 0), Val(mantissa), exponent);
    NeverZero(v);
    RoundNothing(Scaled(MantissaOf(mantissa), 0).exp);
  }

  lemma NeverZero(v: AsnReal)
    requires v.Finite? && v.num > 0
    ensures !SameNumber(0, 0, v.num, v.exp)
  {
    NotZero(v.num, Pow2(Max0(v.exp - 0)));
  }

  lemma DecSpecial(v: AsnReal, rest: seq<byte>)
    requires IsDouble(v) && (v.Finite? ==> v.num == 0)
    ensures
      var e := EncReal(v);
      && |e| <= 1 && Needed(e + rest, |e|) == |e|
      && var d := DecReal(e + rest, |e|);
         d.Got? && d.n == |e| && d.rest == rest && SameValue(d.value, v)
  {
    hide MantissaOf, Scaled, Times, Power, TwosComplement, Significand, Exponent, BinaryReal;
    assert (EncReal(v) + rest)[|EncReal(v)|..] == rest;
  }

  lemma DecBinary(neg: bool, expo: seq<byte>, mantissa: seq<byte>, rest: seq<byte>)
    requires 1 <= |expo| <= 2 && mantissa != [] && |mantissa| <= 8
    ensures
      var e := BinaryReal(neg, expo, mantissa);
      && |e| == 1 + |expo| + |mantissa| && Needed(e + rest, |e|) == |e|
      && DecReal(e + rest, |e|)
         == Got(Signed(neg, Times(Scaled(MantissaOf(mantissa), 0), Power(TwosComplement(expo)))), |e|, rest)
  {
    hide MantissaOf, Scaled, Times, Power, TwosComplement, FirstOctet, DecReal, Needed, BaseLog, ExpLen;
    FirstOctetParts(neg, |expo|);
    var e := BinaryReal(neg, expo, mantissa);
    var s := e + rest;
    assert s == [FirstOctet(neg, |expo|)] + expo + mantissa + rest;
    assert s[1..1 + |expo|] == expo && s[1 + |expo|..|e|] == mantissa && s[|e|..] == rest;
    DecParts(s, |e|, |expo|);
  }

  /** What a binary first octet without scaling makes of the octets. */
  lemma DecParts(s: seq<byte>, len: nat, k: nat)
    requires 1 + k < len <= |s| && len < 20 && s[0] >= REAL_BINARY
    requires ExpLen(s[0]) == k && s[0] % 4 != 3 && s[0] / 4 % 4 == 0 && s[0] / 16 % 4 == 0
    ensures Needed(s, len) == len
    ensures
      var product := Times(Scaled(MantissaOf(s[1 + k..len]), 0), Power(TwosComplement(s[1..1 + k])));
      DecReal(s, len) == Got(Signed(s[0] / 64 % 2 == 1, product), len, s[len..])
  {
    hide MantissaOf, Scaled, Times, Power, TwosComplement;
  }

  lemma ShortExponent(n: AsnInt)
    requires -0x8000 <= n < 0x8000
    ensures 1 <= |EncInt(n)| <= 2
  {
  }

  /** Every double of at least `2^-1019` comes back. */
  lemma LargeEnough(v: AsnReal)
    requires IsDouble(v) && v.Finite? && v.num > 0 && Exponent(v) >= -1018
    ensures Recoverable(v)
  {
    MantissaSize(Significand(v));
  }

  /** What the decoder makes of the octets that were written. */
  ghost function ReadBack(v: AsnReal): Dec<AsnReal>
    requires IsDouble(v)
  {
    WholeNeeded(v);
    DecReal(EncReal(v), |EncReal(v)|)
  }

  lemma WholeNeeded(v: AsnReal)
    requires IsDouble(v)
    ensures Needed(EncReal(v), |EncReal(v)|) <= |EncReal(v)|
  {
    hide EncReal, Needed, DecReal;
    DecRealEncReal(v, []);
    assert EncReal(v) + [] == EncReal(v);
  }

  /** The smallest double does not. */
  lemma SmallestIsLost()
    ensures
      var v := Finite(false, 1, -1074);
      IsDouble(v) && !Recoverable(v) && ReadBack(v) == Got(Finite(false, 0, 0), |EncReal(v)|, [])
  {
    hide Mantissa, ReadBack, EncReal;
    var v := Finite(false, 1, -1074);
    if Shift(1) < 52 {
      Pow2Grows(Shift(1), 51);
      Pow2Of52();
    }
    MantissaDenotes(Significand(v));
    Lost(v);
  }

  lemma Pow2Of52()
    ensures Pow2(51) < TWO_52
  {
    PowsOf2();
    assert Pow2(52) == 2 * Pow2(51) && Pow2(53) == 2 * Pow2(52);
  }

  /** Nor does this normal one, which has seven mantissa octets. */
  lemma NormalIsLost()
    ensures
      var v := Finite(false, TWO_52 + 1, -1074);
      IsDouble(v) && !Recoverable(v) && ReadBack(v) == Got(Finite(false, 0, 0), |EncReal(v)|, [])
  {
    hide Mantissa, ReadBack, EncReal, Val;
    var v := Finite(false, TWO_52 + 1, -1074);
    Pow256AsPow2();
    var l := |Mantissa(Significand(v))|;
    MantissaDenotes(Significand(v));
    if l < 7 {
      PowsOf2();
      Pow2Octets(l);
      Pow2Add(53 - 8 * l, 8 * l);
      var n, half := Val(Mantissa(Significand(v))), Pow2(52 - 8 * l);
      MulAssoc(n, Pow2(53 - 8 * l), Pow256(l));
      Cancel(n * Pow2(53 - 8 * l), TWO_52 + 1, Pow256(l));
      EvenProduct(n, half);
      assert false;
    }
    Lost(v);
  }

  lemma EvenProduct(n: nat, half: nat)
    ensures n * (2 * half) % 2 == 0
  {
    assert n * (2 * half) == 2 * (n * half);
  }

  lemma Lost(v: AsnReal)
    requires IsDouble(v) && !Recoverable(v)
    ensures ReadBack(v) == Got(Finite(v.neg, 0, 0), |EncReal(v)|, [])
  {
    hide DecReal, EncReal, Needed, Recoverable;
    DecRealEncReal(v, []);
    assert EncReal(v) + [] == EncReal(v);
  }

  /** The contents of the special values, and of zero. */
  lemma SpecialContents(neg: bool, exp: int)
    requires -1074 <= exp <= 971
    ensures EncReal(PlusInfinity) == [0x40] && EncReal(MinusInfinity) == [0x41] && EncReal(Finite(neg, 0, exp)) == []
  {
  }

  /**
   * What section 8.5 asks of the form: base 2 with an exponent of the fewest octets, no scaling, and a mantissa
   * without a trailing zero octet.
   */
  lemma FormIsMinimal(v: AsnReal)
    requires IsDouble(v) && v.Finite? && v.num > 0
    ensures
      var mantissa := Mantissa(Significand(v));
      var exponent := Exponent(v) - 8 * |mantissa|;
      && EncReal(v) == [0x80 + (if v.neg then 0x40 else 0) + |EncInt(exponent)| - 1] + EncInt(exponent) + mantissa
      && mantissa != [] && mantissa[0] >= 0x80 && mantissa[|mantissa| - 1] != 0
      && forall s: seq<byte> :: s != [] && TwosComplement(s) == exponent ==> |s| >= |EncInt(exponent)|
  {
    hide Val, TwosComplement, EncInt, Mantissa, Significand, Exponent;
    var m := Significand(v);
    var mantissa := Mantissa(m);
    var exponent := Exponent(v) - 8 * |mantissa|;
    MantissaDenotes(m);
    ShortExponent(exponent);
    EncIntShortest(exponent);
    LeadingOctet(m);
  }

  lemma LeadingOctet(m: nat)
    requires TWO_52 <= m < TWO_53
    ensures Mantissa(m) != [] && Mantissa(m)[0] >= 0x80
  {
    hide Val, Be, TrimZeros;
    MantissaDenotes(m);
    PowsOf2();
    TopOctet(m * 0x800, Pow256(7));
    BeCons(m * 0x800, 7);
  }

  lemma TopOctet(n: nat, p: nat)
    requires p > 0 && 128 * p <= n < 256 * p
    ensures 128 <= n / p % 256
  {
    DivBounds(n, p, 128, 256);
  }

  /** Through blocks of any size a double comes back, or comes back as zero, in the same way. */
  method EncodeAndDecode(v: AsnReal, blkSize: nat) returns (r: Result<AsnReal>, written: nat, n: nat)
    requires IsDouble(v) && blkSize >= 1
    ensures r.Ok? && written == n == |EncReal(v)|
    ensures SameValue(r.value, v) <==> Recoverable(v)
    ensures !Recoverable(v) ==> r.value == Finite(v.neg, 0, 0)
  {
    hide BufHandle.WriteValid, BufHandle.ReadValid, EncReal, DecReal, SameValue, Needed, Recoverable;
    var b := new BufHandle(blkSize);
    written := BEncAsnRealContent(b, v);
    b.StartRead();
    assert EncReal(v) + [] == EncReal(v);
    DecRealEncReal(v, []);
    r, n := BDecAsnRealContent(b, written, 0);
  }
}

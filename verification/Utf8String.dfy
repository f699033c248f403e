/** Converting between wide characters and UTF-8 in the six-octet scheme of RFC 2279. */
module Utf8Strings {
  import opened Octets

  /** The first octet of a form begins with the bits `value` under `mask`. */
  datatype MaskValue = MaskValue(mask: byte, value: byte, maxCharValue: nat)

  const MAX_UTF8_OCTS_PER_CHAR := 6

  const gUTF8Masks: seq<MaskValue> := [
    MaskValue(0x80, 0x00, 0x0000_007F),
    MaskValue(0xE0, 0xC0, 0x0000_07FF),
    MaskValue(0xF0, 0xE0, 0x0000_FFFF),
    MaskValue(0xF8, 0xF0, 0x0001_FFFF),
    MaskValue(0xFC, 0xF8, 0x03FF_FFFF),
    MaskValue(0xFE, 0xFC, 0x07FF_FFFF)]

  /** `~mask & octet`; every mask has its ones in front. */
  function Payload(mask: byte, octet: byte): byte
  {
    octet % (256 - mask)
  }

  /** `(mask & octet) == value` */
  predicate Matches(m: MaskValue, octet: byte)
  {
    octet - Payload(m.mask, octet) == m.value
  }

  /** The number of octets that follow the first; `MAX_UTF8_OCTS_PER_CHAR` after an octet that cannot be first. */
  function Followers(octet: byte): (j: nat)
    ensures j <= 6
  {
    if octet < 0x80 then 0
    else if octet < 0xC0 then 6
    else if octet < 0xE0 then 1
    else if octet < 0xF0 then 2
    else if octet < 0xF8 then 3
    else if octet < 0xFC then 4
    else if octet < 0xFE then 5
    else 6
  }

  lemma FollowersByMask(octet: byte, j: nat)
    requires j < 6
    ensures Matches(gUTF8Masks[j], octet) <==> Followers(octet) == j
  {
  }

  predicate IsFollower(octet: byte)
  {
    octet / 64 == 2
  }

  /** The character whose leading bits are `head`, with six bits from each following octet. */
  function Cont(head: nat, tail: seq<byte>): nat
  {
    if tail == [] then head else Cont(head, tail[..|tail| - 1]) * 64 + tail[|tail| - 1] % 64
  }

  /** The leading octets form a character: how many are they? */
  predicate StartsChar(s: seq<byte>)
  {
    && s != [] && Followers(s[0]) < 6 && Followers(s[0]) < |s|
    && forall k :: 1 <= k <= Followers(s[0]) ==> IsFollower(s[k])
  }

  function FirstChar(s: seq<byte>): nat
    requires StartsChar(s)
  {
    Cont(Payload(gUTF8Masks[Followers(s[0])].mask, s[0]), s[1..Followers(s[0]) + 1])
  }

  function Pow64(k: nat): nat
  {
    if k == 0 then 1 else 64 * Pow64(k - 1)
  }

  lemma Pow64Values()
    ensures Pow64(0) == 1 && Pow64(1) == 64 && Pow64(2) == 0x1000
    ensures Pow64(3) == 0x4_0000 && Pow64(4) == 0x100_0000 && Pow64(5) == 0x4000_0000
  {
    assert Pow64(1) == 64 && Pow64(2) == 64 * Pow64(1) && Pow64(3) == 64 * Pow64(2);
    assert Pow64(4) == 64 * Pow64(3) && Pow64(5) == 64 * Pow64(4);
  }

  lemma {:induction false} HeadBound(c: nat, j: nat, b: nat)
    requires c < b * Pow64(j)
    ensures Head(c, j) < b
  {
    if j > 0 {
      assert b * Pow64(j) == 64 * (b * Pow64(j - 1));
      HeadBound(c / 64, j - 1, b);
    }
  }

  lemma {:induction false} ContBound(head: nat, tail: seq<byte>, b: nat)
    requires head < b
    ensures Cont(head, tail) < b * Pow64(|tail|)
  {
    if tail != [] {
      var k := |tail| - 1;
      ContBound(head, tail[..k], b);
      assert b * Pow64(|tail|) == 64 * (b * Pow64(k));
    }
  }

  /** Every decoded character fits a non-negative 32-bit `wchar_t`. */
  lemma FirstCharFits(s: seq<byte>)
    requires StartsChar(s)
    ensures FirstChar(s) < TWO_31
  {
    var j := Followers(s[0]);
    ContBound(Payload(gUTF8Masks[j].mask, s[0]), s[1..j + 1], 256 - gUTF8Masks[j].mask);
    Pow64Values();
    assert (256 - gUTF8Masks[j].mask) * Pow64(j) <= TWO_31;
  }

  /** The characters that the octets stand for, if they are well formed. */
  function Decode(s: seq<byte>): Option<seq<nat>>
  {
    if s == [] then Some([])
    else if !StartsChar(s) then None
    else
      match Decode(s[Followers(s[0]) + 1..])
      case None => None
      case Some(rest) => Some([FirstChar(s)] + rest)
  }

  /** The octets of one character, by their values: how many octets follow the first one, and what all of them are. */
  predicate IsChar(t: seq<int>)
  {
    && (forall k :: 1 <= k < |t| ==> 0x80 <= t[k] <= 0xBF)
    && match |t|
       case 1 => 0 <= t[0] <= 0x7F
       case 2 => 0xC0 <= t[0] <= 0xDF
       case 3 => 0xE0 <= t[0] <= 0xEF
       case 4 => 0xF0 <= t[0] <= 0xF7
       case 5 => 0xF8 <= t[0] <= 0xFB
       case 6 => 0xFC <= t[0] <= 0xFD
       case _ => false
  }

  /** The bits behind the marks, most significant first. */
  function CharValue(t: seq<int>): int
    requires IsChar(t)
  {
    match |t|
    case 1 => t[0]
    case 2 => (t[0] - 0xC0) * 0x40 + (t[1] - 0x80)
    case 3 => (t[0] - 0xE0) * 0x1000 + (t[1] - 0x80) * 0x40 + (t[2] - 0x80)
    case 4 => (t[0] - 0xF0) * 0x4_0000 + (t[1] - 0x80) * 0x1000 + (t[2] - 0x80) * 0x40 + (t[3] - 0x80)
    case 5 =>
      (t[0] - 0xF8) * 0x100_0000 + (t[1] - 0x80) * 0x4_0000 + (t[2] - 0x80) * 0x1000 + (t[3] - 0x80) * 0x40 +
      (t[4] - 0x80)
    case _ =>
      (t[0] - 0xFC) * 0x4000_0000 + (t[1] - 0x80) * 0x100_0000 + (t[2] - 0x80) * 0x4_0000 + (t[3] - 0x80) * 0x1000 +
      (t[4] - 0x80) * 0x40 + (t[5] - 0x80)
  }

  function Joined(chars: seq<seq<byte>>): seq<byte>
  {
    if chars == [] then [] else chars[0] + Joined(chars[1..])
  }

  /** The octets are those of the characters `cs`, one after the other. */
  ghost predicate Spells(s: seq<byte>, chars: seq<seq<byte>>, cs: seq<nat>)
  {
    && Joined(chars) == s && |chars| == |cs|
    && forall k :: 0 <= k < |cs| ==> IsChar(chars[k]) && CharValue(chars[k]) == cs[k]
  }

  lemma StartsIff(s: seq<byte>, n: nat)
    requires n <= |s|
    ensures IsChar(s[..n]) <==> StartsChar(s) && n == Followers(s[0]) + 1
  {
    if n > 0 {
      assert forall k :: 1 <= k < n ==> s[..n][k] == s[k];
      assert forall k :: 1 <= k < n ==> (IsFollower(s[k]) <==> 0x80 <= s[k] <= 0xBF);
    }
  }

  lemma FirstCharIs(s: seq<byte>)
    requires StartsChar(s)
    ensures IsChar(s[..Followers(s[0]) + 1]) && FirstChar(s) == CharValue(s[..Followers(s[0]) + 1])
  {
    hide IsChar, CharValue, Cont, Payload, IsFollower;
    var n := Followers(s[0]) + 1;
    StartsIff(s, n);
    HeadValue(s[0]);
    assert s[1..n] == s[..n][1..];
    CharParts(s[..n], s[0] - FirstMark(n));
    TailInRange(s[..n]);
    ContValue(s[0] - FirstMark(n), s[..n][1..]);
  }

  /** The bits that mark the first of `n` octets. */
  function FirstMark(n: nat): int
  {
    match n
    case 1 => 0
    case 2 => 0xC0
    case 3 => 0xE0
    case 4 => 0xF0
    case 5 => 0xF8
    case _ => 0xFC
  }

  lemma HeadValue(octet: byte)
    requires Followers(octet) < 6
    ensures Payload(gUTF8Masks[Followers(octet)].mask, octet) == octet - FirstMark(Followers(octet) + 1)
    ensures octet >= FirstMark(Followers(octet) + 1)
  {
  }

  lemma TailInRange(t: seq<int>)
    requires IsChar(t)
    ensures 1 <= |t| <= 6 && forall k :: 0 <= k < |t| - 1 ==> 0x80 <= t[1..][k] <= 0xBF
  {
  }

  lemma CharParts(t: seq<int>, head: int)
    requires IsChar(t) && head == t[0] - FirstMark(|t|)
    ensures CharValue(t) == TailValue(head, t[1..])
  {
  }

  /** Six bits from each octet. */
  function TailValue(head: int, d: seq<int>): int
  {
    match |d|
    case 0 => head
    case 1 => head * 0x40 + (d[0] - 0x80)
    case 2 => head * 0x1000 + (d[0] - 0x80) * 0x40 + (d[1] - 0x80)
    case 3 => head * 0x4_0000 + (d[0] - 0x80) * 0x1000 + (d[1] - 0x80) * 0x40 + (d[2] - 0x80)
    case 4 =>
      head * 0x100_0000 + (d[0] - 0x80) * 0x4_0000 + (d[1] - 0x80) * 0x1000 + (d[2] - 0x80) * 0x40 + (d[3] - 0x80)
    case 5 =>
      head * 0x4000_0000 + (d[0] - 0x80) * 0x100_0000 + (d[1] - 0x80) * 0x4_0000 + (d[2] - 0x80) * 0x1000 +
      (d[3] - 0x80) * 0x40 + (d[4] - 0x80)
    case _ => 0
  }

  lemma {:induction false} ContValue(head: nat, tail: seq<byte>)
    requires |tail| <= 5 && forall k :: 0 <= k < |tail| ==> 0x80 <= tail[k] <= 0xBF
    ensures Cont(head, tail) == TailValue(head, tail)
    decreases |tail|
  {
    if tail != [] {
      ContValue(head, tail[..|tail| - 1]);
      assert tail[|tail| - 1] % 64 == tail[|tail| - 1] as int - 0x80;
    }
  }

  /** What `Decode` accepts, and as what. */
  lemma {:induction false} DecodeIff(s: seq<byte>, cs: seq<nat>)
    ensures Decode(s) == Some(cs) <==> exists chars :: Spells(s, chars, cs)
    decreases |s|
  {
    hide IsChar, StartsChar, CharValue, FirstChar, Followers;
    if Decode(s) == Some(cs) {
      var chars := SpelledOut(s, cs);
    } else if chars :| Spells(s, chars, cs) {
      SpelledIsDecoded(s, chars, cs);
    }
  }

  lemma ValidIff(s: seq<byte>)
    ensures Decode(s).Some? <==> exists cs, chars :: Spells(s, chars, cs)
  {
    hide Spells, Decode;
    if Decode(s).Some? {
      DecodeIff(s, Decode(s).value);
    } else if cs, chars :| Spells(s, chars, cs) {
      DecodeIff(s, cs);
    }
  }

  lemma {:induction false} SpelledOut(s: seq<byte>, cs: seq<nat>) returns (chars: seq<seq<byte>>)
    requires Decode(s) == Some(cs)
    ensures Spells(s, chars, cs)
    decreases |s|
  {
    hide IsChar, StartsChar, CharValue, FirstChar, Followers;
    chars := [];
    if s != [] {
      var n := Followers(s[0]) + 1;
      LongEnough(s);
      FirstCharIs(s);
      var rest := SpelledOut(s[n..], cs[1..]);
      chars := [s[..n]] + rest;
      assert chars[1..] == rest && s[..n] + s[n..] == s;
    }
  }

  lemma LongEnough(s: seq<byte>)
    requires StartsChar(s)
    ensures s != [] && Followers(s[0]) + 1 <= |s|
  {
  }

  lemma {:induction false} SpelledIsDecoded(s: seq<byte>, chars: seq<seq<byte>>, cs: seq<nat>)
    requires Spells(s, chars, cs)
    ensures Decode(s) == Some(cs)
    decreases |cs|
  {
    hide IsChar, StartsChar, CharValue, FirstChar, Followers;
    if cs != [] {
      var n := |chars[0]|;
      assert s[..n] == chars[0] && s[n..] == Joined(chars[1..]);
      StartsIff(s, n);
      FirstCharIs(s);
      assert forall k :: 0 <= k < |cs| - 1 ==> chars[1..][k] == chars[k + 1] && cs[1..][k] == cs[k + 1];
      SpelledIsDecoded(s[n..], chars[1..], cs[1..]);
      assert [cs[0]] + cs[1..] == cs;
    }
  }

  /** The form for a character: the first that the table allows. */
  function Form(c: int): (j: nat)
    ensures j <= 6 && (j < 6 ==> c <= gUTF8Masks[j].maxCharValue)
    ensures forall k :: 0 <= k < j ==> c > gUTF8Masks[k].maxCharValue
  {
    if c <= 0x7F then 0
    else if c <= 0x7FF then 1
    else if c <= 0xFFFF then 2
    else if c <= 0x1_FFFF then 3
    else if c <= 0x3FF_FFFF then 4
    else if c <= 0x7FF_FFFF then 5
    else 6
  }

  /** `c >> 6 * j` */
  function Head(c: nat, j: nat): nat
  {
    if j == 0 then c else Head(c / 64, j - 1)
  }

  function Tail(c: nat, j: nat): (s: seq<byte>)
    ensures |s| == j
  {
    if j == 0 then [] else Tail(c / 64, j - 1) + [128 + c % 64]
  }

  /** The characters the converter accepts. */
  predicate Encodable(c: int)
  {
    0 <= c <= 0x07FF_FFFF
  }

  function EncodeChar(c: int): seq<byte>
    requires Encodable(c)
  {
    HeadFits(c);
    FirstOctet(Form(c), Head(c, Form(c)));
    [gUTF8Masks[Form(c)].value + Head(c, Form(c))] + Tail(c, Form(c))
  }

  function Encode(cs: seq<int>): seq<byte>
    requires forall i :: 0 <= i < |cs| ==> Encodable(cs[i])
  {
    if cs == [] then [] else Encode(cs[..|cs| - 1]) + EncodeChar(cs[|cs| - 1])
  }

  lemma HeadFits(c: int)
    requires Encodable(c)
    ensures Head(c, Form(c)) < 256 - gUTF8Masks[Form(c)].mask
  {
    var j := Form(c);
    Pow64Values();
    assert c < (256 - gUTF8Masks[j].mask) * Pow64(j);
    HeadBound(c, j, 256 - gUTF8Masks[j].mask);
  }

  lemma {:induction false} ContHeadTail(c: nat, j: nat)
    ensures Cont(Head(c, j), Tail(c, j)) == c
    ensures forall k :: 0 <= k < j ==> IsFollower(Tail(c, j)[k])
  {
    if j > 0 {
      ContHeadTail(c / 64, j - 1);
      var t := Tail(c, j);
      assert t[..|t| - 1] == Tail(c / 64, j - 1);
    }
  }

  lemma FirstOctet(j: nat, head: nat)
    requires j < 6 && head < 256 - gUTF8Masks[j].mask
    ensures 0 <= gUTF8Masks[j].value + head < 256 && (gUTF8Masks[j].value + head == 0 ==> j == 0 && head == 0)
    ensures Followers(gUTF8Masks[j].value + head) == j
    ensures Payload(gUTF8Masks[j].mask, gUTF8Masks[j].value + head) == head
  {
  }

  /** One character, and whatever follows it. */
  lemma DecodeChar(c: int, rest: seq<byte>)
    requires Encodable(c)
    ensures StartsChar(EncodeChar(c) + rest) && FirstChar(EncodeChar(c) + rest) == c
    ensures (EncodeChar(c) + rest)[Followers((EncodeChar(c) + rest)[0]) + 1..] == rest
    ensures |EncodeChar(c)| == Form(c) + 1 <= 6
  {
    hide Followers, Payload, Form, Head, Tail, Cont, IsFollower;
    var j := Form(c);
    var s := EncodeChar(c) + rest;
    HeadFits(c);
    FormBelow(c);
    FirstOctet(j, Head(c, j));
    ContHeadTail(c, j);
    assert s[1..j + 1] == Tail(c, j);
    forall k | 1 <= k <= j
      ensures IsFollower(s[k])
    {
      assert s[k] == Tail(c, j)[k - 1];
    }
  }

  lemma FormBelow(c: int)
    ensures Encodable(c) && c >= 0 ==> Form(c) < 6
    ensures c > 0x7FF_FFFF ==> Form(c) == 6
  {
  }

  ghost predicate AllEncodable(cs: seq<int>)
  {
    forall i :: 0 <= i < |cs| ==> Encodable(cs[i])
  }

  lemma {:induction false} EncodeFront(cs: seq<int>)
    requires cs != [] && AllEncodable(cs)
    ensures Encode(cs) == EncodeChar(cs[0]) + Encode(cs[1..])
  {
    hide EncodeChar;
    if |cs| == 1 {
      assert Encode(cs[..0]) == [] && Encode(cs[1..]) == [];
    } else {
      var init := cs[..|cs| - 1];
      EncodeFront(init);
      assert init[1..] == cs[1..][..|cs| - 2];
    }
  }

  /** Decoding inverts encoding, and no character takes more than six octets. */
  lemma {:induction false} DecodeEncode(cs: seq<int>)
    requires AllEncodable(cs)
    ensures Decode(Encode(cs)) == Some(cs) && |Encode(cs)| <= 6 * |cs|
  {
    hide EncodeChar, StartsChar, FirstChar, Followers;
    if cs != [] {
      EncodeFront(cs);
      DecodeChar(cs[0], Encode(cs[1..]));
      DecodeEncode(cs[1..]);
      assert [cs[0]] + cs[1..] == cs;
    }
  }

  lemma {:induction false} TailNoNul(c: nat, j: nat)
    ensures 0 !in Tail(c, j)
  {
    if j > 0 {
      TailNoNul(c / 64, j - 1);
    }
  }

  /** The text has no NUL octet unless it has a NUL character. */
  lemma {:induction false} EncodeNoNul(cs: seq<int>)
    requires AllEncodable(cs) && 0 !in cs
    ensures 0 !in Encode(cs)
  {
    if cs != [] {
      var c := cs[|cs| - 1];
      EncodeNoNul(cs[..|cs| - 1]);
      HeadFits(c);
      FirstOctet(Form(c), Head(c, Form(c)));
      TailNoNul(c, Form(c));
      assert c in cs && Head(c, 0) == c;
    }
  }

  /** `strlen`, for a string whose terminator is the first NUL or else follows it. */
  function Strlen(s: seq<int>): (n: nat)
    ensures n <= |s| && 0 !in s[..n] && (n < |s| ==> s[n] == 0)
  {
    if s == [] || s[0] == 0 then 0 else
      assert s[1..][..Strlen(s[1..])] == s[..1 + Strlen(s[1..])][1..];
      1 + Strlen(s[1..])
  }

  /** `CvtUTF8towchar` reads back what `CvtWchar2UTF8` wrote, before whatever follows the terminator. */
  lemma Inverse(cs: seq<int>, n: nat)
    requires AllEncodable(cs) && 0 !in cs
    ensures
      var s := Encode(cs) + seq(n + 1, _ => 0);
      Strlen(s) == |Encode(cs)| && Decode(s[..Strlen(s)]) == Some(cs)
  {
    var e, s := Encode(cs), Encode(cs) + seq(n + 1, _ => 0);
    EncodeNoNul(cs);
    DecodeEncode(cs);
    StrlenOf(e, seq(n + 1, _ => 0));
    assert s[..|e|] == e;
  }

  lemma {:induction false} StrlenOf(s: seq<int>, rest: seq<int>)
    requires 0 !in s && rest != [] && rest[0] == 0
    ensures Strlen(s + rest) == |s|
  {
    if s == [] {
      assert s + rest == rest;
    } else {
      assert (s + rest)[1..] == s[1..] + rest && s[0] in s;
      StrlenOf(s[1..], rest);
    }
  }

  /** The octets the scheme itself would use for a character. */
  function OctetsByRfc2279(c: nat): nat
  {
    if c <= 0x7F then 1 else if c <= 0x7FF then 2 else if c <= 0xFFFF then 3
    else if c <= 0x1F_FFFF then 4 else if c <= 0x3FF_FFFF then 5 else 6
  }

  /** The table's own limit for four octets makes some characters longer than need be. */
  lemma ShortestIff(c: int)
    requires Encodable(c)
    ensures |EncodeChar(c)| == OctetsByRfc2279(c) <==> !(0x2_0000 <= c <= 0x1F_FFFF)
  {
    HeadFits(c);
  }

  /** The number of octets that follow the first, by the table. */
  method CountFollowers(octet: byte) returns (j: nat)
    ensures j == Followers(octet)
  {
    j := 0;
    while j < MAX_UTF8_OCTS_PER_CHAR && !Matches(gUTF8Masks[j], octet)
      invariant j <= Followers(octet)
    {
      FollowersByMask(octet, j);
      j := j + 1;
    }
    if j < MAX_UTF8_OCTS_PER_CHAR {
      FollowersByMask(octet, j);
    }
  }

  /** Whether the octets are well formed. */
  method IsValidUTF8String(octs: seq<byte>) returns (ok: bool)
    ensures ok <==> Decode(octs).Some?
    ensures ok <==> exists cs, chars :: Spells(octs, chars, cs)
  {
    hide Followers, FirstChar, IsFollower, Spells;
    ValidIff(octs);
    var i := 0;
    while i < |octs|
      invariant i <= |octs| && (Decode(octs).Some? <==> Decode(octs[i..]).Some?)
      decreases |octs| - i
    {
      ghost var rest := octs[i..];
      var j := CountFollowers(octs[i]);
      if j == MAX_UTF8_OCTS_PER_CHAR || i + j >= |octs| {
        return false;
      }
      ghost var first, n := i, j;
      i := i + 1;
      while j > 0
        invariant 0 <= j <= n < |rest| && i == first + 1 + n - j
        invariant forall k :: 1 <= k <= n - j ==> IsFollower(rest[k])
        decreases j
      {
        assert octs[i] == rest[n - j + 1];
        if octs[i] / 64 != 2 {
          NotFollower(octs[i]);
          return false;
        }
        NotFollower(octs[i]);
        i := i + 1;
        j := j - 1;
      }
      assert rest[n + 1..] == octs[i..];
    }
    assert octs[i..] == [];
    return true;
  }

  lemma NotFollower(octet: byte)
    ensures IsFollower(octet) <==> octet / 64 == 2
  {
  }

  lemma ContNext(head: nat, rest: seq<byte>, k: nat)
    requires k + 1 < |rest|
    ensures Cont(head, rest[1..k + 2]) == Cont(head, rest[1..k + 1]) * 64 + rest[k + 1] % 64
  {
    assert rest[1..k + 2][..k] == rest[1..k + 1];
  }

  /** One character: the bits of the first octet, and six from each of the `j` that follow. */
  method CvtChar(utf8Str: seq<byte>, len: nat, from: nat, given: nat, outStr: array<int>, x: nat)
    returns (ok: bool, i: nat)
    requires from < len <= |utf8Str| && given == Followers(utf8Str[from]) < 6 && from + given < len && x < outStr.Length
    modifies outStr
    ensures ok <==> StartsChar(utf8Str[from..len])
    ensures forall k :: 0 <= k < outStr.Length && k != x ==> outStr[k] == old(outStr[k])
    ensures ok ==> i == from + given + 1 && outStr[x] == FirstChar(utf8Str[from..len])
  {
    hide Followers, IsFollower, Payload, Cont;
    ghost var rest := utf8Str[from..len];
    ghost var head := Payload(gUTF8Masks[given].mask, utf8Str[from]);
    var j := given;
    i := from;
    outStr[x] := Payload(gUTF8Masks[j].mask, utf8Str[i]);
    i := i + 1;
    ContNone(head, rest);
    while j > 0
      invariant j <= given && i == from + 1 + given - j
      invariant forall k :: 1 <= k <= given - j ==> IsFollower(rest[k])
      invariant outStr[x] == Cont(head, rest[1..given - j + 1])
      invariant forall k :: 0 <= k < outStr.Length && k != x ==> outStr[k] == old(outStr[k])
      decreases j
    {
      NotFollower(utf8Str[i]);
      assert utf8Str[i] == rest[given - j + 1];
      if utf8Str[i] / 64 != 2 {
        return false, i;
      }
      ContNext(head, rest, given - j);
      outStr[x] := outStr[x] * 64 + utf8Str[i] % 64;
      i := i + 1;
      j := j - 1;
    }
    return true, i;
  }

  /** The wide characters of a UTF-8 string and a terminator, or -3 and no string. */
  method CvtUTF8towchar(utf8Str: seq<byte>) returns (rc: int, outStr: array?<int>)
    ensures
      match Decode(utf8Str[..Strlen(utf8Str)])
      case Some(cs) => rc == 0 && outStr != null && fresh(outStr) && outStr[..] == cs + [0]
      case None => rc == -3 && outStr == null
  {
    hide StartsChar, FirstChar, Followers, Strlen;
    var len := Strlen(utf8Str);
    ghost var s := utf8Str[..len];
    outStr := new int[len + 1](_ => 0);
    var i, x := 0, 0;
    assert s[0..] == s && outStr[..0] == [];
    DecodesStart(s);
    while i < len
      invariant i <= len && x <= i && fresh(outStr) && outStr.Length == len + 1
      invariant forall k :: x <= k <= len ==> outStr[k] == 0
      invariant DecodesOn(s, outStr[..x], s[i..])
      decreases len - i
    {
      ghost var rest, done := s[i..], outStr[..x];
      assert rest == utf8Str[i..len];
      Starts(rest);
      var j := CountFollowers(utf8Str[i]);
      if j == MAX_UTF8_OCTS_PER_CHAR || i + j >= len {
        return -3, null;
      }
      var ok;
      ok, i := CvtChar(utf8Str, len, i, j, outStr, x);
      if !ok {
        return -3, null;
      }
      assert rest[j + 1..] == s[i..];
      x := x + 1;
      assert outStr[..x] == done + [FirstChar(rest)];
      DecodesNext(s, done, rest);
    }
    assert s[i..] == [] && outStr[..x] + [] == outStr[..x];
    if x < len {
      outStr := Realloc(outStr, x);
    } else {
      assert outStr[..] == outStr[..x] + [0];
    }
    return 0, outStr;
  }

  /** What is still to be decoded decides about the whole. */
  ghost predicate DecodesOn(s: seq<byte>, done: seq<int>, rest: seq<byte>)
  {
    match Decode(rest)
    case Some(cs) => Decode(s) == Some(done + cs)
    case None => Decode(s) == None
  }

  lemma Starts(rest: seq<byte>)
    requires rest != []
    ensures Followers(rest[0]) == 6 || Followers(rest[0]) >= |rest| ==> !StartsChar(rest)
    ensures !StartsChar(rest) ==> Decode(rest) == None
    ensures StartsChar(rest) ==> Followers(rest[0]) < |rest|
  {
  }

  lemma DecodesStart(s: seq<byte>)
    ensures DecodesOn(s, [], s)
  {
    match Decode(s) {
      case None =>
      case Some(cs) => assert [] + cs == cs;
    }
  }

  lemma DecodesNext(s: seq<byte>, done: seq<int>, rest: seq<byte>)
    requires rest != [] && StartsChar(rest) && DecodesOn(s, done, rest)
    ensures DecodesOn(s, done + [FirstChar(rest)], rest[Followers(rest[0]) + 1..])
  {
    hide FirstChar, Followers;
    match Decode(rest[Followers(rest[0]) + 1..]) {
      case None =>
      case Some(more) => assert done + ([FirstChar(rest)] + more) == done + [FirstChar(rest)] + more;
    }
  }

  /** Cuts the string down to `x` characters and the terminator. */
  method Realloc(was: array<int>, x: nat) returns (outStr: array<int>)
    requires x < was.Length && was[x] == 0
    ensures fresh(outStr) && outStr[..] == was[..x] + [0]
  {
    outStr := new int[x + 1](_ => 0);
    for k := 0 to x + 1
      invariant forall l :: 0 <= l < k ==> outStr[l] == was[l]
    {
      outStr[k] := was[k];
    }
  }

  lemma ContNone(head: nat, rest: seq<byte>)
    requires rest != []
    ensures Cont(head, rest[1..1]) == head
  {
  }

  /** The octets of a wide string, padded with NULs, or -3 and no string for a character out of range. */
  method CvtWchar2UTF8(inStr: seq<int>) returns (rc: int, utf8Str: array?<byte>)
    ensures
      var cs := inStr[..Strlen(inStr)];
      if AllEncodable(cs) then
        && rc == 0 && utf8Str != null && fresh(utf8Str) && utf8Str.Length == 6 * |cs| + 1
        && |Encode(cs)| <= 6 * |cs| && utf8Str[..] == Encode(cs) + seq(6 * |cs| + 1 - |Encode(cs)|, _ => 0)
      else rc == -3 && utf8Str == null
  {
    hide Form, EncodeChar, Strlen;
    var wLen := Strlen(inStr);
    ghost var cs := inStr[..wLen];
    utf8Str := new byte[wLen * 6 + 1](_ => 0);
    var x := 0;
    assert cs[..0] == [] && utf8Str[..0] == [];
    for i := 0 to wLen
      invariant AllEncodable(cs[..i]) && x <= 6 * i
      invariant utf8Str != null && fresh(utf8Str) && utf8Str.Length == 6 * wLen + 1
      invariant utf8Str[..x] == Encode(cs[..i])
      invariant forall k :: x <= k < utf8Str.Length ==> utf8Str[k] == 0
    {
      var temp := inStr[i];
      assert temp == cs[i];
      if temp < 0 {
        return -3, null;
      }
      var j := ChooseForm(temp);
      if j == MAX_UTF8_OCTS_PER_CHAR {
        return -3, null;
      }
      EncodeNext(cs, i);
      ghost var done := utf8Str[..x];
      PutChar(utf8Str, x, j, temp);
      x := x + j + 1;
      assert utf8Str[..x] == done + EncodeChar(temp);
    }
    assert cs[..wLen] == cs;
    assert utf8Str[..] == Encode(cs) + seq(6 * |cs| + 1 - |Encode(cs)|, _ => 0);
    return 0, utf8Str;
  }

  lemma EncodeNext(cs: seq<int>, i: nat)
    requires i < |cs| && AllEncodable(cs[..i]) && Encodable(cs[i])
    ensures AllEncodable(cs[..i + 1]) && Encode(cs[..i + 1]) == Encode(cs[..i]) + EncodeChar(cs[i])
  {
    assert cs[..i + 1][..i] == cs[..i];
  }

  /** The number of octets after the first that the character needs, by the table. */
  method ChooseForm(c: nat) returns (j: nat)
    ensures j == Form(c) && (j < 6 <==> Encodable(c))
  {
    j := 0;
    while j < MAX_UTF8_OCTS_PER_CHAR && c > gUTF8Masks[j].maxCharValue
      invariant j <= Form(c)
    {
      j := j + 1;
    }
  }

  lemma EncodeCharIs(c: int)
    requires Encodable(c)
    ensures Form(c) < 6 && 0 <= gUTF8Masks[Form(c)].value + Head(c, Form(c)) < 256
    ensures EncodeChar(c) == [gUTF8Masks[Form(c)].value + Head(c, Form(c))] + Tail(c, Form(c))
  {
    HeadFits(c);
    FirstOctet(Form(c), Head(c, Form(c)));
  }

  /** Writes the octets of a character, the following ones from right to left and then the first. */
  method PutChar(utf8Str: array<byte>, x: nat, j: nat, c: nat)
    requires Encodable(c) && j == Form(c) < 6 && x + j < utf8Str.Length
    modifies utf8Str
    ensures |EncodeChar(c)| == j + 1 && utf8Str[x..x + j + 1] == EncodeChar(c)
    ensures utf8Str[..x] == old(utf8Str[..x])
    ensures forall k :: x + j < k < utf8Str.Length ==> utf8Str[k] == old(utf8Str[k])
  {
    hide Form, EncodeChar, Followers, Payload, Tail, Head;
    EncodeCharIs(c);
    var temp, y := c, j;
    ghost var tail := Tail(c, j);
    while y > 0
      invariant 0 <= y <= j && temp >= 0 && Head(temp, y) == Head(c, j) && Tail(temp, y) == tail[..y]
      invariant forall k :: x + y < k <= x + j ==> utf8Str[k] == tail[k - x - 1]
      invariant forall k :: 0 <= k < x || x + j < k < utf8Str.Length ==> utf8Str[k] == old(utf8Str[k])
      decreases y
    {
      TailNext(temp, y, tail);
      utf8Str[x + y] := 128 + temp % 64;
      temp := temp / 64;
      y := y - 1;
    }
    HeadNone(temp);
    utf8Str[x] := gUTF8Masks[j].value + temp;
    assert utf8Str[x..x + j + 1] == [gUTF8Masks[j].value + temp] + tail;
  }

  lemma TailNext(temp: nat, y: nat, tail: seq<byte>)
    requires 0 < y <= |tail| && Tail(temp, y) == tail[..y]
    ensures tail[y - 1] == 128 + temp % 64 && Tail(temp / 64, y - 1) == tail[..y - 1]
    ensures Head(temp, y) == Head(temp / 64, y - 1)
  {
    assert tail[..y][y - 1] == tail[y - 1] && tail[..y][..y - 1] == tail[..y - 1];
  }

  lemma HeadNone(c: nat)
    ensures Head(c, 0) == c
  {
  }

  /** Both conversions in turn: every string of non-zero characters up to 0x07FFFFFF comes back. */
  method ThereAndBack(inStr: seq<int>) returns (rc: int, valid: bool, outStr: array?<int>)
    requires AllEncodable(inStr) && 0 !in inStr
    ensures rc == 0 && valid && outStr != null && outStr[..] == inStr + [0]
  {
    hide Strlen, Encode, Decode;
    StrlenWhole(inStr);
    var utf8Str;
    rc, utf8Str := CvtWchar2UTF8(inStr);
    Inverse(inStr, utf8Str.Length - 1 - |Encode(inStr)|);
    var text := utf8Str[..Strlen(utf8Str[..])];
    assert text == utf8Str[..][..Strlen(utf8Str[..])];
    valid := IsValidUTF8String(text);
    rc, outStr := CvtUTF8towchar(utf8Str[..]);
  }

  lemma StrlenWhole(s: seq<int>)
    requires 0 !in s
    ensures s[..Strlen(s)] == s
  {
  }

  /**
   * The two routines judge alike: on strings without a NUL octet, `IsValidUTF8String` accepts exactly what
   * `CvtUTF8towchar` converts, and otherwise the latter converts what precedes the first NUL.
   */
  method ValidityAgrees(octs: seq<byte>) returns (valid: bool, prefixValid: bool, rc: int, outStr: array?<int>)
    ensures prefixValid <==> rc == 0
    ensures 0 !in octs ==> (valid <==> rc == 0)
    ensures rc == 0 || (rc == -3 && outStr == null)
  {
    hide Decode;
    valid := IsValidUTF8String(octs);
    prefixValid := IsValidUTF8String(octs[..Strlen(octs)]);
    rc, outStr := CvtUTF8towchar(octs);
    if 0 !in octs {
      StrlenWhole(octs);
    }
  }
}

/** Length octets (section 8.1.3 of ITU-T X.690). */
module Lengths {
  import opened Octets
  import opened ExpBufs

  /** `~0L`: the internal representation of an indefinite length. */
  const INDEFINITE_LEN: int := 0xFFFF_FFFF

  /** The octets that `BEncDefLen` writes; the last branch keeps 32 bits. */
  function EncDefLen(len: nat): (s: seq<byte>)
  {
    if len < 128 then [len]
    else if len < 256 then [0x81, len]
    else if len < 65536 then [0x82] + Be(len, 2)
    else if len < 16777126 then [0x83] + Be(len, 3)
    else [0x84] + Be(len, 4)
  }

  method BEncDefLen(b: BufHandle, len: nat) returns (n: nat)
    requires b.WriteValid()
    modifies b.Repr
    ensures b.WriteValid() && fresh(b.Repr - old(b.Repr))
    ensures b.out == EncDefLen(len) + old(b.out)
    ensures n == |EncDefLen(len)|
  {
    hide BufHandle.WriteValid, Be;
    if len < 128 {
      b.PutByteRvs(len);
      return 1;
    } else if len < 256 {
      b.PutByteRvs(len);
      b.PutByteRvs(0x81);
      return 2;
    } else if len < 65536 {
      b.PutByteRvs(len % 256);
      b.PutByteRvs(len / 0x100 % 256);
      b.PutByteRvs(0x82);
      Be2(len);
      return 3;
    } else if len < 16777126 {
      b.PutByteRvs(len % 256);
      b.PutByteRvs(len / 0x100 % 256);
      b.PutByteRvs(len / 0x1_0000 % 256);
      b.PutByteRvs(0x83);
      Be3(len);
      return 4;
    } else {
      b.PutByteRvs(len % 256);
      b.PutByteRvs(len / 0x100 % 256);
      b.PutByteRvs(len / 0x1_0000 % 256);
      b.PutByteRvs(len / 0x100_0000 % 256);
      b.PutByteRvs(0x84);
      Be4(len);
      return 5;
    }
  }

  function DecLen(s: seq<byte>): (d: Dec<nat>)
    ensures d.Got? ==> |d.rest| < |s| && d.n == |s| - |d.rest|
  {
    if s == [] then Fail(-13)
    else if s[0] < 128 then Got(s[0], 1, s[1..])
    else if s[0] == 0x80 then Got(INDEFINITE_LEN, 1, s[1..])
    else
      var lenBytes := s[0] - 0x80;
      if lenBytes > 4 then Fail(-14)
      else if |s| < 1 + lenBytes then Fail(-15)
      else Got(Val(s[1..1 + lenBytes]), 1 + lenBytes, s[1 + lenBytes..])
  }

  method BDecLen(b: BufHandle, bytesDecoded: nat) returns (r: Result<nat>, n: nat)
    requires b.ReadValid() && !b.ReadError()
    modifies b.Repr
    ensures b.ReadValid() && b.Repr == old(b.Repr)
    ensures Ran(DecLen(old(b.rest)), b, bytesDecoded, r, n)
  {
    hide BufHandle.ReadValid;
    ghost var s := b.rest;
    var octet := b.GetByte();
    n := bytesDecoded;
    if b.ReadError() {
      return Jump(-13), n;
    }
    n := n + 1;
    if octet < 128 {
      return Ok(octet), n;
    } else if octet == 0x80 {
      return Ok(INDEFINITE_LEN), n;
    }
    var lenBytes := octet - 0x80;
    if lenBytes > 4 {
      return Jump(-14), n;
    }
    n := n + lenBytes;
    var len: nat := 0;
    ghost var k := 0;
    while lenBytes > 0
      invariant b.ReadValid() && b.Repr == old(b.Repr)
      invariant 0 <= lenBytes && k + lenBytes == s[0] - 0x80
      invariant b.ReadError() <==> |s| < 1 + k
      invariant 1 + k <= |s| ==> b.rest == s[1 + k..] && len == Val(s[1..1 + k])
    {
      if 1 + k < |s| {
        ValSnoc(s[1..1 + k], s[1 + k]);
        assert s[1..1 + k] + [s[1 + k]] == s[1..2 + k];
      }
      octet := b.GetByte();
      len := len * 256 + octet;
      lenBytes, k := lenBytes - 1, k + 1;
    }
    if b.ReadError() {
      return Jump(-15), n;
    }
    return Ok(len), n;
  }

  /** What is written is read back, and nothing more is consumed. */
  lemma DecLenEncDefLen(len: nat, rest: seq<byte>)
    requires len < TWO_32
    ensures DecLen(EncDefLen(len) + rest) == Got(len, |EncDefLen(len)|, rest)
  {
    var e := EncDefLen(len);
    var s := e + rest;
    assert s[0] == e[0] && s[|e|..] == rest;
    if len >= 128 {
      assert s[1..|e|] == e[1..];
      LongForm(len);
    }
  }

  lemma LongForm(len: nat)
    requires 128 <= len < TWO_32
    ensures var e := EncDefLen(len); e[0] == 0x80 + |e| - 1 && Val(e[1..]) == len
  {
    hide Val, Be;
    var e := EncDefLen(len);
    var k := |e| - 1;
    Be1(len);
    assert e[1..] == Be(len, k);
    PowValues();
    ValBe(len, k);
    DivModUnique(len, Pow256(k), 0, len);
  }

  /** The fewest octets of a positive number; none for zero. */
  function MinBe(n: nat): (s: seq<byte>)
  {
    if n == 0 then [] else MinBe(n / 256) + [n % 256]
  }

  /** The octets of the loop form, for a `long` argument. */
  function EncDefLen2(len: int): (s: seq<byte>)
  {
    if len < 128 then [len % 256] else [0x80 + |MinBe(len)| % 0x80] + MinBe(len)
  }

  method BEncDefLen2(b: BufHandle, len: int) returns (n: nat)
    requires b.WriteValid() && -TWO_31 <= len < TWO_31
    modifies b.Repr
    ensures b.WriteValid() && fresh(b.Repr - old(b.Repr))
    ensures b.out == EncDefLen2(len) + old(b.out)
    ensures n == |EncDefLen2(len)|
  {
    hide BufHandle.WriteValid;
    if len < 128 {
      b.PutByteRvs(len % 256);
      return 1;
    }
    var i, j := 0, len;
    ghost var done: seq<byte> := [];
    while j > 0
      invariant b.WriteValid() && fresh(b.Repr - old(b.Repr))
      invariant j >= 0 && i == |done| && MinBe(len) == MinBe(j) + done
      invariant b.out == done + old(b.out)
    {
      b.PutByteRvs(j % 256);
      done := [j % 256] + done;
      j := j / 256;
      i := i + 1;
    }
    MinBeLength(len, 4);
    b.PutByteRvs(0x80 + i);
    return i + 1;
  }

  lemma {:induction false} MinBeLength(n: nat, k: nat)
    requires n < Pow256(k)
    ensures |MinBe(n)| <= k
  {
    if n > 0 {
      MinBeLength(n / 256, k - 1);
    }
  }

  lemma {:induction false} MinBeIsBe(n: nat, k: nat)
    requires n < Pow256(k) && (k == 0 || n >= Pow256(k - 1))
    ensures MinBe(n) == Be(n, k)
  {
    if k > 0 {
      MinBeIsBe(n / 256, k - 1);
    }
  }

  /** The unrolled form writes what the loop form writes, except where its third bound is short. */
  lemma EncDefLenAgainstLoop(len: nat)
    requires len < TWO_31
    ensures EncDefLen(len) == EncDefLen2(len) <==> !(16777126 <= len <= 16777215)
    ensures 16777126 <= len <= 16777215 ==> EncDefLen(len) == [0x84, 0] + EncDefLen2(len)[1..]
  {
    hide Be;
    if len >= 128 {
      PowValues();
      Be1(len);
      var k := if len < 0x100 then 1 else if len < 0x1_0000 then 2 else if len < 0x100_0000 then 3 else 4;
      MinBeIsBe(len, k);
      if 16777126 <= len <= 16777215 {
        Be3(len);
        Be4(len);
      }
    }
  }
}

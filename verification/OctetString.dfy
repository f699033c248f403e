/** OCTET STRING contents, primitive and constructed (section 8.7 of ITU-T X.690). */
module OctetStrings {
  import opened Octets
  import opened ExpBufs
  import opened Lengths
  import opened Tags

  ghost function Concat(pieces: seq<seq<byte>>): seq<byte>
  {
    if pieces == [] then [] else Concat(pieces[..|pieces| - 1]) + pieces[|pieces| - 1]
  }

  lemma {:induction false} ConcatPrefix(pieces: seq<seq<byte>>, i: nat)
    requires i <= |pieces|
    ensures |Concat(pieces[..i])| <= |Concat(pieces)|
  {
    if i == |pieces| {
      assert pieces[..i] == pieces;
    } else {
      ConcatPrefix(pieces[..|pieces| - 1], i);
      assert pieces[..|pieces| - 1][..i] == pieces[..i];
    }
  }

  /** The stack of string pieces, `strStkG`; once enlarged it never shrinks. */
  class StrStk {
    var stk: array<seq<byte>>
    var growElmts: nat
    var nextFreeElmt: nat
    var totalByteLen: nat

    /** The pieces pushed since the last reset, joined. */
    ghost var pushed: seq<byte>

    ghost predicate Valid()
      reads this, stk
    {
      && growElmts >= 1
      && nextFreeElmt <= stk.Length
      && pushed == Concat(stk[..nextFreeElmt])
      && totalByteLen == |pushed|
    }

    constructor (initialNumElmts: nat, growElmts: nat)
      requires growElmts >= 1
      ensures Valid() && fresh(stk) && pushed == []
    {
      stk := new seq<byte>[initialNumElmts](i => []);
      this.growElmts := growElmts;
      nextFreeElmt, totalByteLen := 0, 0;
      pushed := [];
    }

    /** `RESET_STR_STK`. */
    method Reset()
      requires Valid()
      modifies this
      ensures Valid() && stk == old(stk) && pushed == []
    {
      nextFreeElmt := 0;
      totalByteLen := 0;
      pushed := [];
    }

    /** `PUSH_STR`, reallocating the array when it is full. */
    method Push(str: seq<byte>)
      requires Valid()
      modifies this, stk
      ensures Valid() && (stk == old(stk) || fresh(stk))
      ensures pushed == old(pushed) + str
    {
      ghost var was := stk[..nextFreeElmt];
      if nextFreeElmt >= stk.Length {
        var bigger := new seq<byte>[stk.Length + growElmts](i => []);
        forall i | 0 <= i < stk.Length {
          bigger[i] := stk[i];
        }
        stk := bigger;
      }
      totalByteLen := totalByteLen + |str|;
      pushed := pushed + str;
      stk[nextFreeElmt] := str;
      nextFreeElmt := nextFreeElmt + 1;
      assert stk[..nextFreeElmt] == was + [str];
      assert (was + [str])[..|was|] == was;
    }

    /** Copies the pieces into one block with a terminating zero. */
    method Merge() returns (octs: array<byte>)
      requires Valid()
      ensures fresh(octs) && octs.Length == |pushed| + 1
      ensures octs[..|pushed|] == pushed && octs[|pushed|] == 0
    {
      octs := new byte[totalByteLen + 1];
      var bufCurr := 0;
      ghost var all := stk[..nextFreeElmt];
      for curr := 0 to nextFreeElmt
        invariant bufCurr == |Concat(all[..curr])| <= totalByteLen
        invariant octs[..bufCurr] == Concat(all[..curr])
      {
        assert all[..curr + 1][..curr] == all[..curr];
        ghost var done := octs[..bufCurr];
        var piece := stk[curr];
        ConcatPrefix(all, curr + 1);
        forall i | 0 <= i < |piece| {
          octs[bufCurr + i] := piece[i];
        }
        bufCurr := bufCurr + |piece|;
        assert octs[..bufCurr] == done + piece;
      }
      octs[bufCurr] := 0;
      assert all[..nextFreeElmt] == all;
    }
  }

  const PRIM_OCTS: nat := MakeTagId(UNIV, PRIM, OCTETSTRING_TAG_CODE)
  const CONS_OCTS: nat := MakeTagId(UNIV, CONS, OCTETSTRING_TAG_CODE)

  /** `BDEC_2ND_EOC_OCTET`. */
  function DecSecondEoc(s: seq<byte>, n: nat): (d: Dec<()>)
  {
    if s == [] || s[0] != 0 then Fail(-28) else Got((), n + 1, s[1..])
  }

  method BDecSecondEoc(b: BufHandle, bytesDecoded: nat) returns (r: Result<()>, n: nat)
    requires b.ReadValid() && !b.ReadError()
    modifies b.Repr
    ensures b.ReadValid() && b.Repr == old(b.Repr)
    ensures Ran(DecSecondEoc(old(b.rest), 0), b, bytesDecoded, r, n)
  {
    hide BufHandle.ReadValid;
    n := bytesDecoded;
    var octet := b.GetByte();
    if octet != 0 || b.ReadError() {
      return Jump(-28), n;
    }
    n := n + 1;
    return Ok(()), n;
  }

  function Prepend(piece: seq<byte>, d: Dec<seq<byte>>): (r: Dec<seq<byte>>)
    ensures r.Got? <==> d.Got?
    ensures r.Got? ==> r.rest == d.rest
  {
    match d
    case Got(octs, n, rest) => Got(piece + octs, n, rest)
    case Fail(code) => Fail(code)
  }

  /**
   * The pieces of a constructed string, joined, with `total` octets of it
   * decoded so far. Both length forms may nest in each other.
   */
  function DecPieces(s: seq<byte>, elmtLen0: nat, total: nat): (d: Dec<seq<byte>>)
    ensures d.Got? ==> |d.rest| <= |s|
    decreases |s|
  {
    if total >= elmtLen0 && elmtLen0 != INDEFINITE_LEN then Got([], total, s)
    else
      var (tag, n1, s1) :- DecTag(s);
      if tag == EOC_TAG_ID && elmtLen0 == INDEFINITE_LEN then
        var (_, n2, s2) :- DecSecondEoc(s1, total + n1);
        Got([], n2, s2)
      else
        var (len, n2, s2) :- DecLen(s1);
        if tag == PRIM_OCTS then
          if |s2| < len then Fail(-18)
          else
            Prepend(s2[..len], DecPieces(s2[len..], elmtLen0, total + n1 + n2 + len))
        else if tag == CONS_OCTS then
          var (inner, m, s3) :- DecPieces(s2, len, 0);
          Prepend(inner, DecPieces(s3, elmtLen0, total + n1 + n2 + m))
        else Fail(-19)
  }

  /** What is on the stack and what `now` still yields make up what the `whole` yields. */
  ghost predicate Continues(whole: Dec<seq<byte>>, now: Dec<seq<byte>>, before: seq<byte>, pushed: seq<byte>)
  {
    match now
    case Got(octs, n, rest) =>
      whole.Got? && whole.n == n && whole.rest == rest && before + whole.value == pushed + octs
    case Fail(code) => whole == Fail(code)
  }

  lemma ContinuesStep(whole: Dec<seq<byte>>, piece: seq<byte>, next: Dec<seq<byte>>, before: seq<byte>,
                      pushed: seq<byte>)
    requires Continues(whole, Prepend(piece, next), before, pushed)
    ensures Continues(whole, next, before, pushed + piece)
  {
    if next.Got? {
      assert pushed + (piece + next.value) == (pushed + piece) + next.value;
    }
  }

  lemma ContinuesStart(whole: Dec<seq<byte>>, before: seq<byte>)
    ensures Continues(whole, whole, before, before)
  {
  }

  /** At the end of the content, or at an error, the whole is known. */
  lemma ContinuesEnds(whole: Dec<seq<byte>>, now: Dec<seq<byte>>, before: seq<byte>, pushed: seq<byte>)
    requires Continues(whole, now, before, pushed)
    ensures now.Got? && now.value == [] ==>
      whole.Got? && whole.n == now.n && whole.rest == now.rest && before + whole.value == pushed
    ensures now.Fail? ==> whole == now
  {
    if now.Got? && now.value == [] {
      assert pushed + now.value == pushed;
    }
  }

  lemma DecPiecesDone(s: seq<byte>, elmtLen0: nat, total: nat)
    requires total >= elmtLen0 && elmtLen0 != INDEFINITE_LEN
    ensures DecPieces(s, elmtLen0, total) == Got([], total, s)
  {
  }

  /** One primitive element of the content. */
  lemma PrimitiveStep(s: seq<byte>, elmtLen0: nat, total: nat, n1: nat, s1: seq<byte>, len: nat, n2: nat, s2: seq<byte>)
    requires total < elmtLen0 || elmtLen0 == INDEFINITE_LEN
    requires DecTag(s) == Got(PRIM_OCTS, n1, s1) && DecLen(s1) == Got(len, n2, s2)
    ensures DecPieces(s, elmtLen0, total) ==
      if |s2| < len then Fail(-18)
      else Prepend(s2[..len], DecPieces(s2[len..], elmtLen0, total + n1 + n2 + len))
  {
    hide DecTag, DecLen;
  }

  /** One constructed element of the content. */
  lemma ConstructedStep(s: seq<byte>, elmtLen0: nat, total: nat, n1: nat, s1: seq<byte>, len: nat, n2: nat,
                        s2: seq<byte>)
    requires total < elmtLen0 || elmtLen0 == INDEFINITE_LEN
    requires DecTag(s) == Got(CONS_OCTS, n1, s1) && DecLen(s1) == Got(len, n2, s2)
    ensures DecPieces(s, elmtLen0, total) ==
      match DecPieces(s2, len, 0)
      case Got(inner, m, s3) => Prepend(inner, DecPieces(s3, elmtLen0, total + n1 + n2 + m))
      case Fail(code) => Fail(code)
  {
    hide DecTag, DecLen;
  }

  /** The content that ends, or is wrong, at its next element. */
  lemma OtherStep(s: seq<byte>, elmtLen0: nat, total: nat)
    requires total < elmtLen0 || elmtLen0 == INDEFINITE_LEN
    ensures DecTag(s).Fail? ==> DecPieces(s, elmtLen0, total) == Fail(DecTag(s).code)
    ensures DecTag(s).Got? ==>
      var (tag, n1, s1) := (DecTag(s).value, DecTag(s).n, DecTag(s).rest);
      if tag == EOC_TAG_ID && elmtLen0 == INDEFINITE_LEN then
        match DecSecondEoc(s1, total + n1)
        case Got(_, n2, s2) => DecPieces(s, elmtLen0, total) == Got([], n2, s2)
        case Fail(code) => DecPieces(s, elmtLen0, total) == Fail(code)
      else if DecLen(s1).Fail? then DecPieces(s, elmtLen0, total) == Fail(DecLen(s1).code)
      else tag != PRIM_OCTS && tag != CONS_OCTS ==> DecPieces(s, elmtLen0, total) == Fail(-19)
  {
  }

  /** Pushes the next `len` octets, in as many pieces as the buffer yields them. */
  method PushPiece(b: BufHandle, stk: StrStk, len: nat) returns (r: Result<()>)
    requires b.ReadValid() && !b.ReadError()
    requires stk.Valid() && stk !in b.Repr && stk.stk !in b.Repr
    modifies b.Repr, stk, stk.stk
    ensures b.ReadValid() && b.Repr == old(b.Repr)
    ensures stk.Valid() && (stk.stk == old(stk.stk) || fresh(stk.stk))
    ensures |old(b.rest)| < len ==> r == Jump(-18)
    ensures |old(b.rest)| >= len ==>
      && r == Ok(()) && !b.ReadError() && b.rest == old(b.rest)[len..]
      && stk.pushed == old(stk.pushed) + old(b.rest)[..len]
  {
    hide BufHandle.ReadValid, StrStk.Valid;
    ghost var s := b.rest;
    var totalRefdLen, refdLen := 0, len;
    while true
      invariant b.ReadValid() && b.Repr == old(b.Repr) && !b.ReadError()
      invariant stk.Valid() && (stk.stk == old(stk.stk) || fresh(stk.stk))
      invariant totalRefdLen <= |s| && totalRefdLen + refdLen == len
      invariant b.rest == s[totalRefdLen..]
      invariant stk.pushed == old(stk.pushed) + s[..totalRefdLen]
      invariant totalRefdLen > 0 ==> refdLen > 0
      decreases refdLen
    {
      ghost var pushed := stk.pushed;
      var eod, seg := b.GetSeg(refdLen);
      stk.Push(seg);
      assert s[..totalRefdLen + |seg|] == s[..totalRefdLen] + seg;
      totalRefdLen := totalRefdLen + |seg|;
      if totalRefdLen == len {
        break;
      }
      if |seg| == 0 {
        return Jump(-18);
      }
      refdLen := len - totalRefdLen;
    }
    return Ok(());
  }

  /** Decodes the pieces onto the stack; the buffer may split each of them further. */
  method FillOctetStringStk(b: BufHandle, stk: StrStk, elmtLen0: nat, bytesDecoded: nat)
    returns (r: Result<()>, n: nat)
    requires b.ReadValid() && !b.ReadError()
    requires stk.Valid() && stk !in b.Repr && stk.stk !in b.Repr
    modifies b.Repr, stk, stk.stk
    ensures b.ReadValid() && b.Repr == old(b.Repr)
    ensures stk.Valid() && (stk.stk == old(stk.stk) || fresh(stk.stk))
    ensures match DecPieces(old(b.rest), elmtLen0, 0)
      case Got(octs, k, rest) =>
        && r == Ok(()) && n == bytesDecoded + k && b.rest == rest && !b.ReadError()
        && stk.pushed == old(stk.pushed) + octs
      case Fail(code) => r == Jump(code)
    decreases |b.rest|
  {
    hide BufHandle.ReadValid, StrStk.Valid, DecTag, DecLen, DecPieces, Continues, Prepend;
    n := bytesDecoded;
    ghost var s, before := b.rest, stk.pushed;
    ghost var whole := DecPieces(s, elmtLen0, 0);
    var total: nat := 0;
    ContinuesStart(whole, before);
    while total < elmtLen0 || elmtLen0 == INDEFINITE_LEN
      invariant b.ReadValid() && b.Repr == old(b.Repr) && !b.ReadError()
      invariant stk.Valid() && (stk.stk == old(stk.stk) || fresh(stk.stk))
      invariant |b.rest| <= |s|
      invariant Continues(whole, DecPieces(b.rest, elmtLen0, total), before, stk.pushed)
      decreases |b.rest|
    {
      ghost var s0, total0, pushed := b.rest, total, stk.pushed;
      OtherStep(s0, elmtLen0, total);
      ContinuesEnds(whole, DecPieces(s0, elmtLen0, total), before, pushed);
      var tagId1: nat, elmtLen1: nat;
      tagId1, total :- BDecTag(b, total);
      ghost var n1, s1 := total - total0, b.rest;
      if tagId1 == EOC_TAG_ID && elmtLen0 == INDEFINITE_LEN {
        var _, total' :- BDecSecondEoc(b, total);
        total := total';
        n := n + total;
        return Ok(()), n;
      }
      elmtLen1, total :- BDecLen(b, total);
      ghost var n2, s2 := total - total0 - n1, b.rest;
      if tagId1 == PRIM_OCTS {
        PrimitiveStep(s0, elmtLen0, total0, n1, s1, elmtLen1, n2, s2);
        var _ :- PushPiece(b, stk, elmtLen1);
        total := total + elmtLen1;
        ContinuesStep(whole, s2[..elmtLen1], DecPieces(b.rest, elmtLen0, total), before, pushed);
      } else if tagId1 == CONS_OCTS {
        ConstructedStep(s0, elmtLen0, total0, n1, s1, elmtLen1, n2, s2);
        var _, total' :- FillOctetStringStk(b, stk, elmtLen1, total);
        total := total';
        ContinuesStep(whole, DecPieces(s2, elmtLen1, 0).value, DecPieces(b.rest, elmtLen0, total), before, pushed);
      } else {
        return Jump(-19), n;
      }
    }
    DecPiecesDone(b.rest, elmtLen0, total);
    ContinuesEnds(whole, DecPieces(b.rest, elmtLen0, total), before, stk.pushed);
    n := n + total;
    return Ok(()), n;
  }

  /** `TAG_IS_CONS`: bit 6 of the first identifier octet. */
  predicate TagIsCons(tagId: nat)
  {
    tagId / 0x2000_0000 % 2 == 1
  }

  function DecOctsContent(s: seq<byte>, tagId: nat, len: nat): (d: Dec<seq<byte>>)
    ensures d.Got? ==> |d.rest| <= |s|
  {
    if TagIsCons(tagId) then DecPieces(s, len, 0)
    else if len == INDEFINITE_LEN then Fail(-67)
    else if |s| < len then Fail(-20)
    else Got(s[..len], len, s[len..])
  }

  method BEncAsnOctsContent(b: BufHandle, octs: seq<byte>) returns (n: nat)
    requires b.WriteValid()
    modifies b.Repr
    ensures b.WriteValid() && fresh(b.Repr - old(b.Repr))
    ensures b.out == octs + old(b.out)
    ensures n == |octs|
  {
    b.PutSegRvs(octs);
    return |octs|;
  }

  /** `BDecConsAsnOcts` for a constructed string, a plain copy for a primitive one. */
  method BDecAsnOctsContent(b: BufHandle, stk: StrStk, tagId: nat, len: nat, bytesDecoded: nat)
    returns (r: Result<seq<byte>>, n: nat)
    requires b.ReadValid() && !b.ReadError()
    requires stk.Valid() && stk !in b.Repr && stk.stk !in b.Repr
    modifies b.Repr, stk, stk.stk
    ensures b.ReadValid() && b.Repr == old(b.Repr)
    ensures stk.Valid() && (stk.stk == old(stk.stk) || fresh(stk.stk))
    ensures Ran(DecOctsContent(old(b.rest), tagId, len), b, bytesDecoded, r, n)
  {
    hide BufHandle.ReadValid, StrStk.Valid, DecPieces;
    n := bytesDecoded;
    if TagIsCons(tagId) {
      stk.Reset();
      ghost var d := DecPieces(b.rest, len, 0);
      assert d.Got? ==> [] + d.value == d.value;
      var _, n' :- FillOctetStringStk(b, stk, len, n);
      var octs := stk.Merge();
      return Ok(octs[..octs.Length - 1]), n';
    }
    if len == INDEFINITE_LEN {
      return Jump(-67), n;
    }
    var copied := b.Copy(len);
    if b.ReadError() {
      return Jump(-20), n;
    }
    n := n + len;
    return Ok(copied), n;
  }

  /** One element of a constructed string, with any of its length octets written out. */
  datatype OctTree =
    | Prim(len: seq<byte>, octs: seq<byte>)
    | Cons(len: seq<byte>, parts: seq<OctTree>)
    | ConsIndef(parts: seq<OctTree>)

  /** `l` are length octets for `n` in the short form or in any long form of up to four octets. */
  ghost predicate IsLength(l: seq<byte>, n: nat)
  {
    && n < INDEFINITE_LEN
    && l != []
    && (|l| == 1 ==> l[0] < 0x80 && n == l[0])
    && (|l| > 1 ==> |l| <= 5 && l[0] == 0x80 + |l| - 1 && Val(l[1..]) == n)
  }

  /** The octets of a tree. */
  ghost function EncTree(t: OctTree): (s: seq<byte>)
    ensures s != []
    decreases t, 1
  {
    [if t.Prim? then 0x04 else 0x24] + (LenOctets(t) + Body(t))
  }

  ghost function FormOf(t: OctTree): Form
  {
    if t.Prim? then PRIM else CONS
  }

  ghost function LenOctets(t: OctTree): seq<byte>
  {
    if t.ConsIndef? then [0x80] else t.len
  }

  /** The content octets, with the end-of-contents octets of the indefinite form. */
  ghost function Body(t: OctTree): seq<byte>
    decreases t, 0
  {
    match t
    case Prim(_, octs) => octs
    case Cons(_, parts) => EncTrees(parts)
    case ConsIndef(parts) => EncTrees(parts) + [0, 0]
  }

  /** What `BDecLen` makes of the length octets. */
  ghost function LenValue(t: OctTree): nat
  {
    if t.ConsIndef? then INDEFINITE_LEN else |Body(t)|
  }

  ghost function EncTrees(ts: seq<OctTree>): seq<byte>
    decreases ts, 2
  {
    if ts == [] then [] else EncTree(ts[0]) + EncTrees(ts[1..])
  }

  /** Every length in the tree is right. */
  ghost predicate WellFormed(t: OctTree)
    decreases t, 0
  {
    match t
    case Prim(len, octs) => IsLength(len, |octs|)
    case Cons(len, parts) => IsLength(len, |EncTrees(parts)|) && AllWellFormed(parts)
    case ConsIndef(parts) => AllWellFormed(parts)
  }

  ghost predicate AllWellFormed(ts: seq<OctTree>)
    decreases ts, 1
  {
    ts != [] ==> WellFormed(ts[0]) && AllWellFormed(ts[1..])
  }

  /** The leaves of a tree in order. */
  ghost function Leaves(t: OctTree): seq<byte>
    decreases t, 0
  {
    if t.Prim? then t.octs else AllLeaves(t.parts)
  }

  ghost function AllLeaves(ts: seq<OctTree>): seq<byte>
    decreases ts, 1
  {
    if ts == [] then [] else Leaves(ts[0]) + AllLeaves(ts[1..])
  }

  lemma DecLenAny(l: seq<byte>, n: nat, rest: seq<byte>)
    requires IsLength(l, n)
    ensures DecLen(l + rest) == Got(n, |l|, rest)
  {
    assert (l + rest)[0] == l[0] && (l + rest)[|l|..] == rest;
    assert (l + rest)[1..|l|] == l[1..];
  }

  /** Decoding a list of trees, then the end-of-contents octets of the indefinite form. */
  lemma {:induction false} DecPiecesTrees(ts: seq<OctTree>, elmtLen0: nat, total: nat, rest: seq<byte>)
    requires AllWellFormed(ts)
    requires elmtLen0 != INDEFINITE_LEN ==> elmtLen0 == total + |EncTrees(ts)|
    ensures var eoc := if elmtLen0 == INDEFINITE_LEN then [0, 0] else [];
      DecPieces(EncTrees(ts) + (eoc + rest), elmtLen0, total)
      == Got(AllLeaves(ts), total + |EncTrees(ts)| + |eoc|, rest)
    decreases ts, 2
  {
    hide *;
    if ts == [] {
      DecNoTrees(elmtLen0, total, rest);
    } else {
      var eoc := if elmtLen0 == INDEFINITE_LEN then [0, 0] else [];
      TreesUnfold(ts);
      var e, more, tail := EncTree(ts[0]), EncTrees(ts[1..]), eoc + rest;
      Reassociate(e, more, tail);
      DecPiecesTree(ts[0], elmtLen0, total, more + tail);
      DecPiecesTrees(ts[1..], elmtLen0, total + |e|, rest);
      PrependGot(Leaves(ts[0]), AllLeaves(ts[1..]), total + |EncTrees(ts)| + |eoc|, rest);
    }
  }

  lemma DecNoTrees(elmtLen0: nat, total: nat, rest: seq<byte>)
    requires elmtLen0 != INDEFINITE_LEN ==> elmtLen0 == total + |EncTrees([])|
    ensures EncTrees([]) == [] == AllLeaves([])
    ensures var eoc := if elmtLen0 == INDEFINITE_LEN then [0, 0] else [];
      DecPieces(EncTrees([]) + (eoc + rest), elmtLen0, total) == Got([], total + |eoc|, rest)
  {
    if elmtLen0 == INDEFINITE_LEN {
      assert EncTrees([]) + ([0, 0] + rest) == [0, 0] + rest;
      DecEndOfContents(rest, total);
    } else {
      assert EncTrees([]) + ([] + rest) == rest;
    }
  }

  lemma TreesUnfold(ts: seq<OctTree>)
    requires ts != []
    ensures EncTrees(ts) == EncTree(ts[0]) + EncTrees(ts[1..])
    ensures AllLeaves(ts) == Leaves(ts[0]) + AllLeaves(ts[1..])
    ensures AllWellFormed(ts) ==> WellFormed(ts[0]) && AllWellFormed(ts[1..])
  {
  }

  lemma PrependGot(piece: seq<byte>, octs: seq<byte>, n: nat, rest: seq<byte>)
    ensures Prepend(piece, Got(octs, n, rest)) == Got(piece + octs, n, rest)
  {
  }

  lemma Reassociate(a: seq<byte>, b: seq<byte>, c: seq<byte>)
    ensures (a + b) + c == a + (b + c)
  {
  }

  lemma DecEndOfContents(rest: seq<byte>, total: nat)
    ensures DecPieces([0, 0] + rest, INDEFINITE_LEN, total) == Got([], total + 2, rest)
  {
    var s := [0, 0] + rest;
    assert s[1..] == [0] + rest && ([0] + rest)[1..] == rest;
    assert DecTag(s) == Got(EOC_TAG_ID, 1, [0] + rest);
  }

  /** Decoding one tree leaves the decoder at what follows it. */
  lemma {:induction false} DecPiecesTree(t: OctTree, elmtLen0: nat, total: nat, tail: seq<byte>)
    requires WellFormed(t)
    requires total < elmtLen0 || elmtLen0 == INDEFINITE_LEN
    ensures DecPieces(EncTree(t) + tail, elmtLen0, total) ==
      Prepend(Leaves(t), DecPieces(tail, elmtLen0, total + |EncTree(t)|))
    decreases t, 1
  {
    hide *;
    var s, l, body := EncTree(t) + tail, LenOctets(t), Body(t);
    var s1, s2 := l + (body + tail), body + tail;
    DecTreeHeader(t, tail);
    TreeUnfold(t);
    if t.Prim? {
      PrimitiveStep(s, elmtLen0, total, 1, s1, |body|, |l|, s2);
      SplitJoined(body, tail);
    } else {
      DecBody(t, tail);
      ConstructedStep(s, elmtLen0, total, 1, s1, LenValue(t), |l|, s2);
    }
  }

  /** The content of a constructed tree yields its leaves. */
  lemma DecBody(t: OctTree, tail: seq<byte>)
    requires WellFormed(t) && !t.Prim?
    ensures DecPieces(Body(t) + tail, LenValue(t), 0) == Got(Leaves(t), |Body(t)|, tail)
    decreases t, 0
  {
    var eoc := if t.ConsIndef? then [0, 0] else [];
    Reassociate(EncTrees(t.parts), eoc, tail);
    assert Body(t) == EncTrees(t.parts) + eoc;
    DecPiecesTrees(t.parts, LenValue(t), 0, tail);
    hide DecPieces, EncTrees, AllLeaves, Prepend;
  }

  lemma TreeUnfold(t: OctTree)
    ensures |EncTree(t)| == 1 + |LenOctets(t)| + |Body(t)|
    ensures t.Prim? ==> Body(t) == Leaves(t) && LenValue(t) == |Body(t)|
  {
  }

  lemma DecTreeHeader(t: OctTree, tail: seq<byte>)
    requires WellFormed(t)
    ensures var s1, s2 := LenOctets(t) + (Body(t) + tail), Body(t) + tail;
      && DecTag(EncTree(t) + tail) == Got(if t.Prim? then PRIM_OCTS else CONS_OCTS, 1, s1)
      && DecLen(s1) == Got(LenValue(t), |LenOctets(t)|, s2)
  {
    var tag, l, body := TagOctets(UNIV, FormOf(t), OCTETSTRING_TAG_CODE), LenOctets(t), Body(t);
    assert tag == [if t.Prim? then 0x04 else 0x24];
    Reassociate(tag, l + body, tail);
    Reassociate(l, body, tail);
    DecTagTagOctets(UNIV, FormOf(t), OCTETSTRING_TAG_CODE, l + (body + tail));
    if t.ConsIndef? {
      assert (l + (body + tail))[1..] == body + tail;
    } else {
      DecLenAny(l, |body|, body + tail);
    }
  }

  /** `BDecAsnOcts`: a whole element, identifier and length octets included. */
  function DecOcts(s: seq<byte>): (d: Dec<seq<byte>>)
  {
    var (tag, n1, s1) :- DecTag(s);
    if tag != PRIM_OCTS && tag != CONS_OCTS then Fail(-40)
    else
      var (len, n2, s2) :- DecLen(s1);
      var (octs, n3, s3) :- DecOctsContent(s2, tag, len);
      Got(octs, n1 + n2 + n3, s3)
  }

  method BDecAsnOcts(b: BufHandle, stk: StrStk, bytesDecoded: nat) returns (r: Result<seq<byte>>, n: nat)
    requires b.ReadValid() && !b.ReadError()
    requires stk.Valid() && stk !in b.Repr && stk.stk !in b.Repr
    modifies b.Repr, stk, stk.stk
    ensures b.ReadValid() && b.Repr == old(b.Repr)
    ensures stk.Valid() && (stk.stk == old(stk.stk) || fresh(stk.stk))
    ensures Ran(DecOcts(old(b.rest)), b, bytesDecoded, r, n)
  {
    hide BufHandle.ReadValid, StrStk.Valid, DecTag, DecLen, DecOctsContent;
    n := bytesDecoded;
    var tag: nat, len: nat, octs: seq<byte>;
    tag, n :- BDecTag(b, n);
    if tag != PRIM_OCTS && tag != CONS_OCTS {
      return Jump(-40), n;
    }
    len, n :- BDecLen(b, n);
    octs, n :- BDecAsnOctsContent(b, stk, tag, len, n);
    return Ok(octs), n;
  }

  /**
   * Decoding any finite tree consumes exactly its octets and yields its leaves
   * joined in order (section 8.7.3 of ITU-T X.690).
   */
  lemma DecOctsEncTree(t: OctTree, rest: seq<byte>)
    requires WellFormed(t)
    ensures DecOcts(EncTree(t) + rest) == Got(Leaves(t), |EncTree(t)|, rest)
  {
    hide *;
    var s2 := Body(t) + rest;
    DecTreeHeader(t, rest);
    TreeUnfold(t);
    DecTreeContent(t, rest);
    DecOctsSteps(EncTree(t) + rest, if t.Prim? then PRIM_OCTS else CONS_OCTS,
                 1, LenOctets(t) + s2, LenValue(t), |LenOctets(t)|, s2);
  }

  lemma DecTreeContent(t: OctTree, rest: seq<byte>)
    requires WellFormed(t)
    ensures DecOctsContent(Body(t) + rest, if t.Prim? then PRIM_OCTS else CONS_OCTS, LenValue(t))
      == Got(Leaves(t), |Body(t)|, rest)
  {
    if t.Prim? {
      SplitJoined(Body(t), rest);
    } else {
      DecBody(t, rest);
    }
    hide DecPieces, Body, Leaves;
  }

  lemma DecOctsSteps(s: seq<byte>, tag: nat, n1: nat, s1: seq<byte>, len: nat, n2: nat, s2: seq<byte>)
    requires tag == PRIM_OCTS || tag == CONS_OCTS
    requires DecTag(s) == Got(tag, n1, s1) && DecLen(s1) == Got(len, n2, s2)
    requires DecOctsContent(s2, tag, len).Got?
    ensures var d := DecOctsContent(s2, tag, len);
      DecOcts(s) == Got(d.value, n1 + n2 + d.n, d.rest)
  {
    hide DecTag, DecLen, DecOctsContent;
  }
}

/** The decoders of the type table, which read a buffer and jump at the first error. */
module TblDecode {
  import opened Octets
  import opened ExpBufs
  import opened Lengths
  import opened Tags
  import opened Ints
  import opened OctetStrings
  import opened Tbl
  import opened TblDecodeSpec

  /** A buffer in read mode without an error, and a string stack apart from it. */
  ghost predicate Ready(b: BufHandle, stk: StrStk)
    reads b, b.Repr, stk, stk.stk
  {
    b.ReadValid() && !b.ReadError() && stk.Valid() && stk !in b.Repr && stk.stk !in b.Repr
  }

  /** The elements decoded so far and those that `now` still yields are those of the `whole`. */
  ghost predicate Resumes<T>(whole: Dec<seq<T>>, now: Dec<seq<T>>, done: seq<T>)
  {
    match now
    case Got(vs, n, rest) => whole == Got(done + vs, n, rest)
    case Fail(code) => whole == Fail(code)
  }

  lemma ResumesStart<T>(whole: Dec<seq<T>>)
    ensures Resumes(whole, whole, [])
  {
    if whole.Got? {
      assert [] + whole.value == whole.value;
    }
  }

  lemma ResumesStep<T>(whole: Dec<seq<T>>, v: T, next: Dec<seq<T>>, done: seq<T>)
    requires Resumes(whole, ConsValue(v, next), done)
    ensures Resumes(whole, next, done + [v])
  {
    if next.Got? {
      assert done + ([v] + next.value) == (done + [v]) + next.value;
    }
  }

  lemma ResumesEnds<T>(whole: Dec<seq<T>>, now: Dec<seq<T>>, done: seq<T>)
    requires Resumes(whole, now, done)
    ensures now.Got? && now.value == [] ==> whole == Got(done, now.n, now.rest)
    ensures now.Fail? ==> whole == Fail(now.code)
  {
    if now.Got? && now.value == [] {
      assert done + now.value == done;
    }
  }

  method BDecAsnBoolContent(b: BufHandle, len: nat, bytesDecoded: nat)
    returns (r: Result<AsnBool>, n: nat)
    requires b.ReadValid() && !b.ReadError()
    modifies b.Repr
    ensures b.ReadValid() && b.Repr == old(b.Repr)
    ensures Ran(DecBool(old(b.rest), len), b, bytesDecoded, r, n)
  {
    hide BufHandle.ReadValid;
    n := bytesDecoded;
    if len != 1 {
      return Jump(-5), n;
    }
    n := n + 1;
    var octet := b.GetByte();
    if b.ReadError() {
      return Jump(-6), n;
    }
    return Ok(if octet != 0 then 1 else 0), n;
  }

  method BDecAsnNullContent(b: BufHandle, len: nat, bytesDecoded: nat)
    returns (r: Result<()>, n: nat)
    requires b.ReadValid() && !b.ReadError()
    modifies b.Repr
    ensures b.ReadValid() && b.Repr == old(b.Repr)
    ensures Ran(DecNull(old(b.rest), len), b, bytesDecoded, r, n)
  {
    hide BufHandle.ReadValid;
    n := bytesDecoded;
    if len != 0 {
      return Jump(-17), n;
    }
    return Ok(()), n;
  }

  method BDecAsnOidContent(b: BufHandle, len: nat, bytesDecoded: nat)
    returns (r: Result<seq<byte>>, n: nat)
    requires b.ReadValid() && !b.ReadError()
    modifies b.Repr
    ensures b.ReadValid() && b.Repr == old(b.Repr)
    ensures Ran(DecOid(old(b.rest), len), b, bytesDecoded, r, n)
  {
    hide BufHandle.ReadValid;
    n := bytesDecoded;
    if len == INDEFINITE_LEN {
      return Jump(-66), n;
    }
    var v := b.Copy(len);
    if b.ReadError() {
      return Jump(-21), n;
    }
    n := n + len;
    return Ok(v), n;
  }

  method BDecEoc(b: BufHandle, bytesDecoded: nat)
    returns (r: Result<()>, n: nat)
    requires b.ReadValid() && !b.ReadError()
    modifies b.Repr
    ensures b.ReadValid() && b.Repr == old(b.Repr)
    ensures Ran(DecEoc(old(b.rest)), b, bytesDecoded, r, n)
  {
    hide BufHandle.ReadValid;
    n := bytesDecoded;
    var octet := b.GetByte();
    if octet != 0 {
      return Jump(-16), n;
    }
    octet := b.GetByte();
    if octet != 0 || b.ReadError() {
      return Jump(-16), n;
    }
    n := n + 2;
    return Ok(()), n;
  }

  method BDecPrintableStringContent(b: BufHandle, stk: StrStk, tagId: nat, len: nat, bytesDecoded: nat)
    returns (r: Result<seq<byte>>, n: nat)
    requires Ready(b, stk)
    modifies b.Repr, stk, stk.stk
    ensures b.ReadValid() && b.Repr == old(b.Repr)
    ensures stk.Valid() && (stk.stk == old(stk.stk) || fresh(stk.stk))
    ensures Ran(DecPrintable(old(b.rest), tagId, len), b, bytesDecoded, r, n)
  {
    hide BufHandle.ReadValid, StrStk.Valid, DecOctsContent, AllPrintable;
    n := bytesDecoded;
    var v: seq<byte>;
    v, n :- BDecAsnOctsContent(b, stk, tagId, len, n);
    var ok := ChkPrintableString(v);
    if !ok {
      return Jump(-40), n;
    }
    return Ok(v), n;
  }

  /** The identifier and length of a mandatory field. */
  method BDecExpect(b: BufHandle, tagA: nat, tagB: nat, code: int, bytesDecoded: nat)
    returns (r: Result<(nat, nat)>, n: nat)
    requires b.ReadValid() && !b.ReadError()
    modifies b.Repr
    ensures b.ReadValid() && b.Repr == old(b.Repr)
    ensures Ran(DecExpect(old(b.rest), tagA, tagB, code), b, bytesDecoded, r, n)
  {
    hide BufHandle.ReadValid, DecTag, DecLen;
    n := bytesDecoded;
    var tagId1: nat, elmtLen1: nat;
    tagId1, n :- BDecTag(b, n);
    if tagId1 != tagA && tagId1 != tagB {
      return Jump(code), n;
    }
    elmtLen1, n :- BDecLen(b, n);
    return Ok((tagId1, elmtLen1)), n;
  }

  method BDecIntField(b: BufHandle, tag: nat, code: int, bytesDecoded: nat)
    returns (r: Result<AsnInt>, n: nat)
    requires b.ReadValid() && !b.ReadError()
    modifies b.Repr
    ensures b.ReadValid() && b.Repr == old(b.Repr)
    ensures Ran(DecIntField(old(b.rest), tag, code), b, bytesDecoded, r, n)
  {
    hide BufHandle.ReadValid, DecExpect, DecInt;
    n := bytesDecoded;
    var h: (nat, nat), v: AsnInt;
    h, n :- BDecExpect(b, tag, tag, code, n);
    v, n :- BDecAsnIntContent(b, h.1, n);
    return Ok(v), n;
  }

  method BDecBoolField(b: BufHandle, tag: nat, code: int, bytesDecoded: nat)
    returns (r: Result<AsnBool>, n: nat)
    requires b.ReadValid() && !b.ReadError()
    modifies b.Repr
    ensures b.ReadValid() && b.Repr == old(b.Repr)
    ensures Ran(DecBoolField(old(b.rest), tag, code), b, bytesDecoded, r, n)
  {
    hide BufHandle.ReadValid, DecExpect, DecBool;
    n := bytesDecoded;
    var h: (nat, nat), v: AsnBool;
    h, n :- BDecExpect(b, tag, tag, code, n);
    v, n :- BDecAsnBoolContent(b, h.1, n);
    return Ok(v), n;
  }

  method BDecNameField(b: BufHandle, stk: StrStk, prim: nat, cons: nat, code: int, bytesDecoded: nat)
    returns (r: Result<seq<byte>>, n: nat)
    requires Ready(b, stk)
    modifies b.Repr, stk, stk.stk
    ensures b.ReadValid() && b.Repr == old(b.Repr)
    ensures stk.Valid() && (stk.stk == old(stk.stk) || fresh(stk.stk))
    ensures Ran(DecNameField(old(b.rest), prim, cons, code), b, bytesDecoded, r, n)
  {
    hide BufHandle.ReadValid, StrStk.Valid, DecExpect, DecPrintable;
    n := bytesDecoded;
    var h: (nat, nat), v: seq<byte>;
    h, n :- BDecExpect(b, prim, cons, code, n);
    v, n :- BDecPrintableStringContent(b, stk, h.0, h.1, n);
    return Ok(v), n;
  }

  /** The check at the end of a sequence; `total` becomes its decoded length. */
  method BDecCloseSeq(b: BufHandle, elmtLen0: nat, total: nat, code: int) returns (r: Result<()>, n: nat)
    requires b.ReadValid() && !b.ReadError()
    modifies b.Repr
    ensures b.ReadValid() && b.Repr == old(b.Repr)
    ensures Ran(CloseSeq(old(b.rest), elmtLen0, total, code), b, 0, r, n)
  {
    hide BufHandle.ReadValid, DecEoc;
    n := total;
    if elmtLen0 == INDEFINITE_LEN {
      var _, n' :- BDecEoc(b, n);
      return Ok(()), n';
    } else if total != elmtLen0 {
      return Jump(code), n;
    }
    return Ok(()), n;
  }

  /** Sets `seqDone`, or reads the identifier of the next optional field. */
  method BDecNextTag(b: BufHandle, elmtLen0: nat, total: nat) returns (r: Result<Option<nat>>, n: nat)
    requires b.ReadValid() && !b.ReadError()
    modifies b.Repr
    ensures b.ReadValid() && b.Repr == old(b.Repr)
    ensures Ran(NextTag(old(b.rest), elmtLen0, total), b, 0, r, n)
  {
    hide BufHandle.ReadValid, DecTag, DecSecondEoc;
    n := total;
    if elmtLen0 != INDEFINITE_LEN && total == elmtLen0 {
      return Ok(None), n;
    }
    var tagId1: nat;
    tagId1, n :- BDecTag(b, n);
    if elmtLen0 == INDEFINITE_LEN && tagId1 == EOC_TAG_ID {
      SecondEocOffset(b.rest, n);
      var _, n' :- BDecSecondEoc(b, n);
      return Ok(None), n';
    }
    return Ok(Some(tagId1)), n;
  }

  lemma SecondEocOffset(s: seq<byte>, n: nat)
    ensures match DecSecondEoc(s, 0)
      case Got(_, k, rest) => DecSecondEoc(s, n) == Got((), n + k, rest)
      case Fail(code) => DecSecondEoc(s, n) == Fail(code)
  {
  }

  method BDecTBLRangeContent(b: BufHandle, elmtLen0: nat, bytesDecoded: nat)
    returns (r: Result<TBLRange>, n: nat)
    requires b.ReadValid() && !b.ReadError()
    modifies b.Repr
    ensures b.ReadValid() && b.Repr == old(b.Repr)
    ensures Ran(DecRange(old(b.rest), elmtLen0), b, bytesDecoded, r, n)
  {
    hide BufHandle.ReadValid, DecIntField, CloseSeq;
    n := bytesDecoded;
    var total: nat, from: AsnInt, to: AsnInt;
    from, total :- BDecIntField(b, CP0, -100, 0);
    to, total :- BDecIntField(b, CP1, -102, total);
    var _, total' :- BDecCloseSeq(b, elmtLen0, total, -101);
    n := n + total';
    return Ok(TBLRange(from, to)), n;
  }

  method BDecTBLNamedNumberContent(b: BufHandle, stk: StrStk, elmtLen0: nat, bytesDecoded: nat)
    returns (r: Result<TBLNamedNumber>, n: nat)
    requires Ready(b, stk)
    modifies b.Repr, stk, stk.stk
    ensures b.ReadValid() && b.Repr == old(b.Repr)
    ensures stk.Valid() && (stk.stk == old(stk.stk) || fresh(stk.stk))
    ensures Ran(DecNamedNumber(old(b.rest), elmtLen0), b, bytesDecoded, r, n)
  {
    hide BufHandle.ReadValid, StrStk.Valid, DecNameField, DecIntField, CloseSeq;
    n := bytesDecoded;
    var total: nat, name: seq<byte>, value: AsnInt;
    name, total :- BDecNameField(b, stk, CP0, CC0, -104, 0);
    value, total :- BDecIntField(b, CP1, -106, total);
    var _, total' :- BDecCloseSeq(b, elmtLen0, total, -105);
    n := n + total';
    return Ok(TBLNamedNumber(name, value)), n;
  }

  method BDecTBLNamedNumberListContent(b: BufHandle, stk: StrStk, elmtLen0: nat, bytesDecoded: nat)
    returns (r: Result<seq<TBLNamedNumber>>, n: nat)
    requires Ready(b, stk)
    modifies b.Repr, stk, stk.stk
    ensures b.ReadValid() && b.Repr == old(b.Repr)
    ensures stk.Valid() && (stk.stk == old(stk.stk) || fresh(stk.stk))
    ensures Ran(DecNamedNumberList(old(b.rest), elmtLen0, 0), b, bytesDecoded, r, n)
  {
    hide BufHandle.ReadValid, StrStk.Valid, DecTag, DecLen, DecNamedNumber, Resumes, ConsValue;
    n := bytesDecoded;
    ghost var s := b.rest;
    ghost var whole := DecNamedNumberList(s, elmtLen0, 0);
    var v: seq<TBLNamedNumber>, total: nat := [], 0;
    ResumesStart(whole);
    while total < elmtLen0 || elmtLen0 == INDEFINITE_LEN
      invariant Ready(b, stk) && (stk.stk == old(stk.stk) || fresh(stk.stk))
      invariant b.Repr == old(b.Repr) && |b.rest| <= |s|
      invariant Resumes(whole, DecNamedNumberList(b.rest, elmtLen0, total), v)
      decreases |b.rest|
    {
      ResumesEnds(whole, DecNamedNumberList(b.rest, elmtLen0, total), v);
      var tagId1: nat, elmtLen1: nat, elmt: TBLNamedNumber;
      tagId1, total :- BDecTag(b, total);
      if tagId1 == EOC_TAG_ID && elmtLen0 == INDEFINITE_LEN {
        var _, total' :- BDecSecondEoc(b, total);
        n := n + total';
        return Ok(v), n;
      }
      if tagId1 != UC16 {
        return Jump(-108), n;
      }
      elmtLen1, total :- BDecLen(b, total);
      elmt, total :- BDecTBLNamedNumberContent(b, stk, elmtLen1, total);
      ResumesStep(whole, elmt, DecNamedNumberList(b.rest, elmtLen0, total), v);
      v := v + [elmt];
    }
    ResumesEnds(whole, DecNamedNumberList(b.rest, elmtLen0, total), v);
    n := n + total;
    return Ok(v), n;
  }

  method BDecTBLTypeRefContent(b: BufHandle, elmtLen0: nat, bytesDecoded: nat)
    returns (r: Result<TBLTypeRef>, n: nat)
    requires b.ReadValid() && !b.ReadError()
    modifies b.Repr
    ensures b.ReadValid() && b.Repr == old(b.Repr)
    ensures Ran(DecTypeRef(old(b.rest), elmtLen0), b, bytesDecoded, r, n)
  {
    hide BufHandle.ReadValid, DecIntField, DecBoolField, CloseSeq;
    n := bytesDecoded;
    var total: nat, typeDef: AsnInt, implicitly: AsnBool;
    typeDef, total :- BDecIntField(b, UP2, -109, 0);
    implicitly, total :- BDecBoolField(b, UP1, -111, total);
    var _, total' :- BDecCloseSeq(b, elmtLen0, total, -110);
    n := n + total';
    return Ok(TBLTypeRef(typeDef, implicitly)), n;
  }

  method BDecTBLTagContent(b: BufHandle, elmtLen0: nat, bytesDecoded: nat)
    returns (r: Result<TBLTag>, n: nat)
    requires b.ReadValid() && !b.ReadError()
    modifies b.Repr
    ensures b.ReadValid() && b.Repr == old(b.Repr)
    ensures Ran(DecTBLTag(old(b.rest), elmtLen0), b, bytesDecoded, r, n)
  {
    hide BufHandle.ReadValid, DecIntField, CloseSeq;
    n := bytesDecoded;
    var total: nat, tclass: AsnInt, code: AsnInt;
    tclass, total :- BDecIntField(b, UP10, -113, 0);
    code, total :- BDecIntField(b, UP2, -115, total);
    var _, total' :- BDecCloseSeq(b, elmtLen0, total, -114);
    n := n + total';
    return Ok(TBLTag(tclass, code)), n;
  }

  method BDecTBLTypeSeqOfContent(b: BufHandle, elmtLen0: nat, bytesDecoded: nat)
    returns (r: Result<seq<TBLTag>>, n: nat)
    requires b.ReadValid() && !b.ReadError()
    modifies b.Repr
    ensures b.ReadValid() && b.Repr == old(b.Repr)
    ensures Ran(DecTagList(old(b.rest), elmtLen0, 0), b, bytesDecoded, r, n)
  {
    hide BufHandle.ReadValid, DecTag, DecLen, DecTBLTag, Resumes, ConsValue;
    n := bytesDecoded;
    ghost var s := b.rest;
    ghost var whole := DecTagList(s, elmtLen0, 0);
    var v: seq<TBLTag>, total: nat := [], 0;
    ResumesStart(whole);
    while total < elmtLen0 || elmtLen0 == INDEFINITE_LEN
      invariant b.ReadValid() && !b.ReadError()
      invariant b.Repr == old(b.Repr) && |b.rest| <= |s|
      invariant Resumes(whole, DecTagList(b.rest, elmtLen0, total), v)
      decreases |b.rest|
    {
      ResumesEnds(whole, DecTagList(b.rest, elmtLen0, total), v);
      var tagId1: nat, elmtLen1: nat, elmt: TBLTag;
      tagId1, total :- BDecTag(b, total);
      if tagId1 == EOC_TAG_ID && elmtLen0 == INDEFINITE_LEN {
        var _, total' :- BDecSecondEoc(b, total);
        n := n + total';
        return Ok(v), n;
      }
      if tagId1 != UC16 {
        return Jump(-117), n;
      }
      elmtLen1, total :- BDecLen(b, total);
      elmt, total :- BDecTBLTagContent(b, elmtLen1, total);
      ResumesStep(whole, elmt, DecTagList(b.rest, elmtLen0, total), v);
      v := v + [elmt];
    }
    ResumesEnds(whole, DecTagList(b.rest, elmtLen0, total), v);
    n := n + total;
    return Ok(v), n;
  }

  method BDecTBLTypeContentSeqOfContent(b: BufHandle, stk: StrStk, elmtLen0: nat, bytesDecoded: nat)
    returns (r: Result<seq<TBLType>>, n: nat)
    requires Ready(b, stk)
    modifies b.Repr, stk, stk.stk
    ensures b.ReadValid() && b.Repr == old(b.Repr)
    ensures stk.Valid() && (stk.stk == old(stk.stk) || fresh(stk.stk))
    ensures Ran(DecTypeList(old(b.rest), elmtLen0, 0), b, bytesDecoded, r, n)
    decreases |b.rest|, 0
  {
    hide BufHandle.ReadValid, StrStk.Valid, DecTag, DecLen, DecType, Resumes, ConsValue;
    n := bytesDecoded;
    ghost var s := b.rest;
    ghost var whole := DecTypeList(s, elmtLen0, 0);
    var v: seq<TBLType>, total: nat := [], 0;
    ResumesStart(whole);
    while total < elmtLen0 || elmtLen0 == INDEFINITE_LEN
      invariant Ready(b, stk) && (stk.stk == old(stk.stk) || fresh(stk.stk))
      invariant b.Repr == old(b.Repr) && |b.rest| <= |s|
      invariant Resumes(whole, DecTypeList(b.rest, elmtLen0, total), v)
      decreases |b.rest|
    {
      ResumesEnds(whole, DecTypeList(b.rest, elmtLen0, total), v);
      var tagId1: nat, elmtLen1: nat, elmt: TBLType;
      tagId1, total :- BDecTag(b, total);
      if tagId1 == EOC_TAG_ID && elmtLen0 == INDEFINITE_LEN {
        var _, total' :- BDecSecondEoc(b, total);
        n := n + total';
        return Ok(v), n;
      }
      if tagId1 != UC16 {
        return Jump(-118), n;
      }
      elmtLen1, total :- BDecLen(b, total);
      elmt, total :- BDecTBLTypeContent(b, stk, elmtLen1, total);
      ResumesStep(whole, elmt, DecTypeList(b.rest, elmtLen0, total), v);
      v := v + [elmt];
    }
    ResumesEnds(whole, DecTypeList(b.rest, elmtLen0, total), v);
    n := n + total;
    return Ok(v), n;
  }

  method BDecTagListField(b: BufHandle, tag: nat, bytesDecoded: nat)
    returns (r: Result<(Option<seq<TBLTag>>, nat)>, n: nat)
    requires b.ReadValid() && !b.ReadError()
    modifies b.Repr
    ensures b.ReadValid() && b.Repr == old(b.Repr)
    ensures Ran(DecTagListField(old(b.rest), tag), b, bytesDecoded, r, n)
  {
    hide BufHandle.ReadValid, DecLen, DecTag, DecTagList;
    n := bytesDecoded;
    if tag != CC2 {
      return Ok((None, tag)), n;
    }
    var elmtLen1: nat, tagList: seq<TBLTag>, tagId1: nat;
    elmtLen1, n :- BDecLen(b, n);
    tagList, n :- BDecTBLTypeSeqOfContent(b, elmtLen1, n);
    tagId1, n :- BDecTag(b, n);
    return Ok((Some(tagList), tagId1)), n;
  }

  method BDecContentField(b: BufHandle, stk: StrStk, bytesDecoded: nat)
    returns (r: Result<TBLTypeContent>, n: nat)
    requires Ready(b, stk)
    modifies b.Repr, stk, stk.stk
    ensures b.ReadValid() && b.Repr == old(b.Repr)
    ensures stk.Valid() && (stk.stk == old(stk.stk) || fresh(stk.stk))
    ensures Ran(DecContentField(old(b.rest)), b, bytesDecoded, r, n)
    decreases |b.rest|, 3
  {
    hide BufHandle.ReadValid, StrStk.Valid, DecLen, DecTag, DecTypeContent, DecEoc;
    n := bytesDecoded;
    var elmtLen1: nat, tagId2: nat, elmtLen2: nat, content: TBLTypeContent;
    elmtLen1, n :- BDecLen(b, n);
    tagId2, n :- BDecTag(b, n);
    elmtLen2, n :- BDecLen(b, n);
    content, n :- BDecTBLTypeContentContent(b, stk, tagId2, elmtLen2, n);
    if elmtLen1 == INDEFINITE_LEN {
      var _, n1 :- BDecEoc(b, n);
      var _, n2 :- BDecEoc(b, n1);
      n := n2;
    }
    return Ok(content), n;
  }

  /** The optional `fieldName`, then the next identifier. */
  method BDecFieldName(b: BufHandle, stk: StrStk, elmtLen0: nat, total: nat, tag: Option<nat>)
    returns (r: Result<(Option<seq<byte>>, Option<nat>)>, n: nat)
    requires Ready(b, stk)
    modifies b.Repr, stk, stk.stk
    ensures b.ReadValid() && b.Repr == old(b.Repr)
    ensures stk.Valid() && (stk.stk == old(stk.stk) || fresh(stk.stk))
    ensures Ran(DecFieldName(old(b.rest), elmtLen0, total, tag), b, 0, r, n)
  {
    hide BufHandle.ReadValid, StrStk.Valid, DecLen, DecPrintable, NextTag;
    n := total;
    if tag != Some(CP4) && tag != Some(CC4) {
      return Ok((None, tag)), n;
    }
    var elmtLen1: nat, name: seq<byte>, next: Option<nat>;
    elmtLen1, n :- BDecLen(b, n);
    name, n :- BDecPrintableStringContent(b, stk, tag.value, elmtLen1, n);
    next, n :- BDecNextTag(b, elmtLen0, n);
    return Ok((Some(name), next)), n;
  }

  /** The optional `constraint`, then the next identifier. */
  method BDecConstraint(b: BufHandle, elmtLen0: nat, total: nat, tag: Option<nat>)
    returns (r: Result<(Option<TBLRange>, Option<nat>)>, n: nat)
    requires b.ReadValid() && !b.ReadError()
    modifies b.Repr
    ensures b.ReadValid() && b.Repr == old(b.Repr)
    ensures Ran(DecConstraint(old(b.rest), elmtLen0, total, tag), b, 0, r, n)
  {
    hide BufHandle.ReadValid, DecLen, DecRange, NextTag;
    n := total;
    if tag != Some(CC5) {
      return Ok((None, tag)), n;
    }
    var elmtLen1: nat, constraint: TBLRange, next: Option<nat>;
    elmtLen1, n :- BDecLen(b, n);
    constraint, n :- BDecTBLRangeContent(b, elmtLen1, n);
    next, n :- BDecNextTag(b, elmtLen0, n);
    return Ok((Some(constraint), next)), n;
  }

  /** The optional `values`, which end the sequence. */
  method BDecValues(b: BufHandle, stk: StrStk, elmtLen0: nat, total: nat, tag: Option<nat>)
    returns (r: Result<Option<seq<TBLNamedNumber>>>, n: nat)
    requires Ready(b, stk)
    modifies b.Repr, stk, stk.stk
    ensures b.ReadValid() && b.Repr == old(b.Repr)
    ensures stk.Valid() && (stk.stk == old(stk.stk) || fresh(stk.stk))
    ensures Ran(DecValues(old(b.rest), elmtLen0, total, tag), b, 0, r, n)
  {
    hide BufHandle.ReadValid, StrStk.Valid, DecLen, DecNamedNumberList, CloseSeq;
    n := total;
    if tag == None {
      return Ok(None), n;
    }
    if tag != Some(CC6) {
      return Jump(-123), n;
    }
    var elmtLen1: nat, values: seq<TBLNamedNumber>;
    elmtLen1, n :- BDecLen(b, n);
    values, n :- BDecTBLNamedNumberListContent(b, stk, elmtLen1, n);
    var _, n' :- BDecCloseSeq(b, elmtLen0, n, -122);
    return Ok(Some(values)), n';
  }

  method BDecTBLTypeContent(b: BufHandle, stk: StrStk, elmtLen0: nat, bytesDecoded: nat)
    returns (r: Result<TBLType>, n: nat)
    requires Ready(b, stk)
    modifies b.Repr, stk, stk.stk
    ensures b.ReadValid() && b.Repr == old(b.Repr)
    ensures stk.Valid() && (stk.stk == old(stk.stk) || fresh(stk.stk))
    ensures Ran(DecType(old(b.rest), elmtLen0), b, bytesDecoded, r, n)
    decreases |b.rest|, 4
  {
    hide BufHandle.ReadValid, StrStk.Valid, DecIntField, DecBoolField, DecTag, DecTagListField, DecContentField,
      NextTag, DecFieldName, DecConstraint, DecValues;
    n := bytesDecoded;
    var total: nat, typeId: AsnInt, optional: AsnBool, tagId1: nat;
    var tl: (Option<seq<TBLTag>>, nat), content: TBLTypeContent;
    typeId, total :- BDecIntField(b, CP0, -119, 0);
    optional, total :- BDecBoolField(b, CP1, -120, total);
    tagId1, total :- BDecTag(b, total);
    tl, total :- BDecTagListField(b, tagId1, total);
    if tl.1 != CC3 {
      return Jump(-121), n;
    }
    content, total :- BDecContentField(b, stk, total);
    var next: Option<nat>, name: (Option<seq<byte>>, Option<nat>), constraint: (Option<TBLRange>, Option<nat>);
    var values: Option<seq<TBLNamedNumber>>;
    next, total :- BDecNextTag(b, elmtLen0, total);
    name, total :- BDecFieldName(b, stk, elmtLen0, total, next);
    constraint, total :- BDecConstraint(b, elmtLen0, total, name.1);
    values, total :- BDecValues(b, stk, elmtLen0, total, constraint.1);
    n := n + total;
    return Ok(TBLType(typeId, optional, tl.0, content, name.0, constraint.0, values)), n;
  }

  method BDecTBLTypeContentContent(b: BufHandle, stk: StrStk, tagId0: nat, elmtLen0: nat, bytesDecoded: nat)
    returns (r: Result<TBLTypeContent>, n: nat)
    requires Ready(b, stk)
    modifies b.Repr, stk, stk.stk
    ensures b.ReadValid() && b.Repr == old(b.Repr)
    ensures stk.Valid() && (stk.stk == old(stk.stk) || fresh(stk.stk))
    ensures Ran(DecTypeContent(old(b.rest), tagId0, elmtLen0), b, bytesDecoded, r, n)
    decreases |b.rest|, 1
  {
    hide BufHandle.ReadValid, StrStk.Valid, DecNull, DecTypeList, DecTypeRef;
    n := bytesDecoded;
    if tagId0 == CP0 {
      var _, n' :- BDecAsnNullContent(b, elmtLen0, n);
      return Ok(PrimType), n';
    } else if tagId0 == CC1 {
      var elmts: seq<TBLType>;
      elmts, n :- BDecTBLTypeContentSeqOfContent(b, stk, elmtLen0, n);
      return Ok(Elmts(elmts)), n;
    } else if tagId0 == CC2 {
      var typeRef: TBLTypeRef;
      typeRef, n :- BDecTBLTypeRefContent(b, elmtLen0, n);
      return Ok(TypeRef(typeRef)), n;
    }
    return Jump(-124), n;
  }

  /** The optional `isPdu`, which ends the sequence. */
  method BDecIsPdu(b: BufHandle, elmtLen0: nat, total: nat, tag: Option<nat>)
    returns (r: Result<bool>, n: nat)
    requires b.ReadValid() && !b.ReadError()
    modifies b.Repr
    ensures b.ReadValid() && b.Repr == old(b.Repr)
    ensures Ran(DecIsPdu(old(b.rest), elmtLen0, total, tag), b, 0, r, n)
  {
    hide BufHandle.ReadValid, DecLen, DecNull, CloseSeq;
    n := total;
    if tag == None {
      return Ok(false), n;
    }
    if tag != Some(UP5) {
      return Jump(-129), n;
    }
    var elmtLen1: nat;
    elmtLen1, n :- BDecLen(b, n);
    var _, n1 :- BDecAsnNullContent(b, elmtLen1, n);
    var _, n2 :- BDecCloseSeq(b, elmtLen0, n1, -128);
    return Ok(true), n2;
  }

  method BDecTBLTypeDefContent(b: BufHandle, stk: StrStk, elmtLen0: nat, bytesDecoded: nat)
    returns (r: Result<TBLTypeDef>, n: nat)
    requires Ready(b, stk)
    modifies b.Repr, stk, stk.stk
    ensures b.ReadValid() && b.Repr == old(b.Repr)
    ensures stk.Valid() && (stk.stk == old(stk.stk) || fresh(stk.stk))
    ensures Ran(DecTypeDef(old(b.rest), elmtLen0), b, bytesDecoded, r, n)
  {
    hide BufHandle.ReadValid, StrStk.Valid, DecIntField, DecNameField, DecExpect, DecType, NextTag, DecIsPdu;
    n := bytesDecoded;
    var total: nat, typeDefId: AsnInt, typeName: seq<byte>, h: (nat, nat), typ: TBLType;
    typeDefId, total :- BDecIntField(b, UP2, -125, 0);
    typeName, total :- BDecNameField(b, stk, UP19, UC19, -126, total);
    h, total :- BDecExpect(b, UC16, UC16, -127, total);
    typ, total :- BDecTBLTypeContent(b, stk, h.1, total);
    var next: Option<nat>, isPdu: bool;
    next, total :- BDecNextTag(b, elmtLen0, total);
    isPdu, total :- BDecIsPdu(b, elmtLen0, total, next);
    n := n + total;
    return Ok(TBLTypeDef(typeDefId, typeName, typ, isPdu)), n;
  }

  method BDecTBLModuleSeqOfContent(b: BufHandle, stk: StrStk, elmtLen0: nat, bytesDecoded: nat)
    returns (r: Result<seq<TBLTypeDef>>, n: nat)
    requires Ready(b, stk)
    modifies b.Repr, stk, stk.stk
    ensures b.ReadValid() && b.Repr == old(b.Repr)
    ensures stk.Valid() && (stk.stk == old(stk.stk) || fresh(stk.stk))
    ensures Ran(DecTypeDefList(old(b.rest), elmtLen0, 0), b, bytesDecoded, r, n)
  {
    hide BufHandle.ReadValid, StrStk.Valid, DecTag, DecLen, DecTypeDef, Resumes, ConsValue;
    n := bytesDecoded;
    ghost var s := b.rest;
    ghost var whole := DecTypeDefList(s, elmtLen0, 0);
    var v: seq<TBLTypeDef>, total: nat := [], 0;
    ResumesStart(whole);
    while total < elmtLen0 || elmtLen0 == INDEFINITE_LEN
      invariant Ready(b, stk) && (stk.stk == old(stk.stk) || fresh(stk.stk))
      invariant b.Repr == old(b.Repr) && |b.rest| <= |s|
      invariant Resumes(whole, DecTypeDefList(b.rest, elmtLen0, total), v)
      decreases |b.rest|
    {
      ResumesEnds(whole, DecTypeDefList(b.rest, elmtLen0, total), v);
      var tagId1: nat, elmtLen1: nat, elmt: TBLTypeDef;
      tagId1, total :- BDecTag(b, total);
      if tagId1 == EOC_TAG_ID && elmtLen0 == INDEFINITE_LEN {
        var _, total' :- BDecSecondEoc(b, total);
        n := n + total';
        return Ok(v), n;
      }
      if tagId1 != UC16 {
        return Jump(-130), n;
      }
      elmtLen1, total :- BDecLen(b, total);
      elmt, total :- BDecTBLTypeDefContent(b, stk, elmtLen1, total);
      ResumesStep(whole, elmt, DecTypeDefList(b.rest, elmtLen0, total), v);
      v := v + [elmt];
    }
    ResumesEnds(whole, DecTypeDefList(b.rest, elmtLen0, total), v);
    n := n + total;
    return Ok(v), n;
  }

  method BDecIdField(b: BufHandle, tag: nat, bytesDecoded: nat)
    returns (r: Result<(Option<seq<byte>>, nat)>, n: nat)
    requires b.ReadValid() && !b.ReadError()
    modifies b.Repr
    ensures b.ReadValid() && b.Repr == old(b.Repr)
    ensures Ran(DecIdField(old(b.rest), tag), b, bytesDecoded, r, n)
  {
    hide BufHandle.ReadValid, DecLen, DecTag, DecOid;
    n := bytesDecoded;
    if tag != CP1 {
      return Ok((None, tag)), n;
    }
    var elmtLen1: nat, id: seq<byte>, tagId1: nat;
    elmtLen1, n :- BDecLen(b, n);
    id, n :- BDecAsnOidContent(b, elmtLen1, n);
    tagId1, n :- BDecTag(b, n);
    return Ok((Some(id), tagId1)), n;
  }

  method BDecTBLModuleContent(b: BufHandle, stk: StrStk, elmtLen0: nat, bytesDecoded: nat)
    returns (r: Result<TBLModule>, n: nat)
    requires Ready(b, stk)
    modifies b.Repr, stk, stk.stk
    ensures b.ReadValid() && b.Repr == old(b.Repr)
    ensures stk.Valid() && (stk.stk == old(stk.stk) || fresh(stk.stk))
    ensures Ran(DecModule(old(b.rest), elmtLen0), b, bytesDecoded, r, n)
  {
    hide BufHandle.ReadValid, StrStk.Valid, DecNameField, DecTag, DecIdField, DecLen, DecBool, DecExpect,
      DecTypeDefList, CloseSeq;
    n := bytesDecoded;
    var total: nat, name: seq<byte>, tagId1: nat, id: (Option<seq<byte>>, nat), elmtLen1: nat, isUseful: AsnBool;
    name, total :- BDecNameField(b, stk, CP0, CC0, -131, 0);
    tagId1, total :- BDecTag(b, total);
    id, total :- BDecIdField(b, tagId1, total);
    if id.1 != CP2 {
      return Jump(-132), n;
    }
    elmtLen1, total :- BDecLen(b, total);
    isUseful, total :- BDecAsnBoolContent(b, elmtLen1, total);
    var h: (nat, nat), typeDefs: seq<TBLTypeDef>;
    h, total :- BDecExpect(b, CC3, CC3, -134, total);
    typeDefs, total :- BDecTBLModuleSeqOfContent(b, stk, h.1, total);
    var _, total' :- BDecCloseSeq(b, elmtLen0, total, -133);
    n := n + total';
    return Ok(TBLModule(name, id.0, isUseful, typeDefs)), n;
  }

  method BDecTBLSeqOfContent(b: BufHandle, stk: StrStk, elmtLen0: nat, bytesDecoded: nat)
    returns (r: Result<seq<TBLModule>>, n: nat)
    requires Ready(b, stk)
    modifies b.Repr, stk, stk.stk
    ensures b.ReadValid() && b.Repr == old(b.Repr)
    ensures stk.Valid() && (stk.stk == old(stk.stk) || fresh(stk.stk))
    ensures Ran(DecModuleList(old(b.rest), elmtLen0, 0), b, bytesDecoded, r, n)
  {
    hide BufHandle.ReadValid, StrStk.Valid, DecTag, DecLen, DecModule, Resumes, ConsValue;
    n := bytesDecoded;
    ghost var s := b.rest;
    ghost var whole := DecModuleList(s, elmtLen0, 0);
    var v: seq<TBLModule>, total: nat := [], 0;
    ResumesStart(whole);
    while total < elmtLen0 || elmtLen0 == INDEFINITE_LEN
      invariant Ready(b, stk) && (stk.stk == old(stk.stk) || fresh(stk.stk))
      invariant b.Repr == old(b.Repr) && |b.rest| <= |s|
      invariant Resumes(whole, DecModuleList(b.rest, elmtLen0, total), v)
      decreases |b.rest|
    {
      ResumesEnds(whole, DecModuleList(b.rest, elmtLen0, total), v);
      var tagId1: nat, elmtLen1: nat, elmt: TBLModule;
      tagId1, total :- BDecTag(b, total);
      if tagId1 == EOC_TAG_ID && elmtLen0 == INDEFINITE_LEN {
        var _, total' :- BDecSecondEoc(b, total);
        n := n + total';
        return Ok(v), n;
      }
      if tagId1 != UC16 {
        return Jump(-136), n;
      }
      elmtLen1, total :- BDecLen(b, total);
      elmt, total :- BDecTBLModuleContent(b, stk, elmtLen1, total);
      ResumesStep(whole, elmt, DecModuleList(b.rest, elmtLen0, total), v);
      v := v + [elmt];
    }
    ResumesEnds(whole, DecModuleList(b.rest, elmtLen0, total), v);
    n := n + total;
    return Ok(v), n;
  }

  method BDecTBLContent(b: BufHandle, stk: StrStk, elmtLen0: nat, bytesDecoded: nat)
    returns (r: Result<TBL>, n: nat)
    requires Ready(b, stk)
    modifies b.Repr, stk, stk.stk
    ensures b.ReadValid() && b.Repr == old(b.Repr)
    ensures stk.Valid() && (stk.stk == old(stk.stk) || fresh(stk.stk))
    ensures Ran(DecTBLContent(old(b.rest), elmtLen0), b, bytesDecoded, r, n)
  {
    hide BufHandle.ReadValid, StrStk.Valid, DecIntField, DecExpect, DecModuleList, CloseSeq;
    n := bytesDecoded;
    var total: nat, i1: AsnInt, i2: AsnInt, i3: AsnInt, i4: AsnInt, i5: AsnInt, i6: AsnInt;
    i1, total :- BDecIntField(b, UP2, -138, 0);
    i2, total :- BDecIntField(b, UP2, -139, total);
    i3, total :- BDecIntField(b, UP2, -140, total);
    i4, total :- BDecIntField(b, UP2, -141, total);
    i5, total :- BDecIntField(b, UP2, -142, total);
    i6, total :- BDecIntField(b, UP2, -143, total);
    var h: (nat, nat), modules: seq<TBLModule>;
    h, total :- BDecExpect(b, UC16, UC16, -145, total);
    modules, total :- BDecTBLSeqOfContent(b, stk, h.1, total);
    var _, total' :- BDecCloseSeq(b, elmtLen0, total, -144);
    n := n + total';
    return Ok(TBL(i1, i2, i3, i4, i5, i6, modules)), n;
  }

  method BDecTBL(b: BufHandle, stk: StrStk, bytesDecoded: nat)
    returns (r: Result<TBL>, n: nat)
    requires Ready(b, stk)
    modifies b.Repr, stk, stk.stk
    ensures b.ReadValid() && b.Repr == old(b.Repr)
    ensures stk.Valid() && (stk.stk == old(stk.stk) || fresh(stk.stk))
    ensures Ran(DecTBL(old(b.rest)), b, bytesDecoded, r, n)
  {
    hide BufHandle.ReadValid, StrStk.Valid, DecExpect, DecTBLContent;
    n := bytesDecoded;
    var h: (nat, nat), result: TBL;
    h, n :- BDecExpect(b, UC16, UC16, -137, n);
    result, n :- BDecTBLContent(b, stk, h.1, n);
    return Ok(result), n;
  }
}

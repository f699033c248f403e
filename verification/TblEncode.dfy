/** The encoders of the type table, which write every value back to front. */
module TblEncode {
  import opened Octets
  import opened ExpBufs
  import opened Lengths
  import opened Tags
  import opened Ints
  import opened OctetStrings
  import opened Tbl
  import opened TblTrees

  /**
   * `BEncConsLen` (or `BEncDefLen`) and `BEncTag1` in front of content octets
   * that have just been written before `after`.
   */
  method PutHeader(b: BufHandle, cl: Class, fm: Form, code: nat, ghost content: seq<byte>, ghost after: seq<byte>,
                   contentLen: nat)
    returns (itemLen: nat)
    requires b.WriteValid() && code < 31
    requires b.out == content + after && contentLen == |content|
    modifies b.Repr
    ensures b.WriteValid() && fresh(b.Repr - old(b.Repr))
    ensures b.out == Tlv(cl, fm, code, content) + after && itemLen == |Tlv(cl, fm, code, content)|
  {
    hide BufHandle.WriteValid, EncDefLen, TagOctets;
    itemLen := contentLen;
    var n := BEncDefLen(b, itemLen);
    itemLen := itemLen + n;
    n := BEncTag1(b, cl, fm, code);
    itemLen := itemLen + n;
    Reassociate(EncDefLen(|content|), content, after);
    Reassociate(TagOctets(cl, fm, code), EncDefLen(|content|) + content, after);
  }

  /** The same with `BEncDefLenTo127`, for content that is known to be short. */
  method PutShortHeader(b: BufHandle, cl: Class, fm: Form, code: nat, ghost content: seq<byte>,
                        ghost after: seq<byte>, contentLen: nat)
    returns (itemLen: nat)
    requires b.WriteValid() && code < 31
    requires b.out == content + after && contentLen == |content| < 128
    modifies b.Repr
    ensures b.WriteValid() && fresh(b.Repr - old(b.Repr))
    ensures b.out == Tlv(cl, fm, code, content) + after && itemLen == |Tlv(cl, fm, code, content)|
  {
    hide BufHandle.WriteValid, TagOctets;
    itemLen := contentLen;
    b.PutByteRvs(itemLen);
    itemLen := itemLen + 1;
    var n := BEncTag1(b, cl, fm, code);
    itemLen := itemLen + n;
    assert EncDefLen(|content|) == [contentLen];
    Reassociate([contentLen], content, after);
    Reassociate(TagOctets(cl, fm, code), [contentLen] + content, after);
  }

  method PutInt(b: BufHandle, cl: Class, code: nat, v: AsnInt) returns (itemLen: nat)
    requires b.WriteValid() && code < 31
    modifies b.Repr
    ensures b.WriteValid() && fresh(b.Repr - old(b.Repr))
    ensures b.out == Tlv(cl, PRIM, code, EncInt(v)) + old(b.out)
    ensures itemLen == |Tlv(cl, PRIM, code, EncInt(v))|
  {
    hide BufHandle.WriteValid, EncInt, Tlv;
    itemLen := BEncAsnIntContent(b, v);
    itemLen := PutShortHeader(b, cl, PRIM, code, EncInt(v), old(b.out), itemLen);
  }

  method PutBool(b: BufHandle, cl: Class, code: nat, v: AsnBool) returns (itemLen: nat)
    requires b.WriteValid() && code < 31
    modifies b.Repr
    ensures b.WriteValid() && fresh(b.Repr - old(b.Repr))
    ensures b.out == Tlv(cl, PRIM, code, EncBool(v)) + old(b.out)
    ensures itemLen == |Tlv(cl, PRIM, code, EncBool(v))|
  {
    hide BufHandle.WriteValid, Tlv;
    b.PutByteRvs(if v != 0 then 0xFF else 0);
    itemLen := PutShortHeader(b, cl, PRIM, code, EncBool(v), old(b.out), 1);
  }

  method PutNull(b: BufHandle, cl: Class, code: nat) returns (itemLen: nat)
    requires b.WriteValid() && code < 31
    modifies b.Repr
    ensures b.WriteValid() && fresh(b.Repr - old(b.Repr))
    ensures b.out == Tlv(cl, PRIM, code, []) + old(b.out)
    ensures itemLen == |Tlv(cl, PRIM, code, [])|
  {
    hide BufHandle.WriteValid, Tlv;
    itemLen := PutShortHeader(b, cl, PRIM, code, [], b.out, 0);
  }

  /** An OCTET STRING or OBJECT IDENTIFIER field. */
  method PutOcts(b: BufHandle, cl: Class, code: nat, v: seq<byte>) returns (itemLen: nat)
    requires b.WriteValid() && code < 31
    modifies b.Repr
    ensures b.WriteValid() && fresh(b.Repr - old(b.Repr))
    ensures b.out == Tlv(cl, PRIM, code, v) + old(b.out)
    ensures itemLen == |Tlv(cl, PRIM, code, v)|
  {
    hide BufHandle.WriteValid, Tlv;
    itemLen := BEncAsnOctsContent(b, v);
    itemLen := PutHeader(b, cl, PRIM, code, v, old(b.out), itemLen);
  }

  /**
   * `BEncPrintableStringContent` and its header. Nothing is known of what is done after the check of a name has failed:
   * the write error is then set in the table of buffer functions, in place of the buffer.
   */
  method PutName(b: BufHandle, cl: Class, code: nat, v: seq<byte>) returns (r: Option<nat>)
    requires b.WriteValid() && code < 31
    modifies b.Repr
    ensures r.Some? <==> AllPrintable(v)
    ensures r.Some? ==> b.WriteValid() && fresh(b.Repr - old(b.Repr))
    ensures r.Some? ==> b.out == Tlv(cl, PRIM, code, v) + old(b.out)
    ensures r.Some? ==> r.value == |Tlv(cl, PRIM, code, v)|
  {
    hide BufHandle.WriteValid, AllPrintable, Tlv;
    var ok := ChkPrintableString(v);
    if !ok {
      return None;
    }
    var itemLen := PutOcts(b, cl, code, v);
    return Some(itemLen);
  }

  method BEncTBLRangeContent(b: BufHandle, v: TBLRange) returns (totalLen: nat)
    requires b.WriteValid()
    modifies b.Repr
    ensures b.WriteValid() && fresh(b.Repr - old(b.Repr))
    ensures b.out == EncRange(v) + old(b.out) && totalLen == |EncRange(v)|
  {
    hide BufHandle.WriteValid, Tlv, EncInt;
    totalLen := 0;
    var itemLen := PutInt(b, CNTX, 1, v.to);
    totalLen := totalLen + itemLen;
    itemLen := PutInt(b, CNTX, 0, v.from);
    totalLen := totalLen + itemLen;
    Reassociate(Tlv(CNTX, PRIM, 0, EncInt(v.from)), Tlv(CNTX, PRIM, 1, EncInt(v.to)), old(b.out));
  }

  method BEncTBLNamedNumberContent(b: BufHandle, v: TBLNamedNumber) returns (r: Option<nat>)
    requires b.WriteValid()
    modifies b.Repr
    ensures r.Some? <==> AllPrintable(v.name)
    ensures r.Some? ==> b.WriteValid() && fresh(b.Repr - old(b.Repr))
    ensures r.Some? ==> b.out == EncNamedNumber(v) + old(b.out) && r.value == |EncNamedNumber(v)|
  {
    hide BufHandle.WriteValid, Tlv, EncInt;
    var totalLen := 0;
    var itemLen := PutInt(b, CNTX, 1, v.value);
    totalLen := totalLen + itemLen;
    itemLen :- PutName(b, CNTX, 0, v.name);
    totalLen := totalLen + itemLen;
    Reassociate(Tlv(CNTX, PRIM, 0, v.name), Tlv(CNTX, PRIM, 1, EncInt(v.value)), old(b.out));
    return Some(totalLen);
  }

  method BEncTBLNamedNumberListContent(b: BufHandle, v: seq<TBLNamedNumber>) returns (r: Option<nat>)
    requires b.WriteValid()
    modifies b.Repr
    ensures r.Some? <==> NumbersNamed(v)
    ensures r.Some? ==> b.WriteValid() && fresh(b.Repr - old(b.Repr))
    ensures r.Some? ==> b.out == EncNamedNumberList(v) + old(b.out) && r.value == |EncNamedNumberList(v)|
  {
    hide BufHandle.WriteValid, Tlv, EncNamedNumberList, EncNamedNumber;
    var listLen := 0;
    EncNamedNumberListEnd(v);
    NothingBefore(b.out);
    for i := |v| downto 0
      invariant forall k :: i <= k < |v| ==> AllPrintable(v[k].name)
      invariant b.WriteValid() && fresh(b.Repr - old(b.Repr))
      invariant b.out == EncNamedNumberList(v[i..]) + old(b.out) && listLen == |EncNamedNumberList(v[i..])|
    {
      ghost var more := EncNamedNumberList(v[i + 1..]);
      var itemLen :- BEncTBLNamedNumberContent(b, v[i]);
      itemLen := PutHeader(b, UNIV, CONS, SEQ_TAG_CODE, EncNamedNumber(v[i]), more + old(b.out), itemLen);
      EncNamedNumberListStep(v, i);
      listLen := listLen + itemLen;
      Reassociate(Tlv(UNIV, CONS, SEQ_TAG_CODE, EncNamedNumber(v[i])), more, old(b.out));
    }
    assert v[0..] == v;
    return Some(listLen);
  }

  lemma EncNamedNumberListEnd(v: seq<TBLNamedNumber>)
    ensures EncNamedNumberList(v[|v|..]) == []
  {
  }

  lemma EncNamedNumberListStep(v: seq<TBLNamedNumber>, i: nat)
    requires i < |v|
    ensures EncNamedNumberList(v[i..])
            == Tlv(UNIV, CONS, SEQ_TAG_CODE, EncNamedNumber(v[i])) + EncNamedNumberList(v[i + 1..])
  {
    assert v[i..][0] == v[i] && v[i..][1..] == v[i + 1..];
  }

  method BEncTBLTypeRefContent(b: BufHandle, v: TBLTypeRef) returns (totalLen: nat)
    requires b.WriteValid()
    modifies b.Repr
    ensures b.WriteValid() && fresh(b.Repr - old(b.Repr))
    ensures b.out == EncTypeRef(v) + old(b.out) && totalLen == |EncTypeRef(v)|
  {
    hide BufHandle.WriteValid, Tlv, EncInt, EncBool;
    totalLen := 0;
    var itemLen := PutBool(b, UNIV, BOOLEAN_TAG_CODE, v.implicitly);
    totalLen := totalLen + itemLen;
    itemLen := PutInt(b, UNIV, INTEGER_TAG_CODE, v.typeDef);
    totalLen := totalLen + itemLen;
    Reassociate(Tlv(UNIV, PRIM, INTEGER_TAG_CODE, EncInt(v.typeDef)),
                Tlv(UNIV, PRIM, BOOLEAN_TAG_CODE, EncBool(v.implicitly)), old(b.out));
  }

  method BEncTBLTagContent(b: BufHandle, v: TBLTag) returns (totalLen: nat)
    requires b.WriteValid()
    modifies b.Repr
    ensures b.WriteValid() && fresh(b.Repr - old(b.Repr))
    ensures b.out == EncTag(v) + old(b.out) && totalLen == |EncTag(v)|
  {
    hide BufHandle.WriteValid, Tlv, EncInt;
    totalLen := 0;
    var itemLen := PutInt(b, UNIV, INTEGER_TAG_CODE, v.code);
    totalLen := totalLen + itemLen;
    itemLen := PutInt(b, UNIV, ENUM_TAG_CODE, v.tclass);
    totalLen := totalLen + itemLen;
    Reassociate(Tlv(UNIV, PRIM, ENUM_TAG_CODE, EncInt(v.tclass)),
                Tlv(UNIV, PRIM, INTEGER_TAG_CODE, EncInt(v.code)), old(b.out));
  }

  method BEncTBLTypeSeqOfContent(b: BufHandle, v: seq<TBLTag>) returns (listLen: nat)
    requires b.WriteValid()
    modifies b.Repr
    ensures b.WriteValid() && fresh(b.Repr - old(b.Repr))
    ensures b.out == EncTagList(v) + old(b.out) && listLen == |EncTagList(v)|
  {
    hide BufHandle.WriteValid, Tlv, EncTagList, EncTag;
    listLen := 0;
    EncTagListEnd(v);
    NothingBefore(b.out);
    for i := |v| downto 0
      invariant b.WriteValid() && fresh(b.Repr - old(b.Repr))
      invariant b.out == EncTagList(v[i..]) + old(b.out) && listLen == |EncTagList(v[i..])|
    {
      ghost var more := EncTagList(v[i + 1..]);
      var itemLen := BEncTBLTagContent(b, v[i]);
      itemLen := PutHeader(b, UNIV, CONS, SEQ_TAG_CODE, EncTag(v[i]), more + old(b.out), itemLen);
      EncTagListStep(v, i);
      listLen := listLen + itemLen;
      Reassociate(Tlv(UNIV, CONS, SEQ_TAG_CODE, EncTag(v[i])), more, old(b.out));
    }
    assert v[0..] == v;
  }

  lemma EncTagListEnd(v: seq<TBLTag>)
    ensures EncTagList(v[|v|..]) == []
  {
  }

  lemma EncTagListStep(v: seq<TBLTag>, i: nat)
    requires i < |v|
    ensures EncTagList(v[i..]) == Tlv(UNIV, CONS, SEQ_TAG_CODE, EncTag(v[i])) + EncTagList(v[i + 1..])
  {
    assert v[i..][0] == v[i] && v[i..][1..] == v[i + 1..];
  }

  method BEncTBLTypeContentSeqOfContent(b: BufHandle, v: seq<TBLType>) returns (r: Option<nat>)
    requires b.WriteValid()
    modifies b.Repr
    ensures r.Some? <==> TypesNamed(v)
    ensures r.Some? ==> b.WriteValid() && fresh(b.Repr - old(b.Repr))
    ensures r.Some? ==> b.out == EncTypeList(v) + old(b.out) && r.value == |EncTypeList(v)|
    decreases v, 1
  {
    hide BufHandle.WriteValid, Tlv, EncTypeList, EncType;
    var listLen := 0;
    EncTypeListEnd(v);
    NothingBefore(b.out);
    for i := |v| downto 0
      invariant forall k :: i <= k < |v| ==> TypeNamed(v[k])
      invariant b.WriteValid() && fresh(b.Repr - old(b.Repr))
      invariant b.out == EncTypeList(v[i..]) + old(b.out) && listLen == |EncTypeList(v[i..])|
    {
      ghost var more := EncTypeList(v[i + 1..]);
      var itemLen :- BEncTBLTypeContent(b, v[i]);
      itemLen := PutHeader(b, UNIV, CONS, SEQ_TAG_CODE, EncType(v[i]), more + old(b.out), itemLen);
      EncTypeListStep(v, i);
      listLen := listLen + itemLen;
      Reassociate(Tlv(UNIV, CONS, SEQ_TAG_CODE, EncType(v[i])), more, old(b.out));
    }
    assert v[0..] == v;
    return Some(listLen);
  }

  lemma EncTypeListEnd(v: seq<TBLType>)
    ensures EncTypeList(v[|v|..]) == []
  {
  }

  lemma EncTypeListStep(v: seq<TBLType>, i: nat)
    requires i < |v|
    ensures EncTypeList(v[i..]) == Tlv(UNIV, CONS, SEQ_TAG_CODE, EncType(v[i])) + EncTypeList(v[i + 1..])
  {
    assert v[i..][0] == v[i] && v[i..][1..] == v[i + 1..];
  }

  method BEncTBLTypeContent(b: BufHandle, v: TBLType) returns (r: Option<nat>)
    requires b.WriteValid()
    modifies b.Repr
    ensures r.Some? <==> TypeNamed(v)
    ensures r.Some? ==> b.WriteValid() && fresh(b.Repr - old(b.Repr))
    ensures r.Some? ==> b.out == EncType(v) + old(b.out) && r.value == |EncType(v)|
    decreases v, 0
  {
    hide BufHandle.WriteValid, Tlv, EncInt, EncBool, EncTagList, EncTypeContent, EncFieldName;
    ghost var after := b.out;
    var totalLen :- PutOptionalTail(b, v);
    ghost var tail := EncFieldName(v);
    var itemLen :- BEncTBLTypeContentContent(b, v.content);
    ghost var content := Tlv(CNTX, CONS, 3, EncTypeContent(v.content));
    itemLen := PutHeader(b, CNTX, CONS, 3, EncTypeContent(v.content), tail + after, itemLen);
    totalLen := totalLen + itemLen;
    Reassociate(content, tail, after);
    tail := content + tail;
    if v.tagList.Some? {
      itemLen := BEncTBLTypeSeqOfContent(b, v.tagList.value);
      itemLen := PutHeader(b, CNTX, CONS, 2, EncTagList(v.tagList.value), tail + after, itemLen);
      totalLen := totalLen + itemLen;
    }
    Reassociate(EncTagListField(v), tail, after);
    NothingBefore(tail);
    NothingBefore(tail + after);
    tail := EncTagListField(v) + tail;
    itemLen := PutBool(b, CNTX, 1, v.optional);
    totalLen := totalLen + itemLen;
    Reassociate(Tlv(CNTX, PRIM, 1, EncBool(v.optional)), tail, after);
    tail := Tlv(CNTX, PRIM, 1, EncBool(v.optional)) + tail;
    itemLen := PutInt(b, CNTX, 0, v.typeId);
    totalLen := totalLen + itemLen;
    Reassociate(Tlv(CNTX, PRIM, 0, EncInt(v.typeId)), tail, after);
    return Some(totalLen);
  }

  lemma NothingBefore(s: seq<byte>)
    ensures [] + s == s
  {
  }

  /** The optional fields `values`, `constraint` and `fieldName`, the last one first. */
  method PutOptionalTail(b: BufHandle, v: TBLType) returns (r: Option<nat>)
    requires b.WriteValid()
    modifies b.Repr
    ensures r.Some? <==> TailNamed(v)
    ensures r.Some? ==> b.WriteValid() && fresh(b.Repr - old(b.Repr))
    ensures r.Some? ==> b.out == EncFieldName(v) + old(b.out) && r.value == |EncFieldName(v)|
  {
    hide BufHandle.WriteValid, Tlv, EncNamedNumberList, EncRange;
    ghost var after := b.out;
    var totalLen := 0;
    var itemLen;
    NothingBefore(after);
    if v.values.Some? {
      itemLen :- BEncTBLNamedNumberListContent(b, v.values.value);
      itemLen := PutHeader(b, CNTX, CONS, 6, EncNamedNumberList(v.values.value), after, itemLen);
      totalLen := totalLen + itemLen;
    }
    ghost var tail := EncValues(v);
    NothingBefore(tail);
    if v.constraint.Some? {
      itemLen := BEncTBLRangeContent(b, v.constraint.value);
      itemLen := PutHeader(b, CNTX, CONS, 5, EncRange(v.constraint.value), tail + after, itemLen);
      totalLen := totalLen + itemLen;
      Reassociate(Tlv(CNTX, CONS, 5, EncRange(v.constraint.value)), tail, after);
    }
    tail := EncConstraint(v);
    NothingBefore(tail);
    if v.fieldName.Some? {
      itemLen :- PutName(b, CNTX, 4, v.fieldName.value);
      totalLen := totalLen + itemLen;
      Reassociate(Tlv(CNTX, PRIM, 4, v.fieldName.value), tail, after);
    }
    return Some(totalLen);
  }

  method BEncTBLTypeContentContent(b: BufHandle, v: TBLTypeContent) returns (r: Option<nat>)
    requires b.WriteValid()
    modifies b.Repr
    ensures r.Some? <==> (v.Elmts? ==> TypesNamed(v.elmts))
    ensures r.Some? ==> b.WriteValid() && fresh(b.Repr - old(b.Repr))
    ensures r.Some? ==> b.out == EncTypeContent(v) + old(b.out) && r.value == |EncTypeContent(v)|
    ensures r.Some? && r.value < TWO_32 ==> ReadTrees(b.out[..r.value]) == Some([ContentTree(v)])
    decreases v, 2
  {
    hide BufHandle.WriteValid, Tlv, EncTypeList, EncTypeRef, ReadTrees, ContentTree;
    var totalLen: nat;
    match v {
      case PrimType =>
        totalLen := PutNull(b, CNTX, 0);
      case Elmts(elmts) =>
        totalLen :- BEncTBLTypeContentSeqOfContent(b, elmts);
        totalLen := PutHeader(b, CNTX, CONS, 1, EncTypeList(elmts), old(b.out), totalLen);
      case TypeRef(typeRef) =>
        totalLen := BEncTBLTypeRefContent(b, typeRef);
        totalLen := PutHeader(b, CNTX, CONS, 2, EncTypeRef(typeRef), old(b.out), totalLen);
    }
    assert b.out[..totalLen] == EncTypeContent(v);
    if totalLen < TWO_32 {
      ContentOctets(v);
    }
    return Some(totalLen);
  }

  method BEncTBLTypeDefContent(b: BufHandle, v: TBLTypeDef) returns (r: Option<nat>)
    requires b.WriteValid()
    modifies b.Repr
    ensures r.Some? <==> TypeDefNamed(v)
    ensures r.Some? ==> b.WriteValid() && fresh(b.Repr - old(b.Repr))
    ensures r.Some? ==> b.out == EncTypeDef(v) + old(b.out) && r.value == |EncTypeDef(v)|
  {
    hide BufHandle.WriteValid, Tlv, EncInt, EncType;
    ghost var after := b.out;
    var totalLen := 0;
    var itemLen;
    NothingBefore(after);
    if v.isPdu {
      itemLen := PutNull(b, UNIV, NULLTYPE_TAG_CODE);
      totalLen := totalLen + itemLen;
    }
    ghost var tail := EncIsPdu(v);
    itemLen :- BEncTBLTypeContent(b, v.typ);
    itemLen := PutHeader(b, UNIV, CONS, SEQ_TAG_CODE, EncType(v.typ), tail + after, itemLen);
    totalLen := totalLen + itemLen;
    Reassociate(Tlv(UNIV, CONS, SEQ_TAG_CODE, EncType(v.typ)), tail, after);
    tail := Tlv(UNIV, CONS, SEQ_TAG_CODE, EncType(v.typ)) + tail;
    itemLen :- PutName(b, UNIV, PRINTABLESTRING_TAG_CODE, v.typeName);
    totalLen := totalLen + itemLen;
    Reassociate(Tlv(UNIV, PRIM, PRINTABLESTRING_TAG_CODE, v.typeName), tail, after);
    tail := Tlv(UNIV, PRIM, PRINTABLESTRING_TAG_CODE, v.typeName) + tail;
    itemLen := PutInt(b, UNIV, INTEGER_TAG_CODE, v.typeDefId);
    totalLen := totalLen + itemLen;
    Reassociate(Tlv(UNIV, PRIM, INTEGER_TAG_CODE, EncInt(v.typeDefId)), tail, after);
    return Some(totalLen);
  }

  method BEncTBLModuleSeqOfContent(b: BufHandle, v: seq<TBLTypeDef>) returns (r: Option<nat>)
    requires b.WriteValid()
    modifies b.Repr
    ensures r.Some? <==> TypeDefsNamed(v)
    ensures r.Some? ==> b.WriteValid() && fresh(b.Repr - old(b.Repr))
    ensures r.Some? ==> b.out == EncTypeDefList(v) + old(b.out) && r.value == |EncTypeDefList(v)|
  {
    hide BufHandle.WriteValid, Tlv, EncTypeDefList, EncTypeDef;
    var listLen := 0;
    EncTypeDefListEnd(v);
    NothingBefore(b.out);
    for i := |v| downto 0
      invariant forall k :: i <= k < |v| ==> TypeDefNamed(v[k])
      invariant b.WriteValid() && fresh(b.Repr - old(b.Repr))
      invariant b.out == EncTypeDefList(v[i..]) + old(b.out) && listLen == |EncTypeDefList(v[i..])|
    {
      ghost var more := EncTypeDefList(v[i + 1..]);
      var itemLen :- BEncTBLTypeDefContent(b, v[i]);
      itemLen := PutHeader(b, UNIV, CONS, SEQ_TAG_CODE, EncTypeDef(v[i]), more + old(b.out), itemLen);
      EncTypeDefListStep(v, i);
      listLen := listLen + itemLen;
      Reassociate(Tlv(UNIV, CONS, SEQ_TAG_CODE, EncTypeDef(v[i])), more, old(b.out));
    }
    assert v[0..] == v;
    return Some(listLen);
  }

  lemma EncTypeDefListEnd(v: seq<TBLTypeDef>)
    ensures EncTypeDefList(v[|v|..]) == []
  {
  }

  lemma EncTypeDefListStep(v: seq<TBLTypeDef>, i: nat)
    requires i < |v|
    ensures EncTypeDefList(v[i..]) == Tlv(UNIV, CONS, SEQ_TAG_CODE, EncTypeDef(v[i])) + EncTypeDefList(v[i + 1..])
  {
    assert v[i..][0] == v[i] && v[i..][1..] == v[i + 1..];
  }

  method BEncTBLModuleContent(b: BufHandle, v: TBLModule) returns (r: Option<nat>)
    requires b.WriteValid()
    modifies b.Repr
    ensures r.Some? <==> ModuleNamed(v)
    ensures r.Some? ==> b.WriteValid() && fresh(b.Repr - old(b.Repr))
    ensures r.Some? ==> b.out == EncModule(v) + old(b.out) && r.value == |EncModule(v)|
  {
    hide BufHandle.WriteValid, Tlv, EncBool, EncTypeDefList;
    ghost var after := b.out;
    var totalLen :- BEncTBLModuleSeqOfContent(b, v.typeDefs);
    totalLen := PutHeader(b, CNTX, CONS, 3, EncTypeDefList(v.typeDefs), after, totalLen);
    ghost var tail := Tlv(CNTX, CONS, 3, EncTypeDefList(v.typeDefs));
    var itemLen := PutBool(b, CNTX, 2, v.isUseful);
    totalLen := totalLen + itemLen;
    Reassociate(Tlv(CNTX, PRIM, 2, EncBool(v.isUseful)), tail, after);
    tail := Tlv(CNTX, PRIM, 2, EncBool(v.isUseful)) + tail;
    NothingBefore(tail);
    if v.id.Some? {
      itemLen := PutOcts(b, CNTX, 1, v.id.value);
      totalLen := totalLen + itemLen;
      Reassociate(Tlv(CNTX, PRIM, 1, v.id.value), tail, after);
    }
    tail := EncId(v) + tail;
    itemLen :- PutName(b, CNTX, 0, v.name);
    totalLen := totalLen + itemLen;
    Reassociate(Tlv(CNTX, PRIM, 0, v.name), tail, after);
    return Some(totalLen);
  }

  method BEncTBLSeqOfContent(b: BufHandle, v: seq<TBLModule>) returns (r: Option<nat>)
    requires b.WriteValid()
    modifies b.Repr
    ensures r.Some? <==> ModulesNamed(v)
    ensures r.Some? ==> b.WriteValid() && fresh(b.Repr - old(b.Repr))
    ensures r.Some? ==> b.out == EncModuleList(v) + old(b.out) && r.value == |EncModuleList(v)|
  {
    hide BufHandle.WriteValid, Tlv, EncModuleList, EncModule;
    var listLen := 0;
    EncModuleListEnd(v);
    NothingBefore(b.out);
    for i := |v| downto 0
      invariant forall k :: i <= k < |v| ==> ModuleNamed(v[k])
      invariant b.WriteValid() && fresh(b.Repr - old(b.Repr))
      invariant b.out == EncModuleList(v[i..]) + old(b.out) && listLen == |EncModuleList(v[i..])|
    {
      ghost var more := EncModuleList(v[i + 1..]);
      var itemLen :- BEncTBLModuleContent(b, v[i]);
      itemLen := PutHeader(b, UNIV, CONS, SEQ_TAG_CODE, EncModule(v[i]), more + old(b.out), itemLen);
      EncModuleListStep(v, i);
      listLen := listLen + itemLen;
      Reassociate(Tlv(UNIV, CONS, SEQ_TAG_CODE, EncModule(v[i])), more, old(b.out));
    }
    assert v[0..] == v;
    return Some(listLen);
  }

  lemma EncModuleListEnd(v: seq<TBLModule>)
    ensures EncModuleList(v[|v|..]) == []
  {
  }

  lemma EncModuleListStep(v: seq<TBLModule>, i: nat)
    requires i < |v|
    ensures EncModuleList(v[i..]) == Tlv(UNIV, CONS, SEQ_TAG_CODE, EncModule(v[i])) + EncModuleList(v[i + 1..])
  {
    assert v[i..][0] == v[i] && v[i..][1..] == v[i + 1..];
  }

  /** An INTEGER element in front of the rest of its sequence. */
  method PutIntElement(b: BufHandle, v: AsnInt, ghost tail: seq<byte>, ghost after: seq<byte>) returns (itemLen: nat)
    requires b.WriteValid() && b.out == tail + after
    modifies b.Repr
    ensures b.WriteValid() && fresh(b.Repr - old(b.Repr))
    ensures b.out == (IntElement(v) + tail) + after && itemLen == |IntElement(v)|
  {
    hide BufHandle.WriteValid, Tlv, EncInt;
    itemLen := PutInt(b, UNIV, INTEGER_TAG_CODE, v);
    Reassociate(IntElement(v), tail, after);
  }

  method BEncTBLContent(b: BufHandle, v: TBL) returns (r: Option<nat>)
    requires b.WriteValid()
    modifies b.Repr
    ensures r.Some? <==> Named(v)
    ensures r.Some? ==> b.WriteValid() && fresh(b.Repr - old(b.Repr))
    ensures r.Some? ==> b.out == EncTBLContent(v) + old(b.out) && r.value == |EncTBLContent(v)|
  {
    hide BufHandle.WriteValid, Tlv, IntElement, EncModuleList;
    ghost var after := b.out;
    var totalLen :- BEncTBLSeqOfContent(b, v.modules);
    totalLen := PutHeader(b, UNIV, CONS, SEQ_TAG_CODE, EncModuleList(v.modules), after, totalLen);
    ghost var tail := Tlv(UNIV, CONS, SEQ_TAG_CODE, EncModuleList(v.modules));
    var itemLen;
    itemLen := PutIntElement(b, v.totalLenStrings, tail, after);
    totalLen := totalLen + itemLen;
    tail := IntElement(v.totalLenStrings) + tail;
    itemLen := PutIntElement(b, v.totalNumStrings, tail, after);
    totalLen := totalLen + itemLen;
    tail := IntElement(v.totalNumStrings) + tail;
    itemLen := PutIntElement(b, v.totalNumTags, tail, after);
    totalLen := totalLen + itemLen;
    tail := IntElement(v.totalNumTags) + tail;
    itemLen := PutIntElement(b, v.totalNumTypes, tail, after);
    totalLen := totalLen + itemLen;
    tail := IntElement(v.totalNumTypes) + tail;
    itemLen := PutIntElement(b, v.totalNumTypeDefs, tail, after);
    totalLen := totalLen + itemLen;
    tail := IntElement(v.totalNumTypeDefs) + tail;
    itemLen := PutIntElement(b, v.totalNumModules, tail, after);
    totalLen := totalLen + itemLen;
    return Some(totalLen);
  }

  method BEncTBL(b: BufHandle, v: TBL) returns (r: Option<nat>)
    requires b.WriteValid()
    modifies b.Repr
    ensures r.Some? <==> Named(v)
    ensures r.Some? ==> b.WriteValid() && fresh(b.Repr - old(b.Repr))
    ensures r.Some? ==> b.out == EncTBL(v) + old(b.out) && r.value == |EncTBL(v)|
    ensures r.Some? && r.value < TWO_32 ==> ReadTrees(b.out[..r.value]) == Some([TableTree(v)])
  {
    hide BufHandle.WriteValid, Tlv, EncTBLContent, ReadTrees, TableTree;
    var l :- BEncTBLContent(b, v);
    l := PutHeader(b, UNIV, CONS, SEQ_TAG_CODE, EncTBLContent(v), old(b.out), l);
    assert b.out[..l] == EncTBL(v);
    if l < TWO_32 {
      TableOctets(v);
    }
    return Some(l);
  }
}

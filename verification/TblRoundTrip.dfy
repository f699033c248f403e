/** Decoding inverts encoding, over the whole type table. */
module TblRoundTrip {
  import opened Octets
  import opened ExpBufs
  import opened Headers
  import opened Lengths
  import opened Tags
  import opened Ints
  import opened OctetStrings
  import opened Tbl
  import opened TblDecodeSpec

  /** What comes back of a BOOLEAN. */
  function NormBool(v: AsnBool): AsnBool
  {
    if v != 0 then 1 else 0
  }

  function NormRange(v: TBLRange): TBLRange
  {
    TBLRange(Decoded(v.from), Decoded(v.to))
  }

  function NormNumber(v: TBLNamedNumber): TBLNamedNumber
  {
    TBLNamedNumber(v.name, Decoded(v.value))
  }

  function NormNumbers(v: seq<TBLNamedNumber>): (r: seq<TBLNamedNumber>)
    ensures |r| == |v|
  {
    if v == [] then [] else [NormNumber(v[0])] + NormNumbers(v[1..])
  }

  function NormTypeRef(v: TBLTypeRef): TBLTypeRef
  {
    TBLTypeRef(Decoded(v.typeDef), NormBool(v.implicitly))
  }

  function NormTag(v: TBLTag): TBLTag
  {
    TBLTag(Decoded(v.tclass), Decoded(v.code))
  }

  function NormTags(v: seq<TBLTag>): (r: seq<TBLTag>)
    ensures |r| == |v|
  {
    if v == [] then [] else [NormTag(v[0])] + NormTags(v[1..])
  }

  function NormType(v: TBLType): TBLType
    decreases v, 0
  {
    TBLType(
      Decoded(v.typeId),
      NormBool(v.optional),
      if v.tagList.None? then None else Some(NormTags(v.tagList.value)),
      NormContent(v.content),
      v.fieldName,
      if v.constraint.None? then None else Some(NormRange(v.constraint.value)),
      if v.values.None? then None else Some(NormNumbers(v.values.value)))
  }

  function NormTypes(v: seq<TBLType>): (r: seq<TBLType>)
    ensures |r| == |v|
    decreases v, 1
  {
    if v == [] then [] else [NormType(v[0])] + NormTypes(v[1..])
  }

  function NormContent(v: TBLTypeContent): TBLTypeContent
    decreases v, 2
  {
    match v
    case PrimType => PrimType
    case Elmts(elmts) => Elmts(NormTypes(elmts))
    case TypeRef(typeRef) => TypeRef(NormTypeRef(typeRef))
  }

  function NormTypeDef(v: TBLTypeDef): TBLTypeDef
  {
    v.(typeDefId := Decoded(v.typeDefId), typ := NormType(v.typ))
  }

  function NormTypeDefs(v: seq<TBLTypeDef>): (r: seq<TBLTypeDef>)
    ensures |r| == |v|
  {
    if v == [] then [] else [NormTypeDef(v[0])] + NormTypeDefs(v[1..])
  }

  function NormModule(v: TBLModule): TBLModule
  {
    v.(isUseful := NormBool(v.isUseful), typeDefs := NormTypeDefs(v.typeDefs))
  }

  function NormModules(v: seq<TBLModule>): (r: seq<TBLModule>)
    ensures |r| == |v|
  {
    if v == [] then [] else [NormModule(v[0])] + NormModules(v[1..])
  }

  /** What comes back of a whole table. */
  function NormTBL(v: TBL): TBL
  {
    TBL(Decoded(v.totalNumModules), Decoded(v.totalNumTypeDefs), Decoded(v.totalNumTypes), Decoded(v.totalNumTags),
        Decoded(v.totalNumStrings), Decoded(v.totalLenStrings), NormModules(v.modules))
  }

  /** The header of an element is read back, whatever its content. */
  lemma TlvHeader(cl: Class, fm: Form, code: nat, content: seq<byte>, rest: seq<byte>)
    requires code < 31 && |content| < INDEFINITE_LEN
    ensures |Tlv(cl, fm, code, content)| == 1 + |EncDefLen(|content|)| + |content|
    ensures DecTag(Tlv(cl, fm, code, content) + rest)
      == Got(MakeTagId(cl, fm, code), 1, EncDefLen(|content|) + (content + rest))
    ensures DecLen(EncDefLen(|content|) + (content + rest)) == Got(|content|, |EncDefLen(|content|)|, content + rest)
  {
    var t, l := TagOctets(cl, fm, code), EncDefLen(|content|);
    hide EncDefLen, DecLen, DecTag;
    Reassociate(t, l + content, rest);
    Reassociate(l, content, rest);
    DecTagTagOctets(cl, fm, code, l + (content + rest));
    DecLenEncDefLen(|content|, content + rest);
  }

  lemma ExpectTlv(cl: Class, fm: Form, code: nat, content: seq<byte>, rest: seq<byte>, other: nat, jump: int)
    requires code < 31 && |content| < INDEFINITE_LEN
    ensures DecExpect(Tlv(cl, fm, code, content) + rest, MakeTagId(cl, fm, code), other, jump)
      == Got((MakeTagId(cl, fm, code), |content|), |Tlv(cl, fm, code, content)| - |content|, content + rest)
  {
    TlvHeader(cl, fm, code, content, rest);
    hide DecTag, DecLen, EncDefLen, Tlv;
  }

  lemma IntFieldRoundTrip(cl: Class, code: nat, v: AsnInt, rest: seq<byte>, jump: int)
    requires code < 31
    ensures var e := Tlv(cl, PRIM, code, EncInt(v));
      DecIntField(e + rest, MakeTagId(cl, PRIM, code), jump) == Got(Decoded(v), |e|, rest)
  {
    ExpectTlv(cl, PRIM, code, EncInt(v), rest, MakeTagId(cl, PRIM, code), jump);
    DecIntEncInt(v, rest);
    hide DecExpect, DecInt, EncInt, Tlv;
  }

  lemma BoolContent(v: AsnBool, rest: seq<byte>)
    ensures DecBool(EncBool(v) + rest, 1) == Got(NormBool(v), 1, rest)
  {
    assert (EncBool(v) + rest)[0] == EncBool(v)[0] && (EncBool(v) + rest)[1..] == rest;
  }

  lemma BoolFieldRoundTrip(cl: Class, code: nat, v: AsnBool, rest: seq<byte>, jump: int)
    requires code < 31
    ensures var e := Tlv(cl, PRIM, code, EncBool(v));
      DecBoolField(e + rest, MakeTagId(cl, PRIM, code), jump) == Got(NormBool(v), |e|, rest)
  {
    ExpectTlv(cl, PRIM, code, EncBool(v), rest, MakeTagId(cl, PRIM, code), jump);
    BoolContent(v, rest);
    hide DecExpect, DecBool, Tlv, NormBool;
  }

  lemma NameContent(cl: Class, code: nat, v: seq<byte>, rest: seq<byte>)
    requires code < 31 && |v| < INDEFINITE_LEN && AllPrintable(v)
    ensures DecPrintable(v + rest, MakeTagId(cl, PRIM, code), |v|) == Got(v, |v|, rest)
  {
    SplitJoined(v, rest);
  }

  lemma NameFieldRoundTrip(cl: Class, code: nat, v: seq<byte>, rest: seq<byte>, other: nat, jump: int)
    requires code < 31 && |v| < INDEFINITE_LEN && AllPrintable(v)
    ensures var e := Tlv(cl, PRIM, code, v);
      DecNameField(e + rest, MakeTagId(cl, PRIM, code), other, jump) == Got(v, |e|, rest)
  {
    ExpectTlv(cl, PRIM, code, v, rest, other, jump);
    NameContent(cl, code, v, rest);
    hide DecExpect, DecPrintable, Tlv;
  }

  /** A name may as well be in pieces, nested and with lengths of any form, and is then their leaves in a row. */
  lemma NameOfPieces(cl: Class, code: nat, t: OctTree, rest: seq<byte>, jump: int)
    requires code < 31 && WellFormed(t) && AllPrintable(Leaves(t))
    ensures
      var e := [cl + (if t.Prim? then 0 else 0x20) + code] + (LenOctets(t) + Body(t));
      DecNameField(e + rest, MakeTagId(cl, PRIM, code), MakeTagId(cl, CONS, code), jump) == Got(Leaves(t), |e|, rest)
  {
    hide DecTag, DecLen, DecOctsContent, Leaves, Body, LenOctets, MakeTagId, WellFormed, AllPrintable;
    var fm: Form := if t.Prim? then PRIM else CONS;
    var e := [cl + (if t.Prim? then 0 else 0x20) + code] + (LenOctets(t) + Body(t));
    assert e + rest == TagOctets(cl, fm, code) + (LenOctets(t) + (Body(t) + rest));
    DecTagTagOctets(cl, fm, code, LenOctets(t) + (Body(t) + rest));
    DecTreeHeader(t, rest);
    DecTreeContent(t, rest);
    ContentByForm(Body(t) + rest, cl, code, LenValue(t));
    TreeUnfold(t);
  }

  /** Of the identifier, only the form matters for the contents. */
  lemma ContentByForm(s: seq<byte>, cl: Class, code: nat, len: nat)
    requires code < 31
    ensures DecOctsContent(s, MakeTagId(cl, PRIM, code), len) == DecOctsContent(s, PRIM_OCTS, len)
    ensures DecOctsContent(s, MakeTagId(cl, CONS, code), len) == DecOctsContent(s, CONS_OCTS, len)
  {
    hide DecPieces;
  }

  lemma TlvSize(cl: Class, fm: Form, code: nat, content: seq<byte>)
    requires code < 31
    ensures |Tlv(cl, fm, code, content)| > |content|
  {
  }

  lemma RangeRoundTrip(v: TBLRange, rest: seq<byte>)
    requires |EncRange(v)| < INDEFINITE_LEN
    ensures DecRange(EncRange(v) + rest, |EncRange(v)|) == Got(NormRange(v), |EncRange(v)|, rest)
  {
    hide Tlv, EncInt, DecIntField, Decoded;
    var a, b := Tlv(CNTX, PRIM, 0, EncInt(v.from)), Tlv(CNTX, PRIM, 1, EncInt(v.to));
    Reassociate(a, b, rest);
    IntFieldRoundTrip(CNTX, 0, v.from, b + rest, -100);
    IntFieldRoundTrip(CNTX, 1, v.to, rest, -102);
  }

  lemma NamedNumberRoundTrip(v: TBLNamedNumber, rest: seq<byte>)
    requires |EncNamedNumber(v)| < INDEFINITE_LEN && AllPrintable(v.name)
    ensures DecNamedNumber(EncNamedNumber(v) + rest, |EncNamedNumber(v)|)
            == Got(NormNumber(v), |EncNamedNumber(v)|, rest)
  {
    hide Tlv, EncInt, DecIntField, DecNameField, Decoded;
    var a, b := Tlv(CNTX, PRIM, 0, v.name), Tlv(CNTX, PRIM, 1, EncInt(v.value));
    Reassociate(a, b, rest);
    TlvSize(CNTX, PRIM, 0, v.name);
    NameFieldRoundTrip(CNTX, 0, v.name, b + rest, CC0, -104);
    IntFieldRoundTrip(CNTX, 1, v.value, rest, -106);
  }

  lemma {:induction false} NamedNumberListRoundTrip(v: seq<TBLNamedNumber>, elmtLen0: nat, total: nat, rest: seq<byte>)
    requires elmtLen0 == total + |EncNamedNumberList(v)| < INDEFINITE_LEN
    requires NumbersNamed(v)
    ensures DecNamedNumberList(EncNamedNumberList(v) + rest, elmtLen0, total) == Got(NormNumbers(v), elmtLen0, rest)
    decreases v
  {
    hide Tlv, EncNamedNumber, DecNamedNumber, DecTag, DecLen, EncDefLen, NormNumber;
    if v == [] {
      assert EncNamedNumberList(v) + rest == rest;
    } else {
      var content, more := EncNamedNumber(v[0]), EncNamedNumberList(v[1..]);
      var item := Tlv(UNIV, CONS, SEQ_TAG_CODE, content);
      Reassociate(item, more, rest);
      TlvSize(UNIV, CONS, SEQ_TAG_CODE, content);
      TlvHeader(UNIV, CONS, SEQ_TAG_CODE, content, more + rest);
      NamedNumberRoundTrip(v[0], more + rest);
      NamedNumberListRoundTrip(v[1..], elmtLen0, total + |item|, rest);
    }
  }

  lemma TypeRefRoundTrip(v: TBLTypeRef, rest: seq<byte>)
    requires |EncTypeRef(v)| < INDEFINITE_LEN
    ensures DecTypeRef(EncTypeRef(v) + rest, |EncTypeRef(v)|) == Got(NormTypeRef(v), |EncTypeRef(v)|, rest)
  {
    hide Tlv, EncInt, EncBool, DecIntField, DecBoolField, Decoded, NormBool;
    var a := Tlv(UNIV, PRIM, INTEGER_TAG_CODE, EncInt(v.typeDef));
    var b := Tlv(UNIV, PRIM, BOOLEAN_TAG_CODE, EncBool(v.implicitly));
    Reassociate(a, b, rest);
    IntFieldRoundTrip(UNIV, INTEGER_TAG_CODE, v.typeDef, b + rest, -109);
    BoolFieldRoundTrip(UNIV, BOOLEAN_TAG_CODE, v.implicitly, rest, -111);
  }

  lemma TBLTagRoundTrip(v: TBLTag, rest: seq<byte>)
    requires |EncTag(v)| < INDEFINITE_LEN
    ensures DecTBLTag(EncTag(v) + rest, |EncTag(v)|) == Got(NormTag(v), |EncTag(v)|, rest)
  {
    hide Tlv, EncInt, DecIntField, Decoded;
    var a, b := Tlv(UNIV, PRIM, ENUM_TAG_CODE, EncInt(v.tclass)), Tlv(UNIV, PRIM, INTEGER_TAG_CODE, EncInt(v.code));
    Reassociate(a, b, rest);
    IntFieldRoundTrip(UNIV, ENUM_TAG_CODE, v.tclass, b + rest, -113);
    IntFieldRoundTrip(UNIV, INTEGER_TAG_CODE, v.code, rest, -115);
  }

  lemma {:induction false} TagListRoundTrip(v: seq<TBLTag>, elmtLen0: nat, total: nat, rest: seq<byte>)
    requires elmtLen0 == total + |EncTagList(v)| < INDEFINITE_LEN
    ensures DecTagList(EncTagList(v) + rest, elmtLen0, total) == Got(NormTags(v), elmtLen0, rest)
    decreases v
  {
    hide Tlv, EncTag, DecTBLTag, DecTag, DecLen, EncDefLen, NormTag;
    if v == [] {
      assert EncTagList(v) + rest == rest;
    } else {
      var content, more := EncTag(v[0]), EncTagList(v[1..]);
      var item := Tlv(UNIV, CONS, SEQ_TAG_CODE, content);
      Reassociate(item, more, rest);
      TlvSize(UNIV, CONS, SEQ_TAG_CODE, content);
      TlvHeader(UNIV, CONS, SEQ_TAG_CODE, content, more + rest);
      TBLTagRoundTrip(v[0], more + rest);
      TagListRoundTrip(v[1..], elmtLen0, total + |item|, rest);
    }
  }

  lemma {:induction false} TypeListRoundTrip(v: seq<TBLType>, elmtLen0: nat, total: nat, rest: seq<byte>)
    requires elmtLen0 == total + |EncTypeList(v)| < INDEFINITE_LEN
    requires TypesNamed(v)
    ensures DecTypeList(EncTypeList(v) + rest, elmtLen0, total) == Got(NormTypes(v), elmtLen0, rest)
    decreases v, 1
  {
    hide Tlv, EncType, DecType, DecTag, DecLen, EncDefLen, NormType;
    if v == [] {
      assert EncTypeList(v) + rest == rest;
    } else {
      var content, more := EncType(v[0]), EncTypeList(v[1..]);
      var item := Tlv(UNIV, CONS, SEQ_TAG_CODE, content);
      Reassociate(item, more, rest);
      TlvSize(UNIV, CONS, SEQ_TAG_CODE, content);
      TlvHeader(UNIV, CONS, SEQ_TAG_CODE, content, more + rest);
      TypeRoundTrip(v[0], more + rest);
      TypeListRoundTrip(v[1..], elmtLen0, total + |item|, rest);
    }
  }

  /** The end of a type, from the identifier after `content` on. */
  function AfterConstraint(s: seq<byte>, elmtLen0: nat, total: nat): Dec<Option<seq<TBLNamedNumber>>>
  {
    var (tag, n, s1) :- NextTag(s, elmtLen0, total);
    DecValues(s1, elmtLen0, n, tag)
  }

  function AfterFieldName(s: seq<byte>, elmtLen0: nat, total: nat): Dec<(Option<TBLRange>, Option<seq<TBLNamedNumber>>)>
  {
    var (tag, n1, s1) :- NextTag(s, elmtLen0, total);
    var (constraint, n2, s2) :- DecConstraint(s1, elmtLen0, n1, tag);
    var (values, n3, s3) :- DecValues(s2, elmtLen0, n2, constraint.1);
    Got((constraint.0, values), n3, s3)
  }

  function AfterContent(s: seq<byte>, elmtLen0: nat, total: nat):
    Dec<(Option<seq<byte>>, Option<TBLRange>, Option<seq<TBLNamedNumber>>)>
  {
    var (tag, n1, s1) :- NextTag(s, elmtLen0, total);
    var (fieldName, n2, s2) :- DecFieldName(s1, elmtLen0, n1, tag);
    var (constraint, n3, s3) :- DecConstraint(s2, elmtLen0, n2, fieldName.1);
    var (values, n4, s4) :- DecValues(s3, elmtLen0, n3, constraint.1);
    Got((fieldName.0, constraint.0, values), n4, s4)
  }

  lemma ValuesRoundTrip(v: TBLType, elmtLen0: nat, total: nat, rest: seq<byte>)
    requires elmtLen0 == total + |EncValues(v)| < INDEFINITE_LEN && TypeNamed(v)
    ensures AfterConstraint(EncValues(v) + rest, elmtLen0, total) == Got(NormType(v).values, elmtLen0, rest)
    ensures NextTag(EncValues(v) + rest, elmtLen0, total).Got?
    ensures NextTag(EncValues(v) + rest, elmtLen0, total).value in {None, Some(CC6)}
  {
    hide Tlv, EncNamedNumberList, DecNamedNumberList, DecTag, DecLen, EncDefLen, NormNumbers;
    if v.values.None? {
      assert EncValues(v) + rest == rest;
    } else {
      var content := EncNamedNumberList(v.values.value);
      TlvSize(CNTX, CONS, 6, content);
      TlvHeader(CNTX, CONS, 6, content, rest);
      NamedNumberListRoundTrip(v.values.value, |content|, 0, rest);
    }
  }

  lemma ConstraintRoundTrip(v: TBLType, elmtLen0: nat, total: nat, rest: seq<byte>)
    requires elmtLen0 == total + |EncConstraint(v)| < INDEFINITE_LEN && TypeNamed(v)
    ensures AfterFieldName(EncConstraint(v) + rest, elmtLen0, total)
      == Got((NormType(v).constraint, NormType(v).values), elmtLen0, rest)
    ensures NextTag(EncConstraint(v) + rest, elmtLen0, total).Got?
    ensures NextTag(EncConstraint(v) + rest, elmtLen0, total).value in {None, Some(CC5), Some(CC6)}
  {
    hide Tlv, EncRange, DecRange, DecTag, DecLen, EncDefLen, NormRange, EncValues, DecValues;
    var values := EncValues(v);
    if v.constraint.None? {
      assert EncConstraint(v) == values;
      ValuesRoundTrip(v, elmtLen0, total, rest);
    } else {
      var content := EncRange(v.constraint.value);
      var item := Tlv(CNTX, CONS, 5, content);
      Reassociate(item, values, rest);
      TlvSize(CNTX, CONS, 5, content);
      TlvHeader(CNTX, CONS, 5, content, values + rest);
      RangeRoundTrip(v.constraint.value, values + rest);
      ValuesRoundTrip(v, elmtLen0, total + |item|, rest);
    }
  }

  lemma FieldNameRoundTrip(v: TBLType, elmtLen0: nat, total: nat, rest: seq<byte>)
    requires elmtLen0 == total + |EncFieldName(v)| < INDEFINITE_LEN && TypeNamed(v)
    ensures AfterContent(EncFieldName(v) + rest, elmtLen0, total)
      == Got((v.fieldName, NormType(v).constraint, NormType(v).values), elmtLen0, rest)
  {
    hide Tlv, DecPrintable, DecTag, DecLen, EncDefLen, EncConstraint, DecConstraint, DecValues, NormType;
    var more := EncConstraint(v);
    if v.fieldName.None? {
      assert EncFieldName(v) == more;
      ConstraintRoundTrip(v, elmtLen0, total, rest);
    } else {
      var name := v.fieldName.value;
      var item := Tlv(CNTX, PRIM, 4, name);
      Reassociate(item, more, rest);
      TlvSize(CNTX, PRIM, 4, name);
      TlvHeader(CNTX, PRIM, 4, name, more + rest);
      NameContent(CNTX, 4, name, more + rest);
      ConstraintRoundTrip(v, elmtLen0, total + |item|, rest);
    }
  }

  /** The optional tag list and the identifier and length of `content` after it. */
  lemma TagListFieldRoundTrip(v: TBLType, next: nat, more: seq<byte>, rest: seq<byte>)
    requires |EncTagListField(v)| < INDEFINITE_LEN && next != CC2
    requires DecTag(more) == Got(next, 1, rest)
    ensures var d := DecTag(EncTagListField(v) + more);
      d.Got? && DecTagListField(d.rest, d.value)
        == Got((NormType(v).tagList, next), |EncTagListField(v)| + 1 - d.n, rest)
  {
    hide Tlv, EncTagList, DecTagList, DecTag, DecLen, EncDefLen, NormTags;
    if v.tagList.None? {
      assert EncTagListField(v) + more == more;
    } else {
      var content := EncTagList(v.tagList.value);
      TlvSize(CNTX, CONS, 2, content);
      TlvHeader(CNTX, CONS, 2, content, more);
      TagListRoundTrip(v.tagList.value, |content|, 0, more);
    }
  }

  lemma {:induction false} TypeRoundTrip(v: TBLType, rest: seq<byte>)
    requires |EncType(v)| < INDEFINITE_LEN && TypeNamed(v)
    ensures DecType(EncType(v) + rest, |EncType(v)|) == Got(NormType(v), |EncType(v)|, rest)
    decreases v, 0
  {
    hide Tlv, EncInt, EncBool, EncTypeContent, EncTagListField, EncFieldName, DecIntField, DecBoolField, DecTag,
      DecTagListField, DecContentField, NextTag, DecFieldName, DecConstraint, DecValues;
    var a, b := Tlv(CNTX, PRIM, 0, EncInt(v.typeId)), Tlv(CNTX, PRIM, 1, EncBool(v.optional));
    var t, f := EncTagListField(v), EncFieldName(v);
    var content := EncTypeContent(v.content);
    var c := Tlv(CNTX, CONS, 3, content);
    Reassociate(a, b + (t + (c + f)), rest);
    Reassociate(b, t + (c + f), rest);
    Reassociate(t, c + f, rest);
    Reassociate(c, f, rest);
    IntFieldRoundTrip(CNTX, 0, v.typeId, b + (t + (c + (f + rest))), -119);
    BoolFieldRoundTrip(CNTX, 1, v.optional, t + (c + (f + rest)), -120);
    TlvSize(CNTX, CONS, 3, content);
    TlvHeader(CNTX, CONS, 3, content, f + rest);
    TagListFieldRoundTrip(v, CC3, c + (f + rest), EncDefLen(|content|) + (content + (f + rest)));
    ContentFieldRoundTrip(v.content, f + rest);
    FieldNameRoundTrip(v, |EncType(v)|, |a| + |b| + |t| + |c|, rest);
  }

  lemma ContentFieldRoundTrip(v: TBLTypeContent, rest: seq<byte>)
    requires |EncTypeContent(v)| < INDEFINITE_LEN && (v.Elmts? ==> TypesNamed(v.elmts))
    ensures var content := EncTypeContent(v);
      DecContentField(EncDefLen(|content|) + (content + rest))
      == Got(NormContent(v), |EncDefLen(|content|)| + |content|, rest)
    decreases v, 3
  {
    var content := EncTypeContent(v);
    TlvHeader(CNTX, CONS, 3, content, rest);
    TypeContentRoundTrip(v, rest);
    hide Tlv, EncTypeContent, DecTypeContent, DecTag, DecLen, EncDefLen, NormContent;
  }

  lemma {:induction false} TypeContentRoundTrip(v: TBLTypeContent, rest: seq<byte>)
    requires |EncTypeContent(v)| < INDEFINITE_LEN && (v.Elmts? ==> TypesNamed(v.elmts))
    ensures var d := DecHeader(EncTypeContent(v) + rest);
      d.Got? && DecTypeContent(d.rest, d.value.0, d.value.1) == Got(NormContent(v), |EncTypeContent(v)| - d.n, rest)
    decreases v, 2
  {
    hide Tlv, DecTag, DecLen, EncDefLen, EncTypeList, EncTypeRef, DecTypeList, DecTypeRef, NormTypes, NormTypeRef;
    var code := match v case PrimType => 0 case Elmts(_) => 1 case TypeRef(_) => 2;
    var fm: Form := if v.PrimType? then PRIM else CONS;
    var content := match v
      case PrimType => []
      case Elmts(elmts) => EncTypeList(elmts)
      case TypeRef(typeRef) => EncTypeRef(typeRef);
    TlvSize(CNTX, fm, code, content);
    TlvHeader(CNTX, fm, code, content, rest);
    match v
    case PrimType =>
      assert content + rest == rest;
    case Elmts(elmts) =>
      TypeListRoundTrip(elmts, |content|, 0, rest);
    case TypeRef(typeRef) =>
      TypeRefRoundTrip(typeRef, rest);
  }

  lemma IsPduRoundTrip(v: TBLTypeDef, elmtLen0: nat, total: nat, rest: seq<byte>)
    requires elmtLen0 == total + |EncIsPdu(v)| < INDEFINITE_LEN
    ensures var d := NextTag(EncIsPdu(v) + rest, elmtLen0, total);
      d.Got? && DecIsPdu(d.rest, elmtLen0, d.n, d.value) == Got(v.isPdu, elmtLen0, rest)
  {
    hide Tlv, DecTag, DecLen, EncDefLen;
    if v.isPdu {
      TlvHeader(UNIV, PRIM, NULLTYPE_TAG_CODE, [], rest);
      assert [] + rest == rest;
    } else {
      assert EncIsPdu(v) + rest == rest;
    }
  }

  lemma TypeDefRoundTrip(v: TBLTypeDef, rest: seq<byte>)
    requires |EncTypeDef(v)| < INDEFINITE_LEN && TypeDefNamed(v)
    ensures DecTypeDef(EncTypeDef(v) + rest, |EncTypeDef(v)|) == Got(NormTypeDef(v), |EncTypeDef(v)|, rest)
  {
    hide Tlv, EncInt, EncType, EncIsPdu, DecIntField, DecNameField, DecExpect, DecType, NextTag, DecIsPdu, NormType;
    var a := Tlv(UNIV, PRIM, INTEGER_TAG_CODE, EncInt(v.typeDefId));
    var b := Tlv(UNIV, PRIM, PRINTABLESTRING_TAG_CODE, v.typeName);
    var content, p := EncType(v.typ), EncIsPdu(v);
    var c := Tlv(UNIV, CONS, SEQ_TAG_CODE, content);
    Reassociate(a, b + (c + p), rest);
    Reassociate(b, c + p, rest);
    Reassociate(c, p, rest);
    TlvSize(UNIV, PRIM, PRINTABLESTRING_TAG_CODE, v.typeName);
    TlvSize(UNIV, CONS, SEQ_TAG_CODE, content);
    IntFieldRoundTrip(UNIV, INTEGER_TAG_CODE, v.typeDefId, b + (c + (p + rest)), -125);
    NameFieldRoundTrip(UNIV, PRINTABLESTRING_TAG_CODE, v.typeName, c + (p + rest), UC19, -126);
    ExpectTlv(UNIV, CONS, SEQ_TAG_CODE, content, p + rest, UC16, -127);
    TypeRoundTrip(v.typ, p + rest);
    IsPduRoundTrip(v, |EncTypeDef(v)|, |a| + |b| + |c|, rest);
  }

  lemma {:induction false} TypeDefListRoundTrip(v: seq<TBLTypeDef>, elmtLen0: nat, total: nat, rest: seq<byte>)
    requires elmtLen0 == total + |EncTypeDefList(v)| < INDEFINITE_LEN
    requires forall i :: 0 <= i < |v| ==> TypeDefNamed(v[i])
    ensures DecTypeDefList(EncTypeDefList(v) + rest, elmtLen0, total) == Got(NormTypeDefs(v), elmtLen0, rest)
    decreases v
  {
    hide Tlv, EncTypeDef, DecTypeDef, DecTag, DecLen, EncDefLen, NormTypeDef;
    if v == [] {
      assert EncTypeDefList(v) + rest == rest;
    } else {
      var content, more := EncTypeDef(v[0]), EncTypeDefList(v[1..]);
      var item := Tlv(UNIV, CONS, SEQ_TAG_CODE, content);
      Reassociate(item, more, rest);
      TlvSize(UNIV, CONS, SEQ_TAG_CODE, content);
      TlvHeader(UNIV, CONS, SEQ_TAG_CODE, content, more + rest);
      TypeDefRoundTrip(v[0], more + rest);
      TypeDefListRoundTrip(v[1..], elmtLen0, total + |item|, rest);
    }
  }

  lemma IdFieldRoundTrip(v: TBLModule, next: nat, more: seq<byte>, rest: seq<byte>)
    requires |EncId(v)| < INDEFINITE_LEN && next != CP1
    requires DecTag(more) == Got(next, 1, rest)
    ensures var d := DecTag(EncId(v) + more);
      d.Got? && DecIdField(d.rest, d.value) == Got((v.id, next), |EncId(v)| + 1 - d.n, rest)
  {
    hide Tlv, DecTag, DecLen, EncDefLen;
    if v.id.None? {
      assert EncId(v) + more == more;
    } else {
      var id := v.id.value;
      TlvSize(CNTX, PRIM, 1, id);
      TlvHeader(CNTX, PRIM, 1, id, more);
      SplitJoined(id, more);
    }
  }

  lemma ModuleRoundTrip(v: TBLModule, rest: seq<byte>)
    requires |EncModule(v)| < INDEFINITE_LEN && ModuleNamed(v)
    ensures DecModule(EncModule(v) + rest, |EncModule(v)|) == Got(NormModule(v), |EncModule(v)|, rest)
  {
    hide Tlv, EncBool, EncId, EncTypeDefList, DecNameField, DecTag, DecLen, EncDefLen, DecIdField, DecBool, DecExpect,
      DecTypeDefList, NormTypeDefs, NormBool;
    var a, i := Tlv(CNTX, PRIM, 0, v.name), EncId(v);
    var u, content := Tlv(CNTX, PRIM, 2, EncBool(v.isUseful)), EncTypeDefList(v.typeDefs);
    var t := Tlv(CNTX, CONS, 3, content);
    Reassociate(a, i + (u + t), rest);
    Reassociate(i, u + t, rest);
    Reassociate(u, t, rest);
    TlvSize(CNTX, PRIM, 0, v.name);
    TlvSize(CNTX, CONS, 3, content);
    NameFieldRoundTrip(CNTX, 0, v.name, i + (u + (t + rest)), CC0, -131);
    BoolSize(v.isUseful);
    TlvHeader(CNTX, PRIM, 2, EncBool(v.isUseful), t + rest);
    BoolContent(v.isUseful, t + rest);
    IdFieldRoundTrip(v, CP2, u + (t + rest), EncDefLen(|EncBool(v.isUseful)|) + (EncBool(v.isUseful) + (t + rest)));
    ExpectTlv(CNTX, CONS, 3, content, rest, CC3, -134);
    TypeDefListRoundTrip(v.typeDefs, |content|, 0, rest);
  }

  lemma BoolSize(v: AsnBool)
    ensures |EncBool(v)| == 1
  {
  }

  lemma {:induction false} ModuleListRoundTrip(v: seq<TBLModule>, elmtLen0: nat, total: nat, rest: seq<byte>)
    requires elmtLen0 == total + |EncModuleList(v)| < INDEFINITE_LEN
    requires forall i :: 0 <= i < |v| ==> ModuleNamed(v[i])
    ensures DecModuleList(EncModuleList(v) + rest, elmtLen0, total) == Got(NormModules(v), elmtLen0, rest)
    decreases v
  {
    hide Tlv, EncModule, DecModule, DecTag, DecLen, EncDefLen, NormModule;
    if v == [] {
      assert EncModuleList(v) + rest == rest;
    } else {
      var content, more := EncModule(v[0]), EncModuleList(v[1..]);
      var item := Tlv(UNIV, CONS, SEQ_TAG_CODE, content);
      Reassociate(item, more, rest);
      TlvSize(UNIV, CONS, SEQ_TAG_CODE, content);
      TlvHeader(UNIV, CONS, SEQ_TAG_CODE, content, more + rest);
      ModuleRoundTrip(v[0], more + rest);
      ModuleListRoundTrip(v[1..], elmtLen0, total + |item|, rest);
    }
  }

  lemma IntElementRoundTrip(v: AsnInt, rest: seq<byte>, jump: int)
    ensures DecIntField(IntElement(v) + rest, UP2, jump) == Got(Decoded(v), |IntElement(v)|, rest)
  {
    IntFieldRoundTrip(UNIV, INTEGER_TAG_CODE, v, rest, jump);
  }

  lemma TBLContentRoundTrip(v: TBL, rest: seq<byte>)
    requires |EncTBLContent(v)| < INDEFINITE_LEN && Named(v)
    ensures DecTBLContent(EncTBLContent(v) + rest, |EncTBLContent(v)|) == Got(NormTBL(v), |EncTBLContent(v)|, rest)
  {
    hide Tlv, IntElement, EncModuleList, DecIntField, DecExpect, DecModuleList, NormModules, Decoded;
    var content := EncModuleList(v.modules);
    var m := Tlv(UNIV, CONS, SEQ_TAG_CODE, content);
    var e6 := IntElement(v.totalLenStrings) + m;
    var e5 := IntElement(v.totalNumStrings) + e6;
    var e4 := IntElement(v.totalNumTags) + e5;
    var e3 := IntElement(v.totalNumTypes) + e4;
    var e2 := IntElement(v.totalNumTypeDefs) + e3;
    Reassociate(IntElement(v.totalNumModules), e2, rest);
    Reassociate(IntElement(v.totalNumTypeDefs), e3, rest);
    Reassociate(IntElement(v.totalNumTypes), e4, rest);
    Reassociate(IntElement(v.totalNumTags), e5, rest);
    Reassociate(IntElement(v.totalNumStrings), e6, rest);
    Reassociate(IntElement(v.totalLenStrings), m, rest);
    IntElementRoundTrip(v.totalNumModules, e2 + rest, -138);
    IntElementRoundTrip(v.totalNumTypeDefs, e3 + rest, -139);
    IntElementRoundTrip(v.totalNumTypes, e4 + rest, -140);
    IntElementRoundTrip(v.totalNumTags, e5 + rest, -141);
    IntElementRoundTrip(v.totalNumStrings, e6 + rest, -142);
    IntElementRoundTrip(v.totalLenStrings, m + rest, -143);
    TlvSize(UNIV, CONS, SEQ_TAG_CODE, content);
    ExpectTlv(UNIV, CONS, SEQ_TAG_CODE, content, rest, UC16, -145);
    ModuleListRoundTrip(v.modules, |content|, 0, rest);
  }

  /**
   * Decoding what was encoded consumes exactly its octets and yields the table
   * back, up to what the leaf codecs make of its integers and booleans.
   */
  lemma TBLRoundTrip(v: TBL, rest: seq<byte>)
    requires |EncTBL(v)| < INDEFINITE_LEN && Named(v)
    ensures DecTBL(EncTBL(v) + rest) == Got(NormTBL(v), |EncTBL(v)|, rest)
  {
    hide Tlv, EncTBLContent, DecExpect, DecTBLContent, NormTBL;
    var content := EncTBLContent(v);
    TlvSize(UNIV, CONS, SEQ_TAG_CODE, content);
    ExpectTlv(UNIV, CONS, SEQ_TAG_CODE, content, rest, UC16, -137);
    TBLContentRoundTrip(v, rest);
  }

  /** The integers that `BDecAsnIntContent` recovers. */
  predicate Decodable(n: AsnInt)
  {
    n >= 0 || n < -0x80_0000
  }

  /** Integers in the decodable domain and booleans 0 or 1, at every depth. */
  ghost predicate TypeCanonical(v: TBLType)
    decreases v, 0
  {
    && Decodable(v.typeId) && v.optional <= 1
    && (v.tagList.Some? ==> forall i :: 0 <= i < |v.tagList.value| ==> TagCanonical(v.tagList.value[i]))
    && (v.content.Elmts? ==> TypesCanonical(v.content.elmts))
    && (v.content.TypeRef? ==> Decodable(v.content.typeRef.typeDef) && v.content.typeRef.implicitly <= 1)
    && (v.constraint.Some? ==> Decodable(v.constraint.value.from) && Decodable(v.constraint.value.to))
    && (v.values.Some? ==> forall i :: 0 <= i < |v.values.value| ==> Decodable(v.values.value[i].value))
  }

  ghost predicate TypesCanonical(v: seq<TBLType>)
    decreases v, 1
  {
    forall i :: 0 <= i < |v| ==> TypeCanonical(v[i])
  }

  predicate TagCanonical(v: TBLTag)
  {
    Decodable(v.tclass) && Decodable(v.code)
  }

  ghost predicate TypeDefCanonical(v: TBLTypeDef)
  {
    Decodable(v.typeDefId) && TypeCanonical(v.typ)
  }

  ghost predicate ModuleCanonical(v: TBLModule)
  {
    v.isUseful <= 1 && forall i :: 0 <= i < |v.typeDefs| ==> TypeDefCanonical(v.typeDefs[i])
  }

  ghost predicate Canonical(v: TBL)
  {
    && Decodable(v.totalNumModules) && Decodable(v.totalNumTypeDefs) && Decodable(v.totalNumTypes)
    && Decodable(v.totalNumTags) && Decodable(v.totalNumStrings) && Decodable(v.totalLenStrings)
    && forall i :: 0 <= i < |v.modules| ==> ModuleCanonical(v.modules[i])
  }

  lemma ConsEqual<T>(a: T, b: T, s: seq<T>, t: seq<T>)
    ensures [a] + s == [b] + t <==> a == b && s == t
  {
    if [a] + s == [b] + t {
      assert ([a] + s)[0] == a && ([b] + t)[0] == b;
      assert ([a] + s)[1..] == s && ([b] + t)[1..] == t;
    }
  }

  lemma LeafFixed(n: AsnInt, v: AsnBool)
    ensures Decoded(n) == n <==> Decodable(n)
    ensures NormBool(v) == v <==> v <= 1
  {
    DecodedIff(n);
  }

  lemma {:induction false} NumbersFixed(v: seq<TBLNamedNumber>)
    ensures NormNumbers(v) == v <==> forall i :: 0 <= i < |v| ==> Decodable(v[i].value)
  {
    if v != [] {
      NumbersFixed(v[1..]);
      DecodedIff(v[0].value);
      ConsEqual(NormNumbers(v)[0], v[0], NormNumbers(v[1..]), v[1..]);
      assert v == [v[0]] + v[1..];
      assert (forall i :: 0 <= i < |v| ==> Decodable(v[i].value)) <==>
        Decodable(v[0].value) && forall i :: 0 <= i < |v[1..]| ==> Decodable(v[1..][i].value) by {
        assert forall i :: 0 < i < |v| ==> v[i] == v[1..][i - 1];
      }
    }
  }

  lemma {:induction false} TagsFixed(v: seq<TBLTag>)
    ensures NormTags(v) == v <==> forall i :: 0 <= i < |v| ==> TagCanonical(v[i])
  {
    if v != [] {
      TagsFixed(v[1..]);
      DecodedIff(v[0].tclass);
      DecodedIff(v[0].code);
      ConsEqual(NormTags(v)[0], v[0], NormTags(v[1..]), v[1..]);
      assert v == [v[0]] + v[1..];
      assert (forall i :: 0 <= i < |v| ==> TagCanonical(v[i])) <==>
        TagCanonical(v[0]) && forall i :: 0 <= i < |v[1..]| ==> TagCanonical(v[1..][i]) by {
        assert forall i :: 0 < i < |v| ==> v[i] == v[1..][i - 1];
      }
    }
  }

  lemma {:induction false} TypeFixed(v: TBLType)
    ensures NormType(v) == v <==> TypeCanonical(v)
    decreases v, 0
  {
    LeafFixed(v.typeId, v.optional);
    if v.tagList.Some? {
      TagsFixed(v.tagList.value);
    }
    match v.content {
      case PrimType =>
      case Elmts(elmts) => TypesFixed(elmts);
      case TypeRef(r) => LeafFixed(r.typeDef, r.implicitly);
    }
    if v.constraint.Some? {
      DecodedIff(v.constraint.value.from);
      DecodedIff(v.constraint.value.to);
    }
    if v.values.Some? {
      NumbersFixed(v.values.value);
    }
    hide Decoded, NormBool, NormTags, NormTypes, NormNumbers, Decodable, TagCanonical, TypesCanonical;
  }

  lemma {:induction false} TypesFixed(v: seq<TBLType>)
    ensures NormTypes(v) == v <==> forall i :: 0 <= i < |v| ==> TypeCanonical(v[i])
    decreases v, 1
  {
    if v != [] {
      TypesFixed(v[1..]);
      TypeFixed(v[0]);
      ConsEqual(NormTypes(v)[0], v[0], NormTypes(v[1..]), v[1..]);
      assert v == [v[0]] + v[1..];
      assert (forall i :: 0 <= i < |v| ==> TypeCanonical(v[i])) <==>
        TypeCanonical(v[0]) && forall i :: 0 <= i < |v[1..]| ==> TypeCanonical(v[1..][i]) by {
        assert forall i :: 0 < i < |v| ==> v[i] == v[1..][i - 1];
      }
    }
  }

  lemma {:induction false} TypeDefsFixed(v: seq<TBLTypeDef>)
    ensures NormTypeDefs(v) == v <==> forall i :: 0 <= i < |v| ==> TypeDefCanonical(v[i])
  {
    if v != [] {
      TypeDefsFixed(v[1..]);
      DecodedIff(v[0].typeDefId);
      TypeFixed(v[0].typ);
      ConsEqual(NormTypeDefs(v)[0], v[0], NormTypeDefs(v[1..]), v[1..]);
      assert v == [v[0]] + v[1..];
      assert (forall i :: 0 <= i < |v| ==> TypeDefCanonical(v[i])) <==>
        TypeDefCanonical(v[0]) && forall i :: 0 <= i < |v[1..]| ==> TypeDefCanonical(v[1..][i]) by {
        assert forall i :: 0 < i < |v| ==> v[i] == v[1..][i - 1];
      }
    }
  }

  lemma {:induction false} ModulesFixed(v: seq<TBLModule>)
    ensures NormModules(v) == v <==> forall i :: 0 <= i < |v| ==> ModuleCanonical(v[i])
  {
    if v != [] {
      ModulesFixed(v[1..]);
      LeafFixed(0, v[0].isUseful);
      TypeDefsFixed(v[0].typeDefs);
      ConsEqual(NormModules(v)[0], v[0], NormModules(v[1..]), v[1..]);
      assert v == [v[0]] + v[1..];
      assert (forall i :: 0 <= i < |v| ==> ModuleCanonical(v[i])) <==>
        ModuleCanonical(v[0]) && forall i :: 0 <= i < |v[1..]| ==> ModuleCanonical(v[1..][i]) by {
        assert forall i :: 0 < i < |v| ==> v[i] == v[1..][i - 1];
      }
    }
  }

  lemma TBLFixed(v: TBL)
    ensures NormTBL(v) == v <==> Canonical(v)
  {
    DecodedIff(v.totalNumModules);
    DecodedIff(v.totalNumTypeDefs);
    DecodedIff(v.totalNumTypes);
    DecodedIff(v.totalNumTags);
    DecodedIff(v.totalNumStrings);
    DecodedIff(v.totalLenStrings);
    ModulesFixed(v.modules);
  }

  /** The table itself comes back exactly when its integers and booleans are canonical. */
  lemma TBLRoundTripIff(v: TBL, rest: seq<byte>)
    requires |EncTBL(v)| < INDEFINITE_LEN && Named(v)
    ensures DecTBL(EncTBL(v) + rest) == Got(v, |EncTBL(v)|, rest) <==> Canonical(v)
  {
    TBLRoundTrip(v, rest);
    TBLFixed(v);
    hide DecTBL, EncTBL, NormTBL, Canonical;
  }
}

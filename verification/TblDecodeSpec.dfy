/** The decoders of the type table as functions on the octets before them. */
module TblDecodeSpec {
  import opened Octets
  import opened Lengths
  import opened Tags
  import opened Ints
  import opened OctetStrings
  import opened Tbl

  const CP0: nat := MakeTagId(CNTX, PRIM, 0)
  const CC0: nat := MakeTagId(CNTX, CONS, 0)
  const CP1: nat := MakeTagId(CNTX, PRIM, 1)
  const CC1: nat := MakeTagId(CNTX, CONS, 1)
  const CP2: nat := MakeTagId(CNTX, PRIM, 2)
  const CC2: nat := MakeTagId(CNTX, CONS, 2)
  const CC3: nat := MakeTagId(CNTX, CONS, 3)
  const CP4: nat := MakeTagId(CNTX, PRIM, 4)
  const CC4: nat := MakeTagId(CNTX, CONS, 4)
  const CC5: nat := MakeTagId(CNTX, CONS, 5)
  const CC6: nat := MakeTagId(CNTX, CONS, 6)
  const UP1: nat := MakeTagId(UNIV, PRIM, BOOLEAN_TAG_CODE)
  const UP2: nat := MakeTagId(UNIV, PRIM, INTEGER_TAG_CODE)
  const UP5: nat := MakeTagId(UNIV, PRIM, NULLTYPE_TAG_CODE)
  const UP10: nat := MakeTagId(UNIV, PRIM, ENUM_TAG_CODE)
  const UC16: nat := MakeTagId(UNIV, CONS, SEQ_TAG_CODE)
  const UP19: nat := MakeTagId(UNIV, PRIM, PRINTABLESTRING_TAG_CODE)
  const UC19: nat := MakeTagId(UNIV, CONS, PRINTABLESTRING_TAG_CODE)

  /** The identifiers, as the decoders compare them: the first octet on top of 32 bits. */
  lemma Identifiers()
    ensures CP0 == 0x8000_0000 && CP1 == 0x8100_0000 && CP2 == 0x8200_0000 && CP4 == 0x8400_0000
    ensures CC0 == 0xA000_0000 && CC1 == 0xA100_0000 && CC2 == 0xA200_0000 && CC3 == 0xA300_0000
    ensures CC4 == 0xA400_0000 && CC5 == 0xA500_0000 && CC6 == 0xA600_0000
    ensures UP1 == 0x0100_0000 && UP2 == 0x0200_0000 && UP5 == 0x0500_0000 && UP10 == 0x0A00_0000
    ensures UC16 == 0x3000_0000 && UP19 == 0x1300_0000 && UC19 == 0x3300_0000 && EOC_TAG_ID == 0
  {
  }

  function DecBool(s: seq<byte>, len: nat): (d: Dec<AsnBool>)
    ensures d.Got? ==> |d.rest| <= |s|
  {
    if len != 1 then Fail(-5)
    else if s == [] then Fail(-6)
    else Got(if s[0] != 0 then 1 else 0, 1, s[1..])
  }

  function DecNull(s: seq<byte>, len: nat): (d: Dec<()>)
    ensures d.Got? ==> |d.rest| <= |s|
  {
    if len != 0 then Fail(-17) else Got((), 0, s)
  }

  function DecOid(s: seq<byte>, len: nat): (d: Dec<seq<byte>>)
    ensures d.Got? ==> |d.rest| <= |s|
  {
    if len == INDEFINITE_LEN then Fail(-66)
    else if |s| < len then Fail(-21)
    else Got(s[..len], len, s[len..])
  }

  function DecPrintable(s: seq<byte>, tag: nat, len: nat): (d: Dec<seq<byte>>)
    ensures d.Got? ==> |d.rest| <= |s|
  {
    var (v, n, s1) :- DecOctsContent(s, tag, len);
    if AllPrintable(v) then Got(v, n, s1) else Fail(-40)
  }

  function DecEoc(s: seq<byte>): (d: Dec<()>)
    ensures d.Got? ==> |d.rest| <= |s|
  {
    if |s| >= 2 && s[0] == 0 && s[1] == 0 then Got((), 2, s[2..]) else Fail(-16)
  }

  /** An identifier that must be one of two, and the length after it. */
  function DecExpect(s: seq<byte>, tagA: nat, tagB: nat, code: int): (d: Dec<(nat, nat)>)
    ensures d.Got? ==> |d.rest| < |s|
  {
    var (tag, n1, s1) :- DecTag(s);
    if tag != tagA && tag != tagB then Fail(code)
    else
      var (len, n2, s2) :- DecLen(s1);
      Got((tag, len), n1 + n2, s2)
  }

  function DecIntField(s: seq<byte>, tag: nat, code: int): (d: Dec<AsnInt>)
    ensures d.Got? ==> |d.rest| <= |s|
  {
    var (h, n1, s1) :- DecExpect(s, tag, tag, code);
    var (v, n2, s2) :- DecInt(s1, h.1);
    Got(v, n1 + n2, s2)
  }

  function DecBoolField(s: seq<byte>, tag: nat, code: int): (d: Dec<AsnBool>)
    ensures d.Got? ==> |d.rest| <= |s|
  {
    var (h, n1, s1) :- DecExpect(s, tag, tag, code);
    var (v, n2, s2) :- DecBool(s1, h.1);
    Got(v, n1 + n2, s2)
  }

  function DecNameField(s: seq<byte>, prim: nat, cons: nat, code: int): (d: Dec<seq<byte>>)
    ensures d.Got? ==> |d.rest| <= |s|
  {
    var (h, n1, s1) :- DecExpect(s, prim, cons, code);
    var (v, n2, s2) :- DecPrintable(s1, h.0, h.1);
    Got(v, n1 + n2, s2)
  }

  /** The end of a sequence whose last field has been decoded. */
  function CloseSeq(s: seq<byte>, elmtLen0: nat, total: nat, code: int): (d: Dec<()>)
    ensures d.Got? ==> |d.rest| <= |s|
  {
    if elmtLen0 == INDEFINITE_LEN then
      var (_, n, s1) :- DecEoc(s);
      Got((), total + n, s1)
    else if total != elmtLen0 then Fail(code)
    else Got((), total, s)
  }

  /**
   * Before an optional field: the next identifier, or `None` when the sequence
   * is done (`seqDone`).
   */
  function NextTag(s: seq<byte>, elmtLen0: nat, total: nat): (d: Dec<Option<nat>>)
    ensures d.Got? ==> |d.rest| <= |s|
  {
    if elmtLen0 != INDEFINITE_LEN && total == elmtLen0 then Got(None, total, s)
    else
      var (tag, n, s1) :- DecTag(s);
      if elmtLen0 == INDEFINITE_LEN && tag == EOC_TAG_ID then
        var (_, n2, s2) :- DecSecondEoc(s1, total + n);
        Got(None, n2, s2)
      else Got(Some(tag), total + n, s1)
  }

  function ConsValue<T>(v: T, d: Dec<seq<T>>): (r: Dec<seq<T>>)
    ensures r.Got? <==> d.Got?
    ensures r.Got? ==> r.rest == d.rest
  {
    match d
    case Got(vs, n, rest) => Got([v] + vs, n, rest)
    case Fail(code) => Fail(code)
  }

  function DecRange(s: seq<byte>, elmtLen0: nat): (d: Dec<TBLRange>)
    ensures d.Got? ==> |d.rest| <= |s|
  {
    var (from, n1, s1) :- DecIntField(s, CP0, -100);
    var (to, n2, s2) :- DecIntField(s1, CP1, -102);
    var (_, n, s3) :- CloseSeq(s2, elmtLen0, n1 + n2, -101);
    Got(TBLRange(from, to), n, s3)
  }

  function DecNamedNumber(s: seq<byte>, elmtLen0: nat): (d: Dec<TBLNamedNumber>)
    ensures d.Got? ==> |d.rest| <= |s|
  {
    var (name, n1, s1) :- DecNameField(s, CP0, CC0, -104);
    var (value, n2, s2) :- DecIntField(s1, CP1, -106);
    var (_, n, s3) :- CloseSeq(s2, elmtLen0, n1 + n2, -105);
    Got(TBLNamedNumber(name, value), n, s3)
  }

  function DecNamedNumberList(s: seq<byte>, elmtLen0: nat, total: nat): (d: Dec<seq<TBLNamedNumber>>)
    ensures d.Got? ==> |d.rest| <= |s|
    decreases |s|
  {
    if total >= elmtLen0 && elmtLen0 != INDEFINITE_LEN then Got([], total, s)
    else
      var (tag, n1, s1) :- DecTag(s);
      if tag == EOC_TAG_ID && elmtLen0 == INDEFINITE_LEN then
        var (_, n2, s2) :- DecSecondEoc(s1, total + n1);
        Got([], n2, s2)
      else if tag != UC16 then Fail(-108)
      else
        var (len, n2, s2) :- DecLen(s1);
        var (v, n3, s3) :- DecNamedNumber(s2, len);
        ConsValue(v, DecNamedNumberList(s3, elmtLen0, total + n1 + n2 + n3))
  }

  function DecTypeRef(s: seq<byte>, elmtLen0: nat): (d: Dec<TBLTypeRef>)
    ensures d.Got? ==> |d.rest| <= |s|
  {
    var (typeDef, n1, s1) :- DecIntField(s, UP2, -109);
    var (implicitly, n2, s2) :- DecBoolField(s1, UP1, -111);
    var (_, n, s3) :- CloseSeq(s2, elmtLen0, n1 + n2, -110);
    Got(TBLTypeRef(typeDef, implicitly), n, s3)
  }

  function DecTBLTag(s: seq<byte>, elmtLen0: nat): (d: Dec<TBLTag>)
    ensures d.Got? ==> |d.rest| <= |s|
  {
    var (tclass, n1, s1) :- DecIntField(s, UP10, -113);
    var (code, n2, s2) :- DecIntField(s1, UP2, -115);
    var (_, n, s3) :- CloseSeq(s2, elmtLen0, n1 + n2, -114);
    Got(TBLTag(tclass, code), n, s3)
  }

  function DecTagList(s: seq<byte>, elmtLen0: nat, total: nat): (d: Dec<seq<TBLTag>>)
    ensures d.Got? ==> |d.rest| <= |s|
    decreases |s|
  {
    if total >= elmtLen0 && elmtLen0 != INDEFINITE_LEN then Got([], total, s)
    else
      var (tag, n1, s1) :- DecTag(s);
      if tag == EOC_TAG_ID && elmtLen0 == INDEFINITE_LEN then
        var (_, n2, s2) :- DecSecondEoc(s1, total + n1);
        Got([], n2, s2)
      else if tag != UC16 then Fail(-117)
      else
        var (len, n2, s2) :- DecLen(s1);
        var (v, n3, s3) :- DecTBLTag(s2, len);
        ConsValue(v, DecTagList(s3, elmtLen0, total + n1 + n2 + n3))
  }

  function DecTypeList(s: seq<byte>, elmtLen0: nat, total: nat): (d: Dec<seq<TBLType>>)
    ensures d.Got? ==> |d.rest| <= |s|
    decreases |s|, 0
  {
    if total >= elmtLen0 && elmtLen0 != INDEFINITE_LEN then Got([], total, s)
    else
      var (tag, n1, s1) :- DecTag(s);
      if tag == EOC_TAG_ID && elmtLen0 == INDEFINITE_LEN then
        var (_, n2, s2) :- DecSecondEoc(s1, total + n1);
        Got([], n2, s2)
      else if tag != UC16 then Fail(-118)
      else
        var (len, n2, s2) :- DecLen(s1);
        var (v, n3, s3) :- DecType(s2, len);
        ConsValue(v, DecTypeList(s3, elmtLen0, total + n1 + n2 + n3))
  }

  /** The optional `tagList`, once `tag` has been read, and the identifier after it. */
  function DecTagListField(s: seq<byte>, tag: nat): (d: Dec<(Option<seq<TBLTag>>, nat)>)
    ensures d.Got? ==> |d.rest| <= |s|
  {
    if tag != CC2 then Got((None, tag), 0, s)
    else
      var (len, n1, s1) :- DecLen(s);
      var (v, n2, s2) :- DecTagList(s1, len, 0);
      var (tag', n3, s3) :- DecTag(s2);
      Got((Some(v), tag'), n1 + n2 + n3, s3)
  }

  /** The explicitly tagged `content`; its outer length is used only to look for two EOCs. */
  function DecContentField(s: seq<byte>): (d: Dec<TBLTypeContent>)
    ensures d.Got? ==> |d.rest| <= |s|
    decreases |s|, 3
  {
    var (elmtLen1, n1, s1) :- DecLen(s);
    var (tag2, n2, s2) :- DecTag(s1);
    var (elmtLen2, n3, s3) :- DecLen(s2);
    var (v, n4, s4) :- DecTypeContent(s3, tag2, elmtLen2);
    if elmtLen1 != INDEFINITE_LEN then Got(v, n1 + n2 + n3 + n4, s4)
    else
      var (_, n5, s5) :- DecEoc(s4);
      var (_, n6, s6) :- DecEoc(s5);
      Got(v, n1 + n2 + n3 + n4 + n5 + n6, s6)
  }

  function DecFieldName(s: seq<byte>, elmtLen0: nat, total: nat, tag: Option<nat>):
    (d: Dec<(Option<seq<byte>>, Option<nat>)>)
    ensures d.Got? ==> |d.rest| <= |s|
  {
    if tag != Some(CP4) && tag != Some(CC4) then Got((None, tag), total, s)
    else
      var (len, n1, s1) :- DecLen(s);
      var (v, n2, s2) :- DecPrintable(s1, tag.value, len);
      var (tag', n, s3) :- NextTag(s2, elmtLen0, total + n1 + n2);
      Got((Some(v), tag'), n, s3)
  }

  function DecConstraint(s: seq<byte>, elmtLen0: nat, total: nat, tag: Option<nat>):
    (d: Dec<(Option<TBLRange>, Option<nat>)>)
    ensures d.Got? ==> |d.rest| <= |s|
  {
    if tag != Some(CC5) then Got((None, tag), total, s)
    else
      var (len, n1, s1) :- DecLen(s);
      var (v, n2, s2) :- DecRange(s1, len);
      var (tag', n, s3) :- NextTag(s2, elmtLen0, total + n1 + n2);
      Got((Some(v), tag'), n, s3)
  }

  function DecValues(s: seq<byte>, elmtLen0: nat, total: nat, tag: Option<nat>): (d: Dec<Option<seq<TBLNamedNumber>>>)
    ensures d.Got? ==> |d.rest| <= |s|
  {
    if tag == None then Got(None, total, s)
    else if tag != Some(CC6) then Fail(-123)
    else
      var (len, n1, s1) :- DecLen(s);
      var (v, n2, s2) :- DecNamedNumberList(s1, len, 0);
      var (_, n, s3) :- CloseSeq(s2, elmtLen0, total + n1 + n2, -122);
      Got(Some(v), n, s3)
  }

  function DecType(s: seq<byte>, elmtLen0: nat): (d: Dec<TBLType>)
    ensures d.Got? ==> |d.rest| <= |s|
    decreases |s|, 4
  {
    var (typeId, n1, s1) :- DecIntField(s, CP0, -119);
    var (optional, n2, s2) :- DecBoolField(s1, CP1, -120);
    var (tag, n3, s3) :- DecTag(s2);
    var (tl, n4, s4) :- DecTagListField(s3, tag);
    if tl.1 != CC3 then Fail(-121)
    else
      var (content, n5, s5) :- DecContentField(s4);
      var (next, n6, s6) :- NextTag(s5, elmtLen0, n1 + n2 + n3 + n4 + n5);
      var (fieldName, n7, s7) :- DecFieldName(s6, elmtLen0, n6, next);
      var (constraint, n8, s8) :- DecConstraint(s7, elmtLen0, n7, fieldName.1);
      var (values, n9, s9) :- DecValues(s8, elmtLen0, n8, constraint.1);
      Got(TBLType(typeId, optional, tl.0, content, fieldName.0, constraint.0, values), n9, s9)
  }

  function DecTypeContent(s: seq<byte>, tag: nat, len: nat): (d: Dec<TBLTypeContent>)
    ensures d.Got? ==> |d.rest| <= |s|
    decreases |s|, 1
  {
    if tag == CP0 then
      var (_, n, s1) :- DecNull(s, len);
      Got(PrimType, n, s1)
    else if tag == CC1 then
      var (elmts, n, s1) :- DecTypeList(s, len, 0);
      Got(Elmts(elmts), n, s1)
    else if tag == CC2 then
      var (typeRef, n, s1) :- DecTypeRef(s, len);
      Got(TypeRef(typeRef), n, s1)
    else Fail(-124)
  }

  /** The optional `isPdu` at the end of a TBLTypeDef. */
  function DecIsPdu(s: seq<byte>, elmtLen0: nat, total: nat, tag: Option<nat>): (d: Dec<bool>)
    ensures d.Got? ==> |d.rest| <= |s|
  {
    if tag == None then Got(false, total, s)
    else if tag != Some(UP5) then Fail(-129)
    else
      var (len, n1, s1) :- DecLen(s);
      var (_, n2, s2) :- DecNull(s1, len);
      var (_, n, s3) :- CloseSeq(s2, elmtLen0, total + n1 + n2, -128);
      Got(true, n, s3)
  }

  function DecTypeDef(s: seq<byte>, elmtLen0: nat): (d: Dec<TBLTypeDef>)
    ensures d.Got? ==> |d.rest| <= |s|
  {
    var (typeDefId, n1, s1) :- DecIntField(s, UP2, -125);
    var (typeName, n2, s2) :- DecNameField(s1, UP19, UC19, -126);
    var (h, n3, s3) :- DecExpect(s2, UC16, UC16, -127);
    var (typ, n4, s4) :- DecType(s3, h.1);
    var (next, n5, s5) :- NextTag(s4, elmtLen0, n1 + n2 + n3 + n4);
    var (isPdu, n6, s6) :- DecIsPdu(s5, elmtLen0, n5, next);
    Got(TBLTypeDef(typeDefId, typeName, typ, isPdu), n6, s6)
  }

  function DecTypeDefList(s: seq<byte>, elmtLen0: nat, total: nat): (d: Dec<seq<TBLTypeDef>>)
    ensures d.Got? ==> |d.rest| <= |s|
    decreases |s|
  {
    if total >= elmtLen0 && elmtLen0 != INDEFINITE_LEN then Got([], total, s)
    else
      var (tag, n1, s1) :- DecTag(s);
      if tag == EOC_TAG_ID && elmtLen0 == INDEFINITE_LEN then
        var (_, n2, s2) :- DecSecondEoc(s1, total + n1);
        Got([], n2, s2)
      else if tag != UC16 then Fail(-130)
      else
        var (len, n2, s2) :- DecLen(s1);
        var (v, n3, s3) :- DecTypeDef(s2, len);
        ConsValue(v, DecTypeDefList(s3, elmtLen0, total + n1 + n2 + n3))
  }

  /** The optional `id`, once `tag` has been read, and the identifier after it. */
  function DecIdField(s: seq<byte>, tag: nat): (d: Dec<(Option<seq<byte>>, nat)>)
    ensures d.Got? ==> |d.rest| <= |s|
  {
    if tag != CP1 then Got((None, tag), 0, s)
    else
      var (len, n1, s1) :- DecLen(s);
      var (v, n2, s2) :- DecOid(s1, len);
      var (tag', n3, s3) :- DecTag(s2);
      Got((Some(v), tag'), n1 + n2 + n3, s3)
  }

  function DecModule(s: seq<byte>, elmtLen0: nat): (d: Dec<TBLModule>)
    ensures d.Got? ==> |d.rest| <= |s|
  {
    var (name, n1, s1) :- DecNameField(s, CP0, CC0, -131);
    var (tag, n2, s2) :- DecTag(s1);
    var (id, n3, s3) :- DecIdField(s2, tag);
    if id.1 != CP2 then Fail(-132)
    else
      var (len, n4, s4) :- DecLen(s3);
      var (isUseful, n5, s5) :- DecBool(s4, len);
      var (h, n6, s6) :- DecExpect(s5, CC3, CC3, -134);
      var (typeDefs, n7, s7) :- DecTypeDefList(s6, h.1, 0);
      var (_, n, s8) :- CloseSeq(s7, elmtLen0, n1 + n2 + n3 + n4 + n5 + n6 + n7, -133);
      Got(TBLModule(name, id.0, isUseful, typeDefs), n, s8)
  }

  function DecModuleList(s: seq<byte>, elmtLen0: nat, total: nat): (d: Dec<seq<TBLModule>>)
    ensures d.Got? ==> |d.rest| <= |s|
    decreases |s|
  {
    if total >= elmtLen0 && elmtLen0 != INDEFINITE_LEN then Got([], total, s)
    else
      var (tag, n1, s1) :- DecTag(s);
      if tag == EOC_TAG_ID && elmtLen0 == INDEFINITE_LEN then
        var (_, n2, s2) :- DecSecondEoc(s1, total + n1);
        Got([], n2, s2)
      else if tag != UC16 then Fail(-136)
      else
        var (len, n2, s2) :- DecLen(s1);
        var (v, n3, s3) :- DecModule(s2, len);
        ConsValue(v, DecModuleList(s3, elmtLen0, total + n1 + n2 + n3))
  }

  function DecTBLContent(s: seq<byte>, elmtLen0: nat): (d: Dec<TBL>)
    ensures d.Got? ==> |d.rest| <= |s|
  {
    var (i1, n1, s1) :- DecIntField(s, UP2, -138);
    var (i2, n2, s2) :- DecIntField(s1, UP2, -139);
    var (i3, n3, s3) :- DecIntField(s2, UP2, -140);
    var (i4, n4, s4) :- DecIntField(s3, UP2, -141);
    var (i5, n5, s5) :- DecIntField(s4, UP2, -142);
    var (i6, n6, s6) :- DecIntField(s5, UP2, -143);
    var (h, n7, s7) :- DecExpect(s6, UC16, UC16, -145);
    var (modules, n8, s8) :- DecModuleList(s7, h.1, 0);
    var (_, n, s9) :- CloseSeq(s8, elmtLen0, n1 + n2 + n3 + n4 + n5 + n6 + n7 + n8, -144);
    Got(TBL(i1, i2, i3, i4, i5, i6, modules), n, s9)
  }

  function DecTBL(s: seq<byte>): (d: Dec<TBL>)
    ensures d.Got? ==> |d.rest| <= |s|
  {
    var (h, n1, s1) :- DecExpect(s, UC16, UC16, -137);
    var (v, n2, s2) :- DecTBLContent(s1, h.1);
    Got(v, n1 + n2, s2)
  }

  /** Once a field list has ended, no octets of a definite length are left over. */
  lemma FieldsEnd(s: seq<byte>, elmtLen0: nat, total: nat, tag: Option<nat>)
    requires elmtLen0 != INDEFINITE_LEN
    ensures NextTag(s, elmtLen0, total).Got? && NextTag(s, elmtLen0, total).value == None ==>
      NextTag(s, elmtLen0, total).n == elmtLen0
    ensures DecValues(s, elmtLen0, total, tag).Got? && (tag == None ==> total == elmtLen0) ==>
      DecValues(s, elmtLen0, total, tag).n == elmtLen0
    ensures DecIsPdu(s, elmtLen0, total, tag).Got? && (tag == None ==> total == elmtLen0) ==>
      DecIsPdu(s, elmtLen0, total, tag).n == elmtLen0
  {
    hide DecTag, DecLen, DecNamedNumberList;
  }

  /** A sequence that is accepted has used up exactly its definite length, whatever the octets are. */
  lemma SequencesEnd(s: seq<byte>, len: nat)
    requires len != INDEFINITE_LEN
    ensures DecRange(s, len).Got? ==> DecRange(s, len).n == len
    ensures DecNamedNumber(s, len).Got? ==> DecNamedNumber(s, len).n == len
    ensures DecTypeRef(s, len).Got? ==> DecTypeRef(s, len).n == len
    ensures DecTBLTag(s, len).Got? ==> DecTBLTag(s, len).n == len
    ensures DecModule(s, len).Got? ==> DecModule(s, len).n == len
    ensures DecTBLContent(s, len).Got? ==> DecTBLContent(s, len).n == len
  {
    hide DecIntField, DecBoolField, DecNameField, DecExpect, DecTag, DecLen, DecBool, DecIdField, DecTypeDefList,
      DecModuleList;
  }

  lemma TypeEnds(s: seq<byte>, len: nat)
    requires len != INDEFINITE_LEN
    ensures DecType(s, len).Got? ==> DecType(s, len).n == len
  {
    hide DecIntField, DecBoolField, DecTag, DecTagListField, DecContentField, DecValues, NextTag, DecLen, DecPrintable,
      DecRange;
    if DecType(s, len).Got? {
      var (typeId, n1, s1) := Parts(DecIntField(s, CP0, -119));
      var (optional, n2, s2) := Parts(DecBoolField(s1, CP1, -120));
      var (tag, n3, s3) := Parts(DecTag(s2));
      var (tl, n4, s4) := Parts(DecTagListField(s3, tag));
      var (content, n5, s5) := Parts(DecContentField(s4));
      var total := n1 + n2 + n3 + n4 + n5;
      FieldsEnd(s5, len, total, None);
      var (next, n6, s6) := Parts(NextTag(s5, len, total));
      NameEnds(s6, len, n6, next);
      var (fieldName, n7, s7) := Parts(DecFieldName(s6, len, n6, next));
      RangeEnds(s7, len, n7, fieldName.1);
      var (constraint, n8, s8) := Parts(DecConstraint(s7, len, n7, fieldName.1));
      FieldsEnd(s8, len, n8, constraint.1);
    }
  }

  function Parts<T>(d: Dec<T>): (T, nat, seq<byte>)
    requires d.Got?
  {
    (d.value, d.n, d.rest)
  }

  lemma NameEnds(s: seq<byte>, len: nat, total: nat, tag: Option<nat>)
    requires len != INDEFINITE_LEN && (tag == None ==> total == len)
    ensures
      var d := DecFieldName(s, len, total, tag);
      d.Got? && d.value.1 == None ==> d.n == len
  {
    hide DecLen, DecPrintable, DecTag;
  }

  lemma RangeEnds(s: seq<byte>, len: nat, total: nat, tag: Option<nat>)
    requires len != INDEFINITE_LEN && (tag == None ==> total == len)
    ensures
      var d := DecConstraint(s, len, total, tag);
      d.Got? && d.value.1 == None ==> d.n == len
  {
    hide DecLen, DecRange, DecTag;
  }

  lemma TypeDefEnds(s: seq<byte>, len: nat)
    requires len != INDEFINITE_LEN
    ensures DecTypeDef(s, len).Got? ==> DecTypeDef(s, len).n == len
  {
    hide DecIntField, DecNameField, DecExpect, DecType, NextTag, DecIsPdu;
    if DecTypeDef(s, len).Got? {
      var (typeDefId, n1, s1) := Parts(DecIntField(s, UP2, -125));
      var (typeName, n2, s2) := Parts(DecNameField(s1, UP19, UC19, -126));
      var (h, n3, s3) := Parts(DecExpect(s2, UC16, UC16, -127));
      var (typ, n4, s4) := Parts(DecType(s3, h.1));
      FieldsEnd(s4, len, n1 + n2 + n3 + n4, None);
      var (next, n5, s5) := Parts(NextTag(s4, len, n1 + n2 + n3 + n4));
      FieldsEnd(s5, len, n5, next);
    }
  }
}

/** The `TBL` values of the type table and the octets that encode them. */
module Tbl {
  import opened Octets
  import opened Lengths
  import opened Tags
  import opened Ints

  /** `AsnBool`: any octet; zero is false. */
  type AsnBool = byte

  datatype TBLRange = TBLRange(from: AsnInt, to: AsnInt)

  datatype TBLNamedNumber = TBLNamedNumber(name: seq<byte>, value: AsnInt)

  datatype TBLTypeRef = TBLTypeRef(typeDef: AsnInt, implicitly: AsnBool)

  datatype TBLTag = TBLTag(tclass: AsnInt, code: AsnInt)

  datatype TBLType = TBLType(
    typeId: AsnInt,
    optional: AsnBool,
    tagList: Option<seq<TBLTag>>,
    content: TBLTypeContent,
    fieldName: Option<seq<byte>>,
    constraint: Option<TBLRange>,
    values: Option<seq<TBLNamedNumber>>)

  datatype TBLTypeContent =
    | PrimType
    | Elmts(elmts: seq<TBLType>)
    | TypeRef(typeRef: TBLTypeRef)

  datatype TBLTypeDef = TBLTypeDef(typeDefId: AsnInt, typeName: seq<byte>, typ: TBLType, isPdu: bool)

  datatype TBLModule = TBLModule(name: seq<byte>, id: Option<seq<byte>>, isUseful: AsnBool, typeDefs: seq<TBLTypeDef>)

  datatype TBL = TBL(
    totalNumModules: AsnInt,
    totalNumTypeDefs: AsnInt,
    totalNumTypes: AsnInt,
    totalNumTags: AsnInt,
    totalNumStrings: AsnInt,
    totalLenStrings: AsnInt,
    modules: seq<TBLModule>)

  /** `chkPrintableString` accepts the octet. */
  predicate IsPrintable(c: byte)
  {
    || 'A' as int <= c <= 'Z' as int
    || 'a' as int <= c <= 'z' as int
    || '0' as int <= c <= '9' as int
    || c == ' ' as int
    || '\'' as int <= c <= ')' as int
    || '+' as int <= c <= '/' as int
    || c == ':' as int || c == '=' as int || c == '?' as int
  }

  predicate AllPrintable(s: seq<byte>)
  {
    forall i :: 0 <= i < |s| ==> IsPrintable(s[i])
  }

  /** The codes of A to Z, a to z, 0 to 9, space and the signs that section 41 of ITU-T X.680 lists. */
  const PRINTABLE_SIGNS: set<int> := {0x20, 0x27, 0x28, 0x29, 0x2B, 0x2C, 0x2D, 0x2E, 0x2F, 0x3A, 0x3D, 0x3F}

  lemma PrintableCodes(c: byte)
    ensures IsPrintable(c) <==>
            0x41 <= c <= 0x5A || 0x61 <= c <= 0x7A || 0x30 <= c <= 0x39 || c as int in PRINTABLE_SIGNS
  {
  }

  /** `chkPrintableString`. */
  method ChkPrintableString(octs: seq<byte>) returns (ok: bool)
    ensures ok <==> AllPrintable(octs)
    ensures ok <==> forall i :: 0 <= i < |octs| ==>
      0x41 <= octs[i] <= 0x5A || 0x61 <= octs[i] <= 0x7A || 0x30 <= octs[i] <= 0x39 || octs[i] as int in PRINTABLE_SIGNS
  {
    hide IsPrintable;
    forall i | 0 <= i < |octs|
      ensures IsPrintable(octs[i]) <==>
              0x41 <= octs[i] <= 0x5A || 0x61 <= octs[i] <= 0x7A || 0x30 <= octs[i] <= 0x39
              || octs[i] as int in PRINTABLE_SIGNS
    {
      PrintableCodes(octs[i]);
    }
    for i := 0 to |octs|
      invariant forall k :: 0 <= k < i ==> IsPrintable(octs[k])
    {
      if !IsPrintable(octs[i]) {
        return false;
      }
    }
    return true;
  }

  /** Identifier, definite length and content octets of one element. */
  function Tlv(cl: Class, fm: Form, code: nat, content: seq<byte>): (s: seq<byte>)
    requires code < 31
  {
    TagOctets(cl, fm, code) + (EncDefLen(|content|) + content)
  }

  function EncBool(v: AsnBool): seq<byte>
  {
    [if v != 0 then 0xFF else 0]
  }

  function EncRange(v: TBLRange): seq<byte>
  {
    Tlv(CNTX, PRIM, 0, EncInt(v.from)) + Tlv(CNTX, PRIM, 1, EncInt(v.to))
  }

  function EncNamedNumber(v: TBLNamedNumber): seq<byte>
  {
    Tlv(CNTX, PRIM, 0, v.name) + Tlv(CNTX, PRIM, 1, EncInt(v.value))
  }

  function EncNamedNumberList(v: seq<TBLNamedNumber>): seq<byte>
  {
    if v == [] then [] else Tlv(UNIV, CONS, SEQ_TAG_CODE, EncNamedNumber(v[0])) + EncNamedNumberList(v[1..])
  }

  function EncTypeRef(v: TBLTypeRef): seq<byte>
  {
    Tlv(UNIV, PRIM, INTEGER_TAG_CODE, EncInt(v.typeDef)) + Tlv(UNIV, PRIM, BOOLEAN_TAG_CODE, EncBool(v.implicitly))
  }

  function EncTag(v: TBLTag): seq<byte>
  {
    Tlv(UNIV, PRIM, ENUM_TAG_CODE, EncInt(v.tclass)) + Tlv(UNIV, PRIM, INTEGER_TAG_CODE, EncInt(v.code))
  }

  function EncTagList(v: seq<TBLTag>): seq<byte>
  {
    if v == [] then [] else Tlv(UNIV, CONS, SEQ_TAG_CODE, EncTag(v[0])) + EncTagList(v[1..])
  }

  function EncTypeList(v: seq<TBLType>): seq<byte>
    decreases v, 1
  {
    if v == [] then [] else Tlv(UNIV, CONS, SEQ_TAG_CODE, EncType(v[0])) + EncTypeList(v[1..])
  }

  /** The last optional fields of a TBLType, each with those that follow it. */
  function EncValues(v: TBLType): seq<byte>
  {
    if v.values.None? then [] else Tlv(CNTX, CONS, 6, EncNamedNumberList(v.values.value))
  }

  function EncConstraint(v: TBLType): seq<byte>
  {
    (if v.constraint.None? then [] else Tlv(CNTX, CONS, 5, EncRange(v.constraint.value))) + EncValues(v)
  }

  function EncFieldName(v: TBLType): seq<byte>
  {
    (if v.fieldName.None? then [] else Tlv(CNTX, PRIM, 4, v.fieldName.value)) + EncConstraint(v)
  }

  function EncTagListField(v: TBLType): seq<byte>
  {
    if v.tagList.None? then [] else Tlv(CNTX, CONS, 2, EncTagList(v.tagList.value))
  }

  function EncType(v: TBLType): seq<byte>
    decreases v, 0
  {
    Tlv(CNTX, PRIM, 0, EncInt(v.typeId)) + (Tlv(CNTX, PRIM, 1, EncBool(v.optional)) +
    (EncTagListField(v) + (Tlv(CNTX, CONS, 3, EncTypeContent(v.content)) + EncFieldName(v))))
  }

  function EncTypeContent(v: TBLTypeContent): seq<byte>
    decreases v, 2
  {
    match v
    case PrimType => Tlv(CNTX, PRIM, 0, [])
    case Elmts(elmts) => Tlv(CNTX, CONS, 1, EncTypeList(elmts))
    case TypeRef(typeRef) => Tlv(CNTX, CONS, 2, EncTypeRef(typeRef))
  }

  function EncIsPdu(v: TBLTypeDef): seq<byte>
  {
    if v.isPdu then Tlv(UNIV, PRIM, NULLTYPE_TAG_CODE, []) else []
  }

  function EncTypeDef(v: TBLTypeDef): seq<byte>
  {
    Tlv(UNIV, PRIM, INTEGER_TAG_CODE, EncInt(v.typeDefId)) +
    (Tlv(UNIV, PRIM, PRINTABLESTRING_TAG_CODE, v.typeName) +
    (Tlv(UNIV, CONS, SEQ_TAG_CODE, EncType(v.typ)) + EncIsPdu(v)))
  }

  function EncTypeDefList(v: seq<TBLTypeDef>): seq<byte>
  {
    if v == [] then [] else Tlv(UNIV, CONS, SEQ_TAG_CODE, EncTypeDef(v[0])) + EncTypeDefList(v[1..])
  }

  function EncId(v: TBLModule): seq<byte>
  {
    if v.id.None? then [] else Tlv(CNTX, PRIM, 1, v.id.value)
  }

  function EncModule(v: TBLModule): seq<byte>
  {
    Tlv(CNTX, PRIM, 0, v.name) + (EncId(v) +
    (Tlv(CNTX, PRIM, 2, EncBool(v.isUseful)) + Tlv(CNTX, CONS, 3, EncTypeDefList(v.typeDefs))))
  }

  function EncModuleList(v: seq<TBLModule>): seq<byte>
  {
    if v == [] then [] else Tlv(UNIV, CONS, SEQ_TAG_CODE, EncModule(v[0])) + EncModuleList(v[1..])
  }

  function IntElement(v: AsnInt): seq<byte>
  {
    Tlv(UNIV, PRIM, INTEGER_TAG_CODE, EncInt(v))
  }

  function EncTBLContent(v: TBL): seq<byte>
  {
    IntElement(v.totalNumModules) + (IntElement(v.totalNumTypeDefs) + (IntElement(v.totalNumTypes) +
    (IntElement(v.totalNumTags) + (IntElement(v.totalNumStrings) + (IntElement(v.totalLenStrings) +
    Tlv(UNIV, CONS, SEQ_TAG_CODE, EncModuleList(v.modules)))))))
  }

  function EncTBL(v: TBL): seq<byte>
  {
    Tlv(UNIV, CONS, SEQ_TAG_CODE, EncTBLContent(v))
  }

  /** Every name is a PrintableString. */
  ghost predicate Named(v: TBL)
  {
    ModulesNamed(v.modules)
  }

  ghost predicate ModulesNamed(v: seq<TBLModule>)
  {
    forall i :: 0 <= i < |v| ==> ModuleNamed(v[i])
  }

  ghost predicate ModuleNamed(v: TBLModule)
  {
    AllPrintable(v.name) && TypeDefsNamed(v.typeDefs)
  }

  ghost predicate TypeDefsNamed(v: seq<TBLTypeDef>)
  {
    forall i :: 0 <= i < |v| ==> TypeDefNamed(v[i])
  }

  ghost predicate TypeDefNamed(v: TBLTypeDef)
  {
    AllPrintable(v.typeName) && TypeNamed(v.typ)
  }

  ghost predicate TypeNamed(v: TBLType)
    decreases v, 0
  {
    TailNamed(v) && (v.content.Elmts? ==> TypesNamed(v.content.elmts))
  }

  /** The names in the optional fields behind the content. */
  ghost predicate TailNamed(v: TBLType)
  {
    && (v.fieldName.Some? ==> AllPrintable(v.fieldName.value))
    && (v.values.Some? ==> NumbersNamed(v.values.value))
  }

  ghost predicate TypesNamed(v: seq<TBLType>)
    decreases v, 1
  {
    forall i :: 0 <= i < |v| ==> TypeNamed(v[i])
  }

  ghost predicate NumbersNamed(v: seq<TBLNamedNumber>)
  {
    forall i :: 0 <= i < |v| ==> AllPrintable(v[i].name)
  }
}

/** The compiler's syntax tree: types, their tags and the references between type definitions. */
module Asn1Types {
  import opened Octets

  /** The address of a `TypeDef`. */
  type TypeDefPtr = int

  /** A tag whose code is a literal (`valueRef` is `NULL`). */
  datatype Tag = Tag(tclass: int, form: int, code: int)

  /** What the C and C++ type information record about a reference. */
  datatype TRI = TRI(isPtr: bool)

  datatype NamedType = NamedType(fieldName: Option<string>, asnType: Type)

  datatype Type = Type(
    tags: seq<Tag>,
    implicit: bool,
    optional: bool,
    hasDefault: bool,
    basicType: BasicType,
    cTypeRefInfo: Option<TRI>,
    cxxTypeRefInfo: Option<TRI>)

  datatype BasicType =
    | Sequence(elmts: seq<NamedType>)
    | Set(elmts: seq<NamedType>)
    | Choice(elmts: seq<NamedType>)
    | ObjectClass(classdef: seq<NamedType>)
    | SequenceOf(elmt: Type)
    | SetOf(elmt: Type)
    | Selection(selected: Option<NamedType>)
    | LocalTypeRef(typeName: string, link: Option<TypeDefPtr>)
    | ImportTypeRef(typeName: string, link: Option<TypeDefPtr>)
    | Other(otherId: nat)
  {
    predicate IsTypeRef()
    {
      LocalTypeRef? || ImportTypeRef?
    }

    /** Position in `enum BasicTypeChoiceId`. */
    function ChoiceId(): nat
    {
      match this
      case Sequence(_) => 9
      case SequenceOf(_) => 10
      case Set(_) => 11
      case SetOf(_) => 12
      case Choice(_) => 13
      case Selection(_) => 14
      case LocalTypeRef(_, _) => 18
      case ImportTypeRef(_, _) => 19
      case ObjectClass(_) => 42
      case Other(id) => id
    }
  }

  datatype TypeDef = TypeDef(
    definedName: string,
    asnType: Type,
    localRefCount: int,
    cTypeDefInfo: bool)

  const BASICTYPE_ANY := 16
  const BASICTYPE_ANYDEFINEDBY := 17

  /** The choice ids of the simple, string and time types. */
  predicate IsSimple(id: nat)
  {
    1 <= id <= 8 || 22 <= id <= 35 || id == 37 || id == 39
  }

  predicate IsPrimitiveByDef(t: Type)
  {
    match t.basicType
    case Selection(Some(selected)) => IsPrimitiveByDef(selected.asnType)
    case Other(id) => IsSimple(id)
    case _ => false
  }

  predicate IsDefinedByLibraryType(t: Type)
  {
    IsPrimitiveByDef(t) || t.basicType == Other(BASICTYPE_ANY) || t.basicType == Other(BASICTYPE_ANYDEFINEDBY)
  }

  /**
   * The library types by choice id: BOOLEAN to ENUMERATED, ANY, ANY DEFINED BY, the character string and time types
   * with OBJECT DESCRIPTOR, OCTET STRING CONTAINING, and RELATIVE-OID; or a selection of one that is not an ANY.
   */
  lemma LibraryTypes(t: Type)
    ensures IsDefinedByLibraryType(t) <==>
            match t.basicType
            case Other(id) =>
              1 <= id <= 8 || 16 <= id <= 17 || 22 <= id <= 35 || id == 37 || id == 39
            case Selection(Some(selected)) =>
              && IsDefinedByLibraryType(selected.asnType)
              && selected.asnType.basicType != Other(16) && selected.asnType.basicType != Other(17)
            case _ => false
  {
    match t.basicType
    case Selection(Some(selected)) =>
      assert IsPrimitiveByDef(t) == IsPrimitiveByDef(selected.asnType);
      assert selected.asnType.basicType.Other? ==>
        IsPrimitiveByDef(selected.asnType) == IsSimple(selected.asnType.basicType.otherId);
    case Other(id) =>
      assert IsPrimitiveByDef(t) == IsSimple(id);
    case _ =>
  }
}

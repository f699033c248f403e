/** The references of a type to type definitions, as the passes over the syntax tree record them. */
module TypeRefs {
  import opened Octets
  import opened Asn1Types
  import opened Paths

  /** Every reference that is recorded has been linked. */
  predicate Linked(t: Type)
  {
    match t.basicType
    case Sequence(es) => forall i :: 0 <= i < |es| ==> Linked(es[i].asnType)
    case Set(es) => forall i :: 0 <= i < |es| ==> Linked(es[i].asnType)
    case Choice(es) => forall i :: 0 <= i < |es| ==> Linked(es[i].asnType)
    case ObjectClass(es) => forall i :: 0 <= i < |es| ==> Linked(es[i].asnType)
    case SequenceOf(elmt) => Linked(elmt)
    case SetOf(elmt) => Linked(elmt)
    case LocalTypeRef(_, link) => link.Some?
    case ImportTypeRef(_, link) => link.Some?
    case _ => true
  }

  /** What kinds of reference a walk over a type records. */
  datatype Follow = Follow(classes: bool, imports: bool, weighted: bool)

  /** The references of a type in order; references of referenced types are not included. */
  function Refs(t: Type, f: Follow): seq<TypeDefPtr>
    requires Linked(t)
    decreases t
  {
    match t.basicType
    case Sequence(es) => ElmtRefs(es, f)
    case Set(es) => ElmtRefs(es, f)
    case Choice(es) => ElmtRefs(es, f)
    case ObjectClass(es) => if f.classes then ElmtRefs(es, f) else []
    case SequenceOf(elmt) => if f.weighted && t.cTypeRefInfo.Some? then [] else Refs(elmt, f)
    case SetOf(elmt) => if f.weighted && t.cTypeRefInfo.Some? then [] else Refs(elmt, f)
    case LocalTypeRef(_, link) => if f.weighted && !ByValue(t) then [] else [link.value]
    case ImportTypeRef(_, link) => if f.imports then [link.value] else []
    case _ => []
  }

  function ElmtRefs(es: seq<NamedType>, f: Follow): seq<TypeDefPtr>
    requires forall i :: 0 <= i < |es| ==> Linked(es[i].asnType)
    decreases es
  {
    if es == [] then [] else ElmtRefs(es[..|es| - 1], f) + ElmtRef(es[|es| - 1], f)
  }

  function ElmtRef(e: NamedType, f: Follow): seq<TypeDefPtr>
    requires Linked(e.asnType)
    decreases e
  {
    Refs(e.asnType, f)
  }

  lemma ElmtRefsNone(es: seq<NamedType>, f: Follow)
    ensures ElmtRefs(es[..0], f) == [] && es[..|es|] == es
  {
  }

  lemma ElmtRefsNext(es: seq<NamedType>, i: nat, f: Follow)
    requires i < |es| && forall i :: 0 <= i < |es| ==> Linked(es[i].asnType)
    ensures ElmtRefs(es[..i + 1], f) == ElmtRefs(es[..i], f) + Refs(es[i].asnType, f)
  {
    assert es[..i + 1][..i] == es[..i];
  }

  /** A reference that the generated code does not turn into a pointer. */
  predicate ByValue(t: Type)
  {
    || (t.cxxTypeRefInfo.Some? && !t.cxxTypeRefInfo.value.isPtr)
    || (t.cTypeRefInfo.Some? && !t.cTypeRefInfo.value.isPtr)
  }

  const LOCAL := Follow(true, false, false)
  const FOLLOWED := Follow(false, true, false)
  const WEIGHTED := Follow(false, false, true)

  /** The path leads to a reference to `y`: what `BuildLocalRefList` is to find. */
  ghost predicate LocalAt(t: Type, p: Path, y: TypeDefPtr)
    decreases |p|
  {
    if p == [] then t.basicType.LocalTypeRef? && t.basicType.link == Some(y)
    else
      match t.basicType
      case Sequence(es) => p[0] < |es| && LocalAt(es[p[0]].asnType, p[1..], y)
      case Set(es) => p[0] < |es| && LocalAt(es[p[0]].asnType, p[1..], y)
      case Choice(es) => p[0] < |es| && LocalAt(es[p[0]].asnType, p[1..], y)
      case ObjectClass(es) => p[0] < |es| && LocalAt(es[p[0]].asnType, p[1..], y)
      case SequenceOf(elmt) => p[0] == 0 && LocalAt(elmt, p[1..], y)
      case SetOf(elmt) => p[0] == 0 && LocalAt(elmt, p[1..], y)
      case _ => false
  }

  /** The path leads to a reference to `y`, local or imported, that `MkRecType` is to follow. */
  ghost predicate FollowedAt(t: Type, p: Path, y: TypeDefPtr)
    decreases |p|
  {
    if p == [] then (t.basicType.LocalTypeRef? || t.basicType.ImportTypeRef?) && t.basicType.link == Some(y)
    else
      match t.basicType
      case Sequence(es) => p[0] < |es| && FollowedAt(es[p[0]].asnType, p[1..], y)
      case Set(es) => p[0] < |es| && FollowedAt(es[p[0]].asnType, p[1..], y)
      case Choice(es) => p[0] < |es| && FollowedAt(es[p[0]].asnType, p[1..], y)
      case SequenceOf(elmt) => p[0] == 0 && FollowedAt(elmt, p[1..], y)
      case SetOf(elmt) => p[0] == 0 && FollowedAt(elmt, p[1..], y)
      case _ => false
  }

  /** The path leads, not through a C list, to a local reference to `y` that is no pointer in C++ or in C. */
  ghost predicate ByValueAt(t: Type, p: Path, y: TypeDefPtr)
    decreases |p|
  {
    if p == [] then
      && t.basicType.LocalTypeRef? && t.basicType.link == Some(y)
      && ((t.cxxTypeRefInfo.Some? && t.cxxTypeRefInfo.value.isPtr == false)
          || (t.cTypeRefInfo.Some? && t.cTypeRefInfo.value.isPtr == false))
    else
      match t.basicType
      case Sequence(es) => p[0] < |es| && ByValueAt(es[p[0]].asnType, p[1..], y)
      case Set(es) => p[0] < |es| && ByValueAt(es[p[0]].asnType, p[1..], y)
      case Choice(es) => p[0] < |es| && ByValueAt(es[p[0]].asnType, p[1..], y)
      case SequenceOf(elmt) => p[0] == 0 && t.cTypeRefInfo == None && ByValueAt(elmt, p[1..], y)
      case SetOf(elmt) => p[0] == 0 && t.cTypeRefInfo == None && ByValueAt(elmt, p[1..], y)
      case _ => false
  }

  ghost predicate RefersLocally(t: Type, y: TypeDefPtr)
  {
    exists p :: LocalAt(t, p, y)
  }

  ghost predicate Follows(t: Type, y: TypeDefPtr)
  {
    exists p :: FollowedAt(t, p, y)
  }

  /** Values of the type contain values of `y`, in the generated code. */
  ghost predicate HoldsByValue(t: Type, y: TypeDefPtr)
  {
    exists p :: ByValueAt(t, p, y)
  }

  /** The three of them at once. */
  ghost predicate RefAt(t: Type, f: Follow, p: Path, y: TypeDefPtr)
  {
    if f == LOCAL then LocalAt(t, p, y)
    else if f == FOLLOWED then FollowedAt(t, p, y)
    else ByValueAt(t, p, y)
  }

  ghost predicate ElmtRefAt(es: seq<NamedType>, f: Follow, p: Path, y: TypeDefPtr)
  {
    p != [] && p[0] < |es| && RefAt(es[p[0]].asnType, f, p[1..], y)
  }

  /** Exactly the references to which paths lead, in the order of the paths. */
  ghost predicate RefsAlong(t: Type, f: Follow, refs: seq<TypeDefPtr>, ps: seq<Path>)
  {
    && |ps| == |refs| && InOrder(ps)
    && (forall k :: 0 <= k < |ps| ==> RefAt(t, f, ps[k], refs[k]))
    && forall p, y :: RefAt(t, f, p, y) ==> p in ps
  }

  ghost predicate ElmtRefsAlong(es: seq<NamedType>, f: Follow, refs: seq<TypeDefPtr>, ps: seq<Path>)
  {
    && |ps| == |refs| && InOrder(ps)
    && (forall k :: 0 <= k < |ps| ==> ElmtRefAt(es, f, ps[k], refs[k]))
    && forall p, y :: ElmtRefAt(es, f, p, y) ==> p in ps
  }

  /** A walk over an aggregate type is a walk over its elements. */
  lemma AlongElmts(t: Type, es: seq<NamedType>, f: Follow, refs: seq<TypeDefPtr>, ps: seq<Path>)
    requires f in {LOCAL, FOLLOWED, WEIGHTED} && ElmtRefsAlong(es, f, refs, ps)
    requires t.basicType == Sequence(es) || t.basicType == Set(es) || t.basicType == Choice(es)
             || (t.basicType == ObjectClass(es) && f == LOCAL)
    ensures RefsAlong(t, f, refs, ps)
  {
    forall p, y
      ensures RefAt(t, f, p, y) <==> ElmtRefAt(es, f, p, y)
    {
    }
  }

  lemma AlongList(t: Type, elmt: Type, f: Follow, refs: seq<TypeDefPtr>, ps: seq<Path>)
    requires f in {LOCAL, FOLLOWED, WEIGHTED} && RefsAlong(elmt, f, refs, ps)
    requires t.basicType == SequenceOf(elmt) || t.basicType == SetOf(elmt)
    requires f == WEIGHTED ==> t.cTypeRefInfo.None?
    ensures RefsAlong(t, f, refs, Under(0, ps))
  {
    InOrderUnder(0, ps);
    assert forall k :: 0 <= k < |ps| ==> ([0] + ps[k])[1..] == ps[k];
    forall p, y | RefAt(t, f, p, y)
      ensures p in Under(0, ps)
    {
      assert RefAt(elmt, f, p[1..], y);
      var k :| 0 <= k < |ps| && ps[k] == p[1..];
      assert Under(0, ps)[k] == p;
    }
  }

  lemma AlongLeaf(t: Type, f: Follow)
    requires Linked(t) && f in {LOCAL, FOLLOWED, WEIGHTED}
    requires t.basicType.LocalTypeRef? || t.basicType.ImportTypeRef? || t.basicType.Other? || t.basicType.Selection?
    ensures RefsAlong(t, f, Refs(t, f), if Refs(t, f) == [] then [] else [[]])
  {
    var ps: seq<Path> := if Refs(t, f) == [] then [] else [[]];
    forall p, y
      ensures RefAt(t, f, p, y) <==> p == [] && Refs(t, f) == [y]
    {
    }
  }

  lemma AlongNothing(t: Type, f: Follow)
    requires f in {LOCAL, FOLLOWED, WEIGHTED}
    requires (t.basicType.ObjectClass? && f != LOCAL)
             || ((t.basicType.SequenceOf? || t.basicType.SetOf?) && f == WEIGHTED && t.cTypeRefInfo.Some?)
    ensures RefsAlong(t, f, [], [])
  {
    forall p, y
      ensures !RefAt(t, f, p, y)
    {
    }
  }

  /** The three walks record exactly the references that they are to record, in order. */
  lemma {:induction false} RefsFound(t: Type, f: Follow) returns (ps: seq<Path>)
    requires Linked(t) && f in {LOCAL, FOLLOWED, WEIGHTED}
    ensures RefsAlong(t, f, Refs(t, f), ps)
    decreases t, 1
  {
    hide ElmtRefs, RefsAlong, ElmtRefsAlong;
    match t.basicType {
      case Sequence(_) | Set(_) | Choice(_) =>
        ps := ElmtRefsFound(t.basicType.elmts, f);
        AlongElmts(t, t.basicType.elmts, f, Refs(t, f), ps);
      case ObjectClass(es) =>
        if f == LOCAL {
          ps := ElmtRefsFound(es, f);
          AlongElmts(t, es, f, Refs(t, f), ps);
        } else {
          ps := [];
          AlongNothing(t, f);
        }
      case SequenceOf(elmt) =>
        ps := ListRefsFound(t, elmt, f);
      case SetOf(elmt) =>
        ps := ListRefsFound(t, elmt, f);
      case _ =>
        ps := if Refs(t, f) == [] then [] else [[]];
        AlongLeaf(t, f);
    }
  }

  lemma {:induction false} ListRefsFound(t: Type, elmt: Type, f: Follow) returns (ps: seq<Path>)
    requires Linked(t) && f in {LOCAL, FOLLOWED, WEIGHTED}
    requires t.basicType == SequenceOf(elmt) || t.basicType == SetOf(elmt)
    ensures RefsAlong(t, f, Refs(t, f), ps)
    decreases t, 0
  {
    hide RefsAlong;
    if f == WEIGHTED && t.cTypeRefInfo.Some? {
      ps := [];
      AlongNothing(t, f);
    } else {
      ps := RefsFound(elmt, f);
      AlongList(t, elmt, f, Refs(t, f), ps);
      ps := Under(0, ps);
    }
  }

  lemma {:induction false} ElmtRefsFound(es: seq<NamedType>, f: Follow) returns (ps: seq<Path>)
    requires (forall i :: 0 <= i < |es| ==> Linked(es[i].asnType)) && f in {LOCAL, FOLLOWED, WEIGHTED}
    ensures ElmtRefsAlong(es, f, ElmtRefs(es, f), ps)
    decreases es, 0
  {
    hide RefsAlong, ElmtRefsAlong, Refs, Linked;
    if es == [] {
      ps := [];
      NoElmts(f);
    } else {
      var i := |es| - 1;
      ps := ElmtRefsFound(es[..i], f);
      var qs := ElmtRefFound(es[i], f);
      AlongNext(es, f, ElmtRefs(es[..i], f), ps, ElmtRef(es[i], f), qs);
      ps := ps + Under(i, qs);
    }
  }

  lemma {:induction false} ElmtRefFound(e: NamedType, f: Follow) returns (ps: seq<Path>)
    requires Linked(e.asnType) && f in {LOCAL, FOLLOWED, WEIGHTED}
    ensures RefsAlong(e.asnType, f, ElmtRef(e, f), ps)
    decreases e
  {
    ps := RefsFound(e.asnType, f);
  }

  lemma NoElmts(f: Follow)
    ensures ElmtRefsAlong([], f, [], [])
  {
  }

  lemma AlongNext(es: seq<NamedType>, f: Follow, refs: seq<TypeDefPtr>, ps: seq<Path>, more: seq<TypeDefPtr>,
                  qs: seq<Path>)
    requires es != [] && ElmtRefsAlong(es[..|es| - 1], f, refs, ps)
    requires RefsAlong(es[|es| - 1].asnType, f, more, qs)
    ensures ElmtRefsAlong(es, f, refs + more, ps + Under(|es| - 1, qs))
  {
    hide RefAt, InOrder;
    var i := |es| - 1;
    InOrderJoin(ps, i, qs);
    var all := ps + Under(i, qs);
    assert forall k :: 0 <= k < |qs| ==> ([i] + qs[k])[1..] == qs[k];
    forall p, y | ElmtRefAt(es, f, p, y)
      ensures p in all
    {
      if p[0] < i {
        assert ElmtRefAt(es[..i], f, p, y);
        var k :| 0 <= k < |ps| && ps[k] == p;
        assert all[k] == p;
      } else {
        var k :| 0 <= k < |qs| && qs[k] == p[1..];
        assert all[|ps| + k] == p;
      }
    }
  }

  lemma {:induction false} OneRefAt(t: Type, f: Follow, p: Path, y: TypeDefPtr, z: TypeDefPtr)
    requires RefAt(t, f, p, y) && RefAt(t, f, p, z)
    ensures y == z
    decreases |p|
  {
    if p != [] {
      match t.basicType
      case Sequence(es) => OneRefAt(es[p[0]].asnType, f, p[1..], y, z);
      case Set(es) => OneRefAt(es[p[0]].asnType, f, p[1..], y, z);
      case Choice(es) => OneRefAt(es[p[0]].asnType, f, p[1..], y, z);
      case ObjectClass(es) => OneRefAt(es[p[0]].asnType, f, p[1..], y, z);
      case SequenceOf(elmt) => OneRefAt(elmt, f, p[1..], y, z);
      case SetOf(elmt) => OneRefAt(elmt, f, p[1..], y, z);
    }
  }

  /** A type definition is recorded if and only if a path leads to a reference to it. */
  lemma RecordedIff(t: Type, f: Follow)
    requires Linked(t) && f in {LOCAL, FOLLOWED, WEIGHTED}
    ensures forall y :: y in Refs(t, f) <==> exists p :: RefAt(t, f, p, y)
  {
    hide RefAt, Refs, InOrder;
    var ps := RefsFound(t, f);
    forall y
      ensures y in Refs(t, f) <==> exists p :: RefAt(t, f, p, y)
    {
      if k :| 0 <= k < |ps| && Refs(t, f)[k] == y {
        assert RefAt(t, f, ps[k], y);
      }
      if p :| RefAt(t, f, p, y) {
        var k :| 0 <= k < |ps| && ps[k] == p;
        OneRefAt(t, f, p, y, Refs(t, f)[k]);
      }
    }
  }

  lemma LocalIff(t: Type)
    requires Linked(t)
    ensures forall y :: y in Refs(t, LOCAL) <==> RefersLocally(t, y)
  {
    hide LocalAt, Refs;
    RecordedIff(t, LOCAL);
    forall p, y
      ensures RefAt(t, LOCAL, p, y) <==> LocalAt(t, p, y)
    {
    }
  }

  lemma FollowedIff(t: Type)
    requires Linked(t)
    ensures forall y :: y in Refs(t, FOLLOWED) <==> Follows(t, y)
  {
    hide FollowedAt, Refs;
    RecordedIff(t, FOLLOWED);
    forall p, y
      ensures RefAt(t, FOLLOWED, p, y) <==> FollowedAt(t, p, y)
    {
    }
  }

  lemma ByValueIff(t: Type)
    requires Linked(t)
    ensures forall y :: y in Refs(t, WEIGHTED) <==> HoldsByValue(t, y)
  {
    hide ByValueAt, Refs;
    RecordedIff(t, WEIGHTED);
    forall p, y
      ensures RefAt(t, WEIGHTED, p, y) <==> ByValueAt(t, p, y)
    {
    }
  }
}

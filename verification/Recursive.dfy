/** Marking the recursive types, and what that means for the sorting of a module. */
module Recursives {
  import opened Octets
  import opened Asn1Types
  import opened RefGraphs
  import opened Dependencies
  import opened TypeRefs

  /** Every reference of every known type definition leads to a known one. */
  ghost predicate Closed(defs: map<TypeDefPtr, TypeDef>)
  {
    forall x :: x in defs ==> Linked(defs[x].asnType) && Elems(Refs(defs[x].asnType, FOLLOWED)) <= defs.Keys
  }

  /** The references that are followed from each type definition. */
  ghost function Graph(defs: map<TypeDefPtr, TypeDef>): RefLists
    requires Closed(defs)
  {
    map x | x in defs :: Refs(defs[x].asnType, FOLLOWED)
  }

  /** `p` leads from one of `start` to `td` without passing a type twice or through `avoid`. */
  ghost predicate Path(g: RefLists, start: seq<TypeDefPtr>, avoid: set<TypeDefPtr>, td: TypeDefPtr, p: seq<TypeDefPtr>)
  {
    && p != [] && p[0] in start && p[|p| - 1] == td && NoDup(p)
    && forall i :: 0 <= i < |p| - 1 ==> p[i] !in avoid && p[i + 1] in RefsOf(g, p[i])
  }

  ghost predicate Reaches(g: RefLists, start: seq<TypeDefPtr>, avoid: set<TypeDefPtr>, td: TypeDefPtr)
  {
    exists p :: Path(g, start, avoid, td, p)
  }

  /** The type definition refers to itself, directly or through others. */
  ghost predicate RefersToItself(g: RefLists, td: TypeDefPtr)
  {
    Reaches(g, RefsOf(g, td), {}, td)
  }

  ghost function SelfReferring(defs: map<TypeDefPtr, TypeDef>, s: set<TypeDefPtr>): set<TypeDefPtr>
    requires Closed(defs)
  {
    set x | x in s && RefersToItself(Graph(defs), x)
  }

  /** Following references from `x` on leads to `x` again, over the type definitions `p`. */
  ghost predicate LeadsBack(defs: map<TypeDefPtr, TypeDef>, x: TypeDefPtr, p: seq<TypeDefPtr>)
  {
    && x in defs && p != [] && p[|p| - 1] == x && Follows(defs[x].asnType, p[0])
    && forall i :: 0 <= i < |p| - 1 ==> p[i] in defs && Follows(defs[p[i]].asnType, p[i + 1])
  }

  /** Of a way back that passes a type definition twice, the part in between can be left out. */
  lemma {:induction false} Shortest(g: RefLists, start: seq<TypeDefPtr>, td: TypeDefPtr, p: seq<TypeDefPtr>)
    requires p != [] && p[0] in start && p[|p| - 1] == td
    requires forall i :: 0 <= i < |p| - 1 ==> p[i + 1] in RefsOf(g, p[i])
    ensures Reaches(g, start, {}, td)
    decreases |p|
  {
    hide RefsOf;
    if NoDup(p) {
      assert Path(g, start, {}, td, p);
    } else {
      var i, j :| 0 <= i < j < |p| && p[i] == p[j];
      var q := p[..i] + p[j..];
      forall k | 0 <= k < |q| - 1
        ensures q[k + 1] in RefsOf(g, q[k])
      {
        assert k < i ==> q[k] == p[k];
        assert k + 1 < i ==> q[k + 1] == p[k + 1];
        assert k >= i ==> q[k] == p[k - i + j] && q[k + 1] == p[k - i + j + 1];
        assert k + 1 == i ==> q[k + 1] == p[j] == p[i];
      }
      Shortest(g, start, td, q);
    }
  }

  lemma GraphFollows(defs: map<TypeDefPtr, TypeDef>, x: TypeDefPtr, y: TypeDefPtr)
    requires Closed(defs) && x in defs
    ensures y in RefsOf(Graph(defs), x) <==> Follows(defs[x].asnType, y)
    ensures Follows(defs[x].asnType, y) ==> y in defs
  {
    hide Follows, Refs;
    FollowedIff(defs[x].asnType);
    assert y in Refs(defs[x].asnType, FOLLOWED) ==> y in Elems(Refs(defs[x].asnType, FOLLOWED));
  }

  /** A type refers to itself exactly if some way leads back to it, however often that passes other types. */
  lemma RefersToItselfIff(defs: map<TypeDefPtr, TypeDef>, x: TypeDefPtr)
    requires Closed(defs) && x in defs
    ensures RefersToItself(Graph(defs), x) <==> exists p :: LeadsBack(defs, x, p)
  {
    hide Follows, Refs, Closed, RefsOf;
    var g := Graph(defs);
    forall z, y | z in defs
      ensures y in RefsOf(g, z) <==> Follows(defs[z].asnType, y)
      ensures Follows(defs[z].asnType, y) ==> y in defs
    {
      GraphFollows(defs, z, y);
    }
    if p :| LeadsBack(defs, x, p) {
      Shortest(g, RefsOf(g, x), x, p);
    }
    if p :| Path(g, RefsOf(g, x), {}, x, p) {
      PathKnown(defs, x, p);
      assert LeadsBack(defs, x, p);
    }
  }

  lemma {:induction false} PathKnown(defs: map<TypeDefPtr, TypeDef>, x: TypeDefPtr, p: seq<TypeDefPtr>)
    requires Closed(defs) && x in defs && p != [] && p[0] in RefsOf(Graph(defs), x)
    requires forall i :: 0 <= i < |p| - 1 ==> p[i + 1] in RefsOf(Graph(defs), p[i])
    ensures forall i :: 0 <= i < |p| ==> p[i] in defs
    decreases |p|
  {
    hide Follows, Refs, RefsOf;
    GraphFollows(defs, x, p[0]);
    if |p| > 1 {
      assert forall i :: 0 <= i < |p| - 1 ==> p[1..][i] == p[i + 1];
      PathKnown(defs, p[0], p[1..]);
    }
  }

  lemma ReachesJoin(g: RefLists, a: seq<TypeDefPtr>, b: seq<TypeDefPtr>, avoid: set<TypeDefPtr>, td: TypeDefPtr)
    ensures Reaches(g, a + b, avoid, td) <==> Reaches(g, a, avoid, td) || Reaches(g, b, avoid, td)
  {
    if p :| Path(g, a + b, avoid, td, p) {
      assert Path(g, a, avoid, td, p) || Path(g, b, avoid, td, p);
    }
    if p :| Path(g, a, avoid, td, p) {
      assert Path(g, a + b, avoid, td, p);
    }
    if p :| Path(g, b, avoid, td, p) {
      assert Path(g, a + b, avoid, td, p);
    }
  }

  /** What one reference leads to. */
  lemma ReachesRef(g: RefLists, link: TypeDefPtr, avoid: set<TypeDefPtr>, td: TypeDefPtr)
    ensures link == td ==> Reaches(g, [link], avoid, td)
    ensures link != td && link in avoid ==> !Reaches(g, [link], avoid, td)
    ensures link != td && link !in avoid && td !in avoid ==>
      (Reaches(g, [link], avoid, td) <==> Reaches(g, RefsOf(g, link), avoid + {link}, td))
  {
    if link == td {
      assert Path(g, [link], avoid, td, [td]);
    } else {
      if p :| Path(g, [link], avoid, td, p) {
        assert p[0] == link;
        assert Path(g, RefsOf(g, link), avoid + {link}, td, p[1..]);
      }
      if link !in avoid {
        if p :| Path(g, RefsOf(g, link), avoid + {link}, td, p) {
          var q := [link] + p;
          assert forall i :: 0 <= i < |p| ==> p[i] != link;
          assert Path(g, [link], avoid, td, q);
        }
      }
    }
  }

  /** The flagged types once `td` was looked for from `start` on. */
  ghost function Marked(flagged: set<TypeDefPtr>, g: RefLists, start: seq<TypeDefPtr>, avoid: set<TypeDefPtr>,
                        td: TypeDefPtr): set<TypeDefPtr>
  {
    flagged + if Reaches(g, start, avoid, td) then {td} else {}
  }

  lemma MarkedNone(flagged: set<TypeDefPtr>, g: RefLists, avoid: set<TypeDefPtr>, td: TypeDefPtr)
    ensures Marked(flagged, g, [], avoid, td) == flagged
  {
  }

  lemma MarkedJoin(flagged: set<TypeDefPtr>, g: RefLists, a: seq<TypeDefPtr>, b: seq<TypeDefPtr>,
                   avoid: set<TypeDefPtr>, td: TypeDefPtr)
    ensures Marked(flagged, g, a + b, avoid, td) == Marked(Marked(flagged, g, a, avoid, td), g, b, avoid, td)
  {
    hide Reaches;
    ReachesJoin(g, a, b, avoid, td);
  }

  lemma MarkedRef(flagged: set<TypeDefPtr>, g: RefLists, link: TypeDefPtr, avoid: set<TypeDefPtr>, td: TypeDefPtr)
    requires td !in avoid
    ensures Marked(flagged, g, [link], avoid, td) ==
            if link == td then flagged + {td} else if link in avoid then flagged
            else Marked(flagged, g, RefsOf(g, link), avoid + {link}, td)
  {
    hide Reaches;
    ReachesRef(g, link, avoid, td);
  }

  lemma FollowedRefs(t: Type)
    requires Linked(t)
    ensures
      match t.basicType
      case Sequence(es) => Refs(t, FOLLOWED) == ElmtRefs(es, FOLLOWED)
      case Set(es) => Refs(t, FOLLOWED) == ElmtRefs(es, FOLLOWED)
      case Choice(es) => Refs(t, FOLLOWED) == ElmtRefs(es, FOLLOWED)
      case SequenceOf(elmt) => Refs(t, FOLLOWED) == Refs(elmt, FOLLOWED)
      case SetOf(elmt) => Refs(t, FOLLOWED) == Refs(elmt, FOLLOWED)
      case LocalTypeRef(_, link) => Refs(t, FOLLOWED) == [link.value]
      case ImportTypeRef(_, link) => Refs(t, FOLLOWED) == [link.value]
      case _ => Refs(t, FOLLOWED) == []
  {
  }

  /** Looks for a reference to `td` in `t` and in the types it refers to, and marks `td` if there is one. */
  method MkRecType(m: Module, td: TypeDefPtr, t: Type)
    requires Closed(m.defs) && Linked(t) && Elems(Refs(t, FOLLOWED)) <= m.defs.Keys
    requires td !in m.entered && m.entered <= m.defs.Keys
    modifies m`recursive, m`entered
    ensures m.entered == old(m.entered)
    ensures m.recursive == Marked(old(m.recursive), Graph(m.defs), Refs(t, FOLLOWED), m.entered, td)
    decreases |m.defs.Keys - m.entered|, t, 1
  {
    hide Reaches, Marked, ElmtRefs, Refs, Closed, RefsOf, Graph;
    ghost var g, entered := Graph(m.defs), m.entered;
    MarkedNone(m.recursive, g, entered, td);
    FollowedRefs(t);
    match t.basicType {
      case Sequence(_) | Set(_) | Choice(_) =>
        MkRecElmts(m, td, t, t.basicType.elmts);
      case SequenceOf(elmt) =>
        MkRecType(m, td, elmt);
      case SetOf(elmt) =>
        MkRecType(m, td, elmt);
      case LocalTypeRef(_, _) | ImportTypeRef(_, _) =>
        var link := t.basicType.link.value;
        MarkedRef(m.recursive, g, link, entered, td);
        assert link in Elems(Refs(t, FOLLOWED));
        if link == td {
          m.recursive := m.recursive + {td};
        } else if link !in m.entered {
          ClosedAt(m.defs, link);
          m.entered := m.entered + {link};
          SmallerSet(m.defs.Keys - entered, m.defs.Keys - m.entered, link);
          MkRecType(m, td, m.defs[link].asnType);
          m.entered := m.entered - {link};
          assert m.entered == entered;
        }
      case _ =>
    }
  }

  /** The elements of a SEQUENCE, SET or CHOICE. */
  method MkRecElmts(m: Module, td: TypeDefPtr, ghost t: Type, es: seq<NamedType>)
    requires t.basicType.Sequence? || t.basicType.Set? || t.basicType.Choice?
    requires es == t.basicType.elmts && forall i :: 0 <= i < |es| ==> Linked(es[i].asnType)
    requires Closed(m.defs) && Elems(ElmtRefs(es, FOLLOWED)) <= m.defs.Keys
    requires td !in m.entered && m.entered <= m.defs.Keys
    modifies m`recursive, m`entered
    ensures m.entered == old(m.entered)
    ensures m.recursive == Marked(old(m.recursive), Graph(m.defs), ElmtRefs(es, FOLLOWED), m.entered, td)
    decreases |m.defs.Keys - m.entered|, t, 0
  {
    hide Reaches, Marked, ElmtRefs, Refs, Closed, RefsOf, Graph;
    ghost var g, entered := Graph(m.defs), m.entered;
    MarkedNone(m.recursive, g, entered, td);
    ElmtRefsNone(es, FOLLOWED);
    for i := 0 to |es|
      invariant m.entered == entered
      invariant m.recursive == Marked(old(m.recursive), g, ElmtRefs(es[..i], FOLLOWED), entered, td)
    {
      ElmtRefsNext(es, i, FOLLOWED);
      ElmtRefsPart(es, i, FOLLOWED);
      MarkedJoin(old(m.recursive), g, ElmtRefs(es[..i], FOLLOWED), Refs(es[i].asnType, FOLLOWED), entered, td);
      MkRecType(m, td, es[i].asnType);
    }
  }

  lemma ClosedAt(defs: map<TypeDefPtr, TypeDef>, x: TypeDefPtr)
    requires Closed(defs) && x in defs
    ensures Linked(defs[x].asnType) && Elems(Refs(defs[x].asnType, FOLLOWED)) <= defs.Keys
    ensures RefsOf(Graph(defs), x) == Refs(defs[x].asnType, FOLLOWED)
  {
  }

  lemma SmallerSet<T>(a: set<T>, b: set<T>, x: T)
    requires x in a && b == a - {x}
    ensures |b| < |a|
  {
  }

  lemma {:induction false} ElmtRefsPart(es: seq<NamedType>, i: nat, f: Follow)
    requires i < |es| && forall i :: 0 <= i < |es| ==> Linked(es[i].asnType)
    ensures Elems(Refs(es[i].asnType, f)) <= Elems(ElmtRefs(es, f))
  {
    JoinElems(ElmtRefs(es[..|es| - 1], f), ElmtRef(es[|es| - 1], f));
    if i < |es| - 1 {
      ElmtRefsPart(es[..|es| - 1], i, f);
    }
  }

  /** Flags exactly the types that refer to themselves. */
  method MarkRecursiveTypes(m: Module)
    requires Closed(m.defs) && m.entered <= Elems(m.typeDefs) <= m.defs.Keys
    modifies m`recursive, m`entered
    ensures m.entered == {}
    ensures m.recursive == old(m.recursive) + SelfReferring(m.defs, Elems(m.typeDefs))
  {
    hide Reaches, Closed, Graph, RefsOf, Refs;
    for i := 0 to |m.typeDefs|
      invariant m.recursive == old(m.recursive) && m.entered <= Elems(m.typeDefs[i..])
    {
      assert m.typeDefs[i..] == [m.typeDefs[i]] + m.typeDefs[i + 1..];
      m.entered := m.entered - {m.typeDefs[i]};
    }
    for i := 0 to |m.typeDefs|
      invariant m.entered == {}
      invariant m.recursive == old(m.recursive) + SelfReferring(m.defs, Elems(m.typeDefs[..i]))
    {
      var td := m.typeDefs[i];
      assert td in Elems(m.typeDefs);
      AppendElems(m.typeDefs[..i], td);
      assert m.typeDefs[..i + 1] == m.typeDefs[..i] + [td];
      ClosedAt(m.defs, td);
      MkRecType(m, td, m.defs[td].asnType);
    }
    assert m.typeDefs[..|m.typeDefs|] == m.typeDefs;
  }

  lemma CycleStep(refs: RefLists, g: RefLists, all: set<TypeDefPtr>, p: seq<TypeDefPtr>, i: nat)
    requires Cycle(refs, p) && Elems(p) <= all && i < |p|
    requires forall x, y :: x in all && y in RefsOf(refs, x) ==> y in RefsOf(g, x)
    ensures p[if i + 1 < |p| then i + 1 else 0] in RefsOf(g, p[i])
  {
    hide RefsOf;
    assert p[i] in Elems(p);
    var y := p[if i + 1 < |p| then i + 1 else 0];
    assert y in RefsOf(refs, p[i]);
  }

  /** Every type of a cycle refers to itself. */
  lemma CycleRefers(refs: RefLists, g: RefLists, all: set<TypeDefPtr>, p: seq<TypeDefPtr>, k: nat)
    requires Cycle(refs, p) && Elems(p) <= all && k < |p|
    requires forall x, y :: x in all && y in RefsOf(refs, x) ==> y in RefsOf(g, x)
    ensures RefersToItself(g, p[k])
  {
    hide RefsOf;
    var q := p[k + 1..] + p[..k + 1];
    forall i | 0 <= i < |q| - 1
      ensures q[i + 1] in RefsOf(g, q[i])
    {
      var j := if i < |p| - k - 1 then k + 1 + i else i - (|p| - k - 1);
      CycleStep(refs, g, all, p, j);
      assert q[i] == p[j] && q[i + 1] == p[if j + 1 < |p| then j + 1 else 0];
    }
    CycleStep(refs, g, all, p, k);
    assert Path(g, RefsOf(g, p[k]), {}, p[k], q);
  }

  predicate NoObjectClass(t: Type)
  {
    match t.basicType
    case Sequence(es) => forall i :: 0 <= i < |es| ==> NoObjectClass(es[i].asnType)
    case Set(es) => forall i :: 0 <= i < |es| ==> NoObjectClass(es[i].asnType)
    case Choice(es) => forall i :: 0 <= i < |es| ==> NoObjectClass(es[i].asnType)
    case ObjectClass(_) => false
    case SequenceOf(elmt) => NoObjectClass(elmt)
    case SetOf(elmt) => NoObjectClass(elmt)
    case _ => true
  }

  /** Outside information object classes, every local reference is also followed. */
  lemma {:induction false} LocalIsFollowed(t: Type)
    requires Linked(t) && NoObjectClass(t)
    ensures Elems(Refs(t, LOCAL)) <= Elems(Refs(t, FOLLOWED))
    decreases t, 1
  {
    match t.basicType {
      case Sequence(es) => ElmtsFollowed(t, es);
      case Set(es) => ElmtsFollowed(t, es);
      case Choice(es) => ElmtsFollowed(t, es);
      case SequenceOf(elmt) => LocalIsFollowed(elmt);
      case SetOf(elmt) => LocalIsFollowed(elmt);
      case _ =>
    }
  }

  lemma {:induction false} ElmtsFollowed(t: Type, es: seq<NamedType>)
    requires t.basicType.Sequence? || t.basicType.Set? || t.basicType.Choice?
    requires es <= t.basicType.elmts
    requires forall i :: 0 <= i < |es| ==> Linked(es[i].asnType) && NoObjectClass(es[i].asnType)
    ensures Elems(ElmtRefs(es, LOCAL)) <= Elems(ElmtRefs(es, FOLLOWED))
    decreases t, 0, |es|
  {
    if es != [] {
      var init, e := es[..|es| - 1], es[|es| - 1];
      ElmtsFollowed(t, init);
      LocalIsFollowed(e.asnType);
      JoinElems(ElmtRefs(init, LOCAL), ElmtRef(e, LOCAL));
      JoinElems(ElmtRefs(init, FOLLOWED), ElmtRef(e, FOLLOWED));
    }
  }

  /** So the flags that `MarkRecursiveTypes` sets are accurate for sorting. */
  lemma MarkedAccurate(m: Module)
    requires Closed(m.defs) && m.Ready()
    requires forall x :: x in Elems(m.typeDefs) ==> NoObjectClass(m.defs[x].asnType)
    requires forall x :: x in Elems(m.typeDefs) && RefersToItself(Graph(m.defs), x) ==> x in m.recursive
    ensures m.AccurateFlags()
  {
    hide Refs, NoObjectClass, NoDup, RefersToItself, Closed;
    var all := Elems(m.typeDefs);
    forall x, y | x in all && y in RefsOf(m.LocalRefs(all), x)
      ensures y in RefsOf(Graph(m.defs), x)
    {
      ClosedAt(m.defs, x);
      LocalIsFollowed(m.defs[x].asnType);
      assert y in Elems(Refs(m.defs[x].asnType, LOCAL));
    }
    forall p, x | Cycle(m.LocalRefs(all), p) && Elems(p) <= all && x in Elems(p)
      ensures x in m.recursive
    {
      var k := IndexOf(p, x);
      CycleRefers(m.LocalRefs(all), Graph(m.defs), all, p, k);
    }
  }

  /** With accurate flags sorting neither crashes nor reports the internal error. */
  lemma AccurateSorts(refs: RefLists, all: set<TypeDefPtr>, group: set<TypeDefPtr>, flagged: set<TypeDefPtr>)
    requires group <= all
    requires forall p :: Cycle(refs, p) && Elems(p) <= all ==> Elems(p) <= flagged
    ensures Leftover(refs, group) == {} || Leftover(refs, group) * flagged != {}
    ensures Leftover(refs, Leftover(refs, group) - flagged) == {}
  {
    hide Cycle;
    LeftoverFlagged(refs, group, flagged);
    LeftoverFlagged(refs, Leftover(refs, group) - flagged, flagged);
  }

  /**
   * Marking and then sorting a module. It crashes exactly when something cannot be sorted and none of it refers to
   * itself; it reports the internal error exactly when the part of it that does not refer to itself has a cycle.
   * Otherwise the result is a permutation in which every type that does not refer to itself comes after all other
   * local types that it references. Without information object classes neither failure occurs.
   */
  method MarkAndSort(m: Module) returns (ok: bool, failedSort: bool)
    requires Closed(m.defs) && m.Ready() && m.entered <= Elems(m.typeDefs) && m.refList == map[] && m.recursive == {}
    modifies m
    ensures
      var all := Elems(old(m.typeDefs));
      var rest := Leftover(m.LocalRefs(all), Elems(m.InGroup(old(m.typeDefs), 2)));
      && ok == (rest == {} || rest * SelfReferring(m.defs, all) != {})
      && failedSort == (Leftover(m.LocalRefs(all), rest - SelfReferring(m.defs, all)) != {})
    ensures ok ==> m.Ready() && multiset(m.typeDefs) == multiset(old(m.typeDefs)) && m.refList == map[]
    ensures ok && !failedSort && old(m.AccurateCounts()) ==>
      var all := Elems(m.typeDefs);
      After(m.LocalRefs(all), m.typeDefs, all - SelfReferring(m.defs, all), all)
    ensures (forall x :: x in Elems(old(m.typeDefs)) ==> NoObjectClass(m.defs[x].asnType)) ==> ok && !failedSort
  {
    hide Refs, NoObjectClass, NoDup, RefersToItself, Closed, After, Leftover, Cycle;
    ghost var all := Elems(m.typeDefs);
    ghost var refs := m.LocalRefs(all);
    MarkRecursiveTypes(m);
    m.InGroupElems(m.typeDefs, 2);
    ghost var group := Elems(m.InGroup(m.typeDefs, 2));
    if forall x :: x in all ==> NoObjectClass(m.defs[x].asnType) {
      MarkedAccurate(m);
      AccurateSorts(refs, all, group, m.recursive);
    }
    ghost var rest := Leftover(refs, group);
    ok, failedSort := m.SortTypeDependencies();
    assert m.recursive == SelfReferring(m.defs, all);
    if ok {
      SameElems(m.typeDefs, old(m.typeDefs));
      if !failedSort && old(m.AccurateCounts()) {
        AfterUnion(refs, m.typeDefs, all - (rest * m.recursive), all - (rest * m.recursive),
                   all - SelfReferring(m.defs, all), all);
      }
    }
  }

  function FieldOf(link: TypeDefPtr): TypeDef
  {
    var field := Type([], false, false, false, LocalTypeRef("Other", Some(link)), None, None);
    TypeDef("Class", Type([], false, false, false, ObjectClass([NamedType(None, field)]), None, None), 1, false)
  }

  /** Two information object classes with a field of each other's type. */
  function TwoClasses(): map<TypeDefPtr, TypeDef>
  {
    map[1 := FieldOf(2), 2 := FieldOf(1)]
  }

  /** Neither class is found to refer to itself, but neither can be first: sorting them crashes. */
  lemma TwoClassesCrash(m: Module)
    requires m.defs == TwoClasses() && m.typeDefs == [1, 2]
    ensures Closed(m.defs) && m.Ready() && SelfReferring(m.defs, {1, 2}) == {}
    ensures
      var rest := Leftover(m.LocalRefs({1, 2}), Elems(m.InGroup(m.typeDefs, 2)));
      !(rest == {} || rest * SelfReferring(m.defs, {1, 2}) != {})
  {
    hide Refs, Leftover, NoDup, RefersToItself, FieldOf;
    ClassesKnown(m);
    var refs := m.LocalRefs({1, 2});
    forall x | x in {1, 2}
      ensures !RefersToItself(Graph(m.defs), x)
    {
      NoRefsNoCycle(Graph(m.defs), x);
    }
    m.InGroupElems(m.typeDefs, 2);
    assert Elems(m.InGroup(m.typeDefs, 2)) == {1, 2};
    MutualStuck(refs);
    assert 1 in Leftover(refs, {1, 2});
  }

  lemma ClassesKnown(m: Module)
    requires m.defs == TwoClasses() && m.typeDefs == [1, 2]
    ensures Closed(m.defs) && m.Ready() && Elems(m.typeDefs) == {1, 2}
    ensures m.Group(1) == 2 && m.Group(2) == 2
    ensures RefsOf(m.LocalRefs({1, 2}), 1) == [2] && RefsOf(m.LocalRefs({1, 2}), 2) == [1]
    ensures RefsOf(Graph(m.defs), 1) == [] && RefsOf(Graph(m.defs), 2) == []
  {
    hide Refs, Linked;
    FieldRefs(1);
    FieldRefs(2);
  }

  lemma NoRefsNoCycle(g: RefLists, x: TypeDefPtr)
    requires RefsOf(g, x) == []
    ensures !RefersToItself(g, x)
  {
  }

  lemma MutualStuck(refs: RefLists)
    requires RefsOf(refs, 1) == [2] && RefsOf(refs, 2) == [1]
    ensures Leftover(refs, {1, 2}) == {1, 2}
  {
    assert Needs(refs, 1, 2) && Needs(refs, 2, 1);
    assert NeedsFrom(refs, 1, {1, 2}) && NeedsFrom(refs, 2, {1, 2});
    assert Stuck(refs, {1, 2});
    assert InStuck(refs, {1, 2}, 1) && InStuck(refs, {1, 2}, 2);
  }

  lemma FieldRefs(link: TypeDefPtr)
    ensures
      var t := FieldOf(link).asnType;
      Linked(t) && Refs(t, LOCAL) == [link] && Refs(t, FOLLOWED) == []
  {
    var es := FieldOf(link).asnType.basicType.classdef;
    assert es[..0] == [] && es == [es[0]];
    assert Refs(es[0].asnType, LOCAL) == [link];
    assert ElmtRef(es[0], LOCAL) == [link];
    assert ElmtRefs(es, LOCAL) == ElmtRefs([], LOCAL) + ElmtRef(es[0], LOCAL);
  }
}

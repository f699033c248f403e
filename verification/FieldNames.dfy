/** The error checker's test for field names that are used twice in one scope. */
module FieldNames {
  import opened Octets
  import opened Asn1Types
  import opened DefinedObjects
  import opened Paths

  type TypeDefs = map<TypeDefPtr, TypeDef>

  /** Every linked reference of an element leads to a known type definition. */
  predicate Known(defs: TypeDefs, t: Type)
  {
    if t.basicType.IsTypeRef() then t.basicType.link.Some? ==> t.basicType.link.value in defs
    else if t.basicType.Choice? then
      forall i :: 0 <= i < |t.basicType.elmts| ==> Known(defs, t.basicType.elmts[i].asnType)
    else true
  }

  predicate AllKnown(defs: TypeDefs)
  {
    forall d :: d in defs ==> Known(defs, defs[d].asnType)
  }

  /** The type at the end of a chain of references; `None` for a chain that is circular or not linked. */
  function EndOfChain(defs: TypeDefs, t: Type, visited: set<TypeDefPtr>): (end: Option<Type>)
    requires AllKnown(defs) && Known(defs, t)
    ensures end.Some? ==> !end.value.basicType.IsTypeRef()
    decreases |defs.Keys - visited|
  {
    if !t.basicType.IsTypeRef() then Some(t)
    else if t.basicType.link.None? || t.basicType.link.value in visited then None
    else
      var d := t.basicType.link.value;
      assert defs.Keys - (visited + {d}) == (defs.Keys - visited) - {d};
      EndOfChain(defs, defs[d].asnType, visited + {d})
  }

  /** The definition of the type at the end of the chain, where the chain has a reference. */
  function LastDef(defs: TypeDefs, t: Type, visited: set<TypeDefPtr>): (last: Option<TypeDefPtr>)
    requires AllKnown(defs) && Known(defs, t)
    ensures last.Some? <==> t.basicType.IsTypeRef() && EndOfChain(defs, t, visited).Some?
    ensures last.Some? ==> last.value in defs && EndOfChain(defs, t, visited) == Some(defs[last.value].asnType)
    decreases |defs.Keys - visited|
  {
    if !t.basicType.IsTypeRef() || t.basicType.link.None? || t.basicType.link.value in visited then None
    else
      var d := t.basicType.link.value;
      assert defs.Keys - (visited + {d}) == (defs.Keys - visited) - {d};
      if defs[d].asnType.basicType.IsTypeRef() then LastDef(defs, defs[d].asnType, visited + {d}) else Some(d)
  }

  /** The defining type, or the type itself where there is none. */
  function DefiningType(defs: TypeDefs, t: Type): Type
    requires AllKnown(defs) && Known(defs, t)
  {
    match EndOfChain(defs, t, {})
    case Some(end) => end
    case None => t
  }

  /** Type definitions that begin with the one `t` refers to, each a reference to the next one but for the last. */
  predicate DefChain(defs: TypeDefs, t: Type, c: seq<TypeDefPtr>)
  {
    && c != [] && (forall i :: 0 <= i < |c| ==> c[i] in defs)
    && t.basicType.IsTypeRef() && t.basicType.link == Some(c[0])
    && (forall i :: 0 <= i < |c| - 1 ==> LinksTo(defs, c[i], c[i + 1]))
    && !defs[c[|c| - 1]].asnType.basicType.IsTypeRef()
  }

  predicate LinksTo(defs: TypeDefs, d: TypeDefPtr, next: TypeDefPtr)
    requires d in defs
  {
    defs[d].asnType.basicType.IsTypeRef() && defs[d].asnType.basicType.link == Some(next)
  }

  /** The chain of references that begins at `t` ends at the type of `d`. */
  ghost predicate RefersTo(defs: TypeDefs, t: Type, d: TypeDefPtr)
  {
    exists c :: DefChain(defs, t, c) && c[|c| - 1] == d
  }

  lemma {:induction false} OneChain(defs: TypeDefs, t: Type, c: seq<TypeDefPtr>, c': seq<TypeDefPtr>)
    requires DefChain(defs, t, c) && DefChain(defs, t, c')
    ensures c == c'
    decreases |c|
  {
    if |c| > 1 {
      ChainRest(defs, t, c);
    }
    if |c'| > 1 {
      ChainRest(defs, t, c');
    }
    if |c| > 1 && |c'| > 1 {
      OneChain(defs, defs[c[0]].asnType, c[1..], c'[1..]);
    }
  }

  lemma ChainRest(defs: TypeDefs, t: Type, c: seq<TypeDefPtr>)
    requires DefChain(defs, t, c) && |c| > 1
    ensures DefChain(defs, defs[c[0]].asnType, c[1..]) && LinksTo(defs, c[0], c[1])
  {
    assert LinksTo(defs, c[0], c[1]);
  }

  /** A chain that ends is not circular. */
  lemma {:induction false} ChainFrom(defs: TypeDefs, t: Type, c: seq<TypeDefPtr>, j: nat)
    requires DefChain(defs, t, c) && 0 < j < |c|
    ensures DefChain(defs, defs[c[j - 1]].asnType, c[j..]) && c[j] != c[0]
    decreases j
  {
    ChainRest(defs, t, c);
    if j > 1 {
      ChainFrom(defs, defs[c[0]].asnType, c[1..], j - 1);
      assert c[1..][j - 1..] == c[j..];
    }
    if c[j] == c[0] {
      OneChain(defs, t, c, c[j..]);
    }
  }

  lemma {:induction false} ChainLast(defs: TypeDefs, t: Type, c: seq<TypeDefPtr>, visited: set<TypeDefPtr>)
    requires AllKnown(defs) && Known(defs, t) && DefChain(defs, t, c)
    requires forall i :: 0 <= i < |c| ==> c[i] !in visited
    ensures LastDef(defs, t, visited) == Some(c[|c| - 1])
    decreases |c|
  {
    if |c| > 1 {
      ChainRest(defs, t, c);
      forall i | 0 <= i < |c| - 1
        ensures c[1..][i] !in visited + {c[0]}
      {
        ChainFrom(defs, t, c, i + 1);
      }
      assert LinksTo(defs, c[0], c[1]);
      ChainLast(defs, defs[c[0]].asnType, c[1..], visited + {c[0]});
    }
  }

  lemma {:induction false} LastChain(defs: TypeDefs, t: Type, visited: set<TypeDefPtr>) returns (c: seq<TypeDefPtr>)
    requires AllKnown(defs) && Known(defs, t) && LastDef(defs, t, visited).Some?
    ensures DefChain(defs, t, c) && LastDef(defs, t, visited) == Some(c[|c| - 1])
    decreases |defs.Keys - visited|
  {
    var d := t.basicType.link.value;
    c := [d];
    if defs[d].asnType.basicType.IsTypeRef() {
      assert defs.Keys - (visited + {d}) == (defs.Keys - visited) - {d};
      var rest := LastChain(defs, defs[d].asnType, visited + {d});
      c := [d] + rest;
      assert forall i :: 0 < i < |c| - 1 ==> c[i] == rest[i - 1] && c[i + 1] == rest[i];
    }
  }

  /** What `ParanoidGetType` finds. */
  lemma RefersToIff(defs: TypeDefs, t: Type)
    requires AllKnown(defs) && Known(defs, t)
    ensures forall d :: LastDef(defs, t, {}) == Some(d) <==> RefersTo(defs, t, d)
    ensures DefiningType(defs, t) == match LastDef(defs, t, {}) case Some(d) => defs[d].asnType case None => t
  {
    hide LastDef, EndOfChain, AllKnown, Known;
    if LastDef(defs, t, {}).Some? {
      var c := LastChain(defs, t, {});
    }
    forall d | RefersTo(defs, t, d)
      ensures LastDef(defs, t, {}) == Some(d)
    {
      var c :| DefChain(defs, t, c) && c[|c| - 1] == d;
      ChainLast(defs, t, c, {});
    }
    NoChain(defs, t);
  }

  lemma NoChain(defs: TypeDefs, t: Type)
    requires AllKnown(defs) && Known(defs, t)
    ensures LastDef(defs, t, {}).None? ==> DefiningType(defs, t) == t
  {
  }

  predicate PtrCmp(p: TypeDefPtr, q: TypeDefPtr)
  {
    p == q
  }

  predicate StrObjCmp(s1: string, s2: string)
  {
    s1 == s2
  }

  /** Skips type references, and returns the given type where they are circular; `def` tells whose type it is. */
  method ParanoidGetType(defs: TypeDefs, given: Type) returns (t: Type, def: Option<TypeDefPtr>)
    requires AllKnown(defs) && Known(defs, given)
    ensures t == DefiningType(defs, given) && def == LastDef(defs, given, {})
    ensures forall d :: def == Some(d) <==> RefersTo(defs, given, d)
    ensures t == match def case Some(d) => defs[d].asnType case None => given
  {
    hide IsDefined, RefersTo;
    RefersToIff(defs, given);
    t, def := given, None;
    var l := new DefinedObjs<TypeDefPtr>();
    ghost var visited := {};
    DefinedNone();
    while t.basicType.IsTypeRef()
      invariant Known(defs, t) && (forall p :: IsDefined(l.objs, p, PtrCmp) <==> p in visited)
      invariant EndOfChain(defs, t, visited) == EndOfChain(defs, given, {})
      invariant
        if t.basicType.IsTypeRef() then LastDef(defs, t, visited) == LastDef(defs, given, {})
        else def == LastDef(defs, given, {})
      decreases |defs.Keys - visited|
    {
      if t.basicType.link.None? {
        return given, None;
      }
      var td := t.basicType.link.value;
      var followed := l.ObjIsDefined(td, PtrCmp);
      if followed {
        return given, None;
      }
      assert defs.Keys - (visited + {td}) == (defs.Keys - visited) - {td};
      t, def := defs[td].asnType, Some(td);
      DefinedMore(l.objs, td);
      l.DefineObj(td);
      visited := visited + {td};
    }
  }

  lemma DefinedNone()
    ensures forall p :: !IsDefined([], p, PtrCmp)
  {
  }

  lemma DefinedMore(objs: seq<TypeDefPtr>, td: TypeDefPtr)
    ensures forall p :: IsDefined([td] + objs, p, PtrCmp) <==> p == td || IsDefined(objs, p, PtrCmp)
  {
    forall p
      ensures IsDefined([td] + objs, p, PtrCmp) <==> p == td || IsDefined(objs, p, PtrCmp)
    {
      if i :| 0 <= i < |objs| && PtrCmp(objs[i], p) {
        assert PtrCmp(([td] + objs)[i + 1], p);
      }
      if p == td {
        assert PtrCmp(([td] + objs)[0], p);
      }
    }
  }

  /** The names of the types that are referred to in and below the elements of a CHOICE. */
  function RefNames(t: Type): set<string>
    decreases t
  {
    if t.basicType.IsTypeRef() then {t.basicType.typeName}
    else if t.basicType.Choice? then
      set i, n | 0 <= i < |t.basicType.elmts| && n in ElmtRefNames(t.basicType.elmts[i]) :: n
    else {}
  }

  function ElmtRefNames(e: NamedType): set<string>
    decreases e
  {
    RefNames(e.asnType)
  }

  /** `names` has all names that can be followed from the elements `es` on. */
  ghost predicate Covers(names: set<string>, defs: TypeDefs, es: seq<NamedType>)
  {
    && (forall i :: 0 <= i < |es| ==> ElmtRefNames(es[i]) <= names)
    && CoversDefs(names, defs)
  }

  ghost predicate CoversDefs(names: set<string>, defs: TypeDefs)
  {
    forall d :: d in defs ==> RefNames(defs[d].asnType) <= names
  }

  /** Such a finite set always exists. */
  ghost function AllNames(defs: TypeDefs, es: seq<NamedType>): (names: set<string>)
    ensures Covers(names, defs, es)
  {
    (set i, n | 0 <= i < |es| && n in ElmtRefNames(es[i]) :: n)
    + set d, n | d in defs && n in RefNames(defs[d].asnType) :: n
  }

  predicate ElmtsKnown(defs: TypeDefs, es: seq<NamedType>)
  {
    forall i :: 0 <= i < |es| ==> Known(defs, es[i].asnType)
  }

  /** Which list of elements: that of a type definition, or of a CHOICE embedded in another list. */
  datatype ListId = Top(def: TypeDefPtr) | Inner(outer: ListId, index: nat)

  /** A list of elements, and the names that are being followed while it is checked. */
  datatype Scope = Scope(id: ListId, elmts: seq<NamedType>, followed: set<string>)

  /** The scope of the first `i` elements. */
  function First(s: Scope, i: nat): Scope
    requires i <= |s.elmts|
  {
    s.(elmts := s.elmts[..i])
  }

  ghost predicate Sound(defs: TypeDefs, names: set<string>, s: Scope)
  {
    ElmtsKnown(defs, s.elmts) && Covers(names, defs, s.elmts)
  }

  ghost predicate ElmtSound(defs: TypeDefs, names: set<string>, e: NamedType)
  {
    Known(defs, e.asnType) && ElmtRefNames(e) <= names && CoversDefs(names, defs)
  }

  /**
   * The scope that element number `i` of the list `outer` brings along: an unnamed CHOICE brings its own, but none that
   * is being followed already.
   */
  function Embedded(defs: TypeDefs, outer: ListId, i: nat, e: NamedType, followed: set<string>): Option<Scope>
    requires AllKnown(defs) && Known(defs, e.asnType)
  {
    var t, end := e.asnType.basicType, DefiningType(defs, e.asnType).basicType;
    if e.fieldName.Some? then None
    else if t.IsTypeRef() && end.Choice? then
      if t.typeName in followed then None
      else Some(Scope(Top(LastDef(defs, e.asnType, {}).value), end.elmts, followed + {t.typeName}))
    else if t.Choice? then Some(Scope(Inner(outer, i), t.elmts, followed))
    else None
  }

  /** What is brought along is covered as well; and the names not yet followed become fewer, or the elements smaller. */
  lemma EmbeddedSound(defs: TypeDefs, names: set<string>, outer: ListId, i: nat, e: NamedType, followed: set<string>)
    requires AllKnown(defs) && ElmtSound(defs, names, e)
    ensures
      match Embedded(defs, outer, i, e, followed)
      case None => true
      case Some(t) =>
        && Sound(defs, names, t)
        && if e.asnType.basicType.IsTypeRef() then |names - t.followed| < |names - followed|
           else e.asnType.basicType.Choice? && t.elmts == e.asnType.basicType.elmts && t.followed == followed
  {
    hide LastDef, EndOfChain;
    var t := e.asnType.basicType;
    assert ElmtRefNames(e) == RefNames(e.asnType);
    if Embedded(defs, outer, i, e, followed).Some? && t.IsTypeRef() {
      assert t.typeName in names;
      assert names - (followed + {t.typeName}) == (names - followed) - {t.typeName};
      var d := LastDef(defs, e.asnType, {}).value;
      assert Known(defs, defs[d].asnType) && RefNames(defs[d].asnType) <= names;
      ChoiceSound(defs, names, defs[d].asnType);
    } else if t.Choice? {
      ChoiceSound(defs, names, e.asnType);
    }
  }

  lemma ChoiceSound(defs: TypeDefs, names: set<string>, t: Type)
    requires Known(defs, t) && RefNames(t) <= names && CoversDefs(names, defs) && t.basicType.Choice?
    ensures ElmtsKnown(defs, t.basicType.elmts) && Covers(names, defs, t.basicType.elmts)
  {
    var es := t.basicType.elmts;
    forall i | 0 <= i < |es|
      ensures ElmtRefNames(es[i]) <= names
    {
      forall n | n in ElmtRefNames(es[i])
        ensures n in names
      {
        assert n in RefNames(t);
      }
    }
  }

  /** The field names in the scope, in order. */
  ghost function Fields(defs: TypeDefs, names: set<string>, s: Scope): seq<string>
    requires AllKnown(defs) && Sound(defs, names, s)
    decreases |names - s.followed|, s.elmts
  {
    if s.elmts == [] then []
    else
      var i := |s.elmts| - 1;
      Fields(defs, names, First(s, i)) + ElmtFields(defs, names, s.id, i, s.elmts[i], s.followed)
  }

  ghost function ElmtFields(defs: TypeDefs, names: set<string>, outer: ListId, i: nat, e: NamedType,
                            followed: set<string>): seq<string>
    requires AllKnown(defs) && ElmtSound(defs, names, e)
    decreases |names - followed|, e
  {
    EmbeddedSound(defs, names, outer, i, e, followed);
    if e.fieldName.Some? then [e.fieldName.value]
    else
      match Embedded(defs, outer, i, e, followed)
      case Some(s) => Fields(defs, names, s)
      case None => []
  }

  /** The lists that are gone through while this one is. */
  ghost function Enters(defs: TypeDefs, names: set<string>, s: Scope): set<ListId>
    requires AllKnown(defs) && Sound(defs, names, s)
    decreases |names - s.followed|, s.elmts
  {
    set i, l | 0 <= i < |s.elmts| && l in ElmtEnters(defs, names, s.id, i, s.elmts[i], s.followed) :: l
  }

  ghost function ElmtEnters(defs: TypeDefs, names: set<string>, outer: ListId, i: nat, e: NamedType,
                            followed: set<string>): set<ListId>
    requires AllKnown(defs) && ElmtSound(defs, names, e)
    decreases |names - followed|, e
  {
    EmbeddedSound(defs, names, outer, i, e, followed);
    match Embedded(defs, outer, i, e, followed)
    case Some(s) => {s.id} + Enters(defs, names, s)
    case None => {}
  }

  /** Some list is entered again before it has been gone through. */
  ghost predicate Breaks(defs: TypeDefs, names: set<string>, s: Scope)
    requires AllKnown(defs) && Sound(defs, names, s)
    decreases |names - s.followed|, s.elmts
  {
    exists i :: 0 <= i < |s.elmts| && BreaksAt(defs, names, s, i)
  }

  /** Its element number `i` leads back to this list, or to a scope with such a list. */
  ghost predicate BreaksAt(defs: TypeDefs, names: set<string>, s: Scope, i: nat)
    requires AllKnown(defs) && Sound(defs, names, s) && i < |s.elmts|
    decreases |names - s.followed|, s.elmts, 0
  {
    || s.id in ElmtEnters(defs, names, s.id, i, s.elmts[i], s.followed)
    || ElmtBreaks(defs, names, s.id, i, s.elmts[i], s.followed)
  }

  ghost predicate ElmtBreaks(defs: TypeDefs, names: set<string>, outer: ListId, i: nat, e: NamedType,
                             followed: set<string>)
    requires AllKnown(defs) && ElmtSound(defs, names, e)
    decreases |names - followed|, e
  {
    EmbeddedSound(defs, names, outer, i, e, followed);
    match Embedded(defs, outer, i, e, followed)
    case Some(s) => Breaks(defs, names, s)
    case None => false
  }

  /** Defining names one by one: whether one was defined already, and the list then. */
  function Note(defined: seq<string>, fields: seq<string>): (bool, seq<string>)
    decreases |fields|
  {
    if fields == [] then (false, defined)
    else
      var (warned, after) := Note(defined, fields[..|fields| - 1]);
      var name := fields[|fields| - 1];
      if IsDefined(after, name, StrObjCmp) then (true, after) else (warned, [name] + after)
  }

  lemma {:induction false} NoteJoin(defined: seq<string>, a: seq<string>, b: seq<string>)
    ensures Note(defined, a + b) ==
            (Note(defined, a).0 || Note(Note(defined, a).1, b).0, Note(Note(defined, a).1, b).1)
    decreases |b|
  {
    if b == [] {
      assert a + b == a;
    } else {
      assert (a + b)[..|a + b| - 1] == a + b[..|b| - 1];
      NoteJoin(defined, a, b[..|b| - 1]);
    }
  }

  lemma IsDefinedName(defined: seq<string>, name: string)
    ensures IsDefined(defined, name, StrObjCmp) <==> name in defined
  {
    if name in defined {
      var i :| 0 <= i < |defined| && defined[i] == name;
      assert StrObjCmp(defined[i], name);
    }
  }

  /** There is a warning exactly when two fields of the scope have the same name. */
  lemma {:induction false} NoteIff(fields: seq<string>)
    ensures Note([], fields).0 <==> !NoDup(fields)
    ensures forall n :: n in Note([], fields).1 <==> n in fields
    decreases |fields|
  {
    if fields != [] {
      var before, name := fields[..|fields| - 1], fields[|fields| - 1];
      NoteIff(before);
      IsDefinedName(Note([], before).1, name);
      assert fields == before + [name];
      if name in before {
        var i :| 0 <= i < |before| && before[i] == name;
        assert fields[i] == fields[|fields| - 1];
      } else if NoDup(before) {
        assert NoDup(fields);
      } else {
        var i, j :| 0 <= i < j < |before| && before[i] == before[j];
        assert fields[i] == fields[j];
      }
    }
  }

  /** The elements before the `i`-th and the `i`-th itself. */
  lemma FirstNext(defs: TypeDefs, names: set<string>, s: Scope, i: nat)
    requires AllKnown(defs) && Sound(defs, names, s) && i < |s.elmts|
    ensures Sound(defs, names, First(s, i)) && Sound(defs, names, First(s, i + 1)) && ElmtSound(defs, names, s.elmts[i])
    ensures Fields(defs, names, First(s, i + 1))
            == Fields(defs, names, First(s, i)) + ElmtFields(defs, names, s.id, i, s.elmts[i], s.followed)
    ensures Enters(defs, names, First(s, i + 1))
            == Enters(defs, names, First(s, i)) + ElmtEnters(defs, names, s.id, i, s.elmts[i], s.followed)
    ensures Breaks(defs, names, First(s, i + 1))
            <==> Breaks(defs, names, First(s, i)) || BreaksAt(defs, names, s, i)
  {
    hide AllKnown, Known, ElmtRefNames, CoversDefs, ElmtFields, ElmtEnters, ElmtBreaks;
    FirstSound(defs, names, s, i);
    FirstSound(defs, names, s, i + 1);
    FirstFirst(s, i);
    BreaksNext(defs, names, s, i);
  }

  lemma FirstFirst(s: Scope, i: nat)
    requires i < |s.elmts|
    ensures First(First(s, i + 1), i) == First(s, i)
    ensures forall j :: 0 <= j <= i ==> First(s, i + 1).elmts[j] == s.elmts[j]
    ensures forall j :: 0 <= j < i ==> First(s, i).elmts[j] == s.elmts[j]
  {
    assert s.elmts[..i + 1][..i] == s.elmts[..i];
  }

  lemma BreaksWhere(defs: TypeDefs, names: set<string>, s: Scope) returns (i: nat)
    requires AllKnown(defs) && Sound(defs, names, s) && Breaks(defs, names, s)
    ensures i < |s.elmts| && BreaksAt(defs, names, s, i)
  {
    hide AllKnown, Known, Sound, ElmtSound, ElmtEnters, ElmtBreaks;
    i :| 0 <= i < |s.elmts| && BreaksAt(defs, names, s, i);
  }

  lemma BreaksNext(defs: TypeDefs, names: set<string>, s: Scope, i: nat)
    requires AllKnown(defs) && Sound(defs, names, s) && i < |s.elmts|
    requires Sound(defs, names, First(s, i)) && Sound(defs, names, First(s, i + 1))
    ensures Breaks(defs, names, First(s, i + 1))
            <==> Breaks(defs, names, First(s, i)) || BreaksAt(defs, names, s, i)
  {
    hide AllKnown, Known, Sound, ElmtSound, ElmtEnters, ElmtBreaks;
    var f, g := First(s, i + 1), First(s, i);
    FirstFirst(s, i);
    if Breaks(defs, names, f) {
      var j := BreaksWhere(defs, names, f);
      assert j < i ==> BreaksAt(defs, names, g, j);
    }
    if Breaks(defs, names, g) {
      var j := BreaksWhere(defs, names, g);
      assert BreaksAt(defs, names, f, j);
    }
    if BreaksAt(defs, names, s, i) {
      assert BreaksAt(defs, names, f, i);
    }
  }

  lemma BreaksAll(defs: TypeDefs, names: set<string>, s: Scope, i: nat)
    requires AllKnown(defs) && Sound(defs, names, s) && i < |s.elmts| && BreaksAt(defs, names, s, i)
    ensures Breaks(defs, names, s)
  {
  }

  lemma FirstSound(defs: TypeDefs, names: set<string>, s: Scope, i: nat)
    requires Sound(defs, names, s) && i <= |s.elmts|
    ensures Sound(defs, names, First(s, i)) && (i < |s.elmts| ==> ElmtSound(defs, names, s.elmts[i]))
  {
    assert forall j :: 0 <= j < i ==> First(s, i).elmts[j] == s.elmts[j];
  }

  lemma FirstEnds(defs: TypeDefs, names: set<string>, s: Scope)
    requires AllKnown(defs) && Sound(defs, names, s)
    ensures First(s, |s.elmts|) == s && Sound(defs, names, First(s, 0))
    ensures Fields(defs, names, First(s, 0)) == [] && Enters(defs, names, First(s, 0)) == {}
    ensures !Breaks(defs, names, First(s, 0))
  {
  }

  lemma FollowedMore(objs: seq<string>, name: string)
    ensures Elems([name] + objs) == Elems(objs) + {name}
    ensures name !in objs ==> Undefined([name] + objs, name, StrObjCmp) == objs
  {
    IsDefinedName(objs, name);
    UndefineUndoes(objs, name, StrObjCmp);
  }

  /** Where each list of elements stands: a list that is not in the map has no current element. */
  class Cursors {
    var curr: map<ListId, nat>

    constructor ()
      ensures curr == map[]
    {
      curr := map[];
    }

    /** Moves the list's cursor to element number `i`, or off the list after the last one. */
    method Move(id: ListId, elmts: seq<NamedType>, i: nat)
      modifies this
      ensures curr == if i < |elmts| then old(curr)[id := i] else old(curr) - {id}
    {
      curr := if i < |elmts| then curr[id := i] else curr - {id};
    }
  }

  /**
   * Checks the elements, and leaves the followed references exactly as they were. The loop goes by the list's own
   * cursor, and fails if that is off the list when it is to move on.
   */
  method ChkFieldNamesRec(defs: TypeDefs, ghost names: set<string>, id: ListId, elmts: seq<NamedType>, cursors: Cursors,
                          fieldNames: DefinedObjs<string>, followedTypeRefs: DefinedObjs<string>)
    returns (ok: bool, warned: bool)
    requires AllKnown(defs) && Sound(defs, names, Scope(id, elmts, Elems(followedTypeRefs.objs)))
    requires fieldNames != followedTypeRefs
    modifies cursors, fieldNames, followedTypeRefs
    ensures
      var s := Scope(id, elmts, old(Elems(followedTypeRefs.objs)));
      && (ok <==> !Breaks(defs, names, s))
      && (ok ==>
            && followedTypeRefs.objs == old(followedTypeRefs.objs)
            && cursors.curr == old(cursors.curr) - Enters(defs, names, s) - {id}
            && (warned, fieldNames.objs) == Note(old(fieldNames.objs), Fields(defs, names, s)))
    decreases |names - Elems(followedTypeRefs.objs)|, elmts
  {
    hide AllKnown, Sound, ElmtSound, Enters, ElmtEnters, Breaks, ElmtBreaks, Fields, ElmtFields, Note, Elems;
    ok, warned := true, false;
    ghost var s := Scope(id, elmts, Elems(followedTypeRefs.objs));
    ghost var i := 0;
    FirstEnds(defs, names, s);
    NoteNone(fieldNames.objs);
    cursors.Move(id, elmts, 0);
    while id in cursors.curr
      invariant i <= |elmts| && Sound(defs, names, First(s, i))
      invariant followedTypeRefs.objs == old(followedTypeRefs.objs) && !Breaks(defs, names, First(s, i))
      invariant (warned, fieldNames.objs) == Note(old(fieldNames.objs), Fields(defs, names, First(s, i)))
      invariant
        var others := old(cursors.curr) - Enters(defs, names, First(s, i));
        cursors.curr == if i < |elmts| then others[id := i] else others - {id}
      decreases |elmts| - i
    {
      FirstNext(defs, names, s, i);
      NoteJoin(old(fieldNames.objs), Fields(defs, names, First(s, i)),
               ElmtFields(defs, names, id, i, elmts[i], s.followed));
      var at := cursors.curr[id];
      var good, more := ChkFieldName(defs, names, id, at, elmts[at], cursors, fieldNames, followedTypeRefs);
      warned := warned || more;
      if !good || id !in cursors.curr {
        BreaksAll(defs, names, s, i);
        return false, warned;
      }
      cursors.Move(id, elmts, cursors.curr[id] + 1);
      i := i + 1;
    }
    FirstEnds(defs, names, s);
  }


  lemma NoteNone(defined: seq<string>)
    ensures Note(defined, []) == (false, defined)
  {
  }

  lemma NoteOne(defined: seq<string>, name: string)
    ensures Note(defined, [name]) ==
            if IsDefined(defined, name, StrObjCmp) then (true, defined) else (false, [name] + defined)
  {
    assert [name][..0] == [];
  }

  lemma DefinedBy(defs: TypeDefs, t: Type)
    requires AllKnown(defs) && Known(defs, t)
    ensures t.basicType.IsTypeRef() && DefiningType(defs, t).basicType.Choice? ==> LastDef(defs, t, {}).Some?
    ensures t.basicType.Choice? ==> DefiningType(defs, t) == t
  {
  }

  /** What the element stands for, by what it brings along. */
  lemma ElmtCases(defs: TypeDefs, names: set<string>, outer: ListId, i: nat, e: NamedType, followed: set<string>)
    requires AllKnown(defs) && ElmtSound(defs, names, e)
    ensures
      match Embedded(defs, outer, i, e, followed)
      case Some(s) =>
        && Sound(defs, names, s)
        && ElmtFields(defs, names, outer, i, e, followed) == Fields(defs, names, s)
        && ElmtEnters(defs, names, outer, i, e, followed) == {s.id} + Enters(defs, names, s)
        && (ElmtBreaks(defs, names, outer, i, e, followed) <==> Breaks(defs, names, s))
      case None =>
        && ElmtFields(defs, names, outer, i, e, followed)
           == (if e.fieldName.Some? then [e.fieldName.value] else [])
        && ElmtEnters(defs, names, outer, i, e, followed) == {}
        && !ElmtBreaks(defs, names, outer, i, e, followed)
  {
    hide AllKnown, Known, Sound, Fields, Enters, Breaks, DefiningType, LastDef;
    EmbeddedSound(defs, names, outer, i, e, followed);
  }

  /** One element of the scope. */
  method ChkFieldName(defs: TypeDefs, ghost names: set<string>, outer: ListId, i: nat, e: NamedType, cursors: Cursors,
                      fieldNames: DefinedObjs<string>, followedTypeRefs: DefinedObjs<string>)
    returns (ok: bool, warned: bool)
    requires AllKnown(defs) && ElmtSound(defs, names, e) && fieldNames != followedTypeRefs
    modifies cursors, fieldNames, followedTypeRefs
    ensures
      var followed := old(Elems(followedTypeRefs.objs));
      && (ok <==> !ElmtBreaks(defs, names, outer, i, e, followed))
      && (ok ==>
            && followedTypeRefs.objs == old(followedTypeRefs.objs)
            && cursors.curr == old(cursors.curr) - ElmtEnters(defs, names, outer, i, e, followed)
            && (warned, fieldNames.objs)
               == Note(old(fieldNames.objs), ElmtFields(defs, names, outer, i, e, followed)))
    decreases |names - Elems(followedTypeRefs.objs)|, e
  {
    hide AllKnown, Known, Sound, Fields, Enters, Breaks, Note, IsDefined, Undefined, DefiningType, LastDef, Elems,
      ElmtFields, ElmtEnters, ElmtBreaks;
    ok, warned := true, false;
    EmbeddedSound(defs, names, outer, i, e, Elems(followedTypeRefs.objs));
    ElmtCases(defs, names, outer, i, e, Elems(followedTypeRefs.objs));
    DefinedBy(defs, e.asnType);
    NoteNone(fieldNames.objs);
    var definingType, def := ParanoidGetType(defs, e.asnType);
    if e.fieldName.Some? {
      NoteOne(fieldNames.objs, e.fieldName.value);
      var isDefined := fieldNames.ObjIsDefined(e.fieldName.value, StrObjCmp);
      if isDefined {
        warned := true;
      } else {
        fieldNames.DefineObj(e.fieldName.value);
      }
    } else if e.asnType.basicType.IsTypeRef() && definingType.basicType.Choice? {
      var typeName := e.asnType.basicType.typeName;
      IsFollowed(followedTypeRefs.objs, typeName);
      var isFollowed := followedTypeRefs.ObjIsDefined(typeName, StrObjCmp);
      if !isFollowed {
        FollowedMore(followedTypeRefs.objs, typeName);
        followedTypeRefs.DefineObj(typeName);
        ok, warned := ChkFieldNamesRec(defs, names, Top(def.value), definingType.basicType.elmts, cursors, fieldNames,
                                       followedTypeRefs);
        followedTypeRefs.UndefineObj(typeName, StrObjCmp);
      }
    } else if e.asnType.basicType.Choice? {
      ok, warned := ChkFieldNamesRec(defs, names, Inner(outer, i), definingType.basicType.elmts, cursors, fieldNames,
                                     followedTypeRefs);
    }
  }

  lemma IsFollowed(objs: seq<string>, name: string)
    ensures IsDefined(objs, name, StrObjCmp) <==> name in Elems(objs)
    ensures name in Elems(objs) <==> name in objs
  {
    IsDefinedName(objs, name);
  }

  /**
   * Element number `i` of the first scope brings along the second: it has no name, and either it is a CHOICE itself, or
   * it refers to one by a name that is not being followed yet.
   */
  ghost predicate LeadsBy(defs: TypeDefs, s: Scope, i: nat, t: Scope)
  {
    && i < |s.elmts| && s.elmts[i].fieldName == None
    && match s.elmts[i].asnType.basicType
       case Choice(elmts) => t == Scope(Inner(s.id, i), elmts, s.followed)
       case LocalTypeRef(name, _) => name !in s.followed && EntersDef(defs, s, i, name, t)
       case ImportTypeRef(name, _) => name !in s.followed && EntersDef(defs, s, i, name, t)
       case _ => false
  }

  ghost predicate EntersDef(defs: TypeDefs, s: Scope, i: nat, name: string, t: Scope)
    requires i < |s.elmts|
  {
    && t.id.Top? && t.followed == s.followed + {name}
    && t.id.def in defs && RefersTo(defs, s.elmts[i].asnType, t.id.def)
    && defs[t.id.def].asnType.basicType == Choice(t.elmts)
  }

  lemma LeadsByIff(defs: TypeDefs, s: Scope, i: nat, t: Scope)
    requires AllKnown(defs) && i < |s.elmts| && Known(defs, s.elmts[i].asnType)
    ensures LeadsBy(defs, s, i, t) <==> Embedded(defs, s.id, i, s.elmts[i], s.followed) == Some(t)
  {
    hide LastDef, EndOfChain, AllKnown, Known, RefersTo, DefiningType;
    var e := s.elmts[i];
    RefersToIff(defs, e.asnType);
    LastInDefs(defs, e.asnType);
  }

  lemma LastInDefs(defs: TypeDefs, t: Type)
    requires AllKnown(defs) && Known(defs, t)
    ensures LastDef(defs, t, {}).Some? <==> t.basicType.IsTypeRef() && DefiningType(defs, t) != t
    ensures LastDef(defs, t, {}).Some? ==> LastDef(defs, t, {}).value in defs
  {
  }

  ghost predicate Leads(defs: TypeDefs, s: Scope, t: Scope)
    requires AllKnown(defs)
  {
    exists i :: 0 <= i < |s.elmts| && LeadsBy(defs, s, i, t)
  }

  /** Scopes each of which is brought along by the one before, through names that are not yet followed there. */
  ghost predicate Chain(defs: TypeDefs, p: seq<Scope>)
    requires AllKnown(defs)
  {
    forall k :: 0 < k < |p| ==> Leads(defs, p[k - 1], p[k])
  }

  /** A chain that begins with the scope comes back to a list that it is in. */
  ghost predicate Reenters(defs: TypeDefs, s: Scope)
    requires AllKnown(defs)
  {
    exists p :: p != [] && Chain(defs, p) && p[0] == s && ComesBack(p)
  }

  predicate ComesBack(p: seq<Scope>)
  {
    exists k :: 0 <= k < |p| - 1 && p[k].id == p[|p| - 1].id
  }

  /** A chain to another scope with the list. */
  ghost predicate LeadsTo(defs: TypeDefs, s: Scope, p: seq<Scope>, l: ListId)
    requires AllKnown(defs)
  {
    |p| > 1 && Chain(defs, p) && p[0] == s && p[|p| - 1].id == l
  }

  lemma ChainCons(defs: TypeDefs, s: Scope, p: seq<Scope>)
    requires AllKnown(defs) && p != [] && Chain(defs, p) && Leads(defs, s, p[0])
    ensures Chain(defs, [s] + p)
  {
  }

  lemma ChainTail(defs: TypeDefs, p: seq<Scope>)
    requires AllKnown(defs) && Chain(defs, p) && |p| > 1
    ensures Chain(defs, p[1..]) && Leads(defs, p[0], p[1])
  {
  }

  /** What an element of the scope brings along. */
  lemma LeadsSound(defs: TypeDefs, names: set<string>, s: Scope, i: nat, t: Scope)
    requires AllKnown(defs) && Sound(defs, names, s) && LeadsBy(defs, s, i, t)
    ensures Sound(defs, names, t) && ElmtSound(defs, names, s.elmts[i])
    ensures ElmtEnters(defs, names, s.id, i, s.elmts[i], s.followed) == {t.id} + Enters(defs, names, t)
    ensures ElmtBreaks(defs, names, s.id, i, s.elmts[i], s.followed) <==> Breaks(defs, names, t)
    ensures |names - t.followed| < |names - s.followed| || (t.followed == s.followed && (s.elmts decreases to t.elmts))
  {
    hide AllKnown, Known, Enters, Breaks, Embedded, LeadsBy;
    LeadsIndex(defs, s, i, t);
    FirstSound(defs, names, s, i);
    LeadsByIff(defs, s, i, t);
    EmbeddedSound(defs, names, s.id, i, s.elmts[i], s.followed);
  }

  /** The scope that an element with embedded lists leads to. */
  lemma LeadsOn(defs: TypeDefs, names: set<string>, s: Scope, i: nat) returns (t: Scope)
    requires AllKnown(defs) && Sound(defs, names, s) && i < |s.elmts| && ElmtSound(defs, names, s.elmts[i])
    requires ElmtEnters(defs, names, s.id, i, s.elmts[i], s.followed) != {}
             || ElmtBreaks(defs, names, s.id, i, s.elmts[i], s.followed)
    ensures LeadsBy(defs, s, i, t) && Leads(defs, s, t)
  {
    hide AllKnown, Known, Enters, Breaks, Embedded, LeadsBy;
    t := Embedded(defs, s.id, i, s.elmts[i], s.followed).value;
    LeadsByIff(defs, s, i, t);
  }

  lemma SoundAll(defs: TypeDefs, names: set<string>, s: Scope)
    requires Sound(defs, names, s)
    ensures forall i :: 0 <= i < |s.elmts| ==> ElmtSound(defs, names, s.elmts[i])
  {
  }

  /** A list that is gone through is at the end of a chain. */
  lemma {:induction false} EntersChain(defs: TypeDefs, names: set<string>, s: Scope, l: ListId) returns (p: seq<Scope>)
    requires AllKnown(defs) && Sound(defs, names, s) && l in Enters(defs, names, s)
    ensures LeadsTo(defs, s, p, l)
    decreases |names - s.followed|, s.elmts
  {
    hide AllKnown, Known, Sound, ElmtSound, ElmtEnters, Embedded, Chain, Leads, LeadsBy;
    SoundAll(defs, names, s);
    var i :| 0 <= i < |s.elmts| && l in ElmtEnters(defs, names, s.id, i, s.elmts[i], s.followed);
    FirstSound(defs, names, s, i);
    var t := LeadsOn(defs, names, s, i);
    LeadsSound(defs, names, s, i, t);
    ChainOne(defs, t);
    p := [t];
    if l != t.id {
      p := EntersChain(defs, names, t, l);
    }
    ChainCons(defs, s, p);
    p := [s] + p;
  }

  lemma ChainOne(defs: TypeDefs, t: Scope)
    requires AllKnown(defs)
    ensures Chain(defs, [t])
  {
  }

  /** And the other way round. */
  lemma {:induction false} ChainEnters(defs: TypeDefs, names: set<string>, s: Scope, p: seq<Scope>, l: ListId)
    requires AllKnown(defs) && Sound(defs, names, s) && LeadsTo(defs, s, p, l)
    ensures l in Enters(defs, names, s)
    decreases |p|
  {
    hide AllKnown, Known, Sound, ElmtSound, ElmtEnters, Embedded, Chain, LeadsBy;
    ChainTail(defs, p);
    var t := p[1];
    var i :| 0 <= i < |s.elmts| && LeadsBy(defs, s, i, t);
    LeadsSound(defs, names, s, i, t);
    if |p| > 2 {
      ChainEnters(defs, names, t, p[1..], l);
    }
    assert l in ElmtEnters(defs, names, s.id, i, s.elmts[i], s.followed);
  }

  lemma {:induction false} BreaksChain(defs: TypeDefs, names: set<string>, s: Scope) returns (p: seq<Scope>)
    requires AllKnown(defs) && Sound(defs, names, s) && Breaks(defs, names, s)
    ensures p != [] && Chain(defs, p) && p[0] == s && ComesBack(p)
    decreases |names - s.followed|, s.elmts
  {
    hide AllKnown, Known, Sound, ElmtSound, ElmtEnters, ElmtBreaks, Embedded, Chain, Leads, LeadsBy, Enters, ComesBack;
    var i := BreaksWhere(defs, names, s);
    FirstSound(defs, names, s, i);
    var t := LeadsOn(defs, names, s, i);
    LeadsSound(defs, names, s, i, t);
    ChainOne(defs, t);
    if s.id == t.id {
      p := [t];
    } else if s.id in Enters(defs, names, t) {
      p := EntersChain(defs, names, t, s.id);
    } else {
      p := BreaksChain(defs, names, t);
    }
    ChainCons(defs, s, p);
    BackCons(s, p);
    p := [s] + p;
  }

  lemma BackCons(s: Scope, p: seq<Scope>)
    requires p != []
    ensures ComesBack([s] + p) <==> s.id == p[|p| - 1].id || ComesBack(p)
  {
    var q := [s] + p;
    assert q[|q| - 1] == p[|p| - 1];
    if ComesBack(p) {
      var k :| 0 <= k < |p| - 1 && p[k].id == p[|p| - 1].id;
      assert q[k + 1] == p[k];
    } else if ComesBack(q) {
      var k :| 0 <= k < |q| - 1 && q[k].id == q[|q| - 1].id;
      assert k == 0;
    } else {
      assert q[0].id == s.id;
    }
  }

  lemma {:induction false} ChainBreaks(defs: TypeDefs, names: set<string>, s: Scope, p: seq<Scope>)
    requires AllKnown(defs) && Sound(defs, names, s)
    requires p != [] && Chain(defs, p) && p[0] == s && ComesBack(p)
    ensures Breaks(defs, names, s)
    decreases |p|
  {
    hide AllKnown, Known, Sound, ElmtSound, ElmtEnters, ElmtBreaks, Embedded, Chain, LeadsBy, Enters;
    var q, l := p[1..], p[|p| - 1].id;
    ChainTail(defs, p);
    assert p == [s] + q && q[|q| - 1] == p[|p| - 1];
    BackCons(s, q);
    var t := p[1];
    var i :| 0 <= i < |s.elmts| && LeadsBy(defs, s, i, t);
    LeadsSound(defs, names, s, i, t);
    if s.id == l {
      if |q| > 1 {
        ChainEnters(defs, names, t, q, l);
      }
    } else {
      ChainBreaks(defs, names, t, q);
    }
    assert BreaksAt(defs, names, s, i);
  }

  /** The check fails if and only if a chain of unnamed references and CHOICEs comes back to a list that it is in. */
  lemma BreaksIff(defs: TypeDefs, names: set<string>, s: Scope)
    requires AllKnown(defs) && Sound(defs, names, s)
    ensures Breaks(defs, names, s) <==> Reenters(defs, s)
  {
    hide AllKnown, Sound, Breaks, Chain, ComesBack;
    if Breaks(defs, names, s) {
      var p := BreaksChain(defs, names, s);
    } else if Reenters(defs, s) {
      var p :| p != [] && Chain(defs, p) && p[0] == s && ComesBack(p);
      ChainBreaks(defs, names, s, p);
    }
  }

  /** The list of an aggregate type. */
  function Components(t: Type): seq<NamedType>
  {
    match t.basicType
    case Sequence(elmts) => elmts
    case Set(elmts) => elmts
    case Choice(elmts) => elmts
    case ObjectClass(classdef) => classdef
    case _ => []
  }

  /** The list of a definition, with its own name being followed already. */
  function Whole(defs: TypeDefs, td: TypeDefPtr): Scope
    requires td in defs
  {
    Scope(Top(td), Components(defs[td].asnType), {defs[td].definedName})
  }

  /** Every unnamed reference, also in unnamed CHOICEs, goes by the name of the definition that it leads to. */
  predicate OwnNames(defs: TypeDefs, es: seq<NamedType>)
    requires AllKnown(defs) && ElmtsKnown(defs, es)
    decreases es
  {
    forall i :: 0 <= i < |es| ==> HasOwnName(defs, es[i])
  }

  predicate HasOwnName(defs: TypeDefs, e: NamedType)
    requires AllKnown(defs) && Known(defs, e.asnType)
    decreases e
  {
    var t, last := e.asnType.basicType, LastDef(defs, e.asnType, {});
    e.fieldName.None? ==>
      && (last.Some? ==> t.typeName == defs[last.value].definedName)
      && (t.Choice? ==> OwnNames(defs, t.elmts))
  }

  /** No reference of any definition goes by another name. */
  predicate NoAliases(defs: TypeDefs)
    requires AllKnown(defs)
  {
    forall d :: d in defs ==>
      ElmtsKnown(defs, Components(defs[d].asnType)) && OwnNames(defs, Components(defs[d].asnType))
  }

  lemma LeadsIndex(defs: TypeDefs, s: Scope, i: nat, t: Scope)
    requires LeadsBy(defs, s, i, t)
    ensures i < |s.elmts|
  {
  }

  /** What is brought along has a name that was not followed, and is followed now, or is embedded. */
  lemma LeadsTop(defs: TypeDefs, s: Scope, t: Scope)
    requires AllKnown(defs) && NoAliases(defs) && ElmtsKnown(defs, s.elmts) && OwnNames(defs, s.elmts)
    requires Leads(defs, s, t)
    ensures ElmtsKnown(defs, t.elmts) && OwnNames(defs, t.elmts) && s.followed <= t.followed
    ensures
      if t.id.Inner? then t.id.outer == s.id
      else
        && t.id.def in defs && defs[t.id.def].definedName !in s.followed
        && defs[t.id.def].definedName in t.followed
  {
    hide LastDef, EndOfChain, LeadsBy;
    var i :| 0 <= i < |s.elmts| && LeadsBy(defs, s, i, t);
    LeadsIndex(defs, s, i, t);
    LeadsByIff(defs, s, i, t);
    assert HasOwnName(defs, s.elmts[i]);
  }

  /** The definitions that were entered on a chain are being followed from there on. */
  lemma {:induction false} StillFollowed(defs: TypeDefs, p: seq<Scope>, k: nat, j: nat)
    requires AllKnown(defs) && NoAliases(defs) && p != [] && Chain(defs, p) && k <= j < |p|
    requires p[0].id.Top? && p[0].id.def in defs && p[0] == Whole(defs, p[0].id.def)
    ensures ElmtsKnown(defs, p[j].elmts) && OwnNames(defs, p[j].elmts) && p[k].followed <= p[j].followed
    ensures p[k].id.Top? ==> p[k].id.def in defs && defs[p[k].id.def].definedName in p[j].followed
    decreases j, k
  {
    hide AllKnown, ElmtsKnown, OwnNames, Leads;
    if j > 0 {
      assert Leads(defs, p[j - 1], p[j]);
      StillFollowed(defs, p, if k < j then k else k - 1, j - 1);
      LeadsTop(defs, p[j - 1], p[j]);
    } else {
      WholeKnown(defs, p[0].id.def);
    }
  }

  lemma WholeKnown(defs: TypeDefs, d: TypeDefPtr)
    requires AllKnown(defs) && NoAliases(defs) && d in defs
    ensures ElmtsKnown(defs, Components(defs[d].asnType)) && OwnNames(defs, Components(defs[d].asnType))
  {
  }

  /** Without aliases, no chain comes back. */
  lemma {:induction false} NeverBack(defs: TypeDefs, p: seq<Scope>, k: nat, j: nat)
    requires AllKnown(defs) && NoAliases(defs) && p != [] && Chain(defs, p) && k < j < |p|
    requires p[0].id.Top? && p[0].id.def in defs && p[0] == Whole(defs, p[0].id.def)
    ensures p[k].id != p[j].id
    decreases j
  {
    hide AllKnown, ElmtsKnown, OwnNames, Leads, NoAliases, Whole;
    StillFollowed(defs, p, k, j - 1);
    assert Leads(defs, p[j - 1], p[j]);
    LeadsTop(defs, p[j - 1], p[j]);
    if k > 0 && p[j].id.Inner? {
      StillFollowed(defs, p, k - 1, k - 1);
      assert Leads(defs, p[k - 1], p[k]);
      LeadsTop(defs, p[k - 1], p[k]);
      NeverBack(defs, p, k - 1, j - 1);
    }
  }

  /** Where every definition is only referred to by its own name, the check of any of them succeeds. */
  lemma NoAliasNoReentry(defs: TypeDefs, td: TypeDefPtr)
    requires AllKnown(defs) && NoAliases(defs) && td in defs
    ensures !Reenters(defs, Whole(defs, td))
  {
    hide AllKnown, NoAliases, Chain, Components;
    if Reenters(defs, Whole(defs, td)) {
      var p: seq<Scope> :| p != [] && Chain(defs, p) && p[0] == Whole(defs, td) && ComesBack(p);
      var k :| 0 <= k < |p| - 1 && p[k].id == p[|p| - 1].id;
      NeverBack(defs, p, k, |p| - 1);
    }
  }

  function Plain(tags: seq<Tag>, basicType: BasicType): Type
  {
    Type(tags, false, false, false, basicType, None, None)
  }

  /** `A ::= CHOICE { a NULL, [1] C }` and `C ::= A`, where the second alternative has no name. */
  function AliasWorld(): TypeDefs
  {
    var es := [
      NamedType(Some("a"), Plain([Tag(0, 0, 5)], Other(5))),
      NamedType(None, Plain([Tag(0x80, 0x20, 1)], LocalTypeRef("C", Some(2))))];
    var a := TypeDef("A", Plain([], Choice(es)), 0, true);
    map[1 := a, 2 := TypeDef("C", Plain([], LocalTypeRef("A", Some(1))), 1, true)]
  }

  /** An alias of a CHOICE among its own alternatives makes the check fail. */
  lemma AliasReenters()
    ensures AllKnown(AliasWorld()) && Reenters(AliasWorld(), Whole(AliasWorld(), 1))
  {
    var defs := AliasWorld();
    var s := Whole(defs, 1);
    var t := Scope(Top(1), s.elmts, {"A", "C"});
    assert LastDef(defs, s.elmts[1].asnType, {}) == Some(1) by {
      assert LastDef(defs, defs[2].asnType, {2}) == Some(1);
    }
    assert "A" != "C" && {"A"} + {"C"} == {"A", "C"};
    assert Embedded(defs, Top(1), 1, s.elmts[1], {"A"}) == Some(t);
    LeadsByIff(defs, s, 1, t);
    var p := [s, t];
    assert p[0].id == p[|p| - 1].id;
    assert p != [] && Chain(defs, p) && p[0] == s && ComesBack(p);
  }

  /** The path leads to an element of that name: by elements that bring along what is next on it. */
  ghost predicate FieldAt(defs: TypeDefs, s: Scope, p: Path, name: string)
    decreases |p|
  {
    && p != [] && p[0] < |s.elmts|
    && if |p| == 1 then s.elmts[p[0]].fieldName == Some(name)
       else exists t :: LeadsBy(defs, s, p[0], t) && FieldAt(defs, t, p[1..], name)
  }

  /** Exactly the names to which paths lead, in the order of the paths. */
  ghost predicate FieldsAlong(defs: TypeDefs, s: Scope, fields: seq<string>, ps: seq<Path>)
  {
    && |ps| == |fields| && InOrder(ps)
    && (forall k :: 0 <= k < |ps| ==> FieldAt(defs, s, ps[k], fields[k]))
    && forall p, n :: FieldAt(defs, s, p, n) ==> p in ps
  }

  /** The same for the paths that begin with one element. */
  ghost predicate ElmtFieldsAlong(defs: TypeDefs, s: Scope, i: nat, fields: seq<string>, ps: seq<Path>)
  {
    && |ps| == |fields| && InOrder(ps)
    && (forall k :: 0 <= k < |ps| ==> FieldAt(defs, s, [i] + ps[k], fields[k]))
    && forall p, n :: FieldAt(defs, s, [i] + p, n) ==> p in ps
  }

  /** The fields of a scope are the names of the elements to which paths lead, in order. */
  lemma {:induction false} FieldsFound(defs: TypeDefs, names: set<string>, s: Scope) returns (ps: seq<Path>)
    requires AllKnown(defs) && Sound(defs, names, s)
    ensures FieldsAlong(defs, s, Fields(defs, names, s), ps)
    decreases |names - s.followed|, s.elmts, 0
  {
    hide AllKnown, Known, ElmtRefNames, CoversDefs, ElmtFields, FieldsAlong, ElmtFieldsAlong;
    ps := [];
    if s.elmts == [] {
      NoFields(defs, s);
    } else {
      var i := |s.elmts| - 1;
      FirstSound(defs, names, s, i);
      ps := FieldsFound(defs, names, First(s, i));
      var qs := ElmtFieldsFound(defs, names, s, i, s.elmts[i]);
      AlongNext(defs, s, Fields(defs, names, First(s, i)), ps,
                ElmtFields(defs, names, s.id, i, s.elmts[i], s.followed), qs);
      ps := ps + Under(i, qs);
    }
  }

  lemma NoFields(defs: TypeDefs, s: Scope)
    requires s.elmts == []
    ensures FieldsAlong(defs, s, [], [])
  {
  }

  lemma {:induction false} ElmtFieldsFound(defs: TypeDefs, names: set<string>, s: Scope, i: nat, e: NamedType)
    returns (ps: seq<Path>)
    requires AllKnown(defs) && i < |s.elmts| && e == s.elmts[i] && ElmtSound(defs, names, e)
    ensures ElmtFieldsAlong(defs, s, i, ElmtFields(defs, names, s.id, i, e, s.followed), ps)
    decreases |names - s.followed|, e, 1
  {
    hide AllKnown, Known, Sound, Fields, DefiningType, LastDef, FieldsAlong, ElmtFieldsAlong;
    EmbeddedSound(defs, names, s.id, i, e, s.followed);
    if e.fieldName.Some? {
      ps := [[]];
      NamedAlong(defs, s, i);
    } else {
      match Embedded(defs, s.id, i, e, s.followed) {
        case Some(t) =>
          ps := FieldsFound(defs, names, t);
          EmbeddedAlong(defs, s, i, t, Fields(defs, names, t), ps);
        case None =>
          ps := [];
          NothingAlong(defs, s, i);
      }
    }
  }

  lemma NamedEnds(defs: TypeDefs, s: Scope, i: nat, p: Path, n: string)
    requires i < |s.elmts| && s.elmts[i].fieldName.Some? && FieldAt(defs, s, [i] + p, n)
    ensures p == []
  {
  }

  lemma NamedAlong(defs: TypeDefs, s: Scope, i: nat)
    requires i < |s.elmts| && s.elmts[i].fieldName.Some?
    ensures ElmtFieldsAlong(defs, s, i, [s.elmts[i].fieldName.value], [[]])
  {
    var ps: seq<Path> := [[]];
    forall p, n | FieldAt(defs, s, [i] + p, n)
      ensures p in ps
    {
      NamedEnds(defs, s, i, p, n);
      assert ps[0] == p;
    }
  }

  lemma NothingAlong(defs: TypeDefs, s: Scope, i: nat)
    requires AllKnown(defs) && i < |s.elmts| && Known(defs, s.elmts[i].asnType) && s.elmts[i].fieldName.None?
    requires Embedded(defs, s.id, i, s.elmts[i], s.followed) == None
    ensures ElmtFieldsAlong(defs, s, i, [], [])
  {
    hide LeadsBy, Embedded;
    forall p, n
      ensures !FieldAt(defs, s, [i] + p, n)
    {
      if FieldAt(defs, s, [i] + p, n) && p != [] {
        var t :| LeadsBy(defs, s, i, t) && FieldAt(defs, t, ([i] + p)[1..], n);
        LeadsByIff(defs, s, i, t);
      }
    }
  }

  lemma EmbeddedAlong(defs: TypeDefs, s: Scope, i: nat, t: Scope, fields: seq<string>, ps: seq<Path>)
    requires AllKnown(defs) && i < |s.elmts| && Known(defs, s.elmts[i].asnType) && s.elmts[i].fieldName.None?
    requires Embedded(defs, s.id, i, s.elmts[i], s.followed) == Some(t) && FieldsAlong(defs, t, fields, ps)
    ensures ElmtFieldsAlong(defs, s, i, fields, ps)
  {
    hide LeadsBy, Embedded, InOrder;
    LeadsByIff(defs, s, i, t);
    forall p, n
      ensures FieldAt(defs, s, [i] + p, n) <==> FieldAt(defs, t, p, n)
    {
      FieldBelow(defs, s, i, t, p, n);
    }
  }

  lemma FieldBelow(defs: TypeDefs, s: Scope, i: nat, t: Scope, p: Path, n: string)
    requires AllKnown(defs) && i < |s.elmts| && Known(defs, s.elmts[i].asnType) && s.elmts[i].fieldName.None?
    requires Embedded(defs, s.id, i, s.elmts[i], s.followed) == Some(t)
    ensures FieldAt(defs, s, [i] + p, n) <==> FieldAt(defs, t, p, n)
  {
    hide LeadsBy, Embedded;
    LeadsByIff(defs, s, i, t);
    assert ([i] + p)[1..] == p;
    if FieldAt(defs, s, [i] + p, n) && p != [] {
      var u :| LeadsBy(defs, s, i, u) && FieldAt(defs, u, p, n);
      LeadsByIff(defs, s, i, u);
    }
  }

  lemma AlongNext(defs: TypeDefs, s: Scope, fields: seq<string>, ps: seq<Path>, more: seq<string>, qs: seq<Path>)
    requires s.elmts != [] && FieldsAlong(defs, First(s, |s.elmts| - 1), fields, ps)
    requires ElmtFieldsAlong(defs, s, |s.elmts| - 1, more, qs)
    ensures FieldsAlong(defs, s, fields + more, ps + Under(|s.elmts| - 1, qs))
  {
    hide FieldAt, InOrder, First;
    var i := |s.elmts| - 1;
    var all, found := ps + Under(i, qs), fields + more;
    forall k | 0 <= k < |ps|
      ensures ps[k] != [] && ps[k][0] < i && FieldAt(defs, s, ps[k], fields[k])
    {
      FieldFirst(defs, s, i, ps[k], fields[k]);
    }
    InOrderJoin(ps, i, qs);
    forall k | 0 <= k < |all|
      ensures FieldAt(defs, s, all[k], found[k])
    {
      if k >= |ps| {
        assert all[k] == [i] + qs[k - |ps|] && found[k] == more[k - |ps|];
      }
    }
    forall p, n | FieldAt(defs, s, p, n)
      ensures p in all
    {
      FieldFirst(defs, s, i, p, n);
      if p[0] < i {
        var k :| 0 <= k < |ps| && ps[k] == p;
        assert all[k] == p;
      } else {
        assert p == [i] + p[1..];
        var k :| 0 <= k < |qs| && qs[k] == p[1..];
        assert all[|ps| + k] == p;
      }
    }
  }

  lemma FieldFirst(defs: TypeDefs, s: Scope, i: nat, p: Path, n: string)
    requires i <= |s.elmts|
    ensures FieldAt(defs, s, p, n) ==> p != [] && p[0] < |s.elmts|
    ensures FieldAt(defs, First(s, i), p, n) <==> p != [] && FieldAt(defs, s, p, n) && p[0] < i
  {
    hide RefersTo;
    if p != [] && p[0] < i {
      assert First(s, i).elmts[p[0]] == s.elmts[p[0]];
      forall t
        ensures LeadsBy(defs, First(s, i), p[0], t) <==> LeadsBy(defs, s, p[0], t)
      {
      }
    }
  }

  lemma {:induction false} OneFieldAt(defs: TypeDefs, names: set<string>, s: Scope, p: Path, n: string, m: string)
    requires AllKnown(defs) && Sound(defs, names, s) && FieldAt(defs, s, p, n) && FieldAt(defs, s, p, m)
    ensures n == m
    decreases |p|
  {
    hide LeadsBy, Embedded, AllKnown, Sound;
    if |p| > 1 {
      var t :| LeadsBy(defs, s, p[0], t) && FieldAt(defs, t, p[1..], n);
      var u :| LeadsBy(defs, s, p[0], u) && FieldAt(defs, u, p[1..], m);
      LeadsSound(defs, names, s, p[0], t);
      LeadsByIff(defs, s, p[0], t);
      LeadsByIff(defs, s, p[0], u);
      OneFieldAt(defs, names, t, p[1..], n, m);
    }
  }

  /** Two paths lead to elements of the same name. */
  ghost predicate Ambiguous(defs: TypeDefs, s: Scope)
  {
    exists p, q, n :: p != q && FieldAt(defs, s, p, n) && FieldAt(defs, s, q, n)
  }

  lemma AmbiguousIff(defs: TypeDefs, names: set<string>, s: Scope)
    requires AllKnown(defs) && Sound(defs, names, s)
    ensures !NoDup(Fields(defs, names, s)) <==> Ambiguous(defs, s)
  {
    hide AllKnown, Sound, Fields, FieldAt, InOrder;
    var ps := FieldsFound(defs, names, s);
    var fields := Fields(defs, names, s);
    DistinctInOrder(ps);
    if !NoDup(fields) {
      var i, j :| 0 <= i < j < |fields| && fields[i] == fields[j];
      assert ps[i] != ps[j] && FieldAt(defs, s, ps[i], fields[i]) && FieldAt(defs, s, ps[j], fields[i]);
    }
    if Ambiguous(defs, s) {
      var p, q, n :| p != q && FieldAt(defs, s, p, n) && FieldAt(defs, s, q, n);
      var i :| 0 <= i < |ps| && ps[i] == p;
      var j :| 0 <= j < |ps| && ps[j] == q;
      OneFieldAt(defs, names, s, p, n, fields[i]);
      OneFieldAt(defs, names, s, q, n, fields[j]);
      assert fields[i] == fields[j];
    }
  }

  /** The bounds on the recursion have no influence on the fields. */
  lemma {:induction false} FieldsBound(defs: TypeDefs, names: set<string>, names': set<string>, s: Scope)
    requires AllKnown(defs) && Sound(defs, names, s) && Sound(defs, names', s)
    ensures Fields(defs, names, s) == Fields(defs, names', s)
    decreases |names - s.followed|, s.elmts
  {
    hide AllKnown, Known, ElmtRefNames, CoversDefs, ElmtFields;
    if s.elmts != [] {
      var i := |s.elmts| - 1;
      FirstSound(defs, names, s, i);
      FirstSound(defs, names', s, i);
      FieldsBound(defs, names, names', First(s, i));
      ElmtFieldsBound(defs, names, names', s.id, i, s.elmts[i], s.followed);
    }
  }

  lemma {:induction false} ElmtFieldsBound(defs: TypeDefs, names: set<string>, names': set<string>, outer: ListId,
                                           i: nat, e: NamedType, followed: set<string>)
    requires AllKnown(defs) && ElmtSound(defs, names, e) && ElmtSound(defs, names', e)
    ensures ElmtFields(defs, names, outer, i, e, followed) == ElmtFields(defs, names', outer, i, e, followed)
    decreases |names - followed|, e
  {
    hide AllKnown, Known, Sound, Fields, DefiningType, LastDef;
    EmbeddedSound(defs, names, outer, i, e, followed);
    EmbeddedSound(defs, names', outer, i, e, followed);
    match Embedded(defs, outer, i, e, followed) {
      case Some(s) =>
        FieldsBound(defs, names, names', s);
      case None =>
    }
  }

  /**
   * Whether the value notation of the elements of a type definition is ambiguous. The check fails exactly where a list
   * is entered again while it is gone through.
   */
  method ChkFieldNames(defs: TypeDefs, td: TypeDefPtr) returns (ok: bool, warned: bool)
    requires AllKnown(defs) && td in defs && ElmtsKnown(defs, Components(defs[td].asnType))
    ensures ok <==> !Reenters(defs, Whole(defs, td))
    ensures ok ==> (warned <==> Ambiguous(defs, Whole(defs, td)))
  {
    hide AllKnown, Known, Fields, Breaks, Enters, Reenters, Note, NoDup, Covers, AllNames, Ambiguous;
    var cursors := new Cursors();
    var fieldNames := new DefinedObjs<string>();
    var followedTypeRefs := new DefinedObjs<string>();
    followedTypeRefs.DefineObj(defs[td].definedName);
    assert followedTypeRefs.objs == [defs[td].definedName];
    assert Elems([defs[td].definedName]) == {defs[td].definedName};
    ghost var s := Whole(defs, td);
    ghost var names := AllNames(defs, s.elmts);
    ok, warned := ChkFieldNamesRec(defs, names, Top(td), Components(defs[td].asnType), cursors, fieldNames,
                                   followedTypeRefs);
    BreaksIff(defs, names, s);
    NoteIff(Fields(defs, names, s));
    AmbiguousIff(defs, names, s);
  }
}

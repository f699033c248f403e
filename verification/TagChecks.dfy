/** The error checker's tests for distinct tags. */
module TagChecks {
  import opened Octets
  import opened Asn1Types
  import opened DefinedObjects
  import opened EffectiveTags
  import opened Paths

  /** The tags are the same in class and code. */
  predicate TagObjCmp(t1: Tag, t2: Tag)
  {
    t1.tclass == t2.tclass && t1.code == t2.code
  }

  /** Adding tags to the defined ones until one is there already: whether all were added, and the list then. */
  function AddTags(defined: seq<Tag>, tags: seq<Tag>): (bool, seq<Tag>)
    decreases |tags|
  {
    if tags == [] then (true, defined)
    else if IsDefined(defined, tags[0], TagObjCmp) then (false, defined)
    else AddTags([tags[0]] + defined, tags[1..])
  }

  lemma {:induction false} AddTagsJoin(defined: seq<Tag>, a: seq<Tag>, b: seq<Tag>)
    ensures AddTags(defined, a + b) ==
            if AddTags(defined, a).0 then AddTags(AddTags(defined, a).1, b) else AddTags(defined, a)
    decreases |a|
  {
    if a == [] {
      assert a + b == b;
    } else {
      assert (a + b)[0] == a[0] && (a + b)[1..] == a[1..] + b;
      if !IsDefined(defined, a[0], TagObjCmp) {
        AddTagsJoin([a[0]] + defined, a[1..], b);
      }
    }
  }

  /** No two tags of the two lists are equal. */
  ghost predicate Apart(a: seq<(int, int)>, b: seq<(int, int)>)
  {
    forall x :: x in a ==> x !in b
  }

  lemma DefinedIds(defined: seq<Tag>, tag: Tag)
    ensures IsDefined(defined, tag, TagObjCmp) <==> (tag.tclass, tag.code) in Ids(defined)
  {
    if IsDefined(defined, tag, TagObjCmp) {
      var i :| 0 <= i < |defined| && TagObjCmp(defined[i], tag);
      assert Ids(defined)[i] == (tag.tclass, tag.code);
    }
    if (tag.tclass, tag.code) in Ids(defined) {
      var i :| 0 <= i < |defined| && Ids(defined)[i] == (tag.tclass, tag.code);
      assert TagObjCmp(defined[i], tag);
    }
  }

  /** All tags are added exactly when they are distinct and none was defined; then they are defined as well. */
  lemma {:induction false} AddTagsIff(defined: seq<Tag>, tags: seq<Tag>)
    ensures AddTags(defined, tags).0 <==> NoDup(Ids(tags)) && Apart(Ids(tags), Ids(defined))
    ensures AddTags(defined, tags).0 ==>
      forall x :: x in Ids(AddTags(defined, tags).1) <==> x in Ids(tags) || x in Ids(defined)
    decreases |tags|
  {
    if tags != [] {
      var x, rest := (tags[0].tclass, tags[0].code), tags[1..];
      DefinedIds(defined, tags[0]);
      AddTagsIff([tags[0]] + defined, rest);
      IdsJoin([tags[0]], defined);
      IdsJoin([tags[0]], rest);
      assert tags == [tags[0]] + rest && Ids([tags[0]]) == [x];
      NoDupCons(x, Ids(rest));
      ApartCons(x, Ids(rest), Ids(defined));
    }
  }

  lemma NoDupCons<T>(x: T, s: seq<T>)
    ensures NoDup([x] + s) <==> x !in s && NoDup(s)
  {
    if NoDup([x] + s) {
      forall i, j | 0 <= i < j < |s|
        ensures s[i] != s[j]
      {
        assert ([x] + s)[i + 1] != ([x] + s)[j + 1];
      }
      forall i | 0 <= i < |s|
        ensures s[i] != x
      {
        assert ([x] + s)[0] != ([x] + s)[i + 1];
      }
    }
  }

  lemma ApartCons(x: (int, int), s: seq<(int, int)>, t: seq<(int, int)>)
    ensures x !in s && x !in t ==> (Apart([x] + s, t) <==> Apart(s, [x] + t))
    ensures Apart([x] + s, t) <==> x !in t && Apart(s, t)
    ensures Apart(s, [x] + t) <==> x !in s && Apart(s, t)
  {
    assert forall y :: y in [x] + s <==> y == x || y in s;
    assert forall y :: y in [x] + t <==> y == x || y in t;
  }

  /**
   * Defines the tags that a value of the type can begin with, as long as they are new. A type without tags that is no
   * CHOICE is let pass.
   */
  method AddFirstTag(definedTags: DefinedObjs<Tag>, w: World, ghost b: nat, given: Type) returns (added: bool)
    requires WellFounded(w) && Known(w, given) && Enterable(w, b, given)
    modifies definedTags
    ensures (added, definedTags.objs) == AddTags(old(definedTags.objs), First(w, b, given))
    decreases b, given, 1
  {
    hide Known, Chains, Depth, Eff, Fin, Owner, Enterable, AllEnterable, First, AllFirst, IsDefined;
    WellFoundedChains(w);
    FirstGiven(w, b, given);
    var t, tl := given, given.tags;
    var implicitRef := false;
    ghost var pending := false;
    while true
      invariant Known(w, t)
      invariant tl == OwnTags(t, pending) && implicitRef == (pending && t.tags == [])
      invariant Eff(w, t, pending) == Eff(w, given, false) && Fin(w, t) == Fin(w, given)
      invariant definedTags.objs == old(definedTags.objs)
      decreases Depth(w, t)
    {
      Step(w, t, pending);
      if tl != [] {
        var tag := tl[0];
        AddOne(definedTags.objs, tag);
        var isDefined := definedTags.ObjIsDefined(tag, TagObjCmp);
        if isDefined {
          return false;
        }
        definedTags.DefineObj(tag);
        return true;
      }
      if t.basicType.IsTypeRef() {
        if !implicitRef {
          implicitRef := t.implicit;
        }
        if t.basicType.link.None? {
          break;
        }
        var d := t.basicType.link.value;
        NoTags(Eff(w, w.defs[d].asnType, StillPending(t, pending)));
        pending := StillPending(t, pending);
        t := w.defs[d].asnType;
        tl := t.tags;
        if tl != [] && implicitRef {
          tl := tl[1..];
          implicitRef := false;
        }
      } else if t.basicType.Choice? {
        added := AddFirstTags(definedTags, w, Level(w, b, given), t.basicType.elmts);
        return;
      } else {
        return true;
      }
    }
    return true;
  }

  lemma NoTags(tags: seq<Tag>)
    ensures [] + tags == tags
  {
  }

  /** The first tags of the elements in order, until one is defined already. */
  method AddFirstTags(definedTags: DefinedObjs<Tag>, w: World, ghost b: nat, es: seq<NamedType>) returns (added: bool)
    requires WellFounded(w) && AllEnterable(w, b, es)
    modifies definedTags
    ensures (added, definedTags.objs) == AddTags(old(definedTags.objs), AllFirst(w, b, es))
    decreases b, es, 0
  {
    hide WellFounded, Known, Enterable, First, AllFirst, IsDefined;
    FirstNone(w, b, es, definedTags.objs);
    for i := 0 to |es|
      invariant AddTags(old(definedTags.objs), AllFirst(w, b, es[..i])) == (true, definedTags.objs)
    {
      FirstNext(w, b, es, i);
      FirstStops(old(definedTags.objs), w, b, es, i + 1);
      AddTagsJoin(old(definedTags.objs), AllFirst(w, b, es[..i]), First(w, b, es[i].asnType));
      var ok := AddFirstTagOf(definedTags, w, b, es[i]);
      if !ok {
        return false;
      }
    }
    return true;
  }

  method AddFirstTagOf(definedTags: DefinedObjs<Tag>, w: World, ghost b: nat, e: NamedType) returns (added: bool)
    requires WellFounded(w) && Known(w, e.asnType) && Enterable(w, b, e.asnType)
    modifies definedTags
    ensures (added, definedTags.objs) == AddTags(old(definedTags.objs), First(w, b, e.asnType))
    decreases b, e, 0
  {
    added := AddFirstTag(definedTags, w, b, e.asnType);
  }

  /** What the end of the chain decides. */
  lemma FirstGiven(w: World, b: nat, t: Type)
    requires WellFounded(w) && Known(w, t) && Enterable(w, b, t)
    ensures
      var eff, fin := Eff(w, t, false), Fin(w, t);
      if eff != [] then First(w, b, t) == [eff[0]]
      else if fin.basicType.Choice? then
        && AllEnterable(w, Level(w, b, t), fin.basicType.elmts)
        && (Level(w, b, t) < b || (Level(w, b, t) == b && fin == t))
        && First(w, b, t) == AllFirst(w, Level(w, b, t), fin.basicType.elmts)
      else First(w, b, t) == []
  {
    hide Eff, Fin, Enterable, Known, Chains, AllFirst;
    if IsUntaggedChoice(w, t) {
      Below(w, b, t);
    }
  }

  lemma AddOne(defined: seq<Tag>, tag: Tag)
    ensures AddTags(defined, [tag]) ==
            if IsDefined(defined, tag, TagObjCmp) then (false, defined) else (true, [tag] + defined)
  {
    assert AddTags([tag] + defined, [tag][1..]) == (true, [tag] + defined);
  }

  lemma FirstNone(w: World, b: nat, es: seq<NamedType>, defined: seq<Tag>)
    requires WellFounded(w) && AllEnterable(w, b, es)
    ensures es[..|es|] == es && AddTags(defined, AllFirst(w, b, es[..0])) == (true, defined)
  {
  }

  lemma FirstNext(w: World, b: nat, es: seq<NamedType>, i: nat)
    requires WellFounded(w) && AllEnterable(w, b, es) && i < |es|
    ensures AllFirst(w, b, es[..i + 1]) == AllFirst(w, b, es[..i]) + First(w, b, es[i].asnType)
  {
    assert es[..i + 1][..i] == es[..i];
  }

  /** Once a tag was defined already, the alternatives that follow change nothing. */
  lemma {:induction false} FirstStops(defined: seq<Tag>, w: World, b: nat, es: seq<NamedType>, i: nat)
    requires WellFounded(w) && AllEnterable(w, b, es) && i <= |es|
    ensures !AddTags(defined, AllFirst(w, b, es[..i])).0 ==>
      AddTags(defined, AllFirst(w, b, es)) == AddTags(defined, AllFirst(w, b, es[..i]))
    decreases |es| - i
  {
    hide WellFounded, AllFirst, AddTags, First;
    if i < |es| {
      FirstStops(defined, w, b, es, i + 1);
      FirstNext(w, b, es, i);
      AddTagsJoin(defined, AllFirst(w, b, es[..i]), First(w, b, es[i].asnType));
    } else {
      assert es[..i] == es;
    }
  }

  predicate SameId(x: Tag, y: Tag)
  {
    x.tclass == y.tclass && x.code == y.code
  }

  /** Two ways lead to first tags of the same class and code. */
  ghost predicate TagClash(w: World, es: seq<NamedType>)
  {
    exists p, q, x, y :: p != q && ElmtFirstAt(w, es, p, x) && ElmtFirstAt(w, es, q, y) && SameId(x, y)
  }

  lemma ClashIff(w: World, b: nat, es: seq<NamedType>)
    requires WellFounded(w) && AllEnterable(w, b, es)
    ensures NoDup(Ids(AllFirst(w, b, es))) <==> !TagClash(w, es)
  {
    hide WellFounded, AllEnterable, AllFirst, ElmtFirstAt, InOrder;
    var ps := AllFirstFound(w, b, es);
    var tags := AllFirst(w, b, es);
    DistinctInOrder(ps);
    if !NoDup(Ids(tags)) {
      var i, j :| 0 <= i < j < |Ids(tags)| && Ids(tags)[i] == Ids(tags)[j];
      assert ps[i] != ps[j] && ElmtFirstAt(w, es, ps[i], tags[i]) && ElmtFirstAt(w, es, ps[j], tags[j]);
      assert SameId(tags[i], tags[j]);
    }
    if TagClash(w, es) {
      var p, q, x, y :| p != q && ElmtFirstAt(w, es, p, x) && ElmtFirstAt(w, es, q, y) && SameId(x, y);
      assert Listed(ps, tags, p, x) && Listed(ps, tags, q, y);
      var i :| 0 <= i < |ps| && ps[i] == p && tags[i] == x;
      var j :| 0 <= j < |ps| && ps[j] == q && tags[j] == y;
      assert Ids(tags)[i] == Ids(tags)[j];
    }
  }

  /** Whether the tags that the elements can begin with are all different. */
  method HasDistinctTags(w: World, ghost b: nat, elmts: seq<NamedType>) returns (distinct: bool)
    requires WellFounded(w) && AllEnterable(w, b, elmts)
    ensures distinct <==> NoDup(Ids(AllFirst(w, b, elmts)))
    ensures distinct <==> !TagClash(w, elmts)
  {
    hide WellFounded, First, AllFirst, IsDefined, NoDup, AddTags, TagClash;
    ClashIff(w, b, elmts);
    var tL := new DefinedObjs<Tag>();
    FirstNone(w, b, elmts, []);
    AddTagsToNone(AllFirst(w, b, elmts));
    for i := 0 to |elmts|
      invariant AddTags([], AllFirst(w, b, elmts[..i])) == (true, tL.objs)
    {
      FirstNext(w, b, elmts, i);
      FirstStops([], w, b, elmts, i + 1);
      AddTagsJoin([], AllFirst(w, b, elmts[..i]), First(w, b, elmts[i].asnType));
      var ok := AddFirstTag(tL, w, b, elmts[i].asnType);
      if !ok {
        return false;
      }
    }
    return true;
  }

  /**
   * What the checker accepts the code generators can use, as long as there is no bare alternative: the tags stolen
   * from an accepted CHOICE are distinct, and no tag begins two of its alternatives.
   */
  lemma AcceptedIsUnambiguous(w: World, forms: seq<int>, b: nat, t: Type, b': nat)
    requires WellFounded(w) && Known(w, t) && Enterable(w, b, t) && IsUntaggedChoice(w, t)
    requires AllEnterable(w, b', Fin(w, t).basicType.elmts)
    requires NoDup(Ids(AllFirst(w, b', Fin(w, t).basicType.elmts))) && !IsBare(w, b, t)
    ensures
      var got, es := TagsOf(w, forms, b, t), Fin(w, t).basicType.elmts;
      && got.Some? && got.value.stoleChoiceTags && NoDup(Ids(got.value.tags))
      && forall i, j :: 0 <= i < j < |es| ==> Apart(Ids(ElmtFirst(w, b', es[i])), Ids(ElmtFirst(w, b', es[j])))
  {
    hide WellFounded, Known, Enterable, NoDup, AllFirst, ElmtFirst, Eff, Fin, TagsOf, IsBare;
    WellFoundedChains(w);
    StolenDistinct(w, forms, b, t, b');
    var es := Fin(w, t).basicType.elmts;
    forall i, j | 0 <= i < j < |es|
      ensures Apart(Ids(ElmtFirst(w, b', es[i])), Ids(ElmtFirst(w, b', es[j])))
    {
      forall x | x in Ids(ElmtFirst(w, b', es[i]))
        ensures x !in Ids(ElmtFirst(w, b', es[j]))
      {
        var k :| 0 <= k < |ElmtFirst(w, b', es[i])| && Ids(ElmtFirst(w, b', es[i]))[k] == x;
        forall l | 0 <= l < |ElmtFirst(w, b', es[j])|
          ensures Ids(ElmtFirst(w, b', es[j]))[l] != x
        {
          OneAlternative(w, b', es, i, j, k, l);
        }
      }
    }
  }

  /** `CHOICE { a NULL, b ANY }`: the second alternative is bare. */
  function WithAny(): Type
  {
    var nullType := Type([Tag(0, PRIM, 5)], false, false, false, Other(5), None, None);
    var anyType := Type([], false, false, false, Other(BASICTYPE_ANY), None, None);
    Type([], false, false, false, Choice([NamedType(Some("a"), nullType), NamedType(Some("b"), anyType)]), None, None)
  }

  /** It is accepted, and yet `GetTags` exits. */
  lemma AcceptedButExits(forms: seq<int>)
    ensures
      var w, t := World(map[], map[], map[]), WithAny();
      && WellFounded(w) && Known(w, t) && Enterable(w, 0, t) && IsUntaggedChoice(w, t)
      && AllEnterable(w, 0, t.basicType.elmts) && NoDup(Ids(AllFirst(w, 0, t.basicType.elmts)))
      && IsBare(w, 0, t) && TagsOf(w, forms, 0, t) == None
  {
    hide Eff, First, NoDup;
    var w, t := World(map[], map[], map[]), WithAny();
    var es := t.basicType.elmts;
    WithAnyKnown();
    FirstOfTagged(w, 0, es[0]);
    assert es[..1] == [es[0]] && es[..1][..0] == [];
    assert AllFirst(w, 0, es[..1]) == [es[0].asnType.tags[0]];
    assert AllFirst(w, 0, es) == [es[0].asnType.tags[0]];
    OneTag(es[0].asnType.tags[0]);
    ExitsIff(w, forms, 0, t);
  }

  lemma OneTag(tag: Tag)
    ensures NoDup(Ids([tag]))
  {
  }

  lemma WithAnyKnown()
    ensures
      var w, t, es := World(map[], map[], map[]), WithAny(), WithAny().basicType.elmts;
      && WellFounded(w) && Known(w, t) && Enterable(w, 0, t) && IsUntaggedChoice(w, t) && Owner(w, t) == None
      && Known(w, es[0].asnType) && Enterable(w, 0, es[0].asnType) && Eff(w, es[0].asnType, false) == es[0].asnType.tags
      && Known(w, es[1].asnType) && Enterable(w, 0, es[1].asnType)
      && ElmtFirst(w, 0, es[1]) == [] && ElmtBare(w, 0, es[1])
  {
    var w, es := World(map[], map[], map[]), WithAny().basicType.elmts;
    assert Known(w, es[0].asnType) && Known(w, es[1].asnType) && Known(w, WithAny());
    assert Enterable(w, 0, es[0].asnType) && Enterable(w, 0, es[1].asnType);
  }

  predicate MayBeAbsent(e: NamedType)
  {
    e.asnType.optional || e.asnType.hasDefault
  }

  /** Where the optional elements that directly precede the `i`-th begin. */
  function RunStart(es: seq<NamedType>, i: nat): (s: nat)
    requires i <= |es|
    ensures s <= i
  {
    if i == 0 || !MayBeAbsent(es[i - 1]) then i else RunStart(es, i - 1)
  }

  /** The tags that optional elements directly before the `i`-th can begin with. */
  ghost function Skipped(w: World, b: nat, es: seq<NamedType>, i: nat): seq<Tag>
    requires WellFounded(w) && AllEnterable(w, b, es) && i <= |es|
  {
    AllFirst(w, b, es[RunStart(es, i)..i])
  }

  /** The element cannot be mistaken for one of the optional elements before it. */
  ghost predicate ElmtTagsOk(w: World, b: nat, es: seq<NamedType>, i: nat)
    requires WellFounded(w) && AllEnterable(w, b, es) && i < |es|
  {
    MayBeAbsent(es[i]) || Skipped(w, b, es, i) != [] ==>
      NoDup(Ids(Skipped(w, b, es, i) + First(w, b, es[i].asnType)))
  }

  lemma SkippedNext(w: World, b: nat, es: seq<NamedType>, i: nat)
    requires WellFounded(w) && AllEnterable(w, b, es) && i < |es|
    ensures Skipped(w, b, es, i + 1) ==
            if MayBeAbsent(es[i]) then Skipped(w, b, es, i) + First(w, b, es[i].asnType) else []
  {
    hide First, WellFounded;
    if MayBeAbsent(es[i]) {
      var s := RunStart(es, i);
      FirstNext(w, b, es[s..], i - s);
      assert es[s..][..i - s] == es[s..i] && es[s..][..i - s + 1] == es[s..i + 1];
    }
  }

  lemma AddTagsToNone(tags: seq<Tag>)
    ensures AddTags([], tags).0 <==> NoDup(Ids(tags))
  {
    AddTagsIff([], tags);
  }

  lemma NothingAdded(tags: seq<Tag>)
    ensures AddTags([], tags).0 ==> (AddTags([], tags).1 == [] <==> tags == [])
  {
    AddTagsIff([], tags);
    if tags != [] && AddTags([], tags).0 {
      assert Ids(tags)[0] in Ids(tags);
    }
  }

  /**
   * From element number `s` on all up to the `i`-th may be absent, and two ways within them and the `i`-th lead to the
   * same first tag. This is an error if the `i`-th may be absent as well, or any of those before it has first tags.
   */
  ghost predicate Confusable(w: World, es: seq<NamedType>, s: nat, i: nat)
    requires s <= i < |es|
  {
    && (forall k :: s <= k < i ==> es[k].asnType.optional || es[k].asnType.hasDefault)
    && (es[i].asnType.optional || es[i].asnType.hasDefault || exists p, x :: FirstIn(w, es, s, i, p, x))
    && ClashIn(w, es, s, i + 1)
  }

  ghost predicate ClashIn(w: World, es: seq<NamedType>, s: nat, i: nat)
  {
    exists p, q, x, y :: p != q && FirstIn(w, es, s, i, p, x) && FirstIn(w, es, s, i, q, y) && SameId(x, y)
  }

  /** A first tag of the elements from number `s` up to but not including number `i`. */
  ghost predicate FirstIn(w: World, es: seq<NamedType>, s: nat, i: nat, p: Path, x: Tag)
  {
    ElmtFirstAt(w, es, p, x) && s <= p[0] < i
  }

  /** The elements in between, by paths into all of them. */
  lemma FirstWithin(w: World, es: seq<NamedType>, s: nat, i: nat, p: Path, x: Tag)
    requires s <= i <= |es| && p != []
    ensures FirstIn(w, es, s, i, [s + p[0]] + p[1..], x) <==> ElmtFirstAt(w, es[s..i], p, x)
  {
    hide FirstAt;
    assert ([s + p[0]] + p[1..])[1..] == p[1..];
  }

  lemma ClashWithin(w: World, es: seq<NamedType>, s: nat, i: nat)
    requires s <= i <= |es|
    ensures TagClash(w, es[s..i]) <==> ClashIn(w, es, s, i)
  {
    hide FirstAt;
    if TagClash(w, es[s..i]) {
      var p, q, x, y :|
        p != q && ElmtFirstAt(w, es[s..i], p, x) && ElmtFirstAt(w, es[s..i], q, y) && SameId(x, y);
      var p', q' := [s + p[0]] + p[1..], [s + q[0]] + q[1..];
      FirstWithin(w, es, s, i, p, x);
      FirstWithin(w, es, s, i, q, y);
      assert p'[0] - s == p[0] && p'[1..] == p[1..] && q'[0] - s == q[0] && q'[1..] == q[1..];
      assert p == [p[0]] + p[1..] && q == [q[0]] + q[1..];
      assert p' != q';
    }
    if p, q, x, y :| p != q && FirstIn(w, es, s, i, p, x) && FirstIn(w, es, s, i, q, y) && SameId(x, y) {
      var p', q': Path := [p[0] - s] + p[1..], [q[0] - s] + q[1..];
      assert [s + p'[0]] + p'[1..] == p && [s + q'[0]] + q'[1..] == q;
      FirstWithin(w, es, s, i, p', x);
      FirstWithin(w, es, s, i, q', y);
    }
  }

  lemma AnyWithin(w: World, b: nat, es: seq<NamedType>, s: nat, i: nat)
    requires WellFounded(w) && AllEnterable(w, b, es) && s <= i <= |es|
    ensures AllFirst(w, b, es[s..i]) != [] <==> exists p, x :: FirstIn(w, es, s, i, p, x)
  {
    hide FirstAt, AllFirst, WellFounded, AllEnterable, InOrder;
    SliceEnterable(w, b, es, s, i);
    var ps := AllFirstFound(w, b, es[s..i]);
    var tags := AllFirst(w, b, es[s..i]);
    if tags != [] {
      FirstWithin(w, es, s, i, ps[0], tags[0]);
    }
    if p, x :| FirstIn(w, es, s, i, p, x) {
      var p': Path := [p[0] - s] + p[1..];
      assert [s + p'[0]] + p'[1..] == p;
      FirstWithin(w, es, s, i, p', x);
      assert Listed(ps, tags, p', x);
    }
  }

  lemma SliceEnterable(w: World, b: nat, es: seq<NamedType>, s: nat, i: nat)
    requires WellFounded(w) && AllEnterable(w, b, es) && s <= i <= |es|
    ensures AllEnterable(w, b, es[s..i])
  {
  }

  lemma {:induction false} RunIff(es: seq<NamedType>, s: nat, i: nat)
    requires s <= i <= |es|
    ensures s >= RunStart(es, i) <==> forall k :: s <= k < i ==> es[k].asnType.optional || es[k].asnType.hasDefault
    decreases i
  {
    if s < i {
      RunIff(es, s, i - 1);
    }
  }

  lemma {:induction false} AllFirstJoin(w: World, b: nat, es: seq<NamedType>, s: nat, i: nat)
    requires WellFounded(w) && AllEnterable(w, b, es) && s <= i < |es|
    ensures AllEnterable(w, b, es[s..i + 1]) && AllEnterable(w, b, es[s..i])
    ensures AllFirst(w, b, es[s..i + 1]) == AllFirst(w, b, es[s..i]) + First(w, b, es[i].asnType)
  {
    hide WellFounded, First, AllFirst, Enterable;
    assert es[s..][..i - s] == es[s..i] && es[s..][..i - s + 1] == es[s..i + 1];
    FirstNext(w, b, es[s..], i - s);
  }

  /** Where the check finds an error. */
  lemma ConfusableIff(w: World, b: nat, es: seq<NamedType>, i: nat)
    requires WellFounded(w) && AllEnterable(w, b, es) && i < |es|
    ensures ElmtTagsOk(w, b, es, i) <==> !exists s :: 0 <= s <= i && Confusable(w, es, s, i)
  {
    hide WellFounded, First, AllFirst, AllEnterable, FirstIn, NoDup, TagClash, ClashIn;
    var r := RunStart(es, i);
    AllFirstJoin(w, b, es, r, i);
    ClashIff(w, b, es[r..i + 1]);
    ClashWithin(w, es, r, i + 1);
    AnyWithin(w, b, es, r, i);
    RunIff(es, r, i);
    if !ElmtTagsOk(w, b, es, i) {
      assert Confusable(w, es, r, i);
    }
    if s :| 0 <= s <= i && Confusable(w, es, s, i) {
      RunIff(es, s, i);
      Wider(w, es, r, s, i);
    }
  }

  lemma Wider(w: World, es: seq<NamedType>, r: nat, s: nat, i: nat)
    requires r <= s <= i < |es| && Confusable(w, es, s, i)
    requires forall k :: r <= k < i ==> es[k].asnType.optional || es[k].asnType.hasDefault
    ensures Confusable(w, es, r, i)
  {
    hide ElmtFirstAt;
    if p, x :| FirstIn(w, es, s, i, p, x) {
      assert FirstIn(w, es, r, i, p, x);
    }
    ClashWider(w, es, r, s, i + 1);
  }

  lemma ClashWider(w: World, es: seq<NamedType>, r: nat, s: nat, i: nat)
    requires r <= s && ClashIn(w, es, s, i)
    ensures ClashIn(w, es, r, i)
  {
    hide ElmtFirstAt;
    var p, q, x, y :| p != q && FirstIn(w, es, s, i, p, x) && FirstIn(w, es, s, i, q, y) && SameId(x, y);
    assert FirstIn(w, es, r, i, p, x) && FirstIn(w, es, r, i, q, y);
  }

  lemma AllOkIff(w: World, b: nat, es: seq<NamedType>)
    requires WellFounded(w) && AllEnterable(w, b, es)
    ensures (forall i :: 0 <= i < |es| ==> ElmtTagsOk(w, b, es, i))
            <==> forall s, i :: 0 <= s <= i < |es| ==> !Confusable(w, es, s, i)
  {
    hide WellFounded, AllEnterable, ElmtTagsOk, Confusable;
    forall i | 0 <= i < |es|
      ensures ElmtTagsOk(w, b, es, i) <==> !exists s :: 0 <= s <= i && Confusable(w, es, s, i)
    {
      ConfusableIff(w, b, es, i);
    }
    forall s, i | 0 <= s <= i < |es| && Confusable(w, es, s, i)
      ensures !ElmtTagsOk(w, b, es, i)
    {
    }
    forall i | 0 <= i < |es| && !ElmtTagsOk(w, b, es, i)
      ensures exists s :: 0 <= s <= i && Confusable(w, es, s, i)
    {
    }
  }

  /** Whether the module stays without an error for the tags of a SEQUENCE. */
  method ChkSeqTags(w: World, ghost b: nat, t: Type) returns (ok: bool)
    requires WellFounded(w)
    requires t.basicType.Sequence? ==> AllEnterable(w, b, t.basicType.elmts)
    ensures !t.basicType.Sequence? ==> ok
    ensures t.basicType.Sequence? ==>
      (ok <==> forall s, i :: 0 <= s <= i < |t.basicType.elmts| ==> !Confusable(w, t.basicType.elmts, s, i))
  {
    hide WellFounded, First, AllFirst, IsDefined, NoDup, AddTags, Skipped, Confusable;
    ok := true;
    if !t.basicType.Sequence? {
      return;
    }
    var es := t.basicType.elmts;
    var dO := new DefinedObjs<Tag>();
    SkippedNone(w, b, es);
    for i := 0 to |es|
      invariant fresh(dO)
      invariant ok <==> forall k :: 0 <= k < i ==> ElmtTagsOk(w, b, es, k)
      invariant ok ==> AddTags([], Skipped(w, b, es, i)) == (true, dO.objs)
    {
      var e := es[i];
      ghost var before := Skipped(w, b, es, i);
      SkippedNext(w, b, es, i);
      NothingAdded(before);
      AddTagsJoin([], before, First(w, b, e.asnType));
      AddTagsToNone(before + First(w, b, e.asnType));
      ghost var was := ok;
      if MayBeAbsent(e) {
        var added := AddFirstTag(dO, w, b, e.asnType);
        if !added {
          ok := false;
        }
      } else if dO.objs != [] {
        var added := AddFirstTag(dO, w, b, e.asnType);
        if !added {
          ok := false;
        }
        dO := new DefinedObjs<Tag>();
        SkippedNone(w, b, es);
      }
      assert was ==> (ok <==> ElmtTagsOk(w, b, es, i));
    }
    AllOkIff(w, b, es);
  }

  lemma SkippedNone(w: World, b: nat, es: seq<NamedType>)
    requires WellFounded(w) && AllEnterable(w, b, es)
    ensures Skipped(w, b, es, 0) == [] && AddTags([], []) == (true, [])
  {
  }
}

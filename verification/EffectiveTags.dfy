/** The tags a type is encoded with, along references and through untagged CHOICEs. */
module EffectiveTags {
  import opened Octets
  import opened Asn1Types
  import opened Paths

  /**
   * All type definitions, each with two ranks: one that falls along chains of references, and one that falls from a
   * CHOICE to those that its alternatives without tags lead to.
   */
  datatype World = World(defs: map<TypeDefPtr, TypeDef>, chain: map<TypeDefPtr, nat>, choice: map<TypeDefPtr, nat>)

  predicate IsLinked(t: Type)
  {
    t.basicType.IsTypeRef() && t.basicType.link.Some?
  }

  /** The references of a type and of its alternatives lead to known type definitions. */
  predicate Known(w: World, t: Type)
  {
    if t.basicType.IsTypeRef() then
      IsLinked(t) ==>
        && t.basicType.link.value in w.defs
        && t.basicType.link.value in w.chain && t.basicType.link.value in w.choice
    else if t.basicType.Choice? then
      forall i :: 0 <= i < |t.basicType.elmts| ==> Known(w, t.basicType.elmts[i].asnType)
    else true
  }

  /** No chain of references is circular. */
  predicate Chains(w: World)
  {
    forall d :: d in w.defs ==> Falls(w, d)
  }

  predicate Falls(w: World, d: TypeDefPtr)
    requires d in w.defs
  {
    && d in w.chain && d in w.choice && Known(w, w.defs[d].asnType)
    && (IsLinked(w.defs[d].asnType) ==> w.chain[w.defs[d].asnType.basicType.link.value] < w.chain[d])
  }

  /** How far the chain that begins at the type can reach. */
  function Depth(w: World, t: Type): nat
    requires Known(w, t)
  {
    if IsLinked(t) then w.chain[t.basicType.link.value] + 1 else 0
  }

  /** The type that a reference leads to. */
  function Target(w: World, t: Type): (target: Type)
    requires Chains(w) && Known(w, t) && IsLinked(t)
    ensures Known(w, target) && Depth(w, target) < Depth(w, t)
  {
    assert Falls(w, t.basicType.link.value);
    w.defs[t.basicType.link.value].asnType
  }

  /** The tags written at the type itself, a pending IMPLICIT dropping the first. */
  function OwnTags(t: Type, pending: bool): seq<Tag>
  {
    if pending && t.tags != [] then t.tags[1..] else t.tags
  }

  /** Whether an IMPLICIT is pending when the reference `t` is followed. */
  function StillPending(t: Type, pending: bool): bool
  {
    (pending && t.tags == []) || t.implicit
  }

  /** The effective tags: those on the chain of references, each IMPLICIT dropping the next one. */
  function Eff(w: World, t: Type, pending: bool): seq<Tag>
    requires Chains(w) && Known(w, t)
    decreases Depth(w, t)
  {
    if IsLinked(t) then OwnTags(t, pending) + Eff(w, Target(w, t), StillPending(t, pending)) else OwnTags(t, pending)
  }

  /** The type at the end of the chain of references, which is a reference only if that is not linked. */
  function Fin(w: World, t: Type): (f: Type)
    requires Chains(w) && Known(w, t)
    ensures !IsLinked(f) && Known(w, f)
    decreases Depth(w, t)
  {
    if IsLinked(t) then Fin(w, Target(w, t)) else t
  }

  /** The definition that the type at the end of the chain belongs to; `None` where the chain has no reference. */
  function Owner(w: World, t: Type): (owner: Option<TypeDefPtr>)
    requires Chains(w) && Known(w, t)
    ensures owner.Some? ==> owner.value in w.defs && w.defs[owner.value].asnType == Fin(w, t)
    ensures owner.None? ==> Fin(w, t) == t && !IsLinked(t)
    decreases Depth(w, t)
  {
    if IsLinked(t) then
      match Owner(w, Target(w, t))
      case Some(d) => Some(d)
      case None => Some(t.basicType.link.value)
    else None
  }

  /** The type has no tags but those of the alternatives of a CHOICE. */
  predicate IsUntaggedChoice(w: World, t: Type)
    requires Chains(w) && Known(w, t)
  {
    Eff(w, t, false) == [] && Fin(w, t).basicType.Choice?
  }

  /** The rank of the CHOICE at the end of the chain, given that of where the type stands. */
  function Level(w: World, b: nat, t: Type): nat
    requires Chains(w) && Known(w, t)
  {
    match Owner(w, t)
    case Some(d) => w.choice[d]
    case None => b
  }

  /** An untagged CHOICE that the type leads to, and any that its alternatives lead to, ranks below `b`. */
  predicate Enterable(w: World, b: nat, t: Type)
    requires Chains(w) && Known(w, t)
  {
    IsUntaggedChoice(w, t) ==>
      match Owner(w, t)
      case Some(d) => w.choice[d] < b
      case None => forall i :: 0 <= i < |t.basicType.elmts| ==> Enterable(w, b, t.basicType.elmts[i].asnType)
  }

  predicate AllEnterable(w: World, b: nat, es: seq<NamedType>)
    requires Chains(w)
  {
    forall i :: 0 <= i < |es| ==> Known(w, es[i].asnType) && Enterable(w, b, es[i].asnType)
  }

  /** No CHOICE leads back to itself by alternatives that have no tags; with tags, it may. */
  predicate WellFounded(w: World)
  {
    && Chains(w)
    && forall d :: d in w.defs && w.defs[d].asnType.basicType.Choice? ==>
         AllEnterable(w, w.choice[d], w.defs[d].asnType.basicType.elmts)
  }

  /** The alternatives of an untagged CHOICE are of lower rank, or embedded in the type. */
  lemma Below(w: World, b: nat, t: Type)
    requires WellFounded(w) && Known(w, t) && Enterable(w, b, t) && IsUntaggedChoice(w, t)
    ensures AllEnterable(w, Level(w, b, t), Fin(w, t).basicType.elmts)
    ensures Level(w, b, t) < b || (Level(w, b, t) == b && Fin(w, t) == t)
  {
    hide Eff, Fin, Known;
    match Owner(w, t) {
      case Some(d) =>
      case None =>
        KnownElmts(w, t);
    }
  }

  lemma KnownElmts(w: World, t: Type)
    requires Known(w, t) && t.basicType.Choice?
    ensures forall i :: 0 <= i < |t.basicType.elmts| ==> Known(w, t.basicType.elmts[i].asnType)
  {
  }

  /** The tags a value of the type can begin with. */
  function First(w: World, b: nat, t: Type): seq<Tag>
    requires WellFounded(w) && Known(w, t) && Enterable(w, b, t)
    decreases b, t
  {
    if Eff(w, t, false) != [] then [Eff(w, t, false)[0]]
    else if !Fin(w, t).basicType.Choice? then []
    else
      Below(w, b, t);
      AllFirst(w, Level(w, b, t), Fin(w, t).basicType.elmts)
  }

  function AllFirst(w: World, b: nat, es: seq<NamedType>): seq<Tag>
    requires WellFounded(w) && AllEnterable(w, b, es)
    decreases b, es
  {
    if es == [] then [] else AllFirst(w, b, es[..|es| - 1]) + ElmtFirst(w, b, es[|es| - 1])
  }

  function ElmtFirst(w: World, b: nat, e: NamedType): seq<Tag>
    requires WellFounded(w) && Known(w, e.asnType) && Enterable(w, b, e.asnType)
    decreases b, e
  {
    First(w, b, e.asnType)
  }

  /** `c` are the types that one comes to from `t` by following references. */
  ghost predicate RefChain(w: World, t: Type, c: seq<Type>)
  {
    && c != [] && c[0] == t && (forall i :: 0 <= i < |c| - 1 ==> RefersTo(w, c[i], c[i + 1]))
    && (c[|c| - 1].basicType.IsTypeRef() ==> c[|c| - 1].basicType.link == None)
  }

  predicate RefersTo(w: World, t: Type, next: Type)
  {
    && t.basicType.IsTypeRef() && t.basicType.link.Some?
    && t.basicType.link.value in w.defs && w.defs[t.basicType.link.value].asnType == next
  }

  /** Some type before has IMPLICIT, and there are no tags between; so the first tag of `c[i]` is replaced. */
  ghost predicate Dropped(c: seq<Type>, i: nat)
    requires i <= |c|
  {
    exists k :: 0 <= k < i && c[k].implicit && NoTagsBetween(c, k, i)
  }

  predicate NoTagsBetween(c: seq<Type>, k: nat, i: nat)
    requires i <= |c|
  {
    forall m :: k < m < i ==> c[m].tags == []
  }

  /** Tag number `j` of `c[i]` is written into encodings. */
  ghost predicate Effective(c: seq<Type>, i: nat, j: nat)
  {
    i < |c| && j < |c[i].tags| && !(j == 0 && Dropped(c, i))
  }

  /** Exactly the effective tags from the type `c[i]` on, in order; `ps` says where each of them is. */
  ghost predicate TagsAlong(c: seq<Type>, i: nat, tags: seq<Tag>, ps: seq<Path>)
  {
    && |ps| == |tags| && InOrder(ps)
    && (forall k :: 0 <= k < |ps| ==> |ps[k]| == 2 && ps[k][0] >= i && TagAt(c, ps[k], tags[k]))
    && forall a: nat, b: nat :: a >= i && Effective(c, a, b) ==> [a, b] in ps
  }

  ghost predicate TagAt(c: seq<Type>, p: Path, tag: Tag)
    requires |p| == 2
  {
    Effective(c, p[0], p[1]) && tag == c[p[0]].tags[p[1]]
  }

  lemma {:induction false} FindChain(w: World, t: Type) returns (c: seq<Type>)
    requires Chains(w) && Known(w, t)
    ensures RefChain(w, t, c)
    decreases Depth(w, t)
  {
    c := [t];
    if IsLinked(t) {
      var rest := FindChain(w, Target(w, t));
      c := [t] + rest;
      assert forall i :: 0 < i < |c| - 1 ==> c[i] == rest[i - 1] && c[i + 1] == rest[i];
      assert RefersTo(w, c[0], c[1]);
    }
  }

  lemma {:induction false} ChainKnown(w: World, t: Type, c: seq<Type>, i: nat)
    requires Chains(w) && Known(w, t) && RefChain(w, t, c) && i < |c|
    ensures Known(w, c[i]) && Fin(w, t) == Fin(w, c[i])
    decreases i
  {
    if i > 0 {
      ChainKnown(w, t, c, i - 1);
      ChainStep(w, c, i - 1);
    }
  }

  lemma ChainStep(w: World, c: seq<Type>, i: nat)
    requires Chains(w) && i + 1 < |c| && Known(w, c[i]) && RefersTo(w, c[i], c[i + 1])
    ensures IsLinked(c[i]) && Known(w, c[i + 1]) && Target(w, c[i]) == c[i + 1] && Fin(w, c[i]) == Fin(w, c[i + 1])
  {
    hide Eff;
    assert Falls(w, c[i].basicType.link.value);
  }

  /** An IMPLICIT is pending where the next first tag is dropped. */
  lemma PendingNext(c: seq<Type>, i: nat)
    requires i < |c|
    ensures StillPending(c[i], Dropped(c, i)) <==> Dropped(c, i + 1)
  {
    if c[i].implicit {
      assert NoTagsBetween(c, i, i + 1);
    }
    if Dropped(c, i) && c[i].tags == [] {
      var k :| 0 <= k < i && c[k].implicit && NoTagsBetween(c, k, i);
      assert NoTagsBetween(c, k, i + 1);
    }
    if Dropped(c, i + 1) {
      var k :| 0 <= k < i + 1 && c[k].implicit && NoTagsBetween(c, k, i + 1);
      assert k < i ==> NoTagsBetween(c, k, i) && c[i].tags == [];
    }
  }

  /** The places `[i, lo]`, `[i, lo + 1]` and so on. */
  function Row(i: nat, lo: nat, n: nat): (ps: seq<Path>)
    ensures |ps| == n && forall k :: 0 <= k < n ==> ps[k] == [i, lo + k]
  {
    seq(n, k requires 0 <= k < n => [i, lo + k])
  }

  lemma RowInOrder(i: nat, lo: nat, n: nat)
    ensures InOrder(Row(i, lo, n))
  {
    forall a, b | 0 <= a < b < n
      ensures Earlier(Row(i, lo, n)[a], Row(i, lo, n)[b])
    {
      assert [i, lo + a][1..] == [lo + a] && [i, lo + b][1..] == [lo + b];
    }
  }

  lemma OwnAlong(c: seq<Type>, i: nat) returns (ps: seq<Path>)
    requires i < |c|
    ensures |ps| == |OwnTags(c[i], Dropped(c, i))| && InOrder(ps)
    ensures forall k :: 0 <= k < |ps| ==>
      |ps[k]| == 2 && ps[k][0] == i && TagAt(c, ps[k], OwnTags(c[i], Dropped(c, i))[k])
    ensures forall b: nat :: Effective(c, i, b) ==> [i, b] in ps
  {
    var own := OwnTags(c[i], Dropped(c, i));
    var lo := |c[i].tags| - |own|;
    ps := Row(i, lo, |own|);
    RowInOrder(i, lo, |own|);
    forall b: nat | Effective(c, i, b)
      ensures [i, b] in ps
    {
      assert ps[b - lo] == [i, b];
    }
  }

  /** What `Eff` is: the tags along the references, without each first one that an IMPLICIT before it replaces. */
  lemma {:induction false} EffFound(w: World, t: Type, c: seq<Type>, i: nat) returns (ps: seq<Path>)
    requires Chains(w) && Known(w, t) && RefChain(w, t, c) && i < |c| && Known(w, c[i])
    ensures TagsAlong(c, i, Eff(w, c[i], Dropped(c, i)), ps)
    decreases |c| - i
  {
    hide Known, Chains, Dropped, Effective, InOrder, OwnTags;
    ps := OwnAlong(c, i);
    LinkedBefore(w, t, c);
    Within(c);
    if i + 1 < |c| {
      ChainStep(w, c, i);
      PendingNext(c, i);
      var qs := EffFound(w, t, c, i + 1);
      JoinAlong(c, i, OwnTags(c[i], Dropped(c, i)), ps, Eff(w, c[i + 1], Dropped(c, i + 1)), qs);
      ps := ps + qs;
    }
  }

  lemma Within(c: seq<Type>)
    ensures forall i: nat, j: nat :: Effective(c, i, j) ==> i < |c| && j < |c[i].tags|
  {
  }

  lemma JoinAlong(c: seq<Type>, i: nat, own: seq<Tag>, ps: seq<Path>, more: seq<Tag>, qs: seq<Path>)
    requires i < |c| && |ps| == |own| && InOrder(ps)
    requires forall k :: 0 <= k < |ps| ==> |ps[k]| == 2 && ps[k][0] == i && TagAt(c, ps[k], own[k])
    requires forall b: nat :: Effective(c, i, b) ==> [i, b] in ps
    requires TagsAlong(c, i + 1, more, qs)
    ensures TagsAlong(c, i, own + more, ps + qs)
  {
    hide TagAt, Effective, InOrder;
    InOrderConcat(ps, qs);
    var all, tags := ps + qs, own + more;
    forall k | 0 <= k < |all|
      ensures |all[k]| == 2 && all[k][0] >= i && TagAt(c, all[k], tags[k])
    {
      if k >= |ps| {
        assert all[k] == qs[k - |ps|] && tags[k] == more[k - |ps|];
      }
    }
    forall a: nat, b: nat | a >= i && Effective(c, a, b)
      ensures [a, b] in all
    {
      if a == i {
        assert [a, b] in ps;
      } else {
        assert [a, b] in qs;
      }
    }
  }

  /** How many tags are written from `c[i]` on, and how many of them are replaced. */
  function TagsWritten(c: seq<Type>, i: nat): nat
    requires i <= |c|
    decreases |c| - i
  {
    if i == |c| then 0 else |c[i].tags| + TagsWritten(c, i + 1)
  }

  ghost function TagsReplaced(c: seq<Type>, i: nat): nat
    requires i <= |c|
    decreases |c| - i
  {
    if i == |c| then 0
    else (if c[i].tags != [] && Dropped(c, i) then 1 else 0) + TagsReplaced(c, i + 1)
  }

  lemma {:induction false} EffLength(w: World, t: Type, c: seq<Type>, i: nat)
    requires Chains(w) && Known(w, t) && RefChain(w, t, c) && i < |c| && Known(w, c[i])
    ensures |Eff(w, c[i], Dropped(c, i))| == TagsWritten(c, i) - TagsReplaced(c, i)
    decreases |c| - i
  {
    hide Known, Chains, Dropped;
    if i + 1 < |c| {
      ChainStep(w, c, i);
      PendingNext(c, i);
      EffLength(w, t, c, i + 1);
    }
  }

  /** The tags of a type are exactly the effective ones along its references, in order. */
  lemma EffectiveAlong(w: World, t: Type) returns (c: seq<Type>, ps: seq<Path>)
    requires Chains(w) && Known(w, t)
    ensures c != [] && RefChain(w, t, c) && TagsAlong(c, 0, Eff(w, t, false), ps) && Fin(w, t) == c[|c| - 1]
    ensures |Eff(w, t, false)| == TagsWritten(c, 0) - TagsReplaced(c, 0)
  {
    hide Known, Chains, Eff, TagsAlong, TagsWritten, TagsReplaced;
    c := FindChain(w, t);
    ps := EffFound(w, t, c, 0);
    EffLength(w, t, c, 0);
    ChainKnown(w, t, c, |c| - 1);
  }

  lemma LinkedBefore(w: World, t: Type, c: seq<Type>)
    requires RefChain(w, t, c)
    ensures forall i :: 0 <= i < |c| ==> (IsLinked(c[i]) <==> i < |c| - 1)
  {
    forall i | 0 <= i < |c| - 1
      ensures IsLinked(c[i])
    {
      assert RefersTo(w, c[i], c[i + 1]);
    }
  }

  lemma {:induction false} OneRefChain(w: World, t: Type, c: seq<Type>, c': seq<Type>, i: nat)
    requires RefChain(w, t, c) && RefChain(w, t, c') && i < |c|
    ensures i < |c'| && c[i] == c'[i]
    decreases i
  {
    LinkedBefore(w, t, c);
    LinkedBefore(w, t, c');
    if i > 0 {
      OneRefChain(w, t, c, c', i - 1);
      assert RefersTo(w, c[i - 1], c[i]) && RefersTo(w, c'[i - 1], c'[i]);
    }
  }

  lemma SameRefChain(w: World, t: Type, c: seq<Type>, c': seq<Type>)
    requires RefChain(w, t, c) && RefChain(w, t, c')
    ensures c == c'
  {
    LinkedBefore(w, t, c);
    LinkedBefore(w, t, c');
    forall i | 0 <= i < |c|
      ensures i < |c'| && c[i] == c'[i]
    {
      OneRefChain(w, t, c, c', i);
    }
  }

  /** The first effective tag. */
  ghost predicate HeadTag(c: seq<Type>, x: Tag)
  {
    exists i: nat, j: nat :: Effective(c, i, j) && x == c[i].tags[j] && NoneEarlier(c, i, j)
  }

  ghost predicate NoneEarlier(c: seq<Type>, i: nat, j: nat)
  {
    forall a: nat, b: nat :: Effective(c, a, b) ==> !Earlier([a, b], [i, j])
  }

  ghost predicate NoTag(c: seq<Type>)
  {
    forall i: nat, j: nat :: !Effective(c, i, j)
  }

  /**
   * A value of the type can begin with the tag `x`: it is the type's first effective tag, or the type has none and is
   * a CHOICE, and `x` is that of the alternative that the path goes on with.
   */
  ghost predicate FirstAt(w: World, t: Type, p: Path, x: Tag)
    decreases |p|, 1
  {
    exists c :: RefChain(w, t, c) && FirstVia(w, c, p, x)
  }

  ghost predicate FirstVia(w: World, c: seq<Type>, p: Path, x: Tag)
    decreases |p|, 0
  {
    c != [] &&
    if p == [] then HeadTag(c, x)
    else
      && NoTag(c) && c[|c| - 1].basicType.Choice? && p[0] < |c[|c| - 1].basicType.elmts|
      && FirstAt(w, c[|c| - 1].basicType.elmts[p[0]].asnType, p[1..], x)
  }

  ghost predicate ElmtFirstAt(w: World, es: seq<NamedType>, p: Path, x: Tag)
  {
    p != [] && p[0] < |es| && FirstAt(w, es[p[0]].asnType, p[1..], x)
  }

  ghost predicate FirstAlong(w: World, t: Type, tags: seq<Tag>, ps: seq<Path>)
  {
    && |ps| == |tags| && InOrder(ps)
    && (forall k :: 0 <= k < |ps| ==> FirstAt(w, t, ps[k], tags[k]))
    && forall p, x :: FirstAt(w, t, p, x) ==> Listed(ps, tags, p, x)
  }

  ghost predicate ElmtFirstAlong(w: World, es: seq<NamedType>, tags: seq<Tag>, ps: seq<Path>)
  {
    && |ps| == |tags| && InOrder(ps)
    && (forall k :: 0 <= k < |ps| ==> ElmtFirstAt(w, es, ps[k], tags[k]))
    && forall p, x :: ElmtFirstAt(w, es, p, x) ==> Listed(ps, tags, p, x)
  }

  lemma HeadIff(w: World, t: Type) returns (c: seq<Type>)
    requires Chains(w) && Known(w, t)
    ensures c != [] && RefChain(w, t, c) && Fin(w, t) == c[|c| - 1]
    ensures NoTag(c) <==> Eff(w, t, false) == []
    ensures forall x :: HeadTag(c, x) <==> Eff(w, t, false) != [] && x == Eff(w, t, false)[0]
  {
    hide Known, Chains, Eff, Fin, Effective;
    var ps;
    c, ps := EffectiveAlong(w, t);
    var tags := Eff(w, t, false);
    if tags != [] {
      HeadOf(c, tags, ps);
    } else {
      assert forall i: nat, j: nat :: Effective(c, i, j) ==> [i, j] in ps;
    }
  }

  lemma HeadOf(c: seq<Type>, tags: seq<Tag>, ps: seq<Path>)
    requires TagsAlong(c, 0, tags, ps) && tags != []
    ensures !NoTag(c) && forall x :: HeadTag(c, x) <==> x == tags[0]
  {
    hide Effective, Earlier;
    var i, j := ps[0][0], ps[0][1];
    Within(c);
    assert Effective(c, i, j) && ps[0] == [i, j];
    forall a: nat, b: nat | Effective(c, a, b)
      ensures !Earlier([a, b], [i, j]) && ([a, b] == [i, j] || Earlier([i, j], [a, b]))
    {
      var k :| 0 <= k < |ps| && ps[k] == [a, b];
      NotEarlier([i, j]);
      if k > 0 {
        assert Earlier(ps[0], ps[k]);
        NotBoth([i, j], [a, b]);
      }
    }
    assert NoneEarlier(c, i, j);
    forall x | HeadTag(c, x)
      ensures x == tags[0]
    {
      var a: nat, b: nat :| Effective(c, a, b) && x == c[a].tags[b] && NoneEarlier(c, a, b);
      assert [a, b] == [i, j] ==> a == i && b == j;
    }
  }

  /** The tags that a value of the type can begin with are those to which paths lead. */
  lemma {:induction false} FirstFound(w: World, b: nat, t: Type) returns (ps: seq<Path>)
    requires WellFounded(w) && Known(w, t) && Enterable(w, b, t)
    ensures FirstAlong(w, t, First(w, b, t), ps)
    decreases b, t, 1
  {
    hide Eff, Fin, Enterable, Known, Chains, AllFirst, FirstAlong, ElmtFirstAlong, NoTag, HeadTag, RefChain;
    var c := HeadIff(w, t);
    ps := [];
    if Eff(w, t, false) != [] {
      ps := [[]];
      HeadAlong(w, t, c, Eff(w, t, false)[0]);
    } else if Fin(w, t).basicType.Choice? {
      Below(w, b, t);
      ps := AllFirstFound(w, Level(w, b, t), Fin(w, t).basicType.elmts);
      ChoiceAlong(w, t, c, First(w, b, t), ps);
    } else {
      NothingAlong(w, t, c);
    }
  }

  /** There is but one chain. */
  lemma TheChain(w: World, t: Type, c: seq<Type>, p: Path, x: Tag)
    requires RefChain(w, t, c)
    ensures FirstAt(w, t, p, x) <==> FirstVia(w, c, p, x)
  {
    hide FirstVia, RefChain;
    forall c' | RefChain(w, t, c')
      ensures c' == c
    {
      SameRefChain(w, t, c, c');
    }
  }

  lemma HeadAlong(w: World, t: Type, c: seq<Type>, x: Tag)
    requires RefChain(w, t, c) && c != [] && !NoTag(c) && forall y :: HeadTag(c, y) <==> y == x
    ensures FirstAlong(w, t, [x], [[]])
  {
    hide NoTag, HeadTag, RefChain, FirstAt;
    var ps: seq<Path> := [[]];
    forall p, y
      ensures FirstAt(w, t, p, y) <==> p == [] && y == x
    {
      TheChain(w, t, c, p, y);
    }
    forall p, y | FirstAt(w, t, p, y)
      ensures Listed(ps, [x], p, y)
    {
      assert ps[0] == p && [x][0] == y;
    }
  }

  lemma NothingAlong(w: World, t: Type, c: seq<Type>)
    requires RefChain(w, t, c) && c != [] && NoTag(c) && !c[|c| - 1].basicType.Choice?
    ensures FirstAlong(w, t, [], [])
  {
    hide RefChain, FirstAt, NoTag, HeadTag;
    forall p, y
      ensures !FirstAt(w, t, p, y)
    {
      TheChain(w, t, c, p, y);
      NoHead(c, y);
    }
  }

  lemma ChoiceAlong(w: World, t: Type, c: seq<Type>, tags: seq<Tag>, ps: seq<Path>)
    requires RefChain(w, t, c) && c != [] && NoTag(c) && c[|c| - 1].basicType.Choice?
    requires ElmtFirstAlong(w, c[|c| - 1].basicType.elmts, tags, ps)
    ensures FirstAlong(w, t, tags, ps)
  {
    hide RefChain, FirstAt, NoTag, HeadTag, InOrder;
    var es := c[|c| - 1].basicType.elmts;
    forall p, y
      ensures FirstAt(w, t, p, y) <==> ElmtFirstAt(w, es, p, y)
    {
      TheChain(w, t, c, p, y);
      NoHead(c, y);
    }
  }

  lemma NoHead(c: seq<Type>, y: Tag)
    requires NoTag(c)
    ensures !HeadTag(c, y)
  {
    hide Effective;
  }

  lemma {:induction false} AllFirstFound(w: World, b: nat, es: seq<NamedType>) returns (ps: seq<Path>)
    requires WellFounded(w) && AllEnterable(w, b, es)
    ensures ElmtFirstAlong(w, es, AllFirst(w, b, es), ps)
    decreases b, es, 0
  {
    hide WellFounded, Known, Enterable, ElmtFirst, FirstAlong, ElmtFirstAlong;
    ps := [];
    if es == [] {
      NoElmtsAlong(w);
    } else {
      var i := |es| - 1;
      ps := AllFirstFound(w, b, es[..i]);
      var qs := ElmtFirstFound(w, b, es[i]);
      ElmtsAlong(w, es, AllFirst(w, b, es[..i]), ps, ElmtFirst(w, b, es[i]), qs);
      ps := ps + Under(i, qs);
    }
  }

  lemma {:induction false} ElmtFirstFound(w: World, b: nat, e: NamedType) returns (ps: seq<Path>)
    requires WellFounded(w) && Known(w, e.asnType) && Enterable(w, b, e.asnType)
    ensures FirstAlong(w, e.asnType, ElmtFirst(w, b, e), ps)
    decreases b, e
  {
    ps := FirstFound(w, b, e.asnType);
  }

  lemma NoElmtsAlong(w: World)
    ensures ElmtFirstAlong(w, [], [], [])
  {
  }

  lemma ElmtsAlong(w: World, es: seq<NamedType>, tags: seq<Tag>, ps: seq<Path>, more: seq<Tag>, qs: seq<Path>)
    requires es != [] && ElmtFirstAlong(w, es[..|es| - 1], tags, ps)
    requires FirstAlong(w, es[|es| - 1].asnType, more, qs)
    ensures ElmtFirstAlong(w, es, tags + more, ps + Under(|es| - 1, qs))
  {
    hide FirstAt, InOrder;
    var i := |es| - 1;
    InOrderJoin(ps, i, qs);
    var all := ps + Under(i, qs);
    assert forall k :: 0 <= k < |qs| ==> ([i] + qs[k])[1..] == qs[k];
    forall p, x | ElmtFirstAt(w, es, p, x)
      ensures Listed(all, tags + more, p, x)
    {
      if p[0] < i {
        assert ElmtFirstAt(w, es[..i], p, x);
        assert Listed(ps, tags, p, x);
        var k :| 0 <= k < |ps| && ps[k] == p && tags[k] == x;
        assert all[k] == p && (tags + more)[k] == x;
      } else {
        assert Listed(qs, more, p[1..], x);
        var k :| 0 <= k < |qs| && qs[k] == p[1..] && more[k] == x;
        assert all[|ps| + k] == p && (tags + more)[|ps| + k] == x;
      }
    }
  }

  const ANY_FORM := -2
  const NULL_FORM := -1
  const PRIM := 0
  const CONS := 32

  /** The forms of the library types by choice id, for BER and for DER. */
  const LIB_BER_FORMS: seq<int> :=
    [NULL_FORM, PRIM, PRIM, ANY_FORM, ANY_FORM, PRIM, PRIM, PRIM, PRIM, CONS, CONS, CONS, CONS, CONS, NULL_FORM, CONS,
     CONS, CONS, NULL_FORM, NULL_FORM, NULL_FORM, NULL_FORM, ANY_FORM, ANY_FORM, ANY_FORM, ANY_FORM, ANY_FORM,
     ANY_FORM, ANY_FORM, ANY_FORM, ANY_FORM, ANY_FORM, ANY_FORM, ANY_FORM, ANY_FORM, ANY_FORM, CONS, ANY_FORM, PRIM,
     PRIM]
  const LIB_DER_FORMS: seq<int> := LIB_BER_FORMS[3 := PRIM][4 := PRIM][37 := PRIM]

  /** All forms constructed, but for the last one. */
  function Formed(tags: seq<Tag>, last: int): seq<Tag>
  {
    if tags == [] then []
    else seq(|tags| - 1, i requires 0 <= i < |tags| - 1 => tags[i].(form := CONS)) + [tags[|tags| - 1].(form := last)]
  }

  datatype GotTags = GotTags(tags: seq<Tag>, stoleChoiceTags: bool)

  /** What `GetTags` returns; `None` where it exits. */
  function TagsOf(w: World, forms: seq<int>, b: nat, t: Type): Option<GotTags>
    requires WellFounded(w) && Known(w, t) && Enterable(w, b, t)
    decreases b, t
  {
    if IsUntaggedChoice(w, t) then
      Below(w, b, t);
      match StealAll(w, forms, Level(w, b, t), Fin(w, t).basicType.elmts)
      case None => None
      case Some(tags) => Some(GotTags(tags, true))
    else Some(GotTags(Formed(Eff(w, t, false), LibForm(forms, Fin(w, t))), false))
  }

  function LibForm(forms: seq<int>, t: Type): int
  {
    if t.basicType.ChoiceId() < |forms| then forms[t.basicType.ChoiceId()] else NULL_FORM
  }

  function StealAll(w: World, forms: seq<int>, b: nat, es: seq<NamedType>): Option<seq<Tag>>
    requires WellFounded(w) && AllEnterable(w, b, es)
    decreases b, es
  {
    if es == [] then Some([])
    else
      match (StealAll(w, forms, b, es[..|es| - 1]), StealElmt(w, forms, b, es[|es| - 1]))
      case (Some(before), Some(tags)) => Some(before + tags)
      case _ => None
  }

  /** All stolen tags of an alternative, or else its first tag. */
  function StealElmt(w: World, forms: seq<int>, b: nat, e: NamedType): Option<seq<Tag>>
    requires WellFounded(w) && Known(w, e.asnType) && Enterable(w, b, e.asnType)
    decreases b, e
  {
    match TagsOf(w, forms, b, e.asnType)
    case None => None
    case Some(got) =>
      if got.stoleChoiceTags then Some(got.tags) else if got.tags == [] then None else Some([got.tags[0]])
  }

  /** The type, or some alternative of it through untagged CHOICEs, has no tags and is no CHOICE. */
  predicate IsBare(w: World, b: nat, t: Type)
    requires WellFounded(w) && Known(w, t) && Enterable(w, b, t)
    decreases b, t
  {
    && Eff(w, t, false) == []
    && (Fin(w, t).basicType.Choice? ==>
          (Below(w, b, t);
           AnyBare(w, Level(w, b, t), Fin(w, t).basicType.elmts)))
  }

  predicate AnyBare(w: World, b: nat, es: seq<NamedType>)
    requires WellFounded(w) && AllEnterable(w, b, es)
    decreases b, es
  {
    es != [] && (AnyBare(w, b, es[..|es| - 1]) || ElmtBare(w, b, es[|es| - 1]))
  }

  predicate ElmtBare(w: World, b: nat, e: NamedType)
    requires WellFounded(w) && Known(w, e.asnType) && Enterable(w, b, e.asnType)
    decreases b, e
  {
    IsBare(w, b, e.asnType)
  }

  /** What makes tags different on the wire: class and code, not form. */
  function Ids(tags: seq<Tag>): seq<(int, int)>
  {
    seq(|tags|, i requires 0 <= i < |tags| => (tags[i].tclass, tags[i].code))
  }

  lemma IdsJoin(a: seq<Tag>, b: seq<Tag>)
    ensures Ids(a + b) == Ids(a) + Ids(b)
  {
  }

  /** An alternative with tags of its own begins with the first of them. */
  lemma FirstOfTagged(w: World, b: nat, e: NamedType)
    requires WellFounded(w) && Known(w, e.asnType) && Enterable(w, b, e.asnType) && Eff(w, e.asnType, false) != []
    ensures ElmtFirst(w, b, e) == [Eff(w, e.asnType, false)[0]] && !ElmtBare(w, b, e)
  {
    hide Eff, Known, Enterable, WellFounded;
  }

  /** `GetTags` exits exactly at an untagged CHOICE with a bare alternative. */
  lemma {:induction false} ExitsIff(w: World, forms: seq<int>, b: nat, t: Type)
    requires WellFounded(w) && Known(w, t) && Enterable(w, b, t)
    ensures TagsOf(w, forms, b, t).None? <==> IsUntaggedChoice(w, t) && IsBare(w, b, t)
    decreases b, t
  {
    if IsUntaggedChoice(w, t) {
      Below(w, b, t);
      AllExitIff(w, forms, Level(w, b, t), Fin(w, t).basicType.elmts);
    }
  }

  lemma {:induction false} AllExitIff(w: World, forms: seq<int>, b: nat, es: seq<NamedType>)
    requires WellFounded(w) && AllEnterable(w, b, es)
    ensures StealAll(w, forms, b, es).None? <==> AnyBare(w, b, es)
    decreases b, es
  {
    if es != [] {
      AllExitIff(w, forms, b, es[..|es| - 1]);
      ElmtExitIff(w, forms, b, es[|es| - 1]);
    }
  }

  lemma {:induction false} ElmtExitIff(w: World, forms: seq<int>, b: nat, e: NamedType)
    requires WellFounded(w) && Known(w, e.asnType) && Enterable(w, b, e.asnType)
    ensures StealElmt(w, forms, b, e).None? <==> ElmtBare(w, b, e)
    decreases b, e
  {
    ExitsIff(w, forms, b, e.asnType);
  }

  /** Stolen tags are the tags the CHOICE can begin with. */
  lemma {:induction false} StolenAreFirst(w: World, forms: seq<int>, b: nat, t: Type)
    requires WellFounded(w) && Known(w, t) && Enterable(w, b, t)
    requires IsUntaggedChoice(w, t) && TagsOf(w, forms, b, t).Some?
    ensures TagsOf(w, forms, b, t).value.stoleChoiceTags
    ensures Ids(First(w, b, t)) == Ids(TagsOf(w, forms, b, t).value.tags)
    decreases b, t
  {
    Below(w, b, t);
    AllStolenAreFirst(w, forms, Level(w, b, t), Fin(w, t).basicType.elmts);
  }

  lemma {:induction false} AllStolenAreFirst(w: World, forms: seq<int>, b: nat, es: seq<NamedType>)
    requires WellFounded(w) && AllEnterable(w, b, es) && StealAll(w, forms, b, es).Some?
    ensures Ids(AllFirst(w, b, es)) == Ids(StealAll(w, forms, b, es).value)
    decreases b, es
  {
    if es != [] {
      var init, e := es[..|es| - 1], es[|es| - 1];
      AllStolenAreFirst(w, forms, b, init);
      ElmtStolenIsFirst(w, forms, b, e);
      IdsJoin(AllFirst(w, b, init), ElmtFirst(w, b, e));
      IdsJoin(StealAll(w, forms, b, init).value, StealElmt(w, forms, b, e).value);
    }
  }

  lemma {:induction false} ElmtStolenIsFirst(w: World, forms: seq<int>, b: nat, e: NamedType)
    requires WellFounded(w) && Known(w, e.asnType) && Enterable(w, b, e.asnType)
    requires StealElmt(w, forms, b, e).Some?
    ensures Ids(ElmtFirst(w, b, e)) == Ids(StealElmt(w, forms, b, e).value)
    decreases b, e
  {
    var t := e.asnType;
    var eff := Eff(w, t, false);
    if eff != [] {
      var formed := Formed(eff, LibForm(forms, Fin(w, t)));
      assert Ids([formed[0]]) == Ids([eff[0]]);
    } else {
      StolenAreFirst(w, forms, b, t);
    }
  }

  /** The bound is there for termination only. */
  lemma {:induction false} AllFirstBound(w: World, b: nat, b': nat, es: seq<NamedType>)
    requires WellFounded(w) && AllEnterable(w, b, es) && AllEnterable(w, b', es)
    ensures AllFirst(w, b, es) == AllFirst(w, b', es)
    decreases es
  {
    if es != [] {
      AllFirstBound(w, b, b', es[..|es| - 1]);
      ElmtFirstBound(w, b, b', es[|es| - 1]);
    }
  }

  lemma {:induction false} ElmtFirstBound(w: World, b: nat, b': nat, e: NamedType)
    requires WellFounded(w) && Known(w, e.asnType) && Enterable(w, b, e.asnType) && Enterable(w, b', e.asnType)
    ensures ElmtFirst(w, b, e) == ElmtFirst(w, b', e)
    decreases e
  {
    var t := e.asnType;
    if IsUntaggedChoice(w, t) && Owner(w, t).None? {
      Below(w, b, t);
      Below(w, b', t);
      AllFirstBound(w, b, b', t.basicType.elmts);
    }
  }

  /**
   * The tags `GetTags` steals from a CHOICE are distinct exactly when the tags that its alternatives can begin with
   * are, which is what `HasDistinctTags` decides.
   */
  lemma StolenDistinct(w: World, forms: seq<int>, b: nat, t: Type, b': nat)
    requires WellFounded(w) && Known(w, t) && Enterable(w, b, t) && IsUntaggedChoice(w, t)
    requires AllEnterable(w, b', Fin(w, t).basicType.elmts) && !IsBare(w, b, t)
    ensures TagsOf(w, forms, b, t).Some? && TagsOf(w, forms, b, t).value.stoleChoiceTags
    ensures NoDup(Ids(TagsOf(w, forms, b, t).value.tags))
            <==> NoDup(Ids(AllFirst(w, b', Fin(w, t).basicType.elmts)))
  {
    ExitsIff(w, forms, b, t);
    StolenAreFirst(w, forms, b, t);
    Below(w, b, t);
    AllFirstBound(w, Level(w, b, t), b', Fin(w, t).basicType.elmts);
  }

  /** With distinct tags a tag decides which alternative a value belongs to. */
  lemma {:induction false} OneAlternative(w: World, b: nat, es: seq<NamedType>, i: nat, j: nat, k: nat, l: nat)
    requires WellFounded(w) && AllEnterable(w, b, es) && NoDup(Ids(AllFirst(w, b, es)))
    requires i < j < |es| && k < |ElmtFirst(w, b, es[i])| && l < |ElmtFirst(w, b, es[j])|
    ensures Ids(ElmtFirst(w, b, es[i]))[k] != Ids(ElmtFirst(w, b, es[j]))[l]
    decreases |es|
  {
    hide WellFounded, Enterable, Known, First;
    var init := es[..|es| - 1];
    IdsJoin(AllFirst(w, b, init), ElmtFirst(w, b, es[|es| - 1]));
    var all, before := Ids(AllFirst(w, b, es)), Ids(AllFirst(w, b, init));
    if j < |es| - 1 {
      assert before == all[..|before|];
      OneAlternative(w, b, init, i, j, k, l);
    } else {
      var m := WithinAllFirst(w, b, init, i, k);
      assert all[m] == before[m];
      assert all[|before| + l] == Ids(ElmtFirst(w, b, es[j]))[l];
    }
  }

  lemma {:induction false} WithinAllFirst(w: World, b: nat, es: seq<NamedType>, i: nat, k: nat) returns (m: nat)
    requires WellFounded(w) && AllEnterable(w, b, es) && i < |es| && k < |ElmtFirst(w, b, es[i])|
    ensures m < |AllFirst(w, b, es)| && AllFirst(w, b, es)[m] == ElmtFirst(w, b, es[i])[k]
    decreases |es|
  {
    hide WellFounded, Enterable, Known, First;
    var init := es[..|es| - 1];
    if i < |es| - 1 {
      m := WithinAllFirst(w, b, init, i, k);
    } else {
      m := |AllFirst(w, b, init)| + k;
    }
  }

  /** What one step along the chain of references does to the tags. */
  lemma Step(w: World, t: Type, pending: bool)
    requires Chains(w) && Known(w, t)
    ensures
      if IsLinked(t) then
        var d := t.basicType.link.value;
        && d in w.defs && Known(w, w.defs[d].asnType) && Depth(w, w.defs[d].asnType) < Depth(w, t)
        && Eff(w, t, pending) == OwnTags(t, pending) + Eff(w, w.defs[d].asnType, StillPending(t, pending))
        && Fin(w, t) == Fin(w, w.defs[d].asnType)
      else Eff(w, t, pending) == OwnTags(t, pending) && Fin(w, t) == t
  {
  }

  /** The remaining tags of a list, copied behind those found so far. */
  method AppendTags(found: seq<Tag>, tl: seq<Tag>) returns (retVal: seq<Tag>)
    ensures retVal == found + tl
  {
    retVal := found;
    for i := 0 to |tl|
      invariant retVal == found + tl[..i]
    {
      retVal := retVal + [tl[i]];
    }
  }

  /** The tags for the code generators to write and expect. */
  method GetTags(w: World, forms: seq<int>, ghost b: nat, given: Type) returns (got: Option<GotTags>)
    requires WellFounded(w) && Known(w, given) && Enterable(w, b, given)
    ensures got == TagsOf(w, forms, b, given)
    decreases b, given, 1
  {
    hide Known, Chains, Depth, Eff, Fin, Owner, Formed, TagsOf, Enterable, AllEnterable;
    WellFoundedChains(w);
    TagsOfGiven(w, forms, b, given);
    var t, tl := given, given.tags;
    var retVal: seq<Tag> := [];
    var implicitRef, stoleChoiceTags := false, false;
    ghost var pending := false;
    while true
      invariant Known(w, t)
      invariant tl == OwnTags(t, pending) && implicitRef == (pending && t.tags == []) && !stoleChoiceTags
      invariant retVal + Eff(w, t, pending) == Eff(w, given, false)
      invariant Fin(w, t) == Fin(w, given)
      decreases Depth(w, t)
    {
      retVal := AppendTags(retVal, tl);
      Step(w, t, pending);
      if t.basicType.IsTypeRef() {
        if !implicitRef {
          implicitRef := t.implicit;
        }
        if t.basicType.link.None? {
          break;
        }
        var d := t.basicType.link.value;
        assert retVal + Eff(w, w.defs[d].asnType, StillPending(t, pending)) == Eff(w, given, false);
        pending := StillPending(t, pending);
        t := w.defs[d].asnType;
        tl := t.tags;
        if tl != [] && implicitRef {
          tl := tl[1..];
          implicitRef := false;
        }
      } else if t.basicType.Choice? && retVal == [] {
        stoleChoiceTags := true;
        Below(w, b, given);
        var stolen := StealTags(w, forms, Level(w, b, given), t.basicType.elmts);
        if stolen.None? {
          return None;
        }
        retVal := stolen.value;
        break;
      } else {
        break;
      }
    }
    if !stoleChoiceTags && retVal != [] {
      retVal := SetForms(retVal, LibForm(forms, t));
    }
    FormedNone(LibForm(forms, t));
    got := Some(GotTags(retVal, stoleChoiceTags));
  }

  lemma WellFoundedChains(w: World)
    requires WellFounded(w)
    ensures Chains(w)
  {
  }

  /** What the end of the chain decides. */
  lemma TagsOfGiven(w: World, forms: seq<int>, b: nat, t: Type)
    requires WellFounded(w) && Known(w, t) && Enterable(w, b, t)
    ensures
      var eff, fin := Eff(w, t, false), Fin(w, t);
      if eff != [] || !fin.basicType.Choice? then
        TagsOf(w, forms, b, t) == Some(GotTags(Formed(eff, LibForm(forms, fin)), false))
      else
        && AllEnterable(w, Level(w, b, t), fin.basicType.elmts)
        && (Level(w, b, t) < b || (Level(w, b, t) == b && fin == t))
        && TagsOf(w, forms, b, t) ==
           match StealAll(w, forms, Level(w, b, t), fin.basicType.elmts)
           case None => None
           case Some(tags) => Some(GotTags(tags, true))
  {
    hide Eff, Fin, Enterable, Known, Chains, StealAll;
    if IsUntaggedChoice(w, t) {
      Below(w, b, t);
    }
  }

  lemma FormedNone(form: int)
    ensures Formed([], form) == []
  {
  }

  /** The top level tags of an untagged CHOICE. */
  method StealTags(w: World, forms: seq<int>, ghost b: nat, es: seq<NamedType>) returns (retVal: Option<seq<Tag>>)
    requires WellFounded(w) && AllEnterable(w, b, es)
    ensures retVal == StealAll(w, forms, b, es)
    decreases b, es, 0
  {
    hide WellFounded, TagsOf, StealAll, Enterable, Known;
    var tags := [];
    StealNone(w, forms, b, es);
    for i := 0 to |es|
      invariant StealAll(w, forms, b, es[..i]) == Some(tags)
    {
      StealNext(w, forms, b, es, i);
      StealStops(w, forms, b, es, i + 1);
      var again := StealOne(w, forms, b, es[i]);
      if again.None? {
        return None;
      }
      tags := tags + again.value;
    }
    retVal := Some(tags);
  }

  /** The tags of one alternative. */
  method StealOne(w: World, forms: seq<int>, ghost b: nat, e: NamedType) returns (tags: Option<seq<Tag>>)
    requires WellFounded(w) && Known(w, e.asnType) && Enterable(w, b, e.asnType)
    ensures tags == StealElmt(w, forms, b, e)
    decreases b, e, 0
  {
    hide WellFounded, TagsOf, Enterable, Known;
    var again := GetTags(w, forms, b, e.asnType);
    if again.None? {
      return None;
    }
    if again.value.stoleChoiceTags {
      return Some(again.value.tags);
    }
    if again.value.tags == [] {
      return None;
    }
    return Some([again.value.tags[0]]);
  }

  lemma StealNone(w: World, forms: seq<int>, b: nat, es: seq<NamedType>)
    requires WellFounded(w) && AllEnterable(w, b, es)
    ensures StealAll(w, forms, b, es[..0]) == Some([]) && es[..|es|] == es
  {
  }

  lemma StealNext(w: World, forms: seq<int>, b: nat, es: seq<NamedType>, i: nat)
    requires WellFounded(w) && AllEnterable(w, b, es) && i < |es| && StealAll(w, forms, b, es[..i]).Some?
    ensures
      match StealElmt(w, forms, b, es[i])
      case None => StealAll(w, forms, b, es[..i + 1]) == None
      case Some(tags) => StealAll(w, forms, b, es[..i + 1]) == Some(StealAll(w, forms, b, es[..i]).value + tags)
  {
    hide WellFounded, Enterable, Known, TagsOf;
    assert es[..i + 1][..i] == es[..i];
  }

  /** One alternative that makes `GetTags` exit makes it exit for the CHOICE. */
  lemma {:induction false} StealStops(w: World, forms: seq<int>, b: nat, es: seq<NamedType>, i: nat)
    requires WellFounded(w) && AllEnterable(w, b, es) && i <= |es|
    ensures StealAll(w, forms, b, es[..i]) == None ==> StealAll(w, forms, b, es) == None
    decreases |es| - i
  {
    hide WellFounded, Enterable, Known, TagsOf;
    if i < |es| {
      assert es[..i + 1][..i] == es[..i];
      StealStops(w, forms, b, es, i + 1);
    } else {
      assert es[..i] == es;
    }
  }

  /** Sets the forms of the tags of a type. */
  method SetForms(tags: seq<Tag>, form: int) returns (retVal: seq<Tag>)
    requires tags != []
    ensures retVal == Formed(tags, form)
  {
    retVal := tags;
    for i := 0 to |tags|
      invariant |retVal| == |tags|
      invariant forall j :: 0 <= j < |tags| ==> retVal[j] == if j < i then tags[j].(form := CONS) else tags[j]
    {
      retVal := retVal[i := retVal[i].(form := CONS)];
    }
    retVal := retVal[|tags| - 1 := retVal[|tags| - 1].(form := form)];
  }

  /** The number of tags on the chain of references. */
  method CountTags(w: World, given: Type) returns (tagCount: nat)
    requires Chains(w) && Known(w, given)
    ensures tagCount == |Eff(w, given, false)|
    ensures exists c :: RefChain(w, given, c) && tagCount == TagsWritten(c, 0) - TagsReplaced(c, 0)
  {
    hide Known, Chains, Depth, Eff, Fin, Owner, RefChain, TagsAlong, TagsWritten, TagsReplaced;
    ghost var c, ps := EffectiveAlong(w, given);
    var t, tl := given, given.tags;
    var implicitRef := false;
    tagCount := 0;
    ghost var pending := false;
    while true
      invariant Known(w, t)
      invariant tl == OwnTags(t, pending) && implicitRef == (pending && t.tags == [])
      invariant tagCount + |Eff(w, t, pending)| == |Eff(w, given, false)|
      decreases Depth(w, t)
    {
      for i := 0 to |tl|
        invariant tagCount + |Eff(w, t, pending)| == |Eff(w, given, false)| + i
      {
        tagCount := tagCount + 1;
      }
      Step(w, t, pending);
      if t.basicType.IsTypeRef() {
        if !implicitRef {
          implicitRef := t.implicit;
        }
        if t.basicType.link.None? {
          break;
        }
        var d := t.basicType.link.value;
        pending := StillPending(t, pending);
        t := w.defs[d].asnType;
        tl := t.tags;
        if tl != [] && implicitRef {
          tl := tl[1..];
          implicitRef := false;
        }
      } else {
        break;
      }
    }
  }

  /**
   * Unless they were stolen, the tags are exactly the effective ones along the references, in order, with all forms
   * constructed but the last, which is that of the library type at the end.
   */
  lemma EffectiveForms(w: World, forms: seq<int>, b: nat, t: Type) returns (c: seq<Type>, ps: seq<Path>)
    requires WellFounded(w) && Known(w, t) && Enterable(w, b, t) && !IsUntaggedChoice(w, t)
    ensures TagsOf(w, forms, b, t).Some? && !TagsOf(w, forms, b, t).value.stoleChoiceTags
    ensures RefChain(w, t, c) && c != []
    ensures
      var tags, fin := TagsOf(w, forms, b, t).value.tags, c[|c| - 1];
      && |tags| == |ps| == TagsWritten(c, 0) - TagsReplaced(c, 0) && InOrder(ps)
      && (forall i: nat, j: nat :: Effective(c, i, j) ==> [i, j] in ps)
      && forall k :: 0 <= k < |ps| ==>
           && |ps[k]| == 2 && Effective(c, ps[k][0], ps[k][1])
           && tags[k] == c[ps[k][0]].tags[ps[k][1]].(form := if k < |ps| - 1 then 0x20 else LibForm(forms, fin))
  {
    hide Effective, InOrder, RefChain, TagsWritten, TagsReplaced, LibForm, Eff, Fin;
    c, ps := EffectiveAlong(w, t);
    WithinChain(c, ps, Eff(w, t, false));
  }

  lemma WithinChain(c: seq<Type>, ps: seq<Path>, tags: seq<Tag>)
    requires TagsAlong(c, 0, tags, ps)
    ensures forall k :: 0 <= k < |ps| ==>
      && |ps[k]| == 2 && Effective(c, ps[k][0], ps[k][1])
      && ps[k][0] < |c| && ps[k][1] < |c[ps[k][0]].tags| && tags[k] == c[ps[k][0]].tags[ps[k][1]]
  {
    hide Effective;
    Within(c);
    assert forall k :: 0 <= k < |ps| ==> TagAt(c, ps[k], tags[k]);
  }

  /** A type is an untagged CHOICE if no effective tag is along its references and a CHOICE is at their end. */
  lemma UntaggedChoiceIff(w: World, t: Type)
    requires Chains(w) && Known(w, t)
    ensures IsUntaggedChoice(w, t) <==>
            exists c: seq<Type> :: RefChain(w, t, c) && c != [] && NoTag(c) && c[|c| - 1].basicType.Choice?
  {
    hide RefChain, NoTag, HeadTag, Eff, Fin;
    var c := HeadIff(w, t);
    forall c' | RefChain(w, t, c')
      ensures c' == c
    {
      SameRefChain(w, t, c, c');
    }
  }

  /** The same tags, but that a form which the first leaves open may be primitive in the second. */
  predicate Narrows(ber: seq<Tag>, der: seq<Tag>)
  {
    |ber| == |der| && forall i :: 0 <= i < |ber| ==>
      der[i] == ber[i] || (ber[i].form == ANY_FORM && der[i] == ber[i].(form := PRIM))
  }

  lemma LibraryForms(t: Type)
    ensures
      var ber, der := LibForm(LIB_BER_FORMS, t), LibForm(LIB_DER_FORMS, t);
      if t.basicType.ChoiceId() in {3, 4, 37} then ber == ANY_FORM && der == PRIM else ber == der
  {
  }

  /**
   * Under the distinguished rules a type has the tags that it has under the basic rules, or `GetTags` exits under both:
   * the distinguished rules do no more than make the form of some strings primitive.
   */
  lemma {:induction false} RulesNarrow(w: World, b: nat, t: Type)
    requires WellFounded(w) && Known(w, t) && Enterable(w, b, t)
    ensures
      match (TagsOf(w, LIB_BER_FORMS, b, t), TagsOf(w, LIB_DER_FORMS, b, t))
      case (Some(ber), Some(der)) => ber.stoleChoiceTags == der.stoleChoiceTags && Narrows(ber.tags, der.tags)
      case (ber, der) => ber == der == None
    decreases b, t
  {
    hide LibForm;
    if IsUntaggedChoice(w, t) {
      Below(w, b, t);
      AllNarrow(w, Level(w, b, t), Fin(w, t).basicType.elmts);
    } else {
      LibraryForms(Fin(w, t));
    }
  }

  lemma {:induction false} AllNarrow(w: World, b: nat, es: seq<NamedType>)
    requires WellFounded(w) && AllEnterable(w, b, es)
    ensures
      match (StealAll(w, LIB_BER_FORMS, b, es), StealAll(w, LIB_DER_FORMS, b, es))
      case (Some(ber), Some(der)) => Narrows(ber, der)
      case (ber, der) => ber == der == None
    decreases b, es
  {
    if es != [] {
      AllNarrow(w, b, es[..|es| - 1]);
      ElmtNarrows(w, b, es[|es| - 1]);
    }
  }

  lemma {:induction false} ElmtNarrows(w: World, b: nat, e: NamedType)
    requires WellFounded(w) && Known(w, e.asnType) && Enterable(w, b, e.asnType)
    ensures
      match (StealElmt(w, LIB_BER_FORMS, b, e), StealElmt(w, LIB_DER_FORMS, b, e))
      case (Some(ber), Some(der)) => Narrows(ber, der)
      case (ber, der) => ber == der == None
    decreases b, e
  {
    RulesNarrow(w, b, e.asnType);
  }

  /** `CountTags` counts what `GetTags` returns, but never stolen tags. */
  lemma CountAgrees(w: World, forms: seq<int>, b: nat, t: Type)
    requires WellFounded(w) && Known(w, t) && Enterable(w, b, t) && TagsOf(w, forms, b, t).Some?
    ensures
      var got := TagsOf(w, forms, b, t).value;
      |Eff(w, t, false)| == if got.stoleChoiceTags then 0 else |got.tags|
  {
  }

  /** An alternative with a tag that refers to the CHOICE itself. */
  function Filter(): Type
  {
    var none := Type([Tag(CNTX, PRIM, 0), Tag(0, PRIM, 5)], true, false, false, Other(5), None, None);
    var not := Type([Tag(CNTX, CONS, 2)], false, false, false, LocalTypeRef("Filter", Some(0)), None, None);
    Type([], false, false, false,
         Choice([NamedType(Some("none"), none), NamedType(Some("not"), not)]), None, None)
  }

  const CNTX := 128

  function FilterWorld(): World
  {
    World(map[0 := TypeDef("Filter", Filter(), 1, false)], map[0 := 0], map[0 := 0])
  }

  /** It is in the domain of everything here, and its tags are those of its alternatives. */
  lemma RecursiveChoice(forms: seq<int>)
    ensures
      var w, t := FilterWorld(), Filter();
      && WellFounded(w) && Known(w, t) && Enterable(w, 0, t) && IsUntaggedChoice(w, t) && !IsBare(w, 0, t)
      && Ids(First(w, 0, t)) == [(CNTX, 0), (CNTX, 2)]
      && TagsOf(w, forms, 0, t).Some? && Ids(TagsOf(w, forms, 0, t).value.tags) == [(CNTX, 0), (CNTX, 2)]
  {
    hide Eff;
    var w, t := FilterWorld(), Filter();
    FilterKnown();
    var es := t.basicType.elmts;
    assert es[..1] == [es[0]] && es[..1][..0] == [];
    FirstOfTagged(w, 0, es[0]);
    FirstOfTagged(w, 0, es[1]);
    assert AllFirst(w, 0, es[..1]) == [es[0].asnType.tags[0]];
    assert First(w, 0, t) == [es[0].asnType.tags[0], es[1].asnType.tags[0]];
    assert !AnyBare(w, 0, es[..1][..0]);
    assert !AnyBare(w, 0, es[..1]);
    ExitsIff(w, forms, 0, t);
    StolenAreFirst(w, forms, 0, t);
  }

  lemma FilterKnown()
    ensures
      var w, t := FilterWorld(), Filter();
      && WellFounded(w) && Known(w, t) && Enterable(w, 0, t) && IsUntaggedChoice(w, t) && Owner(w, t) == None
      && Eff(w, t.basicType.elmts[0].asnType, false) == t.basicType.elmts[0].asnType.tags
      && Eff(w, t.basicType.elmts[1].asnType, false) == t.basicType.elmts[1].asnType.tags
  {
    var w, t := FilterWorld(), Filter();
    FilterChains();
    hide Eff, Known, Chains, Owner, Fin;
    Tagged(w, 0, t.basicType.elmts[0].asnType);
    Tagged(w, 0, t.basicType.elmts[1].asnType);
  }

  lemma FilterChains()
    ensures
      var w, t := FilterWorld(), Filter();
      var none, not := t.basicType.elmts[0].asnType, t.basicType.elmts[1].asnType;
      && Chains(w) && Known(w, t) && Known(w, none) && Known(w, not)
      && Eff(w, t, false) == [] && Fin(w, t) == t && Owner(w, t) == None
      && Eff(w, none, false) == none.tags && Eff(w, not, false) == not.tags
  {
    var w, t := FilterWorld(), Filter();
    var none, not := t.basicType.elmts[0].asnType, t.basicType.elmts[1].asnType;
    assert Known(w, none) && Known(w, not) && Known(w, t);
    assert Falls(w, 0);
    Step(w, t, false);
    Step(w, none, false);
    Step(w, not, false);
    assert StillPending(not, false) == false;
  }

  lemma Tagged(w: World, b: nat, t: Type)
    requires Chains(w) && Known(w, t) && Eff(w, t, false) != []
    ensures Enterable(w, b, t)
  {
  }
}

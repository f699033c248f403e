/** Sorting a module's type definitions by dependency. */
module Dependencies {
  import opened Octets
  import opened AsnLists
  import opened Asn1Types
  import opened RefGraphs
  import opened TypeRefs

  type TypeDefList = CursorList<TypeDefPtr>

  method BuildLocalRefList(t: Type, before: seq<TypeDefPtr>) returns (refList: seq<TypeDefPtr>)
    requires Linked(t)
    ensures refList == before + Refs(t, LOCAL)
    ensures forall y :: y in refList[|before|..] <==> RefersLocally(t, y)
    decreases t
  {
    hide ElmtRefs, RefersLocally;
    LocalIff(t);
    refList := before;
    match t.basicType {
      case Sequence(_) | Set(_) | Choice(_) =>
        var es := t.basicType.elmts;
        ElmtRefsNone(es, LOCAL);
        for i := 0 to |es|
          invariant refList == before + ElmtRefs(es[..i], LOCAL)
        {
          ElmtRefsNext(es, i, LOCAL);
          refList := BuildLocalRefList(es[i].asnType, refList);
        }
      case ObjectClass(es) =>
        ElmtRefsNone(es, LOCAL);
        for i := 0 to |es|
          invariant refList == before + ElmtRefs(es[..i], LOCAL)
        {
          ElmtRefsNext(es, i, LOCAL);
          refList := BuildLocalRefList(es[i].asnType, refList);
        }
      case SequenceOf(elmt) =>
        refList := BuildLocalRefList(elmt, refList);
      case SetOf(elmt) =>
        refList := BuildLocalRefList(elmt, refList);
      case LocalTypeRef(_, link) =>
        refList := refList + [link.value];
      case _ =>
    }
  }

  method BuildWeightedLocalRefList(t: Type, before: seq<TypeDefPtr>) returns (refList: seq<TypeDefPtr>)
    requires Linked(t)
    ensures refList == before + Refs(t, WEIGHTED)
    ensures forall y :: y in refList[|before|..] <==> HoldsByValue(t, y)
    decreases t
  {
    hide ElmtRefs, HoldsByValue;
    ByValueIff(t);
    refList := before;
    match t.basicType {
      case Sequence(_) | Set(_) | Choice(_) =>
        var es := t.basicType.elmts;
        ElmtRefsNone(es, WEIGHTED);
        for i := 0 to |es|
          invariant refList == before + ElmtRefs(es[..i], WEIGHTED)
        {
          ElmtRefsNext(es, i, WEIGHTED);
          refList := BuildWeightedLocalRefList(es[i].asnType, refList);
        }
      case SequenceOf(elmt) =>
        if t.cTypeRefInfo.None? {
          refList := BuildWeightedLocalRefList(elmt, refList);
        }
      case SetOf(elmt) =>
        if t.cTypeRefInfo.None? {
          refList := BuildWeightedLocalRefList(elmt, refList);
        }
      case LocalTypeRef(_, link) =>
        if ByValue(t) {
          refList := refList + [link.value];
        }
      case _ =>
    }
  }

  /** The first index of `td` in the list, or -1; the list's cursor is put back where it was. */
  method GetElmtIndex(td: TypeDefPtr, tdl: TypeDefList) returns (index: int, after: TypeDefList)
    ensures -1 <= index < |tdl.elems| && after == tdl
    ensures if index < 0 then td !in tdl.elems else tdl.elems[index] == td && td !in tdl.elems[..index]
  {
    var tmp := tdl.curr;
    after := tdl.(curr := 0);
    index := 0;
    while after.OnList()
      invariant after == tdl.(curr := index) && 0 <= index <= |tdl.elems| && td !in tdl.elems[..index]
      decreases |tdl.elems| - index
    {
      if after.elems[after.curr] == td {
        after := after.(curr := tmp);
        return;
      }
      index := index + 1;
      after := after.Next();
    }
    after := after.(curr := tmp);
    return -1, after;
  }

  /** What the sorter maintains between steps: `sub` is in order, and `tdl` is the rest of the input. */
  ghost predicate Sorting(refs: RefLists, input: set<TypeDefPtr>, sub: seq<TypeDefPtr>, tdl: seq<TypeDefPtr>)
  {
    && NoDup(sub) && NoDup(tdl)
    && Elems(sub) + Elems(tdl) == input && Elems(sub) !! Elems(tdl)
    && SortedWithin(refs, sub, input)
  }

  /** The first `k` types have to stay. */
  ghost predicate Kept(refs: RefLists, tdl: seq<TypeDefPtr>, k: nat)
  {
    forall i {:trigger NeedsFrom(refs, tdl[i], Elems(tdl))} ::
      0 <= i < k && i < |tdl| ==> NeedsFrom(refs, tdl[i], Elems(tdl))
  }

  lemma WithoutElems<T>(s: seq<T>, k: nat)
    requires k < |s| && NoDup(s)
    ensures NoDup(Without(s, k)) && Elems(Without(s, k)) == Elems(s) - {s[k]}
  {
    var w := Without(s, k);
    forall x | x in Elems(s) - {s[k]}
      ensures x in w
    {
      var i :| 0 <= i < |s| && s[i] == x;
      assert w[if i < k then i else i - 1] == x;
    }
  }

  lemma AppendElems<T>(s: seq<T>, x: T)
    ensures With(s, |s|, x) == s + [x] && Elems(s + [x]) == Elems(s) + {x}
    ensures NoDup(s) && x !in Elems(s) ==> NoDup(s + [x])
  {
  }

  /** A type that needs nothing from the list may be moved. */
  lemma Emit(refs: RefLists, input: set<TypeDefPtr>, sub: seq<TypeDefPtr>, tdl: seq<TypeDefPtr>, k: nat)
    requires Sorting(refs, input, sub, tdl) && k < |tdl| && !NeedsFrom(refs, tdl[k], Elems(tdl))
    ensures Sorting(refs, input, sub + [tdl[k]], Without(tdl, k))
  {
    WithoutElems(tdl, k);
    AppendElems(sub, tdl[k]);
    var more := sub + [tdl[k]];
    forall i, y | 0 <= i < |more| && Needs(refs, more[i], y) && y in input
      ensures Before(more, i, y)
    {
      if i < |sub| {
        assert Before(sub, i, y);
        var j :| 0 <= j < i && sub[j] == y;
        assert more[j] == y;
      } else {
        assert y in Elems(sub);
        var j :| 0 <= j < |sub| && sub[j] == y;
        assert more[j] == y;
      }
    }
  }

  lemma Start(refs: RefLists, tdl: seq<TypeDefPtr>)
    requires NoDup(tdl)
    ensures Sorting(refs, Elems(tdl), [], tdl)
    ensures tdl == [] ==> Split(refs, Elems(tdl), [], Elems(tdl))
  {
  }

  lemma LastIsLast(tdl: seq<TypeDefPtr>, k: nat)
    requires NoDup(tdl) && k < |tdl|
    ensures tdl[k] == tdl[|tdl| - 1] <==> k == |tdl| - 1
  {
  }

  lemma KeptNext(refs: RefLists, tdl: seq<TypeDefPtr>, k: nat)
    requires Kept(refs, tdl, k) && k < |tdl| && NeedsFrom(refs, tdl[k], Elems(tdl))
    ensures Kept(refs, tdl, k + 1)
    ensures k + 1 == |tdl| ==> Stuck(refs, Elems(tdl))
  {
  }

  /** The type must stay if it refers to another type of the list. */
  method StaysIn(currTd: TypeDefPtr, refs: RefLists, tdl: TypeDefList) returns (keep: bool, after: TypeDefList)
    ensures after == tdl && (keep <==> NeedsFrom(refs, currTd, Elems(tdl.elems)))
  {
    keep, after := false, tdl;
    if currTd in refs {
      for i := 0 to |refs[currTd]|
        invariant keep <==> exists j :: 0 <= j < i && refs[currTd][j] != currTd && refs[currTd][j] in tdl.elems
        invariant after == tdl
      {
        var tdRef := refs[currTd][i];
        if tdRef != currTd {
          var tdIndex;
          tdIndex, after := GetElmtIndex(tdRef, after);
          if tdIndex >= 0 {
            keep := true;
          }
        }
      }
      if y :| y in Elems(tdl.elems) && Needs(refs, currTd, y) {
        assert y in refs[currTd];
      }
      if j :| 0 <= j < |refs[currTd]| && refs[currTd][j] != currTd && refs[currTd][j] in tdl.elems {
        assert refs[currTd][j] in Elems(tdl.elems) && Needs(refs, currTd, refs[currTd][j]);
      }
    }
  }

  /**
   * Moves the types that need none of the others into the result, pass by pass, until a pass moves none.
   * What is left is stuck.
   */
  method RemoveAndSortIndependents(given: TypeDefList, refs: RefLists) returns (tdl: TypeDefList, subList: TypeDefList)
    requires NoDup(given.elems)
    ensures NoDup(subList.elems) && NoDup(tdl.elems)
    ensures Split(refs, Elems(given.elems), subList.elems, Elems(tdl.elems))
  {
    hide NoDup, Elems, SortedWithin, Stuck, NeedsFrom, Kept, With, Without;
    ghost var input := Elems(given.elems);
    tdl := given;
    var lastSLCount := -1;
    subList := CursorList([], 0);
    Start(refs, tdl.elems);
    while |subList.elems| > lastSLCount && tdl.elems != []
      invariant Sorting(refs, input, subList.elems, tdl.elems)
      invariant |subList.elems| <= lastSLCount ==> Stuck(refs, Elems(tdl.elems))
      decreases |tdl.elems|, |subList.elems| > lastSLCount
    {
      lastSLCount := |subList.elems|;
      var last := tdl.elems[|tdl.elems| - 1];
      tdl := tdl.(curr := 0);
      var currTd := tdl.elems[tdl.curr];
      ghost var pass := |tdl.elems|;
      NothingKept(refs, tdl.elems);
      while true
        invariant Sorting(refs, input, subList.elems, tdl.elems)
        invariant tdl.OnList() && currTd == tdl.elems[tdl.curr] && last == tdl.elems[|tdl.elems| - 1]
        invariant |subList.elems| >= lastSLCount && |tdl.elems| <= pass
        invariant |subList.elems| == lastSLCount ==> |tdl.elems| == pass && Kept(refs, tdl.elems, tdl.curr)
        invariant |subList.elems| > lastSLCount ==> |tdl.elems| < pass
        decreases |tdl.elems| - tdl.curr
      {
        var keep;
        keep, tdl := StaysIn(currTd, refs, tdl);
        LastIsLast(tdl.elems, tdl.curr);
        if !keep {
          Emit(refs, input, subList.elems, tdl.elems, tdl.curr);
          AppendElems(subList.elems, currTd);
          WithoutAt(tdl.elems, tdl.curr);
          subList := subList.Append(currTd);
          tdl := tdl.Remove();
        } else if |subList.elems| == lastSLCount {
          KeptNext(refs, tdl.elems, tdl.curr);
        }
        if currTd == last {
          break;
        }
        // After a removal the next node is the current one already.
        if keep {
          tdl := tdl.Next();
        }
        currTd := tdl.elems[tdl.curr];
      }
    }
    Finish(refs, input, subList.elems, tdl.elems);
  }

  lemma NothingKept(refs: RefLists, tdl: seq<TypeDefPtr>)
    ensures Kept(refs, tdl, 0)
  {
  }

  lemma WithoutAt<T>(s: seq<T>, k: nat)
    requires k < |s|
    ensures |Without(s, k)| == |s| - 1
    ensures k < |s| - 1 ==> Without(s, k)[k] == s[k + 1] && Without(s, k)[|s| - 2] == s[|s| - 1]
  {
  }

  lemma Finish(refs: RefLists, input: set<TypeDefPtr>, sub: seq<TypeDefPtr>, tdl: seq<TypeDefPtr>)
    requires Sorting(refs, input, sub, tdl) && (Stuck(refs, Elems(tdl)) || tdl == [])
    ensures NoDup(sub) && NoDup(tdl) && Split(refs, input, sub, Elems(tdl))
  {
  }

  /** A list being divided: the first `k` that remain are not in `out`, and all that were moved are. */
  ghost predicate Parting(total: set<TypeDefPtr>, out: set<TypeDefPtr>, tdl: seq<TypeDefPtr>, moved: seq<TypeDefPtr>,
                          k: nat)
  {
    && NoDup(tdl) && NoDup(moved)
    && Elems(tdl) + Elems(moved) == total && Elems(tdl) !! Elems(moved)
    && Elems(moved) <= out && (forall i :: 0 <= i < k && i < |tdl| ==> tdl[i] !in out)
  }

  lemma PartMove(total: set<TypeDefPtr>, out: set<TypeDefPtr>, tdl: seq<TypeDefPtr>, moved: seq<TypeDefPtr>, k: nat)
    requires Parting(total, out, tdl, moved, k) && k < |tdl| && tdl[k] in out
    ensures Parting(total, out, Without(tdl, k), moved + [tdl[k]], k)
  {
    WithoutElems(tdl, k);
    AppendElems(moved, tdl[k]);
  }

  lemma PartKeep(total: set<TypeDefPtr>, out: set<TypeDefPtr>, tdl: seq<TypeDefPtr>, moved: seq<TypeDefPtr>, k: nat)
    requires Parting(total, out, tdl, moved, k) && k < |tdl| && tdl[k] !in out
    ensures Parting(total, out, tdl, moved, k + 1)
  {
  }

  lemma PartDone(total: set<TypeDefPtr>, out: set<TypeDefPtr>, tdl: seq<TypeDefPtr>, moved: seq<TypeDefPtr>, k: nat)
    requires Parting(total, out, tdl, moved, k) && k >= |tdl|
    ensures NoDup(tdl) && NoDup(moved)
    ensures Elems(tdl) == total - out && Elems(moved) == total * out
  {
    forall x | x in total - out
      ensures x in Elems(tdl)
    {
      assert x !in Elems(moved);
    }
  }

  lemma PartStart(tdl: seq<TypeDefPtr>, out: set<TypeDefPtr>)
    requires NoDup(tdl)
    ensures Parting(Elems(tdl), out, tdl, [], 0)
  {
  }

  lemma PartMember(total: set<TypeDefPtr>, out: set<TypeDefPtr>, tdl: seq<TypeDefPtr>, moved: seq<TypeDefPtr>, k: nat)
    requires Parting(total, out, tdl, moved, k) && k < |tdl|
    ensures NoDup(tdl) && tdl[k] in total
  {
    assert tdl[k] in Elems(tdl);
  }

  /** Being before does not depend on what follows, nor on how far the whole is moved. */
  lemma BeforeIn(p: seq<TypeDefPtr>, s: seq<TypeDefPtr>, i: nat, y: TypeDefPtr)
    ensures Before(p, i, y) ==> Before(p + s, i, y)
    ensures Before(s, i, y) ==> Before(p + s, |p| + i, y)
    ensures y in Elems(p) ==> Before(p + s, |p| + i, y)
  {
    if Before(p, i, y) {
      var j :| 0 <= j < i && j < |p| && p[j] == y;
      assert (p + s)[j] == y;
    }
    if Before(s, i, y) {
      var j :| 0 <= j < i && j < |s| && s[j] == y;
      assert (p + s)[|p| + j] == y;
    }
    if y in Elems(p) {
      var j := IndexOf(p, y);
      assert (p + s)[j] == y;
    }
  }

  /** The types of `which` come after whatever they need from `input`. */
  ghost predicate After(refs: RefLists, order: seq<TypeDefPtr>, which: set<TypeDefPtr>, input: set<TypeDefPtr>)
  {
    forall i, y :: 0 <= i < |order| && order[i] in which && Needs(refs, order[i], y) && y in input
      ==> Before(order, i, y)
  }

  /** A sorted part stays in order wherever it ends up, given that what it needs from elsewhere is ahead of it. */
  lemma AfterIn(refs: RefLists, p: seq<TypeDefPtr>, c: seq<TypeDefPtr>, s: seq<TypeDefPtr>, group: set<TypeDefPtr>,
                input: set<TypeDefPtr>)
    requires SortedWithin(refs, c, group) && input <= group + Elems(p) && NoDup(p + c + s)
    ensures After(refs, p + c + s, Elems(c), input)
  {
    var order := p + c + s;
    forall i, y | 0 <= i < |order| && order[i] in Elems(c) && Needs(refs, order[i], y) && y in input
      ensures Before(order, i, y)
    {
      var k := IndexOf(c, order[i]);
      assert order[|p| + k] == c[k];
      BeforeIn(p, c, k, y);
      BeforeIn(p + c, s, i, y);
    }
  }

  lemma AfterLift(refs: RefLists, p: seq<TypeDefPtr>, c: seq<TypeDefPtr>, s: seq<TypeDefPtr>, which: set<TypeDefPtr>,
                  input: set<TypeDefPtr>)
    requires After(refs, c, which, input) && which <= Elems(c) && NoDup(p + c + s)
    ensures After(refs, p + c + s, which, input)
  {
    var order := p + c + s;
    forall i, y | 0 <= i < |order| && order[i] in which && Needs(refs, order[i], y) && y in input
      ensures Before(order, i, y)
    {
      var k := IndexOf(c, order[i]);
      assert order[|p| + k] == c[k];
      BeforeIn(p, c, k, y);
      BeforeIn(p + c, s, i, y);
    }
  }

  lemma AfterAgrees(refs: RefLists, refs': RefLists, order: seq<TypeDefPtr>, which: set<TypeDefPtr>,
                    input: set<TypeDefPtr>)
    requires After(refs, order, which, input)
    requires forall x :: x in which ==> RefsOf(refs, x) == RefsOf(refs', x)
    ensures After(refs', order, which, input)
  {
    forall i, y | 0 <= i < |order| && order[i] in which && Needs(refs', order[i], y) && y in input
      ensures Before(order, i, y)
    {
      assert Needs(refs, order[i], y);
    }
  }

  lemma AfterUnion(refs: RefLists, order: seq<TypeDefPtr>, a: set<TypeDefPtr>, b: set<TypeDefPtr>, c: set<TypeDefPtr>,
                   input: set<TypeDefPtr>)
    requires After(refs, order, a, input) && After(refs, order, b, input) && c <= a + b
    ensures After(refs, order, c, input)
  {
  }

  /** The parts in their final order, and what is in order in it. */
  lemma Recombine(refs: RefLists, input: set<TypeDefPtr>, rec: set<TypeDefPtr>, a: seq<TypeDefPtr>,
                  rest: set<TypeDefPtr>, mid: seq<TypeDefPtr>, c: seq<TypeDefPtr>, failed: seq<TypeDefPtr>)
    requires Split(refs, input, a, rest) && NoDup(a)
    requires NoDup(mid) && Elems(mid) == rest * rec
    requires Split(refs, rest - rec, c, Elems(failed)) && NoDup(c) && NoDup(failed)
    ensures NoDup(a + mid + c + failed) && Elems(a + mid + c + failed) == input
    ensures After(refs, a + mid + c + failed, input - rest, input)
    ensures failed == [] ==> After(refs, a + mid + c + failed, rest - rec, input)
  {
    hide NoDup, Elems, SortedWithin, Stuck, After;
    JoinElems(a, mid);
    JoinElems(a + mid, c);
    JoinElems(a + mid + c, failed);
    var none: seq<TypeDefPtr> := [];
    NoElems(none);
    assert none + a + (mid + c + failed) == a + mid + c + failed;
    AfterIn(refs, none, a, mid + c + failed, input, input);
    AfterUnion(refs, a + mid + c + failed, Elems(a), Elems(a), input - rest, input);
    if failed == [] {
      NoElems(failed);
      AfterIn(refs, a + mid, c, failed, rest - rec, input);
      AfterUnion(refs, a + mid + c + failed, Elems(c), Elems(c), rest - rec, input);
    }
  }

  lemma MinusMore(a: RefLists, b: RefLists, s: set<TypeDefPtr>, t: set<TypeDefPtr>)
    requires s <= t && (a - s == b - s || a == b - s)
    ensures a - t == b - t
  {
    forall x | x !in t
      ensures x in a <==> x in b
      ensures x in a ==> a[x] == b[x]
    {
      assert x in a - s <==> x in a;
      assert x in b - s <==> x in b;
    }
  }

  lemma {:induction false} LibraryRefs(t: Type)
    requires IsDefinedByLibraryType(t) && Linked(t)
    ensures Refs(t, LOCAL) == []
  {
  }

  lemma {:induction false} NoDupCount<T>(s: seq<T>, x: T)
    requires NoDup(s)
    ensures multiset(s)[x] == if x in Elems(s) then 1 else 0
  {
    if s != [] {
      var t := s[..|s| - 1];
      assert s == t + [s[|s| - 1]];
      NoDupCount(t, x);
      assert s[|s| - 1] !in t;
    }
  }

  /** Two lists without duplicates that have the same elements are permutations of each other. */
  lemma SameElems<T>(s: seq<T>, t: seq<T>)
    requires NoDup(s) && NoDup(t) && Elems(s) == Elems(t)
    ensures multiset(s) == multiset(t)
  {
    forall x
      ensures multiset(s)[x] == multiset(t)[x]
    {
      NoDupCount(s, x);
      NoDupCount(t, x);
    }
  }

  lemma NoElems<T>(s: seq<T>)
    ensures Elems(s) == {} <==> s == []
  {
    if s != [] {
      assert s[0] in Elems(s);
    }
  }

  /** A list's elements after the next list was joined on. */
  lemma ConcatElems<T>(a: CursorList<T>, b: CursorList<T>)
    ensures a.Concat(b).elems == a.elems + b.elems
  {
  }

  /** Where an element of the middle part is in the whole. */
  lemma Position(p: seq<TypeDefPtr>, c: seq<TypeDefPtr>, s: seq<TypeDefPtr>, i: nat, k: nat)
    requires NoDup(p + c + s) && i < |p + c + s| && k < |c| && (p + c + s)[i] == c[k]
    ensures i == |p| + k
  {
    assert (p + c + s)[|p| + k] == c[k];
  }

  class Module {
    /** Every type definition of every module. */
    const defs: map<TypeDefPtr, TypeDef>

    var typeDefs: seq<TypeDefPtr>
    /** The `refList` of the type definitions; `NULL` where absent. */
    var refList: RefLists
    /** The type definitions flagged `recursive`. */
    var recursive: set<TypeDefPtr>
    /** The type definitions whose `tmpRefCount` is 1. */
    var entered: set<TypeDefPtr>

    constructor (defs: map<TypeDefPtr, TypeDef>, typeDefs: seq<TypeDefPtr>)
      ensures this.defs == defs && this.typeDefs == typeDefs && refList == map[]
      ensures recursive == {} && entered == {}
    {
      this.defs, this.typeDefs, refList, recursive, entered := defs, typeDefs, map[], {}, {};
    }

    /** Takes the types that are not recursive out of the list. */
    method TakeNonRecursive(given: TypeDefList) returns (tdl: TypeDefList, nonRec: TypeDefList)
      requires NoDup(given.elems) && given.elems != []
      ensures NoDup(tdl.elems) && Elems(tdl.elems) == Elems(given.elems) * recursive
      ensures NoDup(nonRec.elems) && Elems(nonRec.elems) == Elems(given.elems) - recursive
    {
      hide NoDup, Elems, With, Without, Parting;
      ghost var total, out := Elems(given.elems), Elems(given.elems) - recursive;
      tdl := given;
      nonRec := CursorList([], 0);
      PartStart(tdl.elems, out);
      var last := tdl.elems[|tdl.elems| - 1];
      tdl := tdl.(curr := 0);
      var currTd := tdl.elems[tdl.curr];
      while true
        invariant Parting(total, out, tdl.elems, nonRec.elems, tdl.curr)
        invariant tdl.OnList() && currTd == tdl.elems[tdl.curr] && last == tdl.elems[|tdl.elems| - 1]
        decreases |tdl.elems| - tdl.curr
      {
        PartMember(total, out, tdl.elems, nonRec.elems, tdl.curr);
        LastIsLast(tdl.elems, tdl.curr);
        var moved := currTd !in recursive;
        if moved {
          PartMove(total, out, tdl.elems, nonRec.elems, tdl.curr);
          AppendElems(nonRec.elems, currTd);
          WithoutAt(tdl.elems, tdl.curr);
          nonRec := nonRec.Append(currTd);
          tdl := tdl.Remove();
        } else {
          PartKeep(total, out, tdl.elems, nonRec.elems, tdl.curr);
        }
        if currTd == last {
          PartDone(total, out, tdl.elems, nonRec.elems, if moved then tdl.curr else tdl.curr + 1);
          break;
        }
        if !moved {
          tdl := tdl.Next();
        }
        currTd := tdl.elems[tdl.curr];
      }
    }

    /** The list types of `s`. */
    function CLists(s: set<TypeDefPtr>): set<TypeDefPtr>
    {
      set x | x in s && x in defs && defs[x].cTypeDefInfo
              && (defs[x].asnType.basicType.SetOf? || defs[x].asnType.basicType.SequenceOf?)
    }

    /** Frees every `refList` and takes the list types out of the list. */
    method TakeCLists(given: TypeDefList) returns (tdl: TypeDefList, cLists: TypeDefList)
      requires NoDup(given.elems) && given.elems != []
      requires Elems(given.elems) <= refList.Keys && Elems(given.elems) <= defs.Keys
      modifies this`refList
      ensures NoDup(tdl.elems) && Elems(tdl.elems) == Elems(given.elems) - CLists(Elems(given.elems))
      ensures NoDup(cLists.elems) && Elems(cLists.elems) == CLists(Elems(given.elems))
      ensures refList == old(refList) - Elems(given.elems)
    {
      hide NoDup, Elems, With, Without, Parting;
      ghost var total := Elems(given.elems);
      ghost var out := CLists(total);
      ghost var freed := {};
      tdl := given;
      cLists := CursorList([], 0);
      PartStart(tdl.elems, out);
      var last := tdl.elems[|tdl.elems| - 1];
      tdl := tdl.(curr := 0);
      var currTd := tdl.elems[tdl.curr];
      ApartStart(given.elems);
      while true
        invariant Parting(total, out, tdl.elems, cLists.elems, tdl.curr)
        invariant tdl.OnList() && currTd == tdl.elems[tdl.curr] && last == tdl.elems[|tdl.elems| - 1]
        invariant refList == old(refList) - freed && Apart(total, freed, tdl.elems, tdl.curr)
        decreases |tdl.elems| - tdl.curr
      {
        PartMember(total, out, tdl.elems, cLists.elems, tdl.curr);
        LastIsLast(tdl.elems, tdl.curr);
        ApartNext(total, freed, tdl.elems, tdl.curr);
        assert currTd in refList;
        refList := refList - {currTd};
        freed := freed + {currTd};
        var basicType := defs[currTd].asnType.basicType;
        var moved := defs[currTd].cTypeDefInfo && (basicType.SetOf? || basicType.SequenceOf?);
        if moved {
          PartMove(total, out, tdl.elems, cLists.elems, tdl.curr);
          AppendElems(cLists.elems, currTd);
          WithoutAt(tdl.elems, tdl.curr);
          cLists := cLists.Append(currTd);
          tdl := tdl.Remove();
        } else {
          PartKeep(total, out, tdl.elems, cLists.elems, tdl.curr);
        }
        if currTd == last {
          PartDone(total, out, tdl.elems, cLists.elems, if moved then tdl.curr else tdl.curr + 1);
          break;
        }
        if !moved {
          tdl := tdl.Next();
        }
        currTd := tdl.elems[tdl.curr];
      }
    }

    /** Gives every type of the list its weighted references. */
    method Reweigh(tdl: TypeDefList)
      requires forall x :: x in Elems(tdl.elems) ==> x in defs && Linked(defs[x].asnType)
      modifies this`refList
      ensures refList.Keys == old(refList).Keys + Elems(tdl.elems)
      ensures refList - Elems(tdl.elems) == old(refList) - Elems(tdl.elems)
      ensures forall x :: x in Elems(tdl.elems) ==> refList[x] == Refs(defs[x].asnType, WEIGHTED)
    {
      for i := 0 to |tdl.elems|
        invariant refList.Keys == old(refList).Keys + Elems(tdl.elems[..i])
        invariant refList - Elems(tdl.elems) == old(refList) - Elems(tdl.elems)
        invariant forall x :: x in Elems(tdl.elems[..i]) ==> refList[x] == Refs(defs[x].asnType, WEIGHTED)
      {
        var currTd := tdl.elems[i];
        assert currTd in Elems(tdl.elems);
        var refs := BuildWeightedLocalRefList(defs[currTd].asnType, []);
        refList := refList[currTd := refs];
        assert Elems(tdl.elems[..i + 1]) == Elems(tdl.elems[..i]) + {currTd};
      }
      assert tdl.elems[..|tdl.elems|] == tdl.elems;
    }

    /** The weighted references of the types of `s`. */
    function WeightedRefs(s: set<TypeDefPtr>): RefLists
      requires forall x :: x in s ==> x in defs && Linked(defs[x].asnType)
    {
      map x | x in s :: Refs(defs[x].asnType, WEIGHTED)
    }

    lemma ListsFirst(rec: set<TypeDefPtr>, c: seq<TypeDefPtr>, s: seq<TypeDefPtr>, t: seq<TypeDefPtr>)
      requires Elems(c) == CLists(rec) && Elems(s) !! CLists(rec) && Elems(t) !! CLists(rec)
      ensures
        var order, group := c + s + t, rec - CLists(rec);
        forall i, j :: 0 <= i < |order| && 0 <= j < |order| && order[i] in CLists(rec) && order[j] in group ==> i < j
    {
      hide CLists;
      var order, group := c + s + t, rec - CLists(rec);
      assert forall k :: 0 <= k < |c| ==> order[k] in Elems(c);
      assert forall k :: |c| <= k < |order| ==> order[k] in Elems(s) + Elems(t);
    }

    /** Sorts the recursive types by the references that are not pointers, the list types ahead of them. */
    method SortRecursive(given: TypeDefList) returns (mid: TypeDefList)
      requires NoDup(given.elems) && given.elems != []
      requires Elems(given.elems) <= refList.Keys && Elems(given.elems) <= defs.Keys
      requires forall x :: x in Elems(given.elems) ==> Linked(defs[x].asnType)
      modifies this`refList
      ensures refList - Elems(given.elems) == old(refList) - Elems(given.elems)
      ensures NoDup(mid.elems) && Elems(mid.elems) == Elems(given.elems)
      ensures WeightedOrder(Elems(given.elems), mid.elems)
    {
      hide NoDup, Elems, Stuck, SortedWithin, After, Leftover, Refs;
      var tdl, cLists := TakeCLists(given);
      ghost var group := Elems(tdl.elems);
      ghost var w := WeightedRefs(group);
      ghost var freed := refList;
      Reweigh(tdl);
      MinusMore(refList, freed, group, Elems(given.elems));
      MinusMore(freed, old(refList), Elems(given.elems), Elems(given.elems));
      var sortedRec;
      tdl, sortedRec := RemoveAndSortIndependents(tdl, refList);
      SplitAgrees(refList, w, group, sortedRec.elems, Elems(tdl.elems));
      SplitLeftover(w, group, sortedRec.elems, Elems(tdl.elems));
      ConcatElems(cLists, sortedRec);
      ConcatElems(cLists.Concat(sortedRec), tdl);
      mid := cLists.Concat(sortedRec).Concat(tdl);
      JoinElems(cLists.elems, sortedRec.elems);
      JoinElems(cLists.elems + sortedRec.elems, tdl.elems);
      AfterIn(w, cLists.elems, sortedRec.elems, tdl.elems, group, group);
      ListsFirst(Elems(given.elems), cLists.elems, sortedRec.elems, tdl.elems);
      WeightedOrderIff(Elems(given.elems), mid.elems);
    }

    /** What `SortTypeDefs` does, by the greatest stuck subset of its input. */
    ghost predicate SortedTypeDefs(refs: RefLists, input: set<TypeDefPtr>, ok: bool, failedSort: bool,
                                   order: seq<TypeDefPtr>)
      requires input <= defs.Keys && forall x :: x in input ==> Linked(defs[x].asnType)
      reads this
    {
      var rest := Leftover(refs, input);
      var rec := rest * recursive;
      && ok == (rest == {} || rec != {})
      && failedSort == (Leftover(refs, rest - recursive) != {})
      && (ok ==>
            && NoDup(order) && Elems(order) == input
            && After(refs, order, input - rest, input)
            && (!failedSort ==> After(refs, order, rest - recursive, input))
            && WeightedOrder(rec, order))
    }

    /** Values of `x` contain values of another type `y`, which must therefore be defined first. */
    ghost predicate Holds(x: TypeDefPtr, y: TypeDefPtr)
      requires x in defs
    {
      y != x && HoldsByValue(defs[x].asnType, y)
    }

    /** Each type of the set holds another one of them by value, so none of them can be first. */
    ghost predicate HeldInCircle(s: set<TypeDefPtr>)
      requires s <= defs.Keys
    {
      forall x :: x in s ==> exists y :: y in s && Holds(x, y)
    }

    /**
     * The list types of C come first. The others come after those they hold by value, except for those that no order
     * can satisfy.
     */
    ghost predicate WeightedOrder(rec: set<TypeDefPtr>, order: seq<TypeDefPtr>)
      requires rec <= defs.Keys
    {
      var lists := CLists(rec);
      var group := rec - lists;
      && (forall i, j :: 0 <= i < |order| && 0 <= j < |order| && order[i] in lists && order[j] in group ==> i < j)
      && forall i, y :: 0 <= i < |order| && order[i] in group && y in group && Holds(order[i], y) ==>
           Before(order, i, y) || InCircle(group, order[i])
    }

    ghost predicate InCircle(group: set<TypeDefPtr>, x: TypeDefPtr)
      requires group <= defs.Keys
    {
      exists s :: s <= group && x in s && HeldInCircle(s)
    }

    /** The same in terms of the lists that are made. */
    ghost predicate AfterHeld(rec: set<TypeDefPtr>, order: seq<TypeDefPtr>)
      requires rec <= defs.Keys && forall x :: x in rec ==> Linked(defs[x].asnType)
    {
      var group := rec - CLists(rec);
      && (forall i, j :: 0 <= i < |order| && 0 <= j < |order| && order[i] in CLists(rec) && order[j] in group ==> i < j)
      && After(WeightedRefs(group), order, group - Leftover(WeightedRefs(group), group), group)
    }

    lemma HoldsNeeds(group: set<TypeDefPtr>, x: TypeDefPtr, y: TypeDefPtr)
      requires group <= defs.Keys && (forall x :: x in group ==> Linked(defs[x].asnType)) && x in group
      ensures Holds(x, y) <==> Needs(WeightedRefs(group), x, y)
    {
      hide Refs, HoldsByValue;
      ByValueIff(defs[x].asnType);
    }

    lemma CircleStuck(group: set<TypeDefPtr>, s: set<TypeDefPtr>)
      requires group <= defs.Keys && (forall x :: x in group ==> Linked(defs[x].asnType)) && s <= group
      ensures HeldInCircle(s) <==> Stuck(WeightedRefs(group), s)
    {
      hide Refs, HoldsByValue, Needs, Holds;
      forall x, y | x in s
        ensures Holds(x, y) <==> Needs(WeightedRefs(group), x, y)
      {
        HoldsNeeds(group, x, y);
      }
      if HeldInCircle(s) {
        forall x | x in s
          ensures NeedsFrom(WeightedRefs(group), x, s)
        {
          var y :| y in s && Holds(x, y);
        }
      } else if Stuck(WeightedRefs(group), s) {
        forall x | x in s
          ensures exists y :: y in s && Holds(x, y)
        {
          assert NeedsFrom(WeightedRefs(group), x, s);
        }
      }
    }

    lemma InCircleIff(group: set<TypeDefPtr>, x: TypeDefPtr)
      requires group <= defs.Keys && (forall x :: x in group ==> Linked(defs[x].asnType)) && x in group
      ensures InCircle(group, x) <==> x in Leftover(WeightedRefs(group), group)
    {
      hide Refs, HeldInCircle, Stuck;
      forall s | s <= group
        ensures HeldInCircle(s) <==> Stuck(WeightedRefs(group), s)
      {
        CircleStuck(group, s);
      }
    }

    lemma WeightedOrderIff(rec: set<TypeDefPtr>, order: seq<TypeDefPtr>)
      requires rec <= defs.Keys && forall x :: x in rec ==> Linked(defs[x].asnType)
      ensures WeightedOrder(rec, order) <==> AfterHeld(rec, order)
    {
      hide Holds, Needs, InCircle, Leftover, WeightedRefs, CLists;
      var group := rec - CLists(rec);
      forall x, y | x in group
        ensures Holds(x, y) <==> Needs(WeightedRefs(group), x, y)
      {
        HoldsNeeds(group, x, y);
      }
      forall x | x in group
        ensures InCircle(group, x) <==> x in Leftover(WeightedRefs(group), group)
      {
        InCircleIff(group, x);
      }
    }

    lemma WeightedLift(rec: set<TypeDefPtr>, p: seq<TypeDefPtr>, mid: seq<TypeDefPtr>, s: seq<TypeDefPtr>)
      requires rec <= defs.Keys && forall x :: x in rec ==> Linked(defs[x].asnType)
      requires WeightedOrder(rec, mid) && rec <= Elems(mid) && NoDup(p + mid + s)
      ensures WeightedOrder(rec, p + mid + s)
    {
      hide NoDup, Elems, After, Leftover, Refs, CLists, WeightedOrder, WeightedRefs;
      WeightedOrderIff(rec, mid);
      WeightedOrderIff(rec, p + mid + s);
      var lists := CLists(rec);
      var group := rec - lists;
      var order := p + mid + s;
      AfterLift(WeightedRefs(group), p, mid, s, group - Leftover(WeightedRefs(group), group), group);
      ListsWithin(rec);
      forall i, j | 0 <= i < |order| && 0 <= j < |order| && order[i] in lists && order[j] in group
        ensures i < j
      {
        var k := IndexOf(mid, order[i]);
        var l := IndexOf(mid, order[j]);
        Position(p, mid, s, i, k);
        Position(p, mid, s, j, l);
      }
    }

    lemma ListsWithin(s: set<TypeDefPtr>)
      ensures CLists(s) <= s
    {
    }

    /** The input was acyclic. */
    lemma AllSorted(refs: RefLists, input: set<TypeDefPtr>, order: seq<TypeDefPtr>)
      requires input <= defs.Keys && forall x :: x in input ==> Linked(defs[x].asnType)
      requires Split(refs, input, order, {}) && Leftover(refs, input) == {} && NoDup(order)
      ensures SortedTypeDefs(refs, input, true, false, order)
    {
      assert Leftover(refs, {}) == {};
      assert {} * recursive == {} && {} - recursive == {} && Elems(order) == input;
    }

    /**
     * Sorts types that refer to each other. Not `ok` is the dereference of the list's missing last node, and
     * `failedSort` the internal compiler error that is reported.
     */
    method SortTypeDefs(given: TypeDefList) returns (ok: bool, failedSort: bool, tdl: TypeDefList)
      requires NoDup(given.elems)
      requires Elems(given.elems) <= refList.Keys && Elems(given.elems) <= defs.Keys
      requires forall x :: x in Elems(given.elems) ==> Linked(defs[x].asnType)
      modifies this`refList
      ensures refList - Elems(given.elems) == old(refList) - Elems(given.elems)
      ensures SortedTypeDefs(old(refList), Elems(given.elems), ok, failedSort, tdl.elems)
    {
      hide NoDup, Elems, Stuck, SortedWithin, After, Leftover, Refs, WeightedOrder;
      ghost var input := Elems(given.elems);
      ghost var refs := refList;
      ok, failedSort, tdl := true, false, given;
      var subList;
      tdl, subList := RemoveAndSortIndependents(tdl, refList);
      ghost var rest := Elems(tdl.elems);
      SplitLeftover(refs, input, subList.elems, rest);
      NoElems(tdl.elems);
      if tdl.elems == [] {
        AllSorted(refs, input, subList.elems);
        tdl := subList;
        return;
      }
      var nonRec, sortedNonRec;
      tdl, nonRec := TakeNonRecursive(tdl);
      ghost var rec := Elems(tdl.elems);
      nonRec, sortedNonRec := RemoveAndSortIndependents(nonRec, refList);
      ghost var sorted, failed := sortedNonRec.elems, nonRec.elems;
      SplitLeftover(refs, rest - recursive, sorted, Elems(failed));
      NoElems(failed);
      if nonRec.elems != [] {
        failedSort := true;
        ConcatElems(sortedNonRec, nonRec);
        sortedNonRec := sortedNonRec.Concat(nonRec);
      }
      NoElems(tdl.elems);
      if tdl.elems == [] {
        ok := false;
        return;
      }
      var mid := SortRecursive(tdl);
      MinusMore(refList, refs, rec, input);
      Recombine(refs, input, recursive, subList.elems, rest, mid.elems, sorted, failed);
      assert subList.elems + mid.elems + (sorted + failed) == subList.elems + mid.elems + sorted + failed;
      WeightedLift(rec, subList.elems, mid.elems, sorted + failed);
      ConcatElems(subList, mid);
      ConcatElems(subList.Concat(mid), sortedNonRec);
      tdl := subList.Concat(mid).Concat(sortedNonRec);
      assert tdl.elems == subList.elems + mid.elems + sorted + failed;
      assert rec == rest * recursive;
    }

    /** A module whose definitions are all known and linked, before it is sorted. */
    ghost predicate Ready()
      reads this
    {
      && NoDup(typeDefs) && Elems(typeDefs) <= defs.Keys
      && forall x :: x in Elems(typeDefs) ==> Linked(defs[x].asnType)
    }

    /** The local references of the types of `s`. */
    function LocalRefs(s: set<TypeDefPtr>): RefLists
      requires s <= defs.Keys && forall x :: x in s ==> Linked(defs[x].asnType)
    {
      map x | x in s :: Refs(defs[x].asnType, LOCAL)
    }

    /** Library types; types without references; types to be sorted; types that are not referenced. */
    function Group(x: TypeDefPtr): (g: nat)
      requires x in defs && Linked(defs[x].asnType)
      ensures g < 4
    {
      if IsDefinedByLibraryType(defs[x].asnType) then 0
      else if defs[x].localRefCount == 0 then 3
      else if Refs(defs[x].asnType, LOCAL) == [] then 1
      else 2
    }

    /** The groups in the module's own terms. */
    lemma GroupMeans(x: TypeDefPtr)
      requires x in defs && Linked(defs[x].asnType)
      ensures Group(x) == 0 <==> IsDefinedByLibraryType(defs[x].asnType)
      ensures Group(x) == 1 <==>
              && !IsDefinedByLibraryType(defs[x].asnType) && defs[x].localRefCount != 0
              && forall y :: !RefersLocally(defs[x].asnType, y)
      ensures Group(x) == 2 <==>
              && !IsDefinedByLibraryType(defs[x].asnType) && defs[x].localRefCount != 0
              && exists y :: RefersLocally(defs[x].asnType, y)
      ensures Group(x) == 3 <==> !IsDefinedByLibraryType(defs[x].asnType) && defs[x].localRefCount == 0
    {
      hide RefersLocally, Refs, IsDefinedByLibraryType;
      LocalIff(defs[x].asnType);
      if Refs(defs[x].asnType, LOCAL) != [] {
        assert RefersLocally(defs[x].asnType, Refs(defs[x].asnType, LOCAL)[0]);
      }
    }

    /** The members of a group in their original order. */
    function InGroup(s: seq<TypeDefPtr>, g: nat): (r: seq<TypeDefPtr>)
      requires Elems(s) <= defs.Keys && forall x :: x in Elems(s) ==> Linked(defs[x].asnType)
      ensures Elems(r) <= Elems(s)
    {
      if s == [] then []
      else
        var x := s[|s| - 1];
        assert x in Elems(s) && Elems(s[..|s| - 1]) <= Elems(s);
        InGroup(s[..|s| - 1], g) + if Group(x) == g then [x] else []
    }

    lemma {:induction false} InGroupElems(s: seq<TypeDefPtr>, g: nat)
      requires Elems(s) <= defs.Keys && forall x :: x in Elems(s) ==> Linked(defs[x].asnType)
      ensures Elems(InGroup(s, g)) == set x | x in Elems(s) && Group(x) == g
      ensures NoDup(s) ==> NoDup(InGroup(s, g))
    {
      hide Group;
      if s != [] {
        var x, t := s[|s| - 1], s[..|s| - 1];
        assert x in Elems(s) && Elems(s) == Elems(t) + {x};
        InGroupElems(t, g);
        AppendElems(InGroup(t, g), x);
        assert InGroup(s, g) == if Group(x) == g then InGroup(t, g) + [x] else InGroup(t, g);
        assert NoDup(s) ==> x !in Elems(t);
      }
    }

    /** Every local type that is referenced within the module is counted. */
    ghost predicate AccurateCounts()
      requires Ready()
      reads this
    {
      forall x, y :: x in Elems(typeDefs) && y in Elems(typeDefs) && y in Refs(defs[x].asnType, LOCAL)
        ==> defs[y].localRefCount != 0
    }

    /** Every type on a cycle of two or more local types is flagged recursive. */
    ghost predicate AccurateFlags()
      requires Ready()
      reads this
    {
      forall p :: Cycle(LocalRefs(Elems(typeDefs)), p) && Elems(p) <= Elems(typeDefs) ==> Elems(p) <= recursive
    }

    /** `which` of the sorted types are in order, and so then is everything else. */
    lemma FinalOrder(p: seq<TypeDefPtr>, n: seq<TypeDefPtr>, m: seq<TypeDefPtr>, q: seq<TypeDefPtr>,
                     which: set<TypeDefPtr>)
      requires Ready() && AccurateCounts() && NoDup(p + n + m + q)
      requires forall x :: x in Elems(typeDefs) ==> x in Elems([p, n, m, q][Group(x)])
      requires forall x :: x in Elems(p + n + m + q) ==> x in Elems(typeDefs)
      requires After(LocalRefs(Elems(typeDefs)), m, which, Elems(m))
      ensures After(LocalRefs(Elems(typeDefs)), p + n + m + q, Elems(typeDefs) - (Elems(m) - which), Elems(typeDefs))
    {
      hide NoDup, Refs, Before, IsDefinedByLibraryType;
      var refs, order := LocalRefs(Elems(typeDefs)), p + n + m + q;
      forall i, y | 0 <= i < |order| && order[i] in Elems(typeDefs) - (Elems(m) - which)
                    && Needs(refs, order[i], y) && y in Elems(typeDefs)
        ensures Before(order, i, y)
      {
        var x := order[i];
        assert y in Refs(defs[x].asnType, LOCAL);
        assert Group(y) != 3;
        if IsDefinedByLibraryType(defs[x].asnType) {
          LibraryRefs(defs[x].asnType);
        }
        JoinElems(p, n);
        JoinElems(p + n, m);
        if Group(x) == 3 {
          var k := IndexOf(q, x);
          assert p + n + m + q + [] == p + n + m + q;
          Position(p + n + m, q, [], i, k);
          BeforeIn(p + n + m, q, k, y);
        } else {
          var k := IndexOf(m, x);
          Position(p + n, m, q, i, k);
          BeforeIn(p + n, m, k, y);
          BeforeIn(p + n + m, q, i, y);
        }
      }
    }

    /** Library types, then types without local references, then what was sorted, and last what nothing refers to. */
    ghost predicate FourGroups(before: seq<TypeDefPtr>, sorted: seq<TypeDefPtr>, order: seq<TypeDefPtr>)
      requires Elems(before) <= defs.Keys && forall x :: x in Elems(before) ==> Linked(defs[x].asnType)
    {
      && order == InGroup(before, 0) + InGroup(before, 1) + sorted + InGroup(before, 3)
      && Elems(sorted) == Elems(InGroup(before, 2))
    }

    /** What the order of the module is about. */
    lemma NeedsLocally(all: set<TypeDefPtr>, x: TypeDefPtr, y: TypeDefPtr)
      requires all <= defs.Keys && (forall z :: z in all ==> Linked(defs[z].asnType)) && x in all
      ensures Needs(LocalRefs(all), x, y) <==> y != x && RefersLocally(defs[x].asnType, y)
    {
      hide RefersLocally, Refs;
      LocalIff(defs[x].asnType);
    }

    /**
     * Sorts the module's type definitions; `ok` and `failedSort` as for `SortTypeDefs`. What is to be sorted is the
     * group of types that are referenced and that reference local types themselves.
     */
    method SortTypeDependencies() returns (ok: bool, failedSort: bool)
      requires Ready() && refList.Keys !! Elems(typeDefs)
      modifies this`refList, this`typeDefs
      ensures
        var refs := LocalRefs(Elems(old(typeDefs)));
        var rest := Leftover(refs, Elems(InGroup(old(typeDefs), 2)));
        && ok == (rest == {} || rest * recursive != {})
        && failedSort == (Leftover(refs, rest - recursive) != {})
        && (ok && old(AccurateCounts()) ==>
              && After(refs, typeDefs, Elems(typeDefs) - rest, Elems(typeDefs))
              && (!failedSort ==> After(refs, typeDefs, Elems(typeDefs) - (rest * recursive), Elems(typeDefs))))
        && (ok ==> WeightedOrder(rest * recursive, typeDefs))
      ensures ok ==> exists m :: FourGroups(old(typeDefs), m, typeDefs)
      ensures ok ==> Ready() && Elems(typeDefs) == Elems(old(typeDefs)) && refList == old(refList)
    {
      hide NoDup, Elems, After, Refs, RefsOf, InGroup, LocalRefs, IsDefinedByLibraryType, Leftover, With, Without,
        WeightedOrder, RefersLocally;
      ghost var all := Elems(typeDefs);
      var prims, noRefs, refs, notRefd: TypeDefList :=
        CursorList([], 0), CursorList([], 0), CursorList([], 0), CursorList([], 0);
      GroupsStart(typeDefs, refList);
      for i := 0 to |typeDefs|
        invariant typeDefs == old(typeDefs)
        invariant Grouped(typeDefs, i, prims.elems, noRefs.elems, refs.elems, notRefd.elems)
        invariant refList == old(refList) + LocalRefs(Elems(refs.elems))
      {
        var curr := typeDefs[i];
        GroupNext(typeDefs, i, prims.elems, noRefs.elems, refs.elems, notRefd.elems);
        LocalRefsNext(old(refList), refs.elems, curr);
        if IsDefinedByLibraryType(defs[curr].asnType) {
          AppendElems(prims.elems, curr);
          prims := prims.Append(curr);
        } else if defs[curr].localRefCount == 0 {
          AppendElems(notRefd.elems, curr);
          notRefd := notRefd.Append(curr);
        } else {
          var list := BuildLocalRefList(defs[curr].asnType, []);
          assert list == Refs(defs[curr].asnType, LOCAL);
          refList := refList[curr := list];
          if list == [] {
            AppendElems(noRefs.elems, curr);
            noRefs := noRefs.Append(curr);
            refList := refList - {curr};
          } else {
            AppendElems(refs.elems, curr);
            refs := refs.Append(curr);
          }
        }
      }
      ghost var grp := Elems(refs.elems);
      ghost var lists := refList;
      GroupsDone(typeDefs, prims.elems, noRefs.elems, refs.elems, notRefd.elems);
      LocalRefsWithin(old(refList), all, grp);
      ok, failedSort, refs := SortTypeDefs(refs);
      SortedOutcome(lists, LocalRefs(all), all, grp, ok, failedSort, refs.elems);
      if !ok {
        return;
      }
      for i := 0 to |refs.elems|
        invariant typeDefs == old(typeDefs)
        invariant refList - grp == old(refList) && refList.Keys !! Elems(refs.elems[..i])
      {
        var curr := refs.elems[i];
        FreedNext(old(refList), refList, refs.elems, i);
        if curr in refList {
          refList := refList - {curr};
        }
      }
      assert refs.elems[..|refs.elems|] == refs.elems;
      assert refList - grp == refList;
      ghost var rest := Leftover(LocalRefs(all), grp);
      AllOrdered(prims.elems, noRefs.elems, refs.elems, notRefd.elems, rest, failedSort);
      WeightedLift(rest * recursive, prims.elems + noRefs.elems, refs.elems, notRefd.elems);
      ConcatElems(prims, noRefs);
      prims := prims.Concat(noRefs);
      ConcatElems(prims, refs);
      prims := prims.Concat(refs);
      ConcatElems(prims, notRefd);
      prims := prims.Concat(notRefd);
      assert FourGroups(typeDefs, refs.elems, prims.elems);
      typeDefs := prims.elems;
    }

    ghost predicate Grouped(s: seq<TypeDefPtr>, i: nat, p: seq<TypeDefPtr>, n: seq<TypeDefPtr>, m: seq<TypeDefPtr>,
                            q: seq<TypeDefPtr>)
    {
      && Elems(s) <= defs.Keys && (forall x :: x in Elems(s) ==> Linked(defs[x].asnType)) && i <= |s|
      && Elems(s[..i]) <= Elems(s)
      && p == InGroup(s[..i], 0) && n == InGroup(s[..i], 1) && m == InGroup(s[..i], 2) && q == InGroup(s[..i], 3)
      && Elems(m) <= Elems(s[..i])
    }

    /** The four groups are the module's types, each once. */
    lemma GroupsDone(s: seq<TypeDefPtr>, p: seq<TypeDefPtr>, n: seq<TypeDefPtr>, m: seq<TypeDefPtr>, q: seq<TypeDefPtr>)
      requires Grouped(s, |s|, p, n, m, q) && NoDup(s)
      ensures NoDup(p) && NoDup(n) && NoDup(m) && NoDup(q)
      ensures forall x :: x in Elems(s) ==> x in Elems([p, n, m, q][Group(x)])
      ensures Elems(p) !! Elems(n) !! Elems(m) !! Elems(q) && Elems(p) + Elems(n) + Elems(m) + Elems(q) == Elems(s)
      ensures p == InGroup(s, 0) && n == InGroup(s, 1) && q == InGroup(s, 3) && Elems(m) == Elems(InGroup(s, 2))
    {
      hide NoDup, Elems, Group, InGroup;
      assert s[..|s|] == s;
      InGroupElems(s, 0);
      InGroupElems(s, 1);
      InGroupElems(s, 2);
      InGroupElems(s, 3);
    }

    lemma LocalRefsWithin(refs: RefLists, all: set<TypeDefPtr>, grp: set<TypeDefPtr>)
      requires grp <= all <= defs.Keys && (forall x :: x in all ==> Linked(defs[x].asnType)) && refs.Keys !! all
      ensures forall x :: x in grp ==> RefsOf(refs + LocalRefs(grp), x) == RefsOf(LocalRefs(all), x)
      ensures grp <= (refs + LocalRefs(grp)).Keys && refs + LocalRefs(grp) - grp == refs
    {
    }

    /** `SortTypeDefs` in terms of the module's references. */
    lemma SortedOutcome(lists: RefLists, refs: RefLists, all: set<TypeDefPtr>, grp: set<TypeDefPtr>, ok: bool,
                        failedSort: bool, order: seq<TypeDefPtr>)
      requires grp <= defs.Keys && forall x :: x in grp ==> Linked(defs[x].asnType)
      requires forall x :: x in grp ==> RefsOf(lists, x) == RefsOf(refs, x)
      requires SortedTypeDefs(lists, grp, ok, failedSort, order)
      ensures
        var rest := Leftover(refs, grp);
        && rest <= grp && ok == (rest == {} || rest * recursive != {})
        && failedSort == (Leftover(refs, rest - recursive) != {})
        && (ok ==> NoDup(order) && Elems(order) == grp && After(refs, order, grp - rest, grp))
        && (ok && !failedSort ==> After(refs, order, grp - (rest * recursive), grp))
        && (ok ==> WeightedOrder(rest * recursive, order))
    {
      hide NoDup, Elems, After, Stuck, RefsOf, Refs, WeightedOrder;
      var rest := Leftover(lists, grp);
      LeftoverWithin(lists, refs, grp);
      LeftoverWithin(refs, lists, grp);
      assert rest == Leftover(refs, grp);
      LeftoverWithin(lists, refs, rest - recursive);
      LeftoverWithin(refs, lists, rest - recursive);
      if ok {
        AfterAgrees(lists, refs, order, grp - rest, grp);
        if !failedSort {
          AfterAgrees(lists, refs, order, rest - recursive, grp);
          AfterUnion(refs, order, grp - rest, rest - recursive, grp - (rest * recursive), grp);
        }
      }
    }

    /** The four groups in a row, given the order within the third. */
    lemma AllOrdered(p: seq<TypeDefPtr>, n: seq<TypeDefPtr>, m: seq<TypeDefPtr>, q: seq<TypeDefPtr>,
                     rest: set<TypeDefPtr>, failedSort: bool)
      requires Ready() && NoDup(p) && NoDup(n) && NoDup(m) && NoDup(q)
      requires forall x :: x in Elems(typeDefs) ==> x in Elems([p, n, m, q][Group(x)])
      requires Elems(p) !! Elems(n) !! Elems(m) !! Elems(q)
      requires Elems(p) + Elems(n) + Elems(m) + Elems(q) == Elems(typeDefs) && rest <= Elems(m)
      requires After(LocalRefs(Elems(typeDefs)), m, Elems(m) - rest, Elems(m))
      requires !failedSort ==> After(LocalRefs(Elems(typeDefs)), m, Elems(m) - (rest * recursive), Elems(m))
      ensures NoDup(p + n + m + q) && Elems(p + n + m + q) == Elems(typeDefs)
      ensures
        var all, refs := Elems(typeDefs), LocalRefs(Elems(typeDefs));
        AccurateCounts() ==>
          && After(refs, p + n + m + q, all - rest, all)
          && (!failedSort ==> After(refs, p + n + m + q, all - (rest * recursive), all))
    {
      hide NoDup, Elems, After, Refs, LocalRefs, Group, AccurateCounts;
      JoinElems(p, n);
      JoinElems(p + n, m);
      JoinElems(p + n + m, q);
      if AccurateCounts() {
        FinalOrder(p, n, m, q, Elems(m) - rest);
        assert Elems(m) - (Elems(m) - rest) == rest;
        if !failedSort {
          FinalOrder(p, n, m, q, Elems(m) - (rest * recursive));
          assert Elems(m) - (Elems(m) - (rest * recursive)) == rest * recursive;
        }
      }
    }

    lemma FreedNext(before: RefLists, refs: RefLists, s: seq<TypeDefPtr>, i: nat)
      requires i < |s| && refs - Elems(s) == before && refs.Keys !! Elems(s[..i])
      ensures (refs - {s[i]}) - Elems(s) == before && (refs - {s[i]}).Keys !! Elems(s[..i + 1])
      ensures s[i] !in refs ==> refs.Keys !! Elems(s[..i + 1])
    {
      AppendElems(s[..i], s[i]);
      assert s[..i + 1] == s[..i] + [s[i]] && s[i] in Elems(s);
    }

    lemma GroupsStart(s: seq<TypeDefPtr>, refs: RefLists)
      requires Elems(s) <= defs.Keys && forall x :: x in Elems(s) ==> Linked(defs[x].asnType)
      ensures Grouped(s, 0, [], [], [], [])
      ensures forall none: seq<TypeDefPtr> :: none == [] ==> Elems(none) == {}
      ensures refs + LocalRefs({}) == refs
    {
    }

    lemma LocalRefsNext(refs: RefLists, m: seq<TypeDefPtr>, x: TypeDefPtr)
      requires Elems(m) <= defs.Keys && x in defs && x !in Elems(m) && x !in refs
      requires Linked(defs[x].asnType) && forall y :: y in Elems(m) ==> Linked(defs[y].asnType)
      ensures Elems(m + [x]) == Elems(m) + {x}
      ensures (refs + LocalRefs(Elems(m)))[x := Refs(defs[x].asnType, LOCAL)] == refs + LocalRefs(Elems(m + [x]))
      ensures (refs + LocalRefs(Elems(m)))[x := []] - {x} == refs + LocalRefs(Elems(m))
    {
      AppendElems(m, x);
    }

    /** How the next type is grouped. */
    lemma GroupNext(s: seq<TypeDefPtr>, i: nat, p: seq<TypeDefPtr>, n: seq<TypeDefPtr>, m: seq<TypeDefPtr>,
                    q: seq<TypeDefPtr>)
      requires Grouped(s, i, p, n, m, q) && i < |s|
      ensures s[i] in Elems(s) && s[i] in defs && Linked(defs[s[i]].asnType)
      ensures NoDup(s) ==> s[i] !in Elems(m)
      ensures Grouped(s, i + 1,
                      if Group(s[i]) == 0 then p + [s[i]] else p, if Group(s[i]) == 1 then n + [s[i]] else n,
                      if Group(s[i]) == 2 then m + [s[i]] else m, if Group(s[i]) == 3 then q + [s[i]] else q)
    {
      hide Group;
      assert s[..i + 1][..i] == s[..i];
      AppendElems(s[..i], s[i]);
      assert s[..i + 1] == s[..i] + [s[i]];
      InGroupElems(s[..i + 1], 2);
    }
  }

  /** The types whose `refList` has been freed are those before position `k`, or no longer in the list. */
  ghost predicate Apart(total: set<TypeDefPtr>, freed: set<TypeDefPtr>, tdl: seq<TypeDefPtr>, k: nat)
  {
    && k <= |tdl| && NoDup(tdl) && freed + Elems(tdl[k..]) == total && freed !! Elems(tdl[k..])
  }

  lemma ApartStart(tdl: seq<TypeDefPtr>)
    requires NoDup(tdl)
    ensures Apart(Elems(tdl), {}, tdl, 0)
  {
    assert tdl[0..] == tdl;
  }

  lemma ApartNext(total: set<TypeDefPtr>, freed: set<TypeDefPtr>, tdl: seq<TypeDefPtr>, k: nat)
    requires Apart(total, freed, tdl, k) && k < |tdl|
    ensures tdl[k] in total && tdl[k] !in freed
    ensures Apart(total, freed + {tdl[k]}, tdl, k + 1)
    ensures Apart(total, freed + {tdl[k]}, Without(tdl, k), k)
    ensures k == |tdl| - 1 ==> freed + {tdl[k]} == total
  {
    assert tdl[k..] == [tdl[k]] + tdl[k + 1..];
    JoinElems([tdl[k]], tdl[k + 1..]);
    assert Without(tdl, k)[k..] == tdl[k + 1..];
    WithoutElems(tdl, k);
    forall i | k < i < |tdl|
      ensures tdl[i] != tdl[k]
    {
    }
  }
}

/** Which orders of mutually referring type definitions can exist, and what stands in their way. */
module RefGraphs {
  import opened Octets
  import opened Asn1Types

  /** The `refList` of each type definition; one that has none is `NULL`. */
  type RefLists = map<TypeDefPtr, seq<TypeDefPtr>>

  function RefsOf(refs: RefLists, x: TypeDefPtr): seq<TypeDefPtr>
  {
    if x in refs then refs[x] else []
  }

  /** `x` refers to another type `y`, which must therefore come first. */
  predicate Needs(refs: RefLists, x: TypeDefPtr, y: TypeDefPtr)
  {
    y != x && y in RefsOf(refs, x)
  }

  ghost predicate Before(order: seq<TypeDefPtr>, i: nat, y: TypeDefPtr)
  {
    exists j :: 0 <= j < i && j < |order| && order[j] == y
  }

  /** What each type needs from `input` comes before it. */
  ghost predicate SortedWithin(refs: RefLists, order: seq<TypeDefPtr>, input: set<TypeDefPtr>)
  {
    forall i, y :: 0 <= i < |order| && Needs(refs, order[i], y) && y in input ==> Before(order, i, y)
  }

  ghost predicate NeedsFrom(refs: RefLists, x: TypeDefPtr, s: set<TypeDefPtr>)
  {
    exists y :: y in s && Needs(refs, x, y)
  }

  /** Each type needs another one of the set, so none of them can be first. */
  ghost predicate Stuck(refs: RefLists, s: set<TypeDefPtr>)
  {
    forall x {:trigger NeedsFrom(refs, x, s)} :: x in s ==> NeedsFrom(refs, x, s)
  }

  /** Two or more types each of which refers to the next one, and the last to the first. */
  ghost predicate Cycle(refs: RefLists, p: seq<TypeDefPtr>)
  {
    && |p| >= 2 && NoDup(p)
    && (forall i :: 0 <= i < |p| - 1 ==> p[i + 1] in RefsOf(refs, p[i]))
    && p[0] in RefsOf(refs, p[|p| - 1])
  }

  /** Nothing that is stuck within the input is ever sorted. */
  lemma {:induction false} StuckNotSorted(refs: RefLists, order: seq<TypeDefPtr>, input: set<TypeDefPtr>,
                                          s: set<TypeDefPtr>, k: nat)
    requires SortedWithin(refs, order, input) && Stuck(refs, s) && s <= input && k < |order|
    ensures order[k] !in s
  {
    if order[k] in s {
      assert NeedsFrom(refs, order[k], s);
      var y :| y in s && Needs(refs, order[k], y);
      assert Before(order, k, y);
      var j :| 0 <= j < k && order[j] == y;
      StuckNotSorted(refs, order, input, s, j);
    }
  }

  /** `input` is split into a part in order and a part that is stuck. */
  ghost predicate Split(refs: RefLists, input: set<TypeDefPtr>, order: seq<TypeDefPtr>, rest: set<TypeDefPtr>)
  {
    && Elems(order) + rest == input && Elems(order) !! rest
    && SortedWithin(refs, order, input) && Stuck(refs, rest)
  }

  /** The stuck part is the greatest stuck subset of the input. */
  lemma RestIsGreatest(refs: RefLists, input: set<TypeDefPtr>, order: seq<TypeDefPtr>, rest: set<TypeDefPtr>,
                       s: set<TypeDefPtr>)
    requires Split(refs, input, order, rest) && s <= input && Stuck(refs, s)
    ensures s <= rest
  {
    forall x | x in s
      ensures x in rest
    {
      if x in Elems(order) {
        var k :| 0 <= k < |order| && order[k] == x;
        StuckNotSorted(refs, order, input, s, k);
      }
    }
  }

  /** So how the input was arranged has no influence on what is sorted and what is left. */
  lemma SplitUnique(refs: RefLists, input: set<TypeDefPtr>, order: seq<TypeDefPtr>, rest: set<TypeDefPtr>,
                    order': seq<TypeDefPtr>, rest': set<TypeDefPtr>)
    requires Split(refs, input, order, rest) && Split(refs, input, order', rest')
    ensures rest == rest' && Elems(order) == Elems(order')
  {
    RestIsGreatest(refs, input, order, rest, rest');
    RestIsGreatest(refs, input, order', rest', rest);
  }

  lemma CycleStuck(refs: RefLists, p: seq<TypeDefPtr>)
    requires Cycle(refs, p)
    ensures Stuck(refs, Elems(p))
  {
    forall x | x in Elems(p)
      ensures NeedsFrom(refs, x, Elems(p))
    {
      var i :| 0 <= i < |p| && p[i] == x;
      var y := if i < |p| - 1 then p[i + 1] else p[0];
      assert y in Elems(p) && Needs(refs, x, y);
    }
  }

  lemma {:induction false} NoDupCard<T>(s: seq<T>)
    requires NoDup(s)
    ensures |Elems(s)| == |s|
  {
    if s != [] {
      var t := s[..|s| - 1];
      NoDupCard(t);
      assert Elems(s) == Elems(t) + {s[|s| - 1]};
      assert s[|s| - 1] !in Elems(t);
    }
  }

  lemma SubsetCard<T>(a: set<T>, b: set<T>)
    requires a <= b
    ensures |a| <= |b| && (|a| == |b| ==> a == b)
  {
    assert b == a + (b - a);
  }

  /** A path of distinct types along references, all within `s`. */
  ghost predicate Walk(refs: RefLists, s: set<TypeDefPtr>, p: seq<TypeDefPtr>)
  {
    && p != [] && NoDup(p) && Elems(p) <= s
    && forall i :: 0 <= i < |p| - 1 ==> p[i + 1] in RefsOf(refs, p[i])
  }

  /** Walking on within a stuck set must meet the path again. */
  lemma {:induction false} FindCycle(refs: RefLists, s: set<TypeDefPtr>, path: seq<TypeDefPtr>)
    returns (p: seq<TypeDefPtr>)
    requires Stuck(refs, s) && Walk(refs, s, path)
    ensures Cycle(refs, p) && Elems(p) <= s
    decreases |s| - |path|
  {
    var x := path[|path| - 1];
    assert x in Elems(path);
    assert NeedsFrom(refs, x, s);
    var y :| y in s && Needs(refs, x, y);
    NoDupCard(path);
    SubsetCard(Elems(path), s);
    if y in path {
      var k :| 0 <= k < |path| && path[k] == y;
      p := path[k..];
    } else {
      assert Elems(path + [y]) == Elems(path) + {y};
      NoDupCard(path + [y]);
      SubsetCard(Elems(path + [y]), s);
      p := FindCycle(refs, s, path + [y]);
    }
  }

  lemma Member<T>(s: set<T>) returns (x: T)
    requires s != {}
    ensures x in s
  {
    x :| x in s;
  }

  /** Something is left exactly when the input contains a cycle. */
  lemma RestIffCycle(refs: RefLists, input: set<TypeDefPtr>, order: seq<TypeDefPtr>, rest: set<TypeDefPtr>)
    requires Split(refs, input, order, rest)
    ensures rest != {} <==> exists p :: Cycle(refs, p) && Elems(p) <= input
  {
    if rest != {} {
      var x := Member(rest);
      assert Elems([x]) == {x};
      var p := FindCycle(refs, rest, [x]);
    }
    if p :| Cycle(refs, p) && Elems(p) <= input {
      CycleStuck(refs, p);
      RestIsGreatest(refs, input, order, rest, Elems(p));
      assert p[0] in Elems(p);
    }
  }

  ghost predicate InStuck(refs: RefLists, input: set<TypeDefPtr>, x: TypeDefPtr)
  {
    exists s :: Stuck(refs, s) && s <= input && x in s
  }

  /** The greatest stuck subset: the types of the input that no order can satisfy. */
  ghost function Leftover(refs: RefLists, input: set<TypeDefPtr>): set<TypeDefPtr>
  {
    set x | x in input && InStuck(refs, input, x)
  }

  lemma SplitLeftover(refs: RefLists, input: set<TypeDefPtr>, order: seq<TypeDefPtr>, rest: set<TypeDefPtr>)
    requires Split(refs, input, order, rest)
    ensures rest == Leftover(refs, input) && Elems(order) == input - rest
  {
    forall x | x in Leftover(refs, input)
      ensures x in rest
    {
      var s :| Stuck(refs, s) && s <= input && x in s;
      RestIsGreatest(refs, input, order, rest, s);
    }
    forall x | x in rest
      ensures x in Leftover(refs, input)
    {
      assert Stuck(refs, rest);
    }
  }

  /** Only the references of the input matter. */
  lemma SplitAgrees(refs: RefLists, refs': RefLists, input: set<TypeDefPtr>, order: seq<TypeDefPtr>,
                    rest: set<TypeDefPtr>)
    requires Split(refs, input, order, rest)
    requires forall x :: x in input ==> RefsOf(refs, x) == RefsOf(refs', x)
    ensures Split(refs', input, order, rest)
  {
    forall x | x in rest
      ensures NeedsFrom(refs', x, rest)
    {
      assert NeedsFrom(refs, x, rest);
      var y :| y in rest && Needs(refs, x, y);
      assert Needs(refs', x, y);
    }
    forall i, y | 0 <= i < |order| && Needs(refs', order[i], y) && y in input
      ensures Before(order, i, y)
    {
      assert order[i] in Elems(order);
      assert Needs(refs, order[i], y);
    }
  }

  lemma StuckAgrees(refs: RefLists, refs': RefLists, input: set<TypeDefPtr>, s: set<TypeDefPtr>)
    requires Stuck(refs, s) && s <= input
    requires forall x :: x in input ==> RefsOf(refs, x) == RefsOf(refs', x)
    ensures Stuck(refs', s)
  {
    forall x | x in s
      ensures NeedsFrom(refs', x, s)
    {
      assert NeedsFrom(refs, x, s);
      var y :| y in s && Needs(refs, x, y);
      assert Needs(refs', x, y);
    }
  }

  lemma LeftoverWithin(refs: RefLists, refs': RefLists, input: set<TypeDefPtr>)
    requires forall x :: x in input ==> RefsOf(refs, x) == RefsOf(refs', x)
    ensures Leftover(refs, input) <= Leftover(refs', input)
  {
    forall x | x in Leftover(refs, input)
      ensures InStuck(refs', input, x)
    {
      var s :| Stuck(refs, s) && s <= input && x in s;
      StuckAgrees(refs, refs', input, s);
    }
  }

  lemma LeftoverStuck(refs: RefLists, input: set<TypeDefPtr>)
    ensures Stuck(refs, Leftover(refs, input))
  {
    forall x | x in Leftover(refs, input)
      ensures NeedsFrom(refs, x, Leftover(refs, input))
    {
      var s :| Stuck(refs, s) && s <= input && x in s;
      assert NeedsFrom(refs, x, s);
      var y :| y in s && Needs(refs, x, y);
      assert InStuck(refs, input, y);
    }
  }

  /** If every cycle runs through flagged types only, whatever cannot be sorted contains a flagged type. */
  lemma LeftoverFlagged(refs: RefLists, input: set<TypeDefPtr>, flagged: set<TypeDefPtr>)
    requires forall p :: Cycle(refs, p) && Elems(p) <= input ==> Elems(p) <= flagged
    ensures Leftover(refs, input) == {} || Leftover(refs, input) * flagged != {}
  {
    var rest := Leftover(refs, input);
    LeftoverStuck(refs, input);
    if rest != {} {
      var x := Member(rest);
      assert Elems([x]) == {x};
      var p := FindCycle(refs, rest, [x]);
      assert p[0] in Elems(p);
      assert p[0] in rest * flagged;
    }
  }
}

/** The lists of defined objects that the checkers keep. */
module DefinedObjects {

  /** Whether the list holds an object that the comparison takes for `obj`. */
  predicate IsDefined<T>(objs: seq<T>, obj: T, cmp: (T, T) -> bool)
  {
    exists i :: 0 <= i < |objs| && cmp(objs[i], obj)
  }

  /** The list without every object that the comparison takes for `obj`. */
  function Undefined<T>(objs: seq<T>, obj: T, cmp: (T, T) -> bool): seq<T>
  {
    if objs == [] then []
    else (if cmp(objs[0], obj) then [] else [objs[0]]) + Undefined(objs[1..], obj, cmp)
  }

  lemma {:induction false} UndefinedNothing<T>(objs: seq<T>, obj: T, cmp: (T, T) -> bool)
    ensures Undefined(objs, obj, cmp) == objs <==> !IsDefined(objs, obj, cmp)
    ensures |Undefined(objs, obj, cmp)| <= |objs|
  {
    if objs != [] {
      UndefinedNothing(objs[1..], obj, cmp);
      if i :| 0 <= i < |objs[1..]| && cmp(objs[1..][i], obj) {
        assert cmp(objs[i + 1], obj);
      }
      if i :| 0 <= i < |objs| && cmp(objs[i], obj) {
        assert i > 0 ==> cmp(objs[1..][i - 1], obj);
      }
    }
  }

  lemma {:induction false} UndefinedJoin<T>(a: seq<T>, b: seq<T>, obj: T, cmp: (T, T) -> bool)
    ensures Undefined(a + b, obj, cmp) == Undefined(a, obj, cmp) + Undefined(b, obj, cmp)
  {
    if a == [] {
      assert a + b == b;
    } else {
      assert (a + b)[1..] == a[1..] + b;
      UndefinedJoin(a[1..], b, obj, cmp);
    }
  }

  /** Undefining undoes a definition exactly when nothing like it was defined before: all matches go. */
  lemma UndefineUndoes<T>(objs: seq<T>, obj: T, cmp: (T, T) -> bool)
    requires cmp(obj, obj)
    ensures Undefined([obj] + objs, obj, cmp) == objs <==> !IsDefined(objs, obj, cmp)
  {
    assert ([obj] + objs)[1..] == objs;
    UndefinedNothing(objs, obj, cmp);
  }

  lemma UndefinedFirst<T>(todo: seq<T>, obj: T, cmp: (T, T) -> bool, done: seq<T>)
    requires todo != []
    ensures todo == [todo[0]] + todo[1..]
    ensures done + Undefined(todo, obj, cmp)
            == (if cmp(todo[0], obj) then done else done + [todo[0]]) + Undefined(todo[1..], obj, cmp)
  {
  }

  lemma UndefinedNone<T>(todo: seq<T>, obj: T, cmp: (T, T) -> bool)
    ensures todo == [] ==> Undefined(todo, obj, cmp) == []
  {
  }

  class DefinedObjs<T> {
    /** From the head of the list on. */
    var objs: seq<T>

    constructor ()
      ensures objs == []
    {
      objs := [];
    }

    method DefineObj(obj: T)
      modifies this
      ensures objs == [obj] + old(objs)
    {
      objs := [obj] + objs;
    }

    /** Removes every match, although its comment promises to remove the first one only. */
    method UndefineObj(obj: T, cmp: (T, T) -> bool)
      modifies this
      ensures objs == Undefined(old(objs), obj, cmp)
    {
      hide Undefined;
      var i := 0;
      ghost var done, todo := [], objs;
      while i < |objs|
        invariant objs == done + todo && |done| == i
        invariant done + Undefined(todo, obj, cmp) == Undefined(old(objs), obj, cmp)
        decreases |todo|
      {
        ghost var x := objs[i];
        UndefinedFirst(todo, obj, cmp, done);
        if cmp(objs[i], obj) {
          objs := objs[..i] + objs[i + 1..];
        } else {
          done := done + [x];
          i := i + 1;
        }
        todo := todo[1..];
      }
      UndefinedNone(todo, obj, cmp);
    }

    method ObjIsDefined(obj: T, cmp: (T, T) -> bool) returns (defined: bool)
      ensures defined <==> IsDefined(objs, obj, cmp)
    {
      for i := 0 to |objs|
        invariant forall j :: 0 <= j < i ==> !cmp(objs[j], obj)
      {
        if cmp(objs[i], obj) {
          return true;
        }
      }
      return false;
    }
  }
}

/** Paths of element indices through nested lists, in the order in which a walk meets them. */
module Paths {
  import opened Octets

  type Path = seq<nat>

  /** At the first step where they differ `p` takes the earlier element, or it ends where `q` goes on. */
  predicate Earlier(p: Path, q: Path)
  {
    q != [] && (p == [] || p[0] < q[0] || (p[0] == q[0] && Earlier(p[1..], q[1..])))
  }

  ghost predicate InOrder(ps: seq<Path>)
  {
    forall i, j :: 0 <= i < j < |ps| ==> Earlier(ps[i], ps[j])
  }

  /** The path is one of `ps`, and has `x` at its end. */
  ghost predicate Listed<T>(ps: seq<Path>, xs: seq<T>, p: Path, x: T)
  {
    exists k :: 0 <= k < |ps| && k < |xs| && ps[k] == p && xs[k] == x
  }

  /** The paths that begin with element number `i`. */
  function Under(i: nat, ps: seq<Path>): (r: seq<Path>)
    ensures |r| == |ps| && forall k :: 0 <= k < |ps| ==> r[k] == [i] + ps[k]
  {
    seq(|ps|, k requires 0 <= k < |ps| => [i] + ps[k])
  }

  lemma {:induction false} NotEarlier(p: Path)
    ensures !Earlier(p, p)
  {
    if p != [] {
      NotEarlier(p[1..]);
    }
  }

  lemma DistinctInOrder(ps: seq<Path>)
    requires InOrder(ps)
    ensures NoDup(ps)
  {
    forall i, j | 0 <= i < j < |ps|
      ensures ps[i] != ps[j]
    {
      NotEarlier(ps[i]);
    }
  }

  lemma InOrderUnder(i: nat, qs: seq<Path>)
    requires InOrder(qs)
    ensures InOrder(Under(i, qs))
  {
    forall a, b | 0 <= a < b < |qs|
      ensures Earlier(Under(i, qs)[a], Under(i, qs)[b])
    {
      assert Earlier(qs[a], qs[b]);
      assert ([i] + qs[a])[1..] == qs[a] && ([i] + qs[b])[1..] == qs[b];
    }
  }

  /** What begins with an earlier element comes first. */
  lemma InOrderConcat(ps: seq<Path>, qs: seq<Path>)
    requires InOrder(ps) && InOrder(qs)
    requires forall a, b :: 0 <= a < |ps| && 0 <= b < |qs| ==> ps[a] != [] && qs[b] != [] && ps[a][0] < qs[b][0]
    ensures InOrder(ps + qs)
  {
    hide Earlier;
    var all := ps + qs;
    forall a, b | 0 <= a < b < |all|
      ensures Earlier(all[a], all[b])
    {
      if a < |ps| <= b {
        FirstStep(ps[a], qs[b - |ps|]);
      }
    }
  }

  lemma InOrderJoin(ps: seq<Path>, i: nat, qs: seq<Path>)
    requires InOrder(ps) && InOrder(qs) && forall k :: 0 <= k < |ps| ==> ps[k] != [] && ps[k][0] < i
    ensures InOrder(ps + Under(i, qs))
  {
    InOrderUnder(i, qs);
    InOrderConcat(ps, Under(i, qs));
  }

  lemma FirstStep(p: Path, q: Path)
    requires p != [] && q != [] && p[0] < q[0]
    ensures Earlier(p, q)
  {
  }

  lemma {:induction false} NotBoth(p: Path, q: Path)
    requires Earlier(p, q)
    ensures !Earlier(q, p)
  {
    if p != [] && p[0] == q[0] {
      NotBoth(p[1..], q[1..]);
    }
  }
}

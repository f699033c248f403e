/** The doubly linked list with a cursor that the compiler and the decoded values use. */
module AsnLists {

  import opened Octets


  function Without<T>(s: seq<T>, k: nat): seq<T>
    requires k < |s|
  {
    s[..k] + s[k + 1..]
  }

  function With<T>(s: seq<T>, k: nat, x: T): seq<T>
    requires k <= |s|
  {
    s[..k] + [x] + s[k..]
  }

  /** What a list is to its users: its elements and a cursor, which is off the list at `|elems|`. */
  datatype CursorList<T> = CursorList(elems: seq<T>, curr: nat) {

    predicate OnList()
    {
      curr < |elems|
    }

    function Current(): Option<T>
    {
      if OnList() then Some(elems[curr]) else None
    }

    /** Removes the current element; the cursor moves to the next one. */
    function Remove(): CursorList<T>
    {
      if OnList() then CursorList(Without(elems, curr), curr) else this
    }

    /** Adds after the cursor, which moves to the new element; fails off the list. */
    function Add(x: T): CursorList<T>
    {
      if OnList() then CursorList(With(elems, curr + 1, x), curr + 1) else this
    }

    /** Inserts before the cursor, which moves to the new element; fails off the list. */
    function Insert(x: T): CursorList<T>
    {
      if OnList() then CursorList(With(elems, curr, x), curr) else this
    }

    function Prepend(x: T): CursorList<T>
    {
      CursorList(With(elems, 0, x), 0)
    }

    function Append(x: T): CursorList<T>
    {
      CursorList(With(elems, |elems|, x), |elems|)
    }

    function Next(): CursorList<T>
    {
      if OnList() then CursorList(elems, curr + 1) else CursorList(elems, 0)
    }

    function Prev(): CursorList<T>
    {
      if !OnList() then CursorList(elems, if elems == [] then 0 else |elems| - 1)
      else CursorList(elems, if curr == 0 then |elems| else curr - 1)
    }

    /** The second list goes behind the first; only an empty first list moves its cursor. */
    function Concat(l2: CursorList<T>): CursorList<T>
    {
      if l2.elems == [] then this
      else if elems == [] then CursorList(l2.elems, 0)
      else CursorList(elems + l2.elems, if OnList() then curr else |elems| + |l2.elems|)
    }
  }

  lemma WithoutWith<T>(s: seq<T>, k: nat, x: T)
    requires k <= |s|
    ensures |With(s, k, x)| == |s| + 1 && With(s, k, x)[k] == x && Without(With(s, k, x), k) == s
  {
  }

  /** Each insertion leaves its element current, and removing that element leaves the list that was. */
  lemma RemoveUndoes<T>(l: CursorList<T>, x: T)
    requires l.curr <= |l.elems|
    ensures l.Prepend(x).Current() == Some(x) && l.Prepend(x).Remove() == CursorList(l.elems, 0)
    ensures l.Append(x).Current() == Some(x) && l.Append(x).Remove() == CursorList(l.elems, |l.elems|)
    ensures l.OnList() ==> l.Insert(x).Current() == Some(x) && l.Insert(x).Remove() == l
    ensures l.OnList() ==> l.Add(x).Current() == Some(x) && l.Add(x).Remove() == CursorList(l.elems, l.curr + 1)
  {
    hide With, Without;
    WithoutWith(l.elems, 0, x);
    WithoutWith(l.elems, |l.elems|, x);
    if l.OnList() {
      WithoutWith(l.elems, l.curr, x);
      WithoutWith(l.elems, l.curr + 1, x);
    }
  }

  /** `n` times `AsnListNext`. */
  function Advance<T>(l: CursorList<T>, n: nat): CursorList<T>
    decreases n
  {
    if n == 0 then l else Advance(l.Next(), n - 1)
  }

  lemma {:induction false} AdvanceFrom<T>(elems: seq<T>, from: nat, n: nat)
    requires from + n <= |elems|
    ensures Advance(CursorList(elems, from), n) == CursorList(elems, from + n)
    decreases n
  {
    if n > 0 {
      AdvanceFrom(elems, from + 1, n - 1);
    }
  }

  /** From off the list, `AsnListNext` visits the elements in order and then is off the list again. */
  lemma AdvanceVisits<T>(elems: seq<T>, n: nat)
    requires n <= |elems|
    ensures Advance(CursorList(elems, |elems|), n + 1) == CursorList(elems, n)
  {
    AdvanceFrom(elems, 0, n);
  }

  /** Backing up and moving on undo each other, also onto and off the list. */
  lemma PrevUndoesNext<T>(l: CursorList<T>)
    requires l.curr <= |l.elems|
    ensures l.Next().Prev() == l && l.Prev().Next() == l
  {
  }

  /** `n` times `AsnListPrev`. */
  function Retreat<T>(l: CursorList<T>, n: nat): CursorList<T>
    decreases n
  {
    if n == 0 then l else Retreat(l.Prev(), n - 1)
  }

  /** From off the list, `AsnListPrev` visits the elements from the last to the first. */
  lemma {:induction false} RetreatVisits<T>(elems: seq<T>, from: nat, n: nat)
    requires n <= from <= |elems|
    ensures Retreat(CursorList(elems, from), n) == CursorList(elems, from - n)
    decreases n
  {
    if n > 0 {
      RetreatVisits(elems, from - 1, n - 1);
    }
  }

  class AsnListNode<T> {
    var prev: AsnListNode?<T>
    var next: AsnListNode?<T>
    var data: T

    constructor (data: T)
      ensures this.data == data
    {
      this.data := data;
      prev, next := null, null;
    }
  }

  /** The node at `i`, or `NULL` off the list. */
  ghost function At<T>(nodes: seq<AsnListNode<T>>, i: int): AsnListNode?<T>
  {
    if 0 <= i < |nodes| then nodes[i] else null
  }

  ghost predicate Distinct<T>(nodes: seq<AsnListNode<T>>)
  {
    forall i, j :: 0 <= i < j < |nodes| ==> nodes[i] != nodes[j]
  }

  /** Every `next` but that of the `except`-th node points to the following node. */
  ghost predicate NextLinks<T>(nodes: seq<AsnListNode<T>>, except: int)
    reads nodes
  {
    forall i {:trigger nodes[i]} :: 0 <= i < |nodes| && i != except ==> nodes[i].next == At(nodes, i + 1)
  }

  /** Every `prev` but that of the `except`-th node points to the preceding node. */
  ghost predicate PrevLinks<T>(nodes: seq<AsnListNode<T>>, except: int)
    reads nodes
  {
    forall i {:trigger nodes[i]} :: 0 <= i < |nodes| && i != except ==> nodes[i].prev == At(nodes, i - 1)
  }

  ghost predicate Holds<T>(nodes: seq<AsnListNode<T>>, elems: seq<T>)
    reads nodes
  {
    |nodes| == |elems| && forall i {:trigger nodes[i]} :: 0 <= i < |nodes| ==> nodes[i].data == elems[i]
  }

  lemma LinksAt<T>(nodes: seq<AsnListNode<T>>, elems: seq<T>, i: nat)
    requires NextLinks(nodes, -1) && PrevLinks(nodes, -1) && Holds(nodes, elems)
    ensures |elems| == |nodes|
    ensures i < |nodes| ==> nodes[i].next == At(nodes, i + 1) && nodes[i].prev == At(nodes, i - 1)
    ensures i < |nodes| ==> nodes[i].data == elems[i]
  {
  }

  /** `n->next = to`, for the `k`-th node. */
  method SetNext<T>(n: AsnListNode<T>, to: AsnListNode?<T>, ghost nodes: seq<AsnListNode<T>>, ghost elems: seq<T>,
                    ghost k: nat, ghost exceptPrev: int)
    requires k < |nodes| && n == nodes[k] && Distinct(nodes)
    requires NextLinks(nodes, -1) && PrevLinks(nodes, exceptPrev) && Holds(nodes, elems)
    modifies n`next
    ensures n.next == to
    ensures NextLinks(nodes, k) && PrevLinks(nodes, exceptPrev) && Holds(nodes, elems)
  {
    n.next := to;
  }

  /** `n->prev = to`, for the `k`-th node. */
  method SetPrev<T>(n: AsnListNode<T>, to: AsnListNode?<T>, ghost nodes: seq<AsnListNode<T>>, ghost elems: seq<T>,
                    ghost k: nat, ghost exceptNext: int)
    requires k < |nodes| && n == nodes[k] && Distinct(nodes)
    requires NextLinks(nodes, exceptNext) && PrevLinks(nodes, -1) && Holds(nodes, elems)
    modifies n`prev
    ensures n.prev == to
    ensures NextLinks(nodes, exceptNext) && PrevLinks(nodes, k) && Holds(nodes, elems)
  {
    n.prev := to;
  }

  /** Unlinking the `k`-th node leaves a proper list of the others. */
  lemma Unlinked<T>(nodes: seq<AsnListNode<T>>, elems: seq<T>, k: nat)
    requires k < |nodes| && Distinct(nodes) && Holds(nodes, elems)
    requires NextLinks(nodes, k - 1) && (k > 0 ==> nodes[k - 1].next == At(nodes, k + 1))
    requires PrevLinks(nodes, k + 1) && (k + 1 < |nodes| ==> nodes[k + 1].prev == At(nodes, k - 1))
    ensures Distinct(Without(nodes, k)) && Holds(Without(nodes, k), Without(elems, k))
    ensures NextLinks(Without(nodes, k), -1) && PrevLinks(Without(nodes, k), -1)
    ensures |Without(nodes, k)| == |nodes| - 1 && forall n <- Without(nodes, k) :: n in nodes
    ensures At(Without(nodes, k), 0) == At(nodes, if k == 0 then 1 else 0)
    ensures At(Without(nodes, k), k) == At(nodes, k + 1)
    ensures At(Without(nodes, k), |nodes| - 2) == At(nodes, if k == |nodes| - 1 then k - 1 else |nodes| - 1)
  {
    UnlinkedNext(nodes, k);
    UnlinkedPrev(nodes, k);
  }

  lemma UnlinkedNext<T>(nodes: seq<AsnListNode<T>>, k: nat)
    requires k < |nodes|
    requires NextLinks(nodes, k - 1) && (k > 0 ==> nodes[k - 1].next == At(nodes, k + 1))
    ensures NextLinks(Without(nodes, k), -1)
  {
    forall i | 0 <= i < |nodes| - 1
      ensures Without(nodes, k)[i].next == At(Without(nodes, k), i + 1)
    {
      var j := if i < k then i else i + 1;
      assert nodes[j].next == if j == k - 1 then At(nodes, k + 1) else At(nodes, j + 1);
    }
  }

  lemma UnlinkedPrev<T>(nodes: seq<AsnListNode<T>>, k: nat)
    requires k < |nodes|
    requires PrevLinks(nodes, k + 1) && (k + 1 < |nodes| ==> nodes[k + 1].prev == At(nodes, k - 1))
    ensures PrevLinks(Without(nodes, k), -1)
  {
    forall i | 0 <= i < |nodes| - 1
      ensures Without(nodes, k)[i].prev == At(Without(nodes, k), i - 1)
    {
      var j := if i < k then i else i + 1;
      assert nodes[j].prev == if j == k + 1 then At(nodes, k - 1) else At(nodes, j - 1);
    }
  }

  /** Linking `x` in at `k` gives a proper list of one more. */
  lemma LinkedIn<T>(nodes: seq<AsnListNode<T>>, elems: seq<T>, k: nat, x: AsnListNode<T>)
    requires k <= |nodes| && x !in nodes && Distinct(nodes) && Holds(nodes, elems)
    requires x.next == At(nodes, k) && x.prev == At(nodes, k - 1)
    requires NextLinks(nodes, k - 1) && (k > 0 ==> nodes[k - 1].next == x)
    requires PrevLinks(nodes, k) && (k < |nodes| ==> nodes[k].prev == x)
    ensures Distinct(With(nodes, k, x)) && Holds(With(nodes, k, x), With(elems, k, x.data))
    ensures NextLinks(With(nodes, k, x), -1) && PrevLinks(With(nodes, k, x), -1)
    ensures |With(nodes, k, x)| == |nodes| + 1 && forall n <- With(nodes, k, x) :: n == x || n in nodes
    ensures At(With(nodes, k, x), 0) == if k == 0 then x else At(nodes, 0)
    ensures At(With(nodes, k, x), k) == x
    ensures At(With(nodes, k, x), |nodes|) == if k == |nodes| then x else At(nodes, |nodes| - 1)
  {
    hide NextLinks, PrevLinks, Holds, Distinct;
    LinkedNext(nodes, k, x);
    LinkedPrev(nodes, k, x);
    LinkedHolds(nodes, elems, k, x);
  }

  lemma LinkedHolds<T>(nodes: seq<AsnListNode<T>>, elems: seq<T>, k: nat, x: AsnListNode<T>)
    requires k <= |nodes| && x !in nodes && Distinct(nodes) && Holds(nodes, elems)
    ensures |elems| == |nodes| && Distinct(With(nodes, k, x)) && Holds(With(nodes, k, x), With(elems, k, x.data))
  {
  }

  lemma LinkedNext<T>(nodes: seq<AsnListNode<T>>, k: nat, x: AsnListNode<T>)
    requires k <= |nodes| && x.next == At(nodes, k)
    requires NextLinks(nodes, k - 1) && (k > 0 ==> nodes[k - 1].next == x)
    ensures NextLinks(With(nodes, k, x), -1)
  {
    forall i | 0 <= i <= |nodes| && i != k
      ensures With(nodes, k, x)[i].next == At(With(nodes, k, x), i + 1)
    {
      var j := if i < k then i else i - 1;
      assert nodes[j].next == if j == k - 1 then x else At(nodes, j + 1);
    }
  }

  lemma LinkedPrev<T>(nodes: seq<AsnListNode<T>>, k: nat, x: AsnListNode<T>)
    requires k <= |nodes| && x.prev == At(nodes, k - 1)
    requires PrevLinks(nodes, k) && (k < |nodes| ==> nodes[k].prev == x)
    ensures PrevLinks(With(nodes, k, x), -1)
  {
    forall i | 0 <= i <= |nodes| && i != k
      ensures With(nodes, k, x)[i].prev == At(With(nodes, k, x), i - 1)
    {
      var j := if i < k then i else i - 1;
      assert nodes[j].prev == if j == k then x else At(nodes, j - 1);
    }
  }

  lemma DistinctJoin<T>(a: seq<AsnListNode<T>>, b: seq<AsnListNode<T>>)
    requires Distinct(a) && Distinct(b) && forall n <- a :: n !in b
    ensures Distinct(a + b)
  {
    forall i, j | 0 <= i < j < |a + b|
      ensures (a + b)[i] != (a + b)[j]
    {
      if i < |a| <= j {
        assert a[i] !in b && b[j - |a|] in b;
      } else if |a| <= i {
        assert b[i - |a|] != b[j - |a|];
      }
    }
  }

  lemma JoinedLinks<T>(a: seq<AsnListNode<T>>, b: seq<AsnListNode<T>>)
    requires |a| > 0 && |b| > 0
    requires NextLinks(a, |a| - 1) && PrevLinks(a, -1) && NextLinks(b, -1) && PrevLinks(b, 0)
    requires a[|a| - 1].next == b[0] && b[0].prev == a[|a| - 1]
    ensures NextLinks(a + b, -1) && PrevLinks(a + b, -1)
  {
    forall i | 0 <= i < |a + b|
      ensures (a + b)[i].next == At(a + b, i + 1) && (a + b)[i].prev == At(a + b, i - 1)
    {
      if i < |a| {
        assert a[i] == (a + b)[i];
      } else {
        assert b[i - |a|] == (a + b)[i];
      }
    }
  }

  /** Two lists whose ends point at each other are one list. */
  lemma Joined<T>(a: seq<AsnListNode<T>>, elemsA: seq<T>, b: seq<AsnListNode<T>>, elemsB: seq<T>, pos: nat)
    requires |a| > 0 && |b| > 0 && Distinct(a) && Distinct(b) && forall n <- a :: n !in b
    requires Holds(a, elemsA) && Holds(b, elemsB)
    requires NextLinks(a, |a| - 1) && PrevLinks(a, -1) && NextLinks(b, -1) && PrevLinks(b, 0)
    requires a[|a| - 1].next == b[0] && b[0].prev == a[|a| - 1]
    ensures Distinct(a + b) && Holds(a + b, elemsA + elemsB) && |elemsA| == |a| && |elemsB| == |b|
    ensures NextLinks(a + b, -1) && PrevLinks(a + b, -1)
    ensures At(a + b, 0) == a[0] && At(a + b, |a| + |b| - 1) == b[|b| - 1] && At(a + b, |a| + |b|) == null
    ensures At(a + b, pos) == if pos < |a| then At(a, pos) else At(b, pos - |a|)
  {
    hide Distinct, NextLinks, PrevLinks;
    DistinctJoin(a, b);
    JoinedLinks(a, b);
  }

  /** Links that are all in place are so whichever one may be out of place. */
  lemma NoExcept<T>(nodes: seq<AsnListNode<T>>, except: int)
    requires NextLinks(nodes, -1) && PrevLinks(nodes, -1)
    ensures NextLinks(nodes, except) && PrevLinks(nodes, except)
  {
  }

  class AsnList<T(==)> {
    var first: AsnListNode?<T>
    var last: AsnListNode?<T>
    var curr: AsnListNode?<T>
    var count: int

    ghost var nodes: seq<AsnListNode<T>>
    ghost var elems: seq<T>
    ghost var pos: nat

    /** `prev` and `next` are mutually inverse along `nodes`; ends, cursor and count agree. */
    ghost predicate Valid()
      reads this, nodes
    {
      && Distinct(nodes) && NextLinks(nodes, -1) && PrevLinks(nodes, -1) && Holds(nodes, elems)
      && first == At(nodes, 0) && last == At(nodes, |nodes| - 1)
      && pos <= |nodes| && curr == At(nodes, pos)
      && count == |nodes|
    }

    ghost function View(): CursorList<T>
      reads this
    {
      CursorList(elems, pos)
    }

    constructor ()
      ensures Valid() && View() == CursorList([], 0) && nodes == []
    {
      first, last, curr := null, null, null;
      count := 0;
      nodes, elems, pos := [], [], 0;
    }

    /** Sets the ghost view of a list whose fields and links are in place. */
    ghost method Becomes(nodes: seq<AsnListNode<T>>, elems: seq<T>, pos: nat)
      requires Distinct(nodes) && NextLinks(nodes, -1) && PrevLinks(nodes, -1) && Holds(nodes, elems)
      requires first == At(nodes, 0) && last == At(nodes, |nodes| - 1)
      requires pos <= |nodes| && curr == At(nodes, pos) && count == |nodes|
      modifies this`nodes, this`elems, this`pos
      ensures Valid() && View() == CursorList(elems, pos) && this.nodes == nodes
    {
      hide NextLinks, PrevLinks, Holds, Distinct;
      this.nodes, this.elems, this.pos := nodes, elems, pos;
    }

    /** What every insertion ends with, once `newNode` is linked in as the `k`-th. */
    method Accept(newNode: AsnListNode<T>, ghost k: nat)
      requires Distinct(nodes) && Holds(nodes, elems) && k <= |nodes| && newNode !in nodes
      requires newNode.next == At(nodes, k) && newNode.prev == At(nodes, k - 1)
      requires NextLinks(nodes, k - 1) && (k > 0 ==> nodes[k - 1].next == newNode)
      requires PrevLinks(nodes, k) && (k < |nodes| ==> nodes[k].prev == newNode)
      requires first == (if k == 0 then newNode else At(nodes, 0)) && count == |nodes|
      requires last == if k == |nodes| then newNode else At(nodes, |nodes| - 1)
      modifies this
      ensures |old(nodes)| == |old(elems)|
      ensures Valid() && View() == CursorList(With(old(elems), k, newNode.data), k)
      ensures forall n <- nodes :: n == newNode || n in old(nodes)
    {
      hide NextLinks, PrevLinks, Distinct, With;
      curr := newNode;
      count := count + 1;
      LinkedIn(nodes, elems, k, newNode);
      Becomes(With(nodes, k, newNode), With(elems, k, newNode.data), k);
    }

    method Remove()
      requires Valid()
      modifies this, nodes
      ensures Valid() && View() == old(View()).Remove()
      ensures forall x :: x in nodes ==> x in old(nodes)
    {
      hide NextLinks, PrevLinks, Holds, Distinct, With, Without;
      LinksAt(nodes, elems, pos);
      NoExcept(nodes, pos - 1);
      NoExcept(nodes, pos + 1);
      if curr != null {
        ghost var k := pos;
        if curr.next != null {
          SetPrev(curr.next, curr.prev, nodes, elems, k + 1, -1);
        } else {
          last := curr.prev;
        }
        if curr.prev != null {
          SetNext(curr.prev, curr.next, nodes, elems, k - 1, k + 1);
        } else {
          first := curr.next;
        }
        curr := curr.next;
        count := count - 1;
        Unlinked(nodes, elems, k);
        Becomes(Without(nodes, k), Without(elems, k), k);
      }
    }

    /** After the cursor; the result says whether the list had a current element. */
    method Add(x: T) returns (ok: bool)
      requires Valid()
      modifies this, nodes
      ensures Valid() && ok == old(View()).OnList() && View() == old(View()).Add(x)
      ensures forall n <- nodes :: n in old(nodes) || fresh(n)
    {
      hide NextLinks, PrevLinks, Holds, Distinct, With, Without;
      ok := false;
      LinksAt(nodes, elems, pos);
      if curr != null {
        ok := true;
        ghost var k := pos + 1;
        var newNode := new AsnListNode(x);
        newNode.next, newNode.prev := curr.next, curr;
        NoExcept(nodes, k);
        if curr.next != null {
          SetPrev(curr.next, newNode, nodes, elems, k, -1);
        } else {
          last := newNode;
        }
        SetNext(curr, newNode, nodes, elems, k - 1, k);
        Accept(newNode, k);
      }
    }

    /** Before the cursor; the result says whether the list had a current element. */
    method Insert(x: T) returns (ok: bool)
      requires Valid()
      modifies this, nodes
      ensures Valid() && ok == old(View()).OnList() && View() == old(View()).Insert(x)
      ensures forall n <- nodes :: n in old(nodes) || fresh(n)
    {
      hide NextLinks, PrevLinks, Holds, Distinct, With, Without;
      ok := false;
      LinksAt(nodes, elems, pos);
      if curr != null {
        ok := true;
        ghost var k: int := pos;
        var newNode := new AsnListNode(x);
        newNode.next, newNode.prev := curr, curr.prev;
        NoExcept(nodes, k - 1);
        if curr.prev != null {
          SetNext(curr.prev, newNode, nodes, elems, k - 1, -1);
        } else {
          first := newNode;
        }
        SetPrev(curr, newNode, nodes, elems, k, k - 1);
        Accept(newNode, k);
      }
    }

    method Prepend(x: T)
      requires Valid()
      modifies this, nodes
      ensures Valid() && View() == old(View()).Prepend(x)
      ensures forall n <- nodes :: n in old(nodes) || fresh(n)
    {
      hide NextLinks, PrevLinks, Holds, Distinct, With, Without;
      LinksAt(nodes, elems, 0);
      var newNode := new AsnListNode(x);
      newNode.prev := null;
      NoExcept(nodes, -1);
      NoExcept(nodes, 0);
      if first == null {
        newNode.next := null;
        first, last := newNode, newNode;
      } else {
        newNode.next := first;
        SetPrev(first, newNode, nodes, elems, 0, -1);
        first := newNode;
      }
      Accept(newNode, 0);
    }

    method Append(x: T)
      requires Valid()
      modifies this, nodes
      ensures Valid() && View() == old(View()).Append(x)
      ensures forall n <- nodes :: n in old(nodes) || fresh(n)
    {
      hide NextLinks, PrevLinks, Holds, Distinct, With, Without;
      LinksAt(nodes, elems, 0);
      var newNode := new AsnListNode(x);
      newNode.next := null;
      ghost var k := |nodes|;
      NoExcept(nodes, k - 1);
      NoExcept(nodes, k);
      if last == null {
        newNode.prev := null;
        first, last := newNode, newNode;
      } else {
        newNode.prev := last;
        SetNext(last, newNode, nodes, elems, k - 1, k);
        last := newNode;
      }
      Accept(newNode, k);
    }

    /** Moves on, from off the list to the first element; `None` off the list. */
    method Next() returns (x: Option<T>)
      requires Valid()
      modifies this`curr, this`pos
      ensures Valid() && View() == old(View()).Next() && x == View().Current()
    {
      hide NextLinks, PrevLinks, Holds, Distinct;
      LinksAt(nodes, elems, pos);
      if curr == null {
        curr, pos := first, 0;
      } else {
        curr, pos := curr.next, pos + 1;
      }
      LinksAt(nodes, elems, pos);
      x := if curr == null then None else Some(curr.data);
    }

    /** Backs up, from off the list to the last element; `None` off the list. */
    method Prev() returns (x: Option<T>)
      requires Valid()
      modifies this`curr, this`pos
      ensures Valid() && View() == old(View()).Prev() && x == View().Current()
    {
      hide NextLinks, PrevLinks, Holds, Distinct;
      LinksAt(nodes, elems, pos);
      if curr == null {
        curr, pos := last, if nodes == [] then 0 else |nodes| - 1;
      } else {
        curr, pos := curr.prev, if pos == 0 then |nodes| else pos - 1;
      }
      LinksAt(nodes, elems, pos);
      x := if curr == null then None else Some(curr.data);
    }

    /** The first index of `elmt`, or -1; the cursor is where it was. */
    method GetElmtIndex(elmt: T) returns (index: int)
      requires Valid()
      modifies this`curr, this`pos
      ensures Valid() && View() == old(View())
      ensures -1 <= index < |elems|
      ensures if index < 0 then elmt !in elems else elems[index] == elmt && elmt !in elems[..index]
    {
      hide NextLinks, PrevLinks, Holds, Distinct;
      var tmp := curr;
      ghost var at := pos;
      index := 0;
      curr, pos := first, 0;
      LinksAt(nodes, elems, 0);
      while curr != null
        invariant Valid() && index == pos && tmp == At(nodes, at)
        invariant |elems| == |nodes| && elmt !in elems[..index]
        decreases |nodes| - pos
      {
        LinksAt(nodes, elems, pos);
        assert elems[..index + 1] == elems[..index] + [elems[index]];
        if curr.data == elmt {
          curr, pos := tmp, at;
          return;
        }
        index := index + 1;
        curr, pos := curr.next, pos + 1;
      }
      curr, pos := tmp, at;
      return -1;
    }

    /** Links the nodes of `l2` behind this list's, neither list being empty. */
    method Splice(l2: AsnList<T>)
      requires Valid() && l2.Valid() && l2 != this && forall n <- nodes :: n !in l2.nodes
      requires |nodes| == |elems| && |l2.nodes| == |l2.elems| && nodes != [] && l2.nodes != []
      modifies this, nodes, l2.nodes
      ensures Valid() && View() == old(View()).Concat(old(l2.View()))
      ensures nodes == old(nodes) + old(l2.nodes)
    {
      hide NextLinks, PrevLinks, Holds, Distinct, With, Without;
      count := count + l2.count;
      assert last in nodes && l2.first in l2.nodes && l2.first !in nodes;
      SetNext(last, l2.first, nodes, elems, |nodes| - 1, -1);
      SetPrev(l2.first, last, l2.nodes, l2.elems, 0, -1);
      last := l2.last;
      Joined(nodes, elems, l2.nodes, l2.elems, pos);
      Becomes(nodes + l2.nodes, elems + l2.elems, if pos == |nodes| then |nodes| + |l2.nodes| else pos);
    }

    /** Moves the nodes of `l2` behind this list's; `l2` itself is then given up. */
    method Concat(l2: AsnList<T>)
      requires Valid() && l2.Valid() && l2 != this && forall n <- nodes :: n !in l2.nodes
      modifies this, nodes, l2.nodes
      ensures Valid() && View() == old(View()).Concat(old(l2.View()))
      ensures nodes == old(nodes) + old(l2.nodes)
    {
      hide NextLinks, PrevLinks, Holds, Distinct, With, Without;
      LinksAt(nodes, elems, 0);
      LinksAt(l2.nodes, l2.elems, 0);
      if l2.count == 0 {
        assert nodes + l2.nodes == nodes;
        return;
      }
      if count == 0 {
        count := l2.count;
        last := l2.last;
        first := l2.first;
        curr := first;
        Becomes(l2.nodes, l2.elems, 0);
        assert old(nodes) + l2.nodes == l2.nodes;
      } else {
        Splice(l2);
      }
    }
  }
}

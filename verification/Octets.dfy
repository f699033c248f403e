/** Octets, big-endian numbers and the few general notions that several models share. */
module Octets {

  type byte = n: int | 0 <= n < 256

  /** `long` and `AsnLen` are 32 bits wide in the modelled platform. */
  const TWO_31: int := 0x8000_0000
  const TWO_32: int := 0x1_0000_0000

  function Elems<T>(s: seq<T>): set<T>
  {
    set x | x in s
  }

  ghost predicate NoDup<T>(s: seq<T>)
  {
    forall i, j :: 0 <= i < j < |s| ==> s[i] != s[j]
  }

  lemma IndexOf<T>(s: seq<T>, x: T) returns (i: nat)
    requires x in Elems(s)
    ensures i < |s| && s[i] == x
  {
    i :| 0 <= i < |s| && s[i] == x;
  }

  lemma JoinElems<T>(a: seq<T>, b: seq<T>)
    ensures Elems(a + b) == Elems(a) + Elems(b)
    ensures NoDup(a) && NoDup(b) && Elems(a) !! Elems(b) ==> NoDup(a + b)
  {
    forall x | x in Elems(a) + Elems(b)
      ensures x in Elems(a + b)
    {
      if x in Elems(a) {
        var i := IndexOf(a, x);
        assert (a + b)[i] == x;
      } else {
        var i := IndexOf(b, x);
        assert (a + b)[|a| + i] == x;
      }
    }
    if NoDup(a) && NoDup(b) && Elems(a) !! Elems(b) {
      forall i, j | 0 <= i < j < |a + b|
        ensures (a + b)[i] != (a + b)[j]
      {
        if i < |a| <= j {
          assert a[i] in Elems(a) && b[j - |a|] in Elems(b);
        }
      }
    }
  }

  datatype Option<+T> = None | Some(value: T) {
    predicate IsFailure() {
      None?
    }

    function PropagateFailure<U>(): Option<U>
      requires None?
    {
      None
    }

    function Extract(): T
      requires Some?
    {
      value
    }
  }

  /** The outcome of a decoder: a value, or the code passed to `longjmp`. */
  datatype Result<+T> = Ok(value: T) | Jump(code: int) {
    predicate IsFailure() {
      Jump?
    }

    function PropagateFailure<U>(): Result<U>
      requires Jump?
    {
      Jump(code)
    }

    function Extract(): T
      requires Ok?
    {
      value
    }
  }

  /**
   * What a decoder does with the octets before it: it yields a value, adds `n`
   * to the caller's `bytesDecoded` and leaves `rest`; or it jumps.
   */
  datatype Dec<+T> = Got(value: T, n: nat, rest: seq<byte>) | Fail(code: int) {
    predicate IsFailure() {
      Fail?
    }

    function PropagateFailure<U>(): Dec<U>
      requires Fail?
    {
      Fail(code)
    }

    function Extract(): (T, nat, seq<byte>)
      requires Got?
    {
      (value, n, rest)
    }
  }

  function Pow256(k: nat): (p: nat)
    ensures p > 0
  {
    if k == 0 then 1 else 256 * Pow256(k - 1)
  }

  lemma PowValues()
    ensures Pow256(1) == 0x100 && Pow256(2) == 0x1_0000
    ensures Pow256(3) == 0x100_0000 && Pow256(4) == TWO_32
  {
    assert Pow256(1) == 256 * Pow256(0);
    assert Pow256(2) == 256 * Pow256(1);
    assert Pow256(3) == 256 * Pow256(2);
  }

  /** The `k` low-order octets of `n` in two's complement, most significant first. */
  function Be(n: int, k: nat): (s: seq<byte>)
    ensures |s| == k
    decreases k
  {
    if k == 0 then [] else Be(n / 256, k - 1) + [n % 256]
  }

  lemma Be1(n: int)
    ensures Be(n, 1) == [n % 256]
  {
    assert Be(n / 256, 0) == [];
  }

  lemma Be2(n: int)
    ensures Be(n, 2) == [n / 0x100 % 256, n % 256]
  {
    Be1(n / 256);
  }

  lemma Be3(n: int)
    ensures Be(n, 3) == [n / 0x1_0000 % 256, n / 0x100 % 256, n % 256]
  {
    Be2(n / 256);
    assert n / 0x100 / 0x100 == n / 0x1_0000;
  }

  lemma Be4(n: int)
    ensures Be(n, 4) == [n / 0x100_0000 % 256, n / 0x1_0000 % 256, n / 0x100 % 256, n % 256]
  {
    Be3(n / 256);
    assert n / 0x100 / 0x100 == n / 0x1_0000;
    assert n / 0x100 / 0x1_0000 == n / 0x100_0000;
  }

  /** The unsigned number whose big-endian octets are `s`. */
  function Val(s: seq<byte>): nat
  {
    if s == [] then 0 else Val(s[..|s| - 1]) * 256 + s[|s| - 1]
  }

  lemma {:induction false} ValBe(n: int, k: nat)
    ensures Val(Be(n, k)) == n % Pow256(k)
    decreases k
  {
    if k == 0 {
    } else {
      ValBe(n / 256, k - 1);
      assert Be(n, k)[..k - 1] == Be(n / 256, k - 1);
      DivModPow(n, Pow256(k - 1));
    }
  }

  lemma DivModPow(n: int, p: nat)
    requires p > 0
    ensures (n / 256) % p * 256 + n % 256 == n % (256 * p)
  {
    var q, r := n / 256, n % 256;
    var a, b := q / p, q % p;
    assert q == a * p + b;
    assert n == a * (256 * p) + (b * 256 + r) by {
      assert n == q * 256 + r;
      assert (a * p) * 256 == a * (256 * p);
    }
    DivModUnique(n, 256 * p, a, b * 256 + r);
  }

  lemma DivModUnique(n: int, d: nat, q: int, r: int)
    requires d > 0 && 0 <= r < d && n == q * d + r
    ensures n / d == q && n % d == r
  {
    var q', r' := n / d, n % d;
    assert q' * d + r' == q * d + r;
    if q > q' {
      MulMonotone(q' + 1, q, d);
    } else if q < q' {
      MulMonotone(q + 1, q', d);
    }
  }

  lemma MulMonotone(a: int, b: int, d: nat)
    requires a <= b
    ensures a * d <= b * d
  {
  }

  lemma DivBounds(n: int, d: nat, lo: int, hi: int)
    requires d > 0 && lo * d <= n < hi * d
    ensures lo <= n / d < hi
  {
    var q := n / d;
    assert q * d <= n < q * d + d;
    if q < lo {
      MulMonotone(q + 1, lo, d);
    } else if q >= hi {
      MulMonotone(hi, q, d);
    }
  }

  lemma DivDiv(n: int, a: nat, b: nat)
    requires a > 0 && b > 0
    ensures n / a / b == n / (a * b)
  {
    var q, r := n / a, n % a;
    var q2, r2 := q / b, q % b;
    assert n == q2 * (a * b) + (r2 * a + r) by {
      assert n == q * a + r && q == q2 * b + r2;
      assert (q2 * b) * a == q2 * (a * b);
    }
    assert 0 <= r2 * a + r < a * b by {
      MulMonotone(r2 + 1, b, a);
    }
    DivModUnique(n, a * b, q2, r2 * a + r);
  }

  /** The octets of a number can also be grown at the significant end. */
  lemma {:induction false} BeCons(n: int, k: nat)
    ensures Be(n, k + 1) == [n / Pow256(k) % 256] + Be(n, k)
    decreases k
  {
    if k == 0 {
      assert Be(n / 256, 0) == [];
    } else {
      BeCons(n / 256, k - 1);
      DivDiv(n, 256, Pow256(k - 1));
    }
  }

  lemma ValSnoc(s: seq<byte>, b: byte)
    ensures Val(s + [b]) == Val(s) * 256 + b
  {
    assert (s + [b])[..|s|] == s;
  }
}

/**
  Sums of a per-element quantity over a sequence: the shape of every
  `foreach ($cartData as $cartItem) { $total += ...; }` loop in the cart.
 */
module Sums {

  function SumOf<T>(s: seq<T>, f: T -> int): int
  {
    if s == [] then 0 else f(s[0]) + SumOf(s[1..], f)
  }

  lemma {:induction false} SumOfAppend<T>(a: seq<T>, b: seq<T>, f: T -> int)
    ensures SumOf(a + b, f) == SumOf(a, f) + SumOf(b, f)
  {
    if a == [] {
      assert a + b == b;
    } else {
      assert (a + b)[0] == a[0];
      assert (a + b)[1..] == a[1..] + b;
      SumOfAppend(a[1..], b, f);
    }
  }

  /** A sum does not depend on the order of the elements, only on which elements there are. */
  lemma {:induction false} SumOfPermutation<T>(a: seq<T>, b: seq<T>, f: T -> int)
    requires multiset(a) == multiset(b)
    ensures SumOf(a, f) == SumOf(b, f)
  {
    if a == [] {
      assert |multiset(b)| == 0;
    } else {
      var x := a[0];
      assert x in multiset(b);
      var j :| 0 <= j < |b| && b[j] == x;
      var rest := RemoveAt(b, j);
      assert a == [x] + a[1..];
      assert multiset(a[1..]) == multiset(a) - multiset{x};
      SumOfPermutation(a[1..], rest, f);
    }
  }

  /**
    `b` without its `j`-th element: one fewer copy of it, and a sum short by
    its term.
   */
  lemma RemoveAt<T>(b: seq<T>, j: nat) returns (rest: seq<T>)
    requires j < |b|
    ensures multiset(rest) == multiset(b) - multiset{b[j]}
    ensures forall f: T -> int :: SumOf(b, f) == f(b[j]) + SumOf(rest, f)
  {
    rest := b[..j] + b[j + 1..];
    assert b == b[..j] + [b[j]] + b[j + 1..];
    assert multiset(b) == multiset(b[..j]) + multiset{b[j]} + multiset(b[j + 1..]);
    forall f: T -> int
      ensures SumOf(b, f) == f(b[j]) + SumOf(rest, f)
    {
      SumOfAppend(b[..j] + [b[j]], b[j + 1..], f);
      SumOfAppend(b[..j], [b[j]], f);
      SumOfAppend(b[..j], b[j + 1..], f);
    }
  }

  /** Non-negative terms give a non-negative sum. */
  lemma {:induction false} SumOfNonNegative<T>(s: seq<T>, f: T -> int)
    requires forall i :: 0 <= i < |s| ==> f(s[i]) >= 0
    ensures SumOf(s, f) >= 0
  {
    if s != [] {
      SumOfNonNegative(s[1..], f);
    }
  }
}

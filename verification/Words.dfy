/** The word size, and sums over a list. */
module Words {
  /** The kernel's words have 32 bits. */
  const WORD_LIMIT := 0x1_0000_0000

  function Min(x: int, y: int): int {
    if x < y then x else y
  }

  function Sum<T>(xs: seq<T>, f: T -> nat): nat {
    if xs == [] then 0 else f(xs[0]) + Sum(xs[1..], f)
  }

  lemma {:induction false} SumSet<T>(xs: seq<T>, f: T -> nat, i: nat, x: T)
    requires i < |xs|
    ensures Sum(xs[i := x], f) + f(xs[i]) == Sum(xs, f) + f(x)
  {
    if i > 0 {
      assert xs[i := x][1..] == xs[1..][i - 1 := x];
      SumSet(xs[1..], f, i - 1, x);
    } else {
      assert xs[i := x][1..] == xs[1..];
    }
  }

  lemma {:induction false} SumAdd<T>(xs: seq<T>, f: T -> nat, x: T)
    ensures Sum(xs + [x], f) == Sum(xs, f) + f(x)
  {
    if xs == [] {
      assert xs + [x] == [x];
    } else {
      assert (xs + [x])[1..] == xs[1..] + [x];
      SumAdd(xs[1..], f, x);
    }
  }

  /** A sum in which every term is the same. */
  lemma {:induction false} SumSame<T>(xs: seq<T>, f: T -> nat, n: nat)
    requires forall k :: 0 <= k < |xs| ==> f(xs[k]) == n
    ensures Sum(xs, f) == n * |xs|
  {
    if xs != [] {
      SumSame(xs[1..], f, n);
    }
  }

  /** A sum with one term. */
  lemma {:induction false} SumOne<T>(xs: seq<T>, f: T -> nat, i: nat)
    requires i < |xs| && forall k :: 0 <= k < |xs| && k != i ==> f(xs[k]) == 0
    ensures Sum(xs, f) == f(xs[i])
  {
    if i == 0 {
      SumSame(xs[1..], f, 0);
    } else {
      SumOne(xs[1..], f, i - 1);
    }
  }
}

/** Byte offsets as a block number and a place within the block. */
module Blocks {
  /** Where block b of s bytes starts. */
  function Start(s: nat, b: nat): nat {
    if b == 0 then 0 else Start(s, b - 1) + s
  }

  /** The block that holds byte x. */
  function BlockAt(s: nat, x: nat): nat {
    if s == 0 || x < s then 0 else 1 + BlockAt(s, x - s)
  }

  /** The place of byte x in its block. */
  function Within(s: nat, x: nat): nat {
    if s == 0 || x < s then x else Within(s, x - s)
  }

  lemma {:induction false} SplitIs(s: nat, x: nat)
    requires 0 < s
    ensures x == Start(s, BlockAt(s, x)) + Within(s, x) && Within(s, x) < s
  {
    if x >= s {
      SplitIs(s, x - s);
    }
  }

  lemma {:induction false} SplitOf(s: nat, b: nat, k: nat)
    requires k < s
    ensures BlockAt(s, Start(s, b) + k) == b && Within(s, Start(s, b) + k) == k
  {
    if b > 0 {
      SplitOf(s, b - 1, k);
    }
  }

  lemma {:induction false} Monotone(s: nat, x: nat, y: nat)
    requires x <= y
    ensures BlockAt(s, x) <= BlockAt(s, y)
  {
    if s > 0 && x >= s {
      Monotone(s, x - s, y - s);
    }
  }

  /** A piece of m bytes from y on that lies in one block. */
  lemma {:induction false} PieceIs(s: nat, y: nat, m: nat)
    requires 0 < s && 0 < m && Within(s, y) + m <= s
    ensures BlockAt(s, y + m - 1) == BlockAt(s, y)
    ensures y > 0 ==> BlockAt(s, y - 1) == BlockAt(s, y) - if Within(s, y) == 0 then 1 else 0
  {
    if y >= s {
      PieceIs(s, y - s, m);
    }
  }

  lemma {:induction false} StartIsProduct(s: nat, b: nat)
    ensures Start(s, b) == b * s
  {
    if b > 0 {
      StartIsProduct(s, b - 1);
    }
  }

  /** They are the quotient and the remainder. */
  lemma {:induction false} AreQuotients(s: nat, x: nat)
    requires 0 < s
    ensures x / s == BlockAt(s, x) && x % s == Within(s, x)
  {
    SplitIs(s, x);
    StartIsProduct(s, BlockAt(s, x));
    Quotient(x, BlockAt(s, x), Within(s, x), s);
  }

  lemma Quotient(x: nat, q: nat, r: nat, s: nat)
    requires r < s && x == q * s + r
    ensures x / s == q && x % s == r
  {
    var p := x / s;
    assert p * s <= x < p * s + s;
    if p < q {
      TimesMonotone(p + 1, q, s);
    } else if p > q {
      TimesMonotone(q + 1, p, s);
    }
  }

  lemma TimesMonotone(a: nat, b: nat, s: nat)
    requires a <= b
    ensures a * s <= b * s
  {
    assert (b - a) * s >= 0;
  }

  method Split(x: nat, s: nat) returns (b: nat, from: nat)
    requires 0 < s
    ensures b == BlockAt(s, x) && from == Within(s, x)
  {
    b := x / s;
    from := x % s;
    AreQuotients(s, x);
  }

  method Multiply(b: nat, s: nat) returns (x: nat)
    ensures x == Start(s, b)
  {
    x := b * s;
    StartIsProduct(s, b);
  }
}

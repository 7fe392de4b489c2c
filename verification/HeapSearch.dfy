/** How malloc chooses a block: the kernel takes the smallest of the first twenty that fit, the user
    library the first that fits. */
module HeapSearch {
  import opened Words
  import opened HeapBlocks
  import opened WordBytes

  const MAX_INT := 0x7FFF_FFFF

  /** How many fitting blocks the kernel and the user library look at. */
  const KERNEL_TRIES := 20
  const USER_TRIES := 1

  /** Words needed for a request, with 32-bit unsigned arithmetic. */
  function Ints(bytes: int): int {
    var ints := (bytes + 3) % WORD_LIMIT / 4 + 2;
    if ints < 4 then 4 else ints
  }

  /** A block of that many words has room for the request, except for the last three sizes, where the
      sum wraps around. */
  lemma RoomWhen(bytes: int)
    requires 0 < bytes < WORD_LIMIT
    ensures 4 * (Ints(bytes) - 2) >= bytes <==> bytes <= WORD_LIMIT - 4
  {
    if bytes <= WORD_LIMIT - 4 {
      assert (bytes + 3) % WORD_LIMIT == bytes + 3;
    } else {
      assert (bytes + 3) % WORD_LIMIT == bytes + 3 - WORD_LIMIT;
    }
  }

  /** The blocks of the list with at least `ints` words. */
  function Fitting(h: Heap, fl: seq<int>, ints: int): seq<int> {
    if fl == [] then []
    else if Size(h, fl[0]) >= ints then [fl[0]] + Fitting(h, fl[1..], ints)
    else Fitting(h, fl[1..], ints)
  }

  /** The first n of them. */
  function FirstFits(h: Heap, fl: seq<int>, ints: int, n: int): seq<int> {
    if n <= 0 || fl == [] then []
    else if Size(h, fl[0]) >= ints then [fl[0]] + FirstFits(h, fl[1..], ints, n - 1)
    else FirstFits(h, fl[1..], ints, n)
  }

  /** The loop's choice among candidates, from a current best of mx words at it. */
  function Best(h: Heap, cs: seq<int>, it: int, mx: int): (int, int) {
    if cs == [] then (it, mx)
    else if Size(h, cs[0]) < mx then Best(h, cs[1..], cs[0], Size(h, cs[0]))
    else Best(h, cs[1..], it, mx)
  }

  lemma {:induction false} FirstFitsAre(h: Heap, fl: seq<int>, ints: int, n: int)
    requires 0 <= n
    ensures var all := Fitting(h, fl, ints);
            FirstFits(h, fl, ints, n) == all[..if n < |all| then n else |all|]
  {
    if n > 0 && fl != [] {
      if Size(h, fl[0]) >= ints {
        FirstFitsAre(h, fl[1..], ints, n - 1);
      } else {
        FirstFitsAre(h, fl[1..], ints, n);
      }
    }
  }

  lemma {:induction false} FittingAre(h: Heap, fl: seq<int>, ints: int, i: int)
    ensures i in Fitting(h, fl, ints) <==> i in fl && Size(h, i) >= ints
  {
    if fl != [] {
      assert fl == [fl[0]] + fl[1..];
      FittingAre(h, fl[1..], ints, i);
    }
  }

  /** Place k of cs holds the earliest of the smallest. */
  ghost predicate Smallest(h: Heap, cs: seq<int>, k: nat) {
    && k < |cs|
    && (forall l :: 0 <= l < |cs| ==> Size(h, cs[k]) <= Size(h, cs[l]))
    && (forall l :: 0 <= l < k ==> Size(h, cs[k]) < Size(h, cs[l]))
  }

  lemma {:induction false} BestIs(h: Heap, cs: seq<int>, it: int, mx: int) returns (k: nat)
    ensures var (it', mx') := Best(h, cs, it, mx);
            if k == |cs| then it' == it && mx' == mx && forall l :: 0 <= l < |cs| ==> mx <= Size(h, cs[l])
            else Smallest(h, cs, k) && it' == cs[k] && mx' == Size(h, cs[k]) < mx
  {
    if cs == [] {
      k := 0;
    } else if Size(h, cs[0]) < mx {
      var j := BestIs(h, cs[1..], cs[0], Size(h, cs[0]));
      k := if j == |cs| - 1 then 0 else j + 1;
    } else {
      var j := BestIs(h, cs[1..], it, mx);
      k := j + 1;
    }
  }

  /** The choice: nothing exactly when no free block is large enough; otherwise the smallest of the first
      `tries` that are, the earliest on ties. */
  lemma BestFit(h: Heap, S: set<int>, fl: seq<int>, ints: int, tries: int) returns (k: nat)
    requires Inv(h, S, fl) && |h.a| <= MAX_INT && 1 <= tries
    ensures var cs := FirstFits(h, fl, ints, tries);
            var (it, mx) := Best(h, cs, 0, MAX_INT);
            if cs == [] then it == 0 && forall i :: i in S && Word(h, i) > 0 ==> Size(h, i) < ints
            else Smallest(h, cs, k) && it == cs[k] && mx == Size(h, it) && it in S && Word(h, it) == mx >= ints
  {
    var cs := FirstFits(h, fl, ints, tries);
    FirstFitsAre(h, fl, ints, tries);
    k := BestIs(h, cs, 0, MAX_INT);
    forall i ensures i in Fitting(h, fl, ints) <==> i in fl && Size(h, i) >= ints {
      FittingAre(h, fl, ints, i);
    }
    if cs != [] {
      assert cs[0] in Fitting(h, fl, ints);
      assert cs[0] in S;
      assert Block(h, S, cs[0]);
      assert cs[k] in Fitting(h, fl, ints);
    } else {
      assert Fitting(h, fl, ints) == [];
      forall i | i in S && Word(h, i) > 0 ensures Size(h, i) < ints {
        assert i in fl;
      }
    }
  }

  /** The choice is the first fit exactly when no other candidate is smaller. */
  lemma BestIsFirstWhen(h: Heap, S: set<int>, fl: seq<int>, ints: int, tries: int)
    requires Inv(h, S, fl) && |h.a| <= MAX_INT && 1 <= tries && FirstFits(h, fl, ints, tries) != []
    ensures var cs := FirstFits(h, fl, ints, tries);
            Best(h, cs, 0, MAX_INT).0 == cs[0] <==> forall l :: 0 <= l < |cs| ==> Size(h, cs[0]) <= Size(h, cs[l])
  {
    var k := BestFit(h, S, fl, ints, tries);
    var cs := FirstFits(h, fl, ints, tries);
    assert Smallest(h, cs, k);
  }
}

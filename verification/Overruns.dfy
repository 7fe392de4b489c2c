/** What realloc does where its copy does not fit: a size that wraps around gets a block of four to seven
    words, and the copy runs over its footer. */
module Overruns {
  import opened Words
  import opened WordBytes
  import opened HeapBlocks
  import opened HeapSearch
  import opened HeapRuns
  import opened Realloc

  // ---- What a copy changes beyond the payload ----

  /** The words of a 32-bit machine. */
  ghost predicate Ranged(h: Heap) {
    forall x :: ToInt(Word(h, x)) == Word(h, x)
  }

  /** From byte k up to m the two payload addresses hold the same bytes. */
  ghost predicate SameBeyond(h: Heap, j: int, i: int, k: int, m: int) {
    forall l :: k <= l < m ==> Byte(h, j, l) == Byte(h, i, l)
  }

  /** What a copy of m bytes to the payload address of j reads lies outside that payload, and what it writes
      lies in the array. */
  ghost predicate CopyRange(h: Heap, j: int, i: int, m: int) {
    && 0 <= j && 4 <= Size(h, j) && 0 <= m <= 4 * (|h.a| - j - 1)
    && (4 * i + m <= 4 * j || Right(h, j) - 2 <= i)
  }

  lemma PutSame(w: int, k: int)
    requires ToInt(w) == w
    ensures PutByte(w, k, GetByte(w, k)) == w
  {
  }

  lemma SourceStays(h: Heap, j: int, i: int, k: int, h0: Heap, m: int)
    requires CopyRange(h, j, i, m) && 0 <= k < m && SameOutside(h, j, h0)
    ensures Byte(h0, i, k) == Byte(h, i, k)
  {
    assert !Payload(h, j, i + 1 + k / 4);
  }

  /** A copy that runs over the payload is silent when it stores there what is there. */
  lemma {:induction false} SilentCopy(h: Heap, j: int, i: int, m: int, all: int)
    requires CopyRange(h, j, i, all) && 0 <= m <= all && Ranged(h) && SameBeyond(h, j, i, 4 * (Size(h, j) - 2), m)
    ensures SameOutside(h, j, Copied(h, j, i, m))
    decreases m
  {
    if m > 0 {
      SilentCopy(h, j, i, m - 1, all);
      SilentStore(h, j, i, m - 1, Copied(h, j, i, m - 1), all);
    }
  }

  lemma SilentStore(h: Heap, j: int, i: int, k: int, h0: Heap, all: int)
    requires CopyRange(h, j, i, all) && 0 <= k < all && Ranged(h) && SameOutside(h, j, h0)
    requires k >= 4 * (Size(h, j) - 2) ==> Byte(h, j, k) == Byte(h, i, k)
    ensures SameOutside(h, j, StoreByte(h0, j, k, Byte(h0, i, k)))
  {
    var x := j + 1 + k / 4;
    if k >= 4 * (Size(h, j) - 2) {
      assert !Payload(h, j, x);
      SourceStays(h, j, i, k, h0, all);
      assert ToInt(Word(h, x)) == Word(h, x);
      PutSame(Word(h, x), k % 4);
    } else {
      assert Payload(h, j, x);
    }
  }

  /** A byte once copied stays as it is for the rest of the copy. */
  lemma {:induction false} CopiedStays(h: Heap, j: int, i: int, k: int, m: int)
    requires 0 <= j && 0 <= k < m <= 4 * (|h.a| - j - 1)
    ensures Byte(Copied(h, j, i, m), j, k) == Byte(Copied(h, j, i, k + 1), j, k)
    decreases m
  {
    if m > k + 1 {
      CopiedStays(h, j, i, k, m - 1);
      CopiedAside(h, j, i, k, m - 1);
    }
  }

  lemma CopiedAside(h: Heap, j: int, i: int, k: int, m: int)
    requires 0 <= j && 0 <= k < m < 4 * (|h.a| - j - 1)
    ensures Byte(Copied(h, j, i, m + 1), j, k) == Byte(Copied(h, j, i, m), j, k)
  {
    var h0 := Copied(h, j, i, m);
    CopiedLength(h, j, i, m);
    StoreAside(h0, j, i, k, m);
    CopiedNext(h, j, i, m, h0, StoreByte(h0, j, m, Byte(h0, i, m)));
  }

  lemma StoreAside(h: Heap, j: int, i: int, k: int, l: int)
    requires 0 <= j && 0 <= k < l < 4 * (|h.a| - j - 1)
    ensures Byte(StoreByte(h, j, l, Byte(h, i, l)), j, k) == Byte(h, j, k)
  {
    ByteRange(h, i, l);
    LoadStore(h, j, l, Byte(h, i, l), j, k);
  }

  lemma {:induction false} CopiedLength(h: Heap, j: int, i: int, m: int)
    ensures |Copied(h, j, i, m).a| == |h.a|
    decreases m
  {
    if m > 0 {
      CopiedLength(h, j, i, m - 1);
    }
  }

  lemma ByteRange(h: Heap, i: int, k: int)
    ensures 0 <= Byte(h, i, k) < 0x100
  {
  }

  /** The first byte beyond the payload that differs is changed for good. */
  lemma {:induction false} LoudCopy(h: Heap, j: int, i: int, k: int, m: int)
    requires CopyRange(h, j, i, m) && Ranged(h) && 4 * (Size(h, j) - 2) <= k < m
    requires SameBeyond(h, j, i, 4 * (Size(h, j) - 2), k) && Byte(h, j, k) != Byte(h, i, k)
    ensures Byte(Copied(h, j, i, m), j, k) == Byte(h, i, k) && !SameOutside(h, j, Copied(h, j, i, m))
  {
    var h0 := Copied(h, j, i, k);
    SilentCopy(h, j, i, k, m);
    SourceStays(h, j, i, k, h0, m);
    ByteRange(h0, i, k);
    CopiedLength(h, j, i, k);
    LoadStore(h0, j, k, Byte(h0, i, k), j, k);
    CopiedStays(h, j, i, k, m);
    assert !Payload(h, j, j + 1 + k / 4);
  }

  /** Exactly when a copy changes nothing outside the payload: the bytes it stores beyond it are there. */
  lemma CopyShowsWhen(h: Heap, j: int, i: int, m: int)
    requires CopyRange(h, j, i, m) && Ranged(h)
    ensures SameOutside(h, j, Copied(h, j, i, m)) <==> SameBeyond(h, j, i, 4 * (Size(h, j) - 2), m)
  {
    if SameBeyond(h, j, i, 4 * (Size(h, j) - 2), m) {
      SilentCopy(h, j, i, m, m);
    } else {
      var k := FirstDifference(h, j, i, 4 * (Size(h, j) - 2), m);
      LoudCopy(h, j, i, k, m);
    }
  }

  /** So the copy of realloc changes nothing outside the payload of the block granted exactly when it fits or
      when what it stores beyond is there already. */
  lemma ReallocCopyShowsWhen(h: Heap, S: set<int>, i: int, n: int, h1: Heap, j: int, m: int)
    requires Ok(h, S) && |h.a| <= MAX_INT && i in Live(h, S) && 0 < n < WORD_LIMIT && Ranged(h1)
    requires (h1, At(j + 1)) == Malloc(h, USER_TRIES, n) && m == CopyLength(h, i, n) <= 4 * (|h.a| - j - 1)
    ensures SameOutside(h1, j, Copied(h1, j, i, m)) <==>
            CopyFits(h, i, n) || SameBeyond(h1, j, i, 4 * (Size(h1, j) - 2), m)
  {
    var h', S1, q := MallocKeeps(h, S, USER_TRIES, n);
    FitsWhen(h, S, i, n, h1, S1, j);
    SameTag(h, S, h1, i);
    ApartInside(h1, S1, i, j, m);
    CopyShowsWhen(h1, j, i, m);
  }

  lemma ApartInside(h: Heap, S: set<int>, i: int, j: int, m: int)
    requires Ok(h, S) && i in Live(h, S) && j in Live(h, S) && i != j && 0 <= m <= 4 * Size(h, i)
    requires m <= 4 * (|h.a| - j - 1)
    ensures CopyRange(h, j, i, m)
  {
    InArray(h, S, j);
    assert Block(h, S, i);
    assert Block(h, S, j);
  }

  lemma {:induction false} FirstDifference(h: Heap, j: int, i: int, from: int, m: int) returns (k: int)
    requires from <= m && !SameBeyond(h, j, i, from, m)
    ensures from <= k < m && SameBeyond(h, j, i, from, k) && Byte(h, j, k) != Byte(h, i, k)
    decreases m - from
  {
    if SameBeyond(h, j, i, from, m - 1) {
      k := m - 1;
    } else {
      k := FirstDifference(h, j, i, from, m - 1);
    }
  }

  // ---- A heap that is harmed ----

  /** Twenty words: a live block of eight at 2, a free one of four at 10, a live one of four at 14.  The live
      block at 2 holds a zero in its word 6. */
  ghost predicate Small(h: Heap) {
    && |h.a| == 20 && h.avail == 10
    && Word(h, 0) == Word(h, 1) == Word(h, 18) == Word(h, 19) == -2
    && Word(h, 2) == Word(h, 9) == -8 && Word(h, 10) == Word(h, 13) == 4 && Word(h, 14) == Word(h, 17) == -4
    && Word(h, 11) == Word(h, 12) == 0 && Word(h, 6) == 0
  }

  function SmallStarts(): set<int> {
    {0, 2, 10, 14, 18}
  }

  /** There is such a heap. */
  lemma SmallExists() returns (h: Heap)
    ensures Small(h)
  {
    h := Heap([-2, -2, -8, 0, 0, 0, 0, 0, 0, -8, 4, 0, 0, 4, -4, 7, 7, -4, -2, -2], 10);
  }

  lemma SmallBlock(h: Heap, i: int)
    requires Small(h) && i in SmallStarts()
    ensures Block(h, SmallStarts(), i)
  {
    if i == 0 {
    } else if i == 2 {
    } else if i == 10 {
    } else if i == 14 {
    } else {
    }
  }

  lemma SmallIsOk(h: Heap)
    requires Small(h)
    ensures Ok(h, SmallStarts()) && Live(h, SmallStarts()) == {2, 14} && FreeList(h) == [10]
  {
    var S := SmallStarts();
    forall i | i in S ensures Block(h, S, i) {
      SmallBlock(h, i);
    }
    assert Linked(h, [10], 0);
    assert Inv(h, S, [10]);
    FreeListIs(h, S, [10]);
  }

  /** malloc takes the free block whole. */
  lemma SmallMalloc(h: Heap) returns (h1: Heap)
    requires Small(h)
    ensures Malloc(h, USER_TRIES, 0xFFFF_FFFF) == (h1, At(11)) && |h1.a| == 20 && h1.avail == 0 && Word(h1, 10) == -4
    ensures forall x :: 0 <= x < 10 || 14 <= x < 20 ==> Word(h1, x) == Word(h, x)
  {
    var S := SmallStarts();
    SmallIsOk(h);
    WrappedChoice(h, S, 0xFFFF_FFFF);
    assert Best(h, [10], 0, MAX_INT) == (10, 4);
    h1 := Carve(Unlink(h, 10), 10, 4, 4);
    MallocIs(h, S, USER_TRIES, 0xFFFF_FFFF, 10, 4, h1);
  }

  /** Growing the block at 2 to 2^32-1 bytes overwrites the tag of the live block at 14. */
  lemma ReallocClobbers(h: Heap)
    requires Small(h)
    ensures Ok(h, SmallStarts()) && Live(h, SmallStarts()) == {2, 14}
    ensures !SameBlock(h, Realloc.Realloc(h, At(3), 0xFFFF_FFFF).0, 14)
  {
    SmallIsOk(h);
    var h1 := SmallMalloc(h);
    var m := CopyLength(h, 2, 0xFFFF_FFFF);
    var h2 := CopyOver(h1, 10, 2, m, 12);
    ZeroByteTells(h1, h2);
    FreeFar(h2);
    ReallocIs(h, 2, 0xFFFF_FFFF, m, h1, At(11), UserFree(h2, At(3)));
  }

  lemma CopyOver(h: Heap, j: int, i: int, m: int, k: int) returns (h': Heap)
    requires 0 <= j && 0 <= k < m <= 4 * (|h.a| - j - 1) && 4 * i + m <= 4 * j
    ensures h' == Copied(h, j, i, m) && |h'.a| == |h.a| && h'.avail == h.avail && Byte(h', j, k) == Byte(h, i, k)
    ensures forall x :: x <= j ==> Word(h', x) == Word(h, x)
  {
    h' := Copied(h, j, i, m);
    CopyMoves(h, j, i, m, m);
    CopiedBelow(h, j, i, m);
  }

  lemma ZeroByteTells(h: Heap, h': Heap)
    requires Word(h, 6) == 0 && Byte(h', 10, 12) == Byte(h, 2, 12)
    ensures Word(h', 14) != -4
  {
  }

  /** A copy changes nothing before its target, and not the head of the list. */
  lemma {:induction false} CopiedBelow(h: Heap, j: int, i: int, m: int)
    ensures Copied(h, j, i, m).avail == h.avail && forall x :: x <= j ==> Word(Copied(h, j, i, m), x) == Word(h, x)
    decreases m
  {
    if m > 0 {
      CopiedBelow(h, j, i, m - 1);
    }
  }

  lemma FreeFar(h: Heap)
    requires |h.a| == 20 && h.avail == 0
    requires Word(h, 0) == Word(h, 1) == -2 && Word(h, 2) == -8 && Word(h, 10) == -4
    ensures Word(UserFree(h, At(3)), 14) == Word(h, 14)
  {
    assert Left(h, 2) == 0 && Right(h, 2) == 10;
    assert Detach(h, 2) == h;
    FreeAtIs(h, 2, 2, 10);
  }

  // ---- A heap that is not ----

  /** Thirteen words: a live block of four at 2 and a free one of five at 6. */
  ghost predicate Tight(h: Heap) {
    && |h.a| == 13 && h.avail == 6
    && Word(h, 0) == Word(h, 1) == Word(h, 11) == Word(h, 12) == -2
    && Word(h, 2) == Word(h, 5) == -4 && Word(h, 6) == Word(h, 10) == 5 && Word(h, 7) == Word(h, 8) == 0
  }

  function TightStarts(): set<int> {
    {0, 2, 6, 11}
  }

  lemma TightExists() returns (h: Heap)
    ensures Tight(h) && Ranged(h)
  {
    h := Heap([-2, -2, -4, 1, 1, -4, 5, 0, 0, 0, 5, -2, -2], 6);
  }

  lemma TightIsOk(h: Heap)
    requires Tight(h)
    ensures Ok(h, TightStarts()) && Live(h, TightStarts()) == {2} && FreeList(h) == [6]
  {
    var S := TightStarts();
    forall i | i in S ensures Block(h, S, i) {
      if i == 0 {
      } else if i == 2 {
      } else if i == 6 {
      } else {
      }
    }
    assert Linked(h, [6], 0);
    assert Inv(h, S, [6]);
    FreeListIs(h, S, [6]);
  }

  lemma TightMalloc(h: Heap) returns (h1: Heap)
    requires Tight(h) && Ranged(h)
    ensures Malloc(h, USER_TRIES, 0xFFFF_FFFF) == (h1, At(7)) && |h1.a| == 13 && Word(h1, 6) == Word(h1, 10) == -5
    ensures Ranged(h1)
  {
    TightIsOk(h);
    WrappedChoice(h, TightStarts(), 0xFFFF_FFFF);
    assert Best(h, [6], 0, MAX_INT) == (6, 5);
    h1 := Carve(Unlink(h, 6), 6, 5, 4);
    MallocIs(h, TightStarts(), USER_TRIES, 0xFFFF_FFFF, 6, 5, h1);
    assert ToInt(-5) == -5;
    forall x ensures ToInt(Word(h1, x)) == Word(h1, x) {
      assert ToInt(Word(h, x)) == Word(h, x);
    }
  }

  /** An overrun can go unseen: here the copy runs over the new block's footer and stores there the new
      block's header, which is the same word. */
  lemma OverrunUnseen(h: Heap)
    requires Tight(h) && Ranged(h)
    ensures Ok(h, TightStarts()) && 2 in Live(h, TightStarts()) && !CopyFits(h, 2, 0xFFFF_FFFF)
    ensures var (h1, q) := Malloc(h, USER_TRIES, 0xFFFF_FFFF);
            && q == At(7) && !StoresInside(h1, 6, CopyLength(h, 2, 0xFFFF_FFFF))
            && SameOutside(h1, 6, Copied(h1, 6, 2, CopyLength(h, 2, 0xFFFF_FFFF)))
  {
    TightIsOk(h);
    var h1 := TightMalloc(h);
    var m := CopyLength(h, 2, 0xFFFF_FFFF);
    StoresInsideWhen(h1, 6, m);
    TightBytes(h1, m);
    CopyShowsWhen(h1, 6, 2, m);
  }

  lemma TightBytes(h: Heap, m: int)
    requires |h.a| == 13 && Word(h, 6) == Word(h, 10) == -5 && m == 16
    ensures CopyRange(h, 6, 2, m) && SameBeyond(h, 6, 2, 4 * (Size(h, 6) - 2), m)
  {
    forall k | 12 <= k < m ensures Byte(h, 6, k) == Byte(h, 2, k) {
      assert 6 + 1 + k / 4 == 10 && 2 + 1 + k / 4 == 6;
    }
  }
}

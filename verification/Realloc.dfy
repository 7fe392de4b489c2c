/** realloc of the user library: bytes, the copy, and what survives it. */
module Realloc {
  import opened Words
  import opened WordBytes
  import opened HeapBlocks
  import opened HeapSearch
  import opened HeapRuns

  /** Byte k of the payload of block i. */
  function Byte(h: Heap, i: int, k: int): int {
    GetByte(Word(h, i + 1 + k / 4), k % 4)
  }

  function StoreByte(h: Heap, i: int, k: int, b: int): Heap {
    var x := i + 1 + k / 4;
    Set(h, x, PutByte(Word(h, x), k % 4, b))
  }

  lemma LoadStore(h: Heap, i: int, k: int, b: int, j: int, l: int)
    requires 0 <= i + 1 + k / 4 < |h.a| && 0 <= b < 0x100
    ensures Byte(StoreByte(h, i, k, b), j, l) == if 4 * j + l == 4 * i + k then b else Byte(h, j, l)
  {
    if i + 1 + k / 4 == j + 1 + l / 4 {
      GetPut(Word(h, i + 1 + k / 4), k % 4, b, l % 4);
    }
  }

  // ---- memcpy ----

  /** The first m bytes copied from the payload address of block s to that of block i, in order. */
  function Copied(h: Heap, i: int, s: int, m: int): Heap
    decreases m
  {
    if m <= 0 then h
    else
      var h0 := Copied(h, i, s, m - 1);
      StoreByte(h0, i, m - 1, Byte(h0, s, m - 1))
  }

  lemma CopiedNext(h: Heap, i: int, s: int, k: int, h0: Heap, h1: Heap)
    requires 0 <= k && h0 == Copied(h, i, s, k) && h1 == StoreByte(h0, i, k, Byte(h0, s, k))
    ensures h1 == Copied(h, i, s, k + 1)
  {
  }

  /** Between ranges that do not overlap, the bytes arrive and the source stays. */
  lemma {:induction false} CopyMoves(h: Heap, i: int, s: int, m: int, all: int)
    requires 0 <= i && 0 <= m <= all <= 4 * (|h.a| - i - 1)
    requires 4 * s + all <= 4 * i || 4 * i + all <= 4 * s
    ensures var h' := Copied(h, i, s, m);
            && |h'.a| == |h.a|
            && (forall n :: 0 <= n < m ==> Byte(h', i, n) == Byte(h, s, n))
            && (forall n :: 0 <= n < all ==> Byte(h', s, n) == Byte(h, s, n))
    decreases m
  {
    if m > 0 {
      CopyMoves(h, i, s, m - 1, all);
      CopyMovesOne(Copied(h, i, s, m - 1), i, s, m - 1, all);
    }
  }

  lemma CopyMovesOne(h: Heap, i: int, s: int, k: int, all: int)
    requires 0 <= i && 0 <= k < all <= 4 * (|h.a| - i - 1)
    requires 4 * s + all <= 4 * i || 4 * i + all <= 4 * s
    ensures var h' := StoreByte(h, i, k, Byte(h, s, k));
            && |h'.a| == |h.a|
            && (forall n :: 0 <= n < all ==> Byte(h', i, n) == (if n == k then Byte(h, s, k) else Byte(h, i, n)))
            && (forall n :: 0 <= n < all ==> Byte(h', s, n) == Byte(h, s, n))
  {
    var h' := StoreByte(h, i, k, Byte(h, s, k));
    forall n | 0 <= n < all
      ensures Byte(h', i, n) == (if n == k then Byte(h, s, k) else Byte(h, i, n)) && Byte(h', s, n) == Byte(h, s, n)
    {
      LoadStore(h, i, k, Byte(h, s, k), i, n);
      LoadStore(h, i, k, Byte(h, s, k), s, n);
    }
  }

  /** A copy into the payload of block i changes nothing else. */
  lemma {:induction false} CopyInside(h: Heap, i: int, s: int, m: int)
    requires 0 <= m <= 4 * (Size(h, i) - 2)
    ensures SameOutside(h, i, Copied(h, i, s, m))
    decreases m
  {
    if m > 0 {
      CopyInside(h, i, s, m - 1);
      assert Payload(h, i, i + 1 + (m - 1) / 4);
    }
  }

  lemma InArray(h: Heap, S: set<int>, i: int)
    requires Ok(h, S) && i in Live(h, S)
    ensures 0 < i && 4 <= Size(h, i) && Right(h, i) <= |h.a| - 2
  {
    assert Block(h, S, i);
    assert Block(h, S, Right(h, i));
  }

  /** Blocks that are the same in every word have the same tag. */
  lemma SameTag(h: Heap, S: set<int>, h': Heap, i: int)
    requires Ok(h, S) && i in Live(h, S) && SameBlock(h, h', i)
    ensures Word(h', i) == Word(h, i)
  {
    InArray(h, S, i);
  }

  // ---- The calls ----

  /** free of the user library, which ignores a block that is not taken. */
  function UserFree(h: Heap, p: Ptr): Heap {
    if p == Null || p == At(0) || Word(h, p.index - 1) >= 0 then h else FreeAt(h, p.index - 1)
  }

  function Realloc(h: Heap, p: Ptr, newSize: int): (Heap, Ptr) {
    if p == Null then Malloc(h, USER_TRIES, newSize)
    else if newSize == 0 then (UserFree(h, p), Null)
    else if Word(h, p.index - 1) >= 0 then (h, Null)
    else
      var (h1, q) := Malloc(h, USER_TRIES, newSize);
      var h2 := if q == Null then h1 else Copied(h1, q.index - 1, p.index - 1, CopyLength(h, p.index - 1, newSize));
      (UserFree(h2, p), q)
  }

  /** How many bytes realloc copies from block i: its whole size, tags included, at most. */
  function CopyLength(h: Heap, i: int, newSize: int): int {
    if newSize > 4 * Size(h, i) then 4 * Size(h, i) else newSize
  }

  lemma UserFreeKeeps(h: Heap, S: set<int>, i: int) returns (h': Heap, S': set<int>)
    requires Ok(h, S) && i in Live(h, S)
    ensures h' == UserFree(h, At(i + 1)) && |h'.a| == |h.a| && Ok(h', S') && Live(h', S') == Live(h, S) - {i}
    ensures forall j :: j in Live(h, S) - {i} ==> SameBlock(h, h', j)
  {
    h', S' := FreeKeeps(h, S, i, FreedStart(h, i), FreedEnd(h, i));
  }

  /** realloc of nothing is malloc. */
  lemma ReallocNull(h: Heap, n: int)
    ensures Realloc(h, Null, n) == Malloc(h, USER_TRIES, n)
  {
  }

  /** realloc to no bytes is free. */
  lemma ReallocZero(h: Heap, S: set<int>, i: int) returns (h': Heap, S': set<int>)
    requires Ok(h, S) && i in Live(h, S)
    ensures Realloc(h, At(i + 1), 0) == (h', Null) && Ok(h', S') && Live(h', S') == Live(h, S) - {i}
    ensures forall j :: j in Live(h, S) - {i} ==> SameBlock(h, h', j)
  {
    h', S' := UserFreeKeeps(h, S, i);
  }

  /** Neither call touches a block that is free. */
  lemma FreeBlockLeftAlone(h: Heap, i: int, n: int)
    requires Word(h, i) > 0
    ensures UserFree(h, At(i + 1)) == h && Realloc(h, At(i + 1), n) == (h, Null)
  {
  }

  /** The first n bytes of block j of h' are those of block i of h. */
  ghost predicate BytesMoved(h: Heap, i: int, h': Heap, j: int, n: int) {
    forall k :: 0 <= k < n ==> Byte(h', j, k) == Byte(h, i, k)
  }

  lemma SameBytes(h: Heap, h': Heap, i: int, n: int)
    requires SameBlock(h, h', i) && n <= 4 * (Size(h, i) - 2)
    ensures BytesMoved(h, i, h', i, n)
  {
  }

  lemma BytesMovedThen(h: Heap, i: int, h1: Heap, j: int, h2: Heap, l: int, n: int)
    requires BytesMoved(h, i, h1, j, n) && BytesMoved(h1, j, h2, l, n)
    ensures BytesMoved(h, i, h2, l, n)
  {
    forall k | 0 <= k < n ensures Byte(h2, l, k) == Byte(h, i, k) {
      assert Byte(h1, j, k) == Byte(h, i, k);
    }
  }

  /** The source of the copy reaches past the old payload over its footer and the next header, but not
      into the payload of the new block. */
  lemma CopyApart(h: Heap, S: set<int>, i: int, j: int, m: int)
    requires Ok(h, S) && i in Live(h, S) && j in Live(h, S) && i != j && m <= 4 * Size(h, i)
    requires m <= 4 * (Size(h, j) - 2)
    ensures 4 * i + m <= 4 * j || 4 * j + m <= 4 * i
  {
    assert Block(h, S, i);
    assert Block(h, S, j);
  }

  /** malloc and the copy: the new block holds the old bytes. */
  lemma CopiesOut(h: Heap, S: set<int>, i: int, j: int, m: int) returns (h': Heap)
    requires Ok(h, S) && i in Live(h, S) && j in Live(h, S) && i != j
    requires 0 < m <= 4 * Size(h, i) && m <= 4 * (Size(h, j) - 2)
    ensures h' == Copied(h, j, i, m) && |h'.a| == |h.a|
    ensures Ok(h', S) && Live(h', S) == Live(h, S) && Word(h', j) == Word(h, j)
    ensures forall l :: l in Live(h, S) - {j} ==> SameBlock(h, h', l)
    ensures BytesMoved(h, i, h', j, m)
  {
    CopyApart(h, S, i, j, m);
    InArray(h, S, j);
    CopyMoves(h, j, i, m, m);
    CopyInside(h, j, i, m);
    h' := Copied(h, j, i, m);
    PayloadKeeps(h, S, j, h');
  }

  /** realloc of a live block to a non-zero size, where the copy fits.  The old block is given back in either
      case.  On success the new block has room exactly when the size does not wrap around, and its first
      min(newSize, old payload) bytes are the old ones, though the old block has been merged away.  No other
      live block changes. */
  lemma ReallocKeeps(h: Heap, S: set<int>, i: int, n: int) returns (h': Heap, S': set<int>, q: Ptr)
    requires Ok(h, S) && |h.a| <= MAX_INT && i in Live(h, S) && 0 < n < WORD_LIMIT && CopyFits(h, i, n)
    ensures (h', q) == Realloc(h, At(i + 1), n) && |h'.a| == |h.a| && Ok(h', S')
    ensures q == Null ==> Live(h', S') == Live(h, S) - {i}
    ensures q == Null ==> forall l :: l in S && Word(h, l) > 0 ==> Size(h, l) < Ints(n)
    ensures q != Null ==> Moved(h, S, i, h', S', q.index - 1, n)
    ensures forall l :: l in Live(h, S) - {i} ==> SameBlock(h, h', l)
  {
    var m := CopyLength(h, i, n);
    var h1, S1;
    h1, S1, q := MallocKeeps(h, S, USER_TRIES, n);
    if q == Null {
      h', S' := UserFreeKeeps(h, S, i);
    } else {
      FitsWhen(h, S, i, n, h1, S1, q.index - 1);
      h', S' := MovesOver(h, S, i, n, h1, S1, q.index - 1, m);
    }
    ReallocIs(h, i, n, m, h1, q, h');
  }

  /** realloc put together from its parts. */
  lemma ReallocIs(h: Heap, i: int, n: int, m: int, h1: Heap, q: Ptr, h': Heap)
    requires Word(h, i) < 0 && n != 0 && (h1, q) == Malloc(h, USER_TRIES, n)
    requires m == CopyLength(h, i, n)
    requires h' == UserFree(if q == Null then h1 else Copied(h1, q.index - 1, i, m), At(i + 1))
    ensures (h', q) == Realloc(h, At(i + 1), n)
  {
  }

  ghost predicate Moved(h: Heap, S: set<int>, i: int, h': Heap, S': set<int>, j: int, n: int) {
    && j !in Live(h, S) && Live(h', S') == Live(h, S) - {i} + {j}
    && (4 * (Size(h', j) - 2) >= n <==> n <= WORD_LIMIT - 4)
    && BytesMoved(h, i, h', j, Min(n, 4 * (Size(h, i) - 2)))
  }

  /** malloc and the copy. */
  lemma CopyStage(h: Heap, S: set<int>, i: int, n: int, h1: Heap, S1: set<int>, j: int, m: int) returns (h2: Heap)
    requires Ok(h, S) && i in Live(h, S) && Ok(h1, S1) && |h1.a| == |h.a|
    requires Granted(h, S, h1, S1, USER_TRIES, n, j)
    requires 0 < n && m == CopyLength(h, i, n) <= 4 * (Size(h1, j) - 2)
    ensures h2 == Copied(h1, j, i, m) && |h2.a| == |h.a| && Ok(h2, S1)
    ensures Live(h2, S1) == Live(h1, S1) && Word(h2, j) == Word(h1, j)
    ensures forall l :: l in Live(h1, S1) - {j} ==> SameBlock(h1, h2, l)
    ensures BytesMoved(h, i, h2, j, Min(n, 4 * (Size(h, i) - 2)))
  {
    var n' := Min(n, 4 * (Size(h, i) - 2));
    SameTag(h, S, h1, i);
    SameBytes(h, h1, i, n');
    InArray(h, S, i);
    h2 := CopiesOut(h1, S1, i, j, m);
    assert BytesMoved(h1, i, h2, j, n');
    BytesMovedThen(h, i, h1, i, h2, j, n');
  }

  lemma MovesOver(h: Heap, S: set<int>, i: int, n: int, h1: Heap, S1: set<int>, j: int, m: int)
    returns (h': Heap, S': set<int>)
    requires Ok(h, S) && i in Live(h, S) && Ok(h1, S1) && |h1.a| == |h.a|
    requires Granted(h, S, h1, S1, USER_TRIES, n, j)
    requires 0 < n < WORD_LIMIT && m == CopyLength(h, i, n) <= 4 * (Size(h1, j) - 2)
    ensures h' == UserFree(Copied(h1, j, i, m), At(i + 1)) && |h'.a| == |h.a| && Ok(h', S')
    ensures Moved(h, S, i, h', S', j, n)
    ensures forall l :: l in Live(h, S) - {i} ==> SameBlock(h, h', l)
  {
    var n' := Min(n, 4 * (Size(h, i) - 2));
    var h2 := CopyStage(h, S, i, n, h1, S1, j, m);
    h', S' := UserFreeKeeps(h2, S1, i);
    SameTag(h2, S1, h', j);
    SameBytes(h2, h', j, n');
    BytesMovedThen(h, i, h2, j, h', j, n');
    OthersSame(h, S, h1, S1, h2, h', i, j);
  }

  /** The copy stays in the array and leaves the heap well formed with the old block still live. */
  ghost predicate CanMove(h: Heap, S: set<int>, i: int, j: int, m: int) {
    && 0 < i && 0 < j && 0 < m <= 4 * (|h.a| - j - 1) && m <= 4 * (|h.a| - i - 1)
    && Ok(Copied(h, j, i, m), S) && i in Live(Copied(h, j, i, m), S)
  }

  lemma MoveStages(h: Heap, S: set<int>, i: int, n: int, h1: Heap, S1: set<int>, j: int, m: int)
    requires Ok(h, S) && i in Live(h, S) && Ok(h1, S1) && |h1.a| == |h.a|
    requires Granted(h, S, h1, S1, USER_TRIES, n, j)
    requires 0 < n < WORD_LIMIT && m == CopyLength(h, i, n) && CopyFits(h, i, n)
    ensures CanMove(h1, S1, i, j, m) && i in Live(h1, S1)
  {
    FitsWhen(h, S, i, n, h1, S1, j);
    SameTag(h, S, h1, i);
    InArray(h1, S1, i);
    InArray(h1, S1, j);
    var h2 := CopiesOut(h1, S1, i, j, m);
  }

  lemma OthersSame(h: Heap, S: set<int>, h1: Heap, S1: set<int>, h2: Heap, h': Heap, i: int, j: int)
    requires Ok(h, S) && Ok(h1, S1) && Live(h1, S1) == Live(h, S) + {j} && j !in Live(h, S)
    requires forall l :: l in Live(h, S) ==> SameBlock(h, h1, l)
    requires forall l :: l in Live(h1, S1) - {j} ==> SameBlock(h1, h2, l)
    requires forall l :: l in Live(h1, S1) - {i} ==> SameBlock(h2, h', l)
    ensures forall l :: l in Live(h, S) - {i} ==> SameBlock(h, h', l)
  {
    forall l | l in Live(h, S) - {i} ensures SameBlock(h, h', l) {
      SameTag(h, S, h1, l);
      SameBlockThen(h, h1, h2, l);
      SameTag(h1, S1, h2, l);
      SameBlockThen(h, h2, h', l);
    }
  }

  // ---- When the copy fits ----

  /** What a caller can see before the call: the size does not wrap around, or nothing is free, or the first
      free block has six or seven words and the old block is at least two words smaller. */
  ghost predicate CopyFits(h: Heap, i: int, n: int) {
    || n <= WORD_LIMIT - 4 || FreeList(h) == []
    || (6 <= Size(h, FreeList(h)[0]) <= 7 && Size(h, i) <= Size(h, FreeList(h)[0]) - 2)
  }

  /** A size that wraps around asks for four words, which every free block has. */
  lemma WrappedChoice(h: Heap, S: set<int>, n: int)
    requires Ok(h, S) && WORD_LIMIT - 4 < n < WORD_LIMIT
    ensures Ints(n) == 4
    ensures FirstFits(h, FreeList(h), 4, USER_TRIES) == (if FreeList(h) == [] then [] else [FreeList(h)[0]])
  {
    assert (n + 3) % WORD_LIMIT == n + 3 - WORD_LIMIT;
    var fl :| Inv(h, S, fl);
    FreeListIs(h, S, fl);
    if fl != [] {
      assert FirstFits(h, fl[1..], 4, 0) == [];
    }
  }

  /** The copy fits into the block granted exactly when the caller can see so. */
  lemma FitsWhen(h: Heap, S: set<int>, i: int, n: int, h1: Heap, S1: set<int>, j: int)
    requires Ok(h, S) && i in Live(h, S) && 0 < n < WORD_LIMIT && Granted(h, S, h1, S1, USER_TRIES, n, j)
    ensures CopyLength(h, i, n) <= 4 * (Size(h1, j) - 2) <==> CopyFits(h, i, n)
  {
    InArray(h, S, i);
    if n > WORD_LIMIT - 4 {
      WrappedChoice(h, S, n);
      GrantedOf(h, FreeList(h), n, j);
    }
  }

  lemma GrantedOf(h: Heap, fl: seq<int>, n: int, j: int)
    requires BestOf(h, FirstFits(h, fl, 4, USER_TRIES), j)
    requires FirstFits(h, fl, 4, USER_TRIES) == (if fl == [] then [] else [fl[0]])
    ensures fl != [] && j == fl[0]
  {
    var k: nat :| Smallest(h, FirstFits(h, fl, 4, USER_TRIES), k) && FirstFits(h, fl, 4, USER_TRIES)[k] == j;
  }

  /** The store of byte k to the payload address of block j goes to its payload. */
  ghost predicate StoreInside(h: Heap, j: int, k: int) {
    Payload(h, j, j + 1 + k / 4)
  }

  ghost predicate StoresInside(h: Heap, j: int, m: int) {
    forall k :: 0 <= k < m ==> StoreInside(h, j, k)
  }

  lemma StoresInsideWhen(h: Heap, j: int, m: int)
    requires 0 < m && 4 <= Size(h, j)
    ensures StoresInside(h, j, m) <==> m <= 4 * (Size(h, j) - 2)
  {
    if m > 4 * (Size(h, j) - 2) {
      assert !StoreInside(h, j, 4 * (Size(h, j) - 2));
    }
  }

  /** Every store of realloc's copy goes to the payload of the block granted exactly when the caller can see
      that the copy fits. */
  lemma ReallocStoresInsideWhen(h: Heap, S: set<int>, i: int, n: int)
    requires Ok(h, S) && |h.a| <= MAX_INT && i in Live(h, S) && 0 < n < WORD_LIMIT
    ensures var (h1, q) := Malloc(h, USER_TRIES, n);
            (q != Null ==> StoresInside(h1, q.index - 1, CopyLength(h, i, n))) <==> CopyFits(h, i, n)
  {
    InArray(h, S, i);
    var h1, S1, q := MallocKeeps(h, S, USER_TRIES, n);
    if q == Null {
      NullFits(h, S, i, n);
    } else {
      FitsWhen(h, S, i, n, h1, S1, q.index - 1);
      InArray(h1, S1, q.index - 1);
      StoresInsideWhen(h1, q.index - 1, CopyLength(h, i, n));
    }
  }

  lemma NullFits(h: Heap, S: set<int>, i: int, n: int)
    requires Ok(h, S) && 0 < n < WORD_LIMIT && forall l :: l in S && Word(h, l) > 0 ==> Size(h, l) < Ints(n)
    ensures CopyFits(h, i, n)
  {
    if n > WORD_LIMIT - 4 {
      WrappedChoice(h, S, n);
      var fl :| Inv(h, S, fl);
      FreeListIs(h, S, fl);
      assert forall k :: 0 <= k < |fl| ==> fl[k] in fl;
    }
  }
}

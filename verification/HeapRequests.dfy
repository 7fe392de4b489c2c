/** What malloc answers to a request for a number of bytes, said of bytes alone. */
module HeapRequests {
  import opened Words
  import opened HeapBlocks
  import opened HeapSearch
  import opened HeapRuns

  /** The bytes between the tags of a block of n words. */
  function Room(n: int): int {
    4 * (n - 2)
  }

  function Bytes(h: Heap, i: int): int {
    Room(Size(h, i))
  }

  /** The blocks of the list with room for the request, in order. */
  function Roomy(h: Heap, fl: seq<int>, bytes: int): seq<int> {
    if fl == [] then []
    else (if Bytes(h, fl[0]) >= bytes then [fl[0]] else []) + Roomy(h, fl[1..], bytes)
  }

  /** n is the least size of a block with room: two tags, the bytes in whole words, and two words at least. */
  ghost predicate Least(n: int, bytes: int) {
    4 <= n && Room(n) >= bytes && forall m :: 4 <= m < n ==> Room(m) < bytes
  }

  lemma IntsIsLeast(bytes: int)
    requires 0 < bytes <= WORD_LIMIT - 4
    ensures Least(Ints(bytes), bytes)
    ensures forall m :: 4 <= m ==> (m >= Ints(bytes) <==> Room(m) >= bytes)
  {
    RoomWhen(bytes);
    assert (bytes + 3) % WORD_LIMIT == bytes + 3;
    assert 4 * (Ints(bytes) - 3) < bytes || Ints(bytes) == 4;
  }

  lemma {:induction false} FittingIsRoomy(h: Heap, fl: seq<int>, bytes: int)
    requires 0 < bytes <= WORD_LIMIT - 4 && forall i :: i in fl ==> 4 <= Size(h, i)
    ensures Fitting(h, fl, Ints(bytes)) == Roomy(h, fl, bytes)
  {
    if fl != [] {
      IntsIsLeast(bytes);
      assert fl[0] in fl && forall i :: i in fl[1..] ==> i in fl;
      FittingIsRoomy(h, fl[1..], bytes);
    }
  }

  lemma FreeSizes(h: Heap, S: set<int>, fl: seq<int>, i: int)
    requires Inv(h, S, fl) && i in S && Word(h, i) > 0
    ensures 4 <= Size(h, i)
  {
    assert Block(h, S, i);
    FreeIsInner(h, S, i);
  }

  /** The candidates are the first `tries` of the free blocks with room. */
  lemma CandidatesAre(h: Heap, S: set<int>, tries: int, bytes: int)
    requires Ok(h, S) && 1 <= tries && 0 < bytes <= WORD_LIMIT - 4
    ensures var all := Roomy(h, FreeList(h), bytes);
            FirstFits(h, FreeList(h), Ints(bytes), tries) == all[..Min(tries, |all|)]
  {
    var fl :| Inv(h, S, fl);
    FreeListIs(h, S, fl);
    forall i | i in fl ensures 4 <= Size(h, i) {
      FreeSizes(h, S, fl, i);
    }
    FittingIsRoomy(h, fl, bytes);
    FirstFitsAre(h, fl, Ints(bytes), tries);
  }

  /** The free blocks with room are those on the list. */
  ghost predicate NoRoom(h: Heap, S: set<int>, bytes: int) {
    forall i :: i in S && Word(h, i) > 0 ==> Bytes(h, i) < bytes
  }

  /** The choice: block k of the first `tries` with room is the earliest of the smallest among them.  The block
      granted has the least size with room, or the whole block when fewer than four words would be left. */
  ghost predicate Chosen(h: Heap, h': Heap, tries: nat, bytes: int, it: int, k: nat, n: int) {
    var all := Roomy(h, FreeList(h), bytes);
    && Smallest(h, all[..Min(tries, |all|)], k) && all[k] == it
    && Least(n, bytes) && Size(h', it) == if Size(h, it) - n >= 4 then n else Size(h, it)
  }

  lemma Answers(h: Heap, S: set<int>, tries: int, bytes: int) returns (h': Heap, q: Ptr, k: nat, n: int)
    requires Ok(h, S) && |h.a| <= MAX_INT && 1 <= tries && 0 < bytes <= WORD_LIMIT - 4
    ensures (h', q) == Malloc(h, tries, bytes)
    ensures q == Null <==> NoRoom(h, S, bytes)
    ensures q != Null ==> Chosen(h, h', tries, bytes, q.index - 1, k, n)
  {
    var S';
    h', S', q := MallocKeeps(h, S, tries, bytes);
    k, n := 0, Ints(bytes);
    IntsIsLeast(bytes);
    CandidatesAre(h, S, tries, bytes);
    if q == Null {
      NoneHasRoom(h, S, bytes);
    } else {
      var it := q.index - 1;
      assert Granted(h, S, h', S', tries, bytes, it);
      var cs := FirstFits(h, FreeList(h), Ints(bytes), tries);
      var l: nat :| Smallest(h, cs, l) && cs[l] == it;
      k := l;
      assert Bytes(h, it) >= bytes by { HasRoom(h, S, bytes, it); }
    }
  }

  lemma NoneHasRoom(h: Heap, S: set<int>, bytes: int)
    requires Ok(h, S) && 0 < bytes <= WORD_LIMIT - 4
    requires forall i :: i in S && Word(h, i) > 0 ==> Size(h, i) < Ints(bytes)
    ensures NoRoom(h, S, bytes)
  {
    var fl :| Inv(h, S, fl);
    forall i | i in S && Word(h, i) > 0 ensures Bytes(h, i) < bytes {
      FreeSizes(h, S, fl, i);
      IntsIsLeast(bytes);
    }
  }

  lemma HasRoom(h: Heap, S: set<int>, bytes: int, it: int)
    requires Ok(h, S) && 0 < bytes <= WORD_LIMIT - 4 && it in Roomy(h, FreeList(h), bytes)
    ensures Bytes(h, it) >= bytes
  {
    RoomyAre(h, FreeList(h), bytes, it);
  }

  lemma {:induction false} RoomyAre(h: Heap, fl: seq<int>, bytes: int, i: int)
    ensures i in Roomy(h, fl, bytes) <==> i in fl && Bytes(h, i) >= bytes
  {
    if fl != [] {
      assert fl == [fl[0]] + fl[1..];
      RoomyAre(h, fl[1..], bytes, i);
    }
  }

  /** malloc of the kernel: null exactly when no free block has room, and otherwise the smallest of the first
      twenty that have. */
  lemma KernelMalloc(h: Heap, S: set<int>, bytes: int) returns (h': Heap, q: Ptr, k: nat, n: int)
    requires Ok(h, S) && |h.a| <= MAX_INT && 0 < bytes <= WORD_LIMIT - 4
    ensures (h', q) == Malloc(h, KERNEL_TRIES, bytes)
    ensures q == Null <==> NoRoom(h, S, bytes)
    ensures q != Null ==> Chosen(h, h', 20, bytes, q.index - 1, k, n)
  {
    h', q, k, n := Answers(h, S, KERNEL_TRIES, bytes);
  }

  /** malloc of the user library: the first free block with room. */
  lemma UserMalloc(h: Heap, S: set<int>, bytes: int) returns (h': Heap, q: Ptr, n: int)
    requires Ok(h, S) && |h.a| <= MAX_INT && 0 < bytes <= WORD_LIMIT - 4
    ensures (h', q) == Malloc(h, USER_TRIES, bytes)
    ensures q == Null <==> NoRoom(h, S, bytes)
    ensures q != Null ==> Chosen(h, h', 1, bytes, q.index - 1, 0, n) && q.index - 1 == Roomy(h, FreeList(h), bytes)[0]
  {
    var k;
    h', q, k, n := Answers(h, S, USER_TRIES, bytes);
  }

  // ---- The order of the free list ----

  lemma AvailIsFirst(h: Heap, S: set<int>, i: int)
    requires Ok(h, S) && i in S && Word(h, i) > 0
    ensures FreeList(h) != [] && FreeList(h)[0] == h.avail
  {
    var fl :| Inv(h, S, fl);
    FreeListIs(h, S, fl);
    assert i in fl;
  }

  /** A block that is freed, merged with its neighbours, is the first that the next search looks at. */
  lemma FreedIsFirst(h: Heap, S: set<int>, idx: int)
    requires Ok(h, S) && idx in Live(h, S)
    ensures FreeList(FreeAt(h, idx)) != [] && FreeList(FreeAt(h, idx))[0] == FreedStart(h, idx)
  {
    var i, e := FreedStart(h, idx), FreedEnd(h, idx);
    var h', S' := FreeKeeps(h, S, idx, i, e);
    FreeAtIs(h, idx, i, e);
    FreedBoundsOk(h, S, idx);
    AvailIsFirst(h', S', i);
  }

  /** So is what is split off a block. */
  lemma RestIsFirst(h: Heap, S: set<int>, it: int, mx: int, ints: int)
    requires Ok(h, S) && it in S && Word(h, it) == mx && 4 <= ints && ints + 4 <= mx
    ensures var fl := FreeList(Carve(Unlink(h, it), it, mx, ints));
            fl != [] && fl[0] == it + ints
  {
    var h', S' := TakeKeeps(h, S, it, mx, ints);
    AvailIsFirst(h', S', it + ints);
  }

  /** The three largest requests, whose sum wraps around, are answered like the smallest. */
  lemma WrappedMalloc(h: Heap, tries: int, bytes: int)
    requires WORD_LIMIT - 4 < bytes < WORD_LIMIT
    ensures Malloc(h, tries, bytes) == Malloc(h, tries, 1)
  {
    assert (bytes + 3) % WORD_LIMIT == bytes + 3 - WORD_LIMIT;
    assert Ints(bytes) == Ints(1);
  }
}

/** The heap in place: methods that change the array, proved against `HeapBlocks`. */
module HeapArray {
  import opened HeapBlocks
  import opened HeapSearch
  import opened HeapRuns

  ghost function HeapOf(a: array<int>, avail: int): Heap
    reads a
  {
    Heap(a[..], avail)
  }

  // ---- Primitives ----

  method RemoveBlock(a: array<int>, avail: int, i: int) returns (avail': int)
    requires Unlinkable(HeapOf(a, avail), i)
    modifies a
    ensures HeapOf(a, avail') == Unlink(old(HeapOf(a, avail)), i)
  {
    var prev := a[i + 2];
    var next := a[i + 1];
    avail' := avail;
    if prev == 0 {
      avail' := next;
    } else {
      a[prev + 1] := next;
    }
    if next != 0 {
      a[next + 2] := prev;
    }
  }

  method MakeAvailAt(a: array<int>, avail: int, i: int, ints: int) returns (avail': int)
    requires 0 <= i && 4 <= ints && i + ints <= a.Length
    requires avail == 0 || 0 <= avail + 2 < a.Length
    modifies a
    ensures HeapOf(a, avail') == MakeAvail(old(HeapOf(a, avail)), i, ints)
  {
    a[i] := ints;
    a[i + ints - 1] := ints;
    a[i + 1] := avail;
    a[i + 2] := 0;
    if avail != 0 {
      a[avail + 2] := i;
    }
    avail' := i;
  }

  method MakeTakenAt(a: array<int>, i: int, ints: int)
    requires 0 <= i && 2 <= ints && i + ints <= a.Length
    modifies a
    ensures forall avail :: HeapOf(a, avail) == MakeTaken(old(HeapOf(a, avail)), i, ints)
  {
    a[i] := -ints;
    a[i + ints - 1] := -ints;
  }

  method CarveBlock(a: array<int>, avail: int, it: int, mx: int, ints: int) returns (avail': int)
    requires 0 <= it && 4 <= ints <= mx && it + mx <= a.Length
    requires avail == 0 || 0 <= avail + 2 < a.Length
    modifies a
    ensures HeapOf(a, avail') == Carve(old(HeapOf(a, avail)), it, mx, ints)
  {
    avail' := avail;
    var extra := mx - ints;
    if extra >= 4 {
      MakeTakenAt(a, it, ints);
      avail' := MakeAvailAt(a, avail, it + ints, extra);
    } else {
      MakeTakenAt(a, it, mx);
    }
  }

  /** Takes `ints` words of free block it of mx words. */
  method TakeBlock(a: array<int>, avail: int, it: int, mx: int, ints: int, ghost S: set<int>) returns (avail': int)
    requires Ok(HeapOf(a, avail), S) && it in S && Word(HeapOf(a, avail), it) == mx && 4 <= ints <= mx
    modifies a
    ensures HeapOf(a, avail') == Carve(Unlink(old(HeapOf(a, avail)), it), it, mx, ints)
  {
    ghost var h1 := TakeStages(HeapOf(a, avail), S, it);
    avail' := RemoveBlock(a, avail, it);
    avail' := CarveBlock(a, avail', it, mx, ints);
  }

  method RemoveIfAvail(a: array<int>, avail: int, i: int) returns (avail': int)
    requires 0 <= i < a.Length && (a[i] > 0 ==> Unlinkable(HeapOf(a, avail), i))
    modifies a
    ensures HeapOf(a, avail') == UnlinkIfFree(old(HeapOf(a, avail)), i)
  {
    avail' := avail;
    if a[i] > 0 {
      avail' := RemoveBlock(a, avail, i);
    }
  }

  /** Takes the free neighbours of block idx off the list and finds the bounds of the merged block. */
  method DetachNeighbours(a: array<int>, avail: int, idx: int, ghost S: set<int>)
    returns (avail': int, at: int, sz: int)
    requires Ok(HeapOf(a, avail), S) && idx in Live(HeapOf(a, avail), S)
    modifies a
    ensures HeapOf(a, avail') == Detach(old(HeapOf(a, avail)), idx)
    ensures at == FreedStart(old(HeapOf(a, avail)), idx) && at + sz == FreedEnd(old(HeapOf(a, avail)), idx)
    ensures avail' == 0 || 0 <= avail' + 2 < a.Length
  {
    ghost var h := HeapOf(a, avail);
    ghost var h1, h2 := FreeStages(h, S, idx, Left(h, idx), Right(h, idx));
    FreedBoundsOk(h, S, idx);
    sz := Abs(a[idx]);
    var left := idx - 1 - Abs(a[idx - 1]) + 1;
    var right := idx + sz;
    at := idx;
    avail' := RemoveIfAvail(a, avail, left);
    if a[left] > 0 {
      at := left;
      sz := sz + Abs(a[left]);
    }
    avail' := RemoveIfAvail(a, avail', right);
    if a[right] > 0 {
      sz := sz + Abs(a[right]);
    }
  }

  /** Frees taken block idx. */
  method FreeBlock(a: array<int>, avail: int, idx: int, ghost S: set<int>) returns (avail': int)
    requires Ok(HeapOf(a, avail), S) && idx in Live(HeapOf(a, avail), S)
    modifies a
    ensures HeapOf(a, avail') == FreeAt(old(HeapOf(a, avail)), idx)
  {
    FreedBoundsOk(HeapOf(a, avail), S, idx);
    var at, sz;
    avail', at, sz := DetachNeighbours(a, avail, idx, S);
    avail' := MakeAvailAt(a, avail', at, sz);
  }

  // ---- The searches ----

  /** Reading the free list: block k of it is in the array, free, and leads to the next one. */
  ghost predicate Listed(h: Heap, fl: seq<int>, k: int)
    requires 0 <= k < |fl|
  {
    && 0 < fl[k] && fl[k] + 2 < |h.a| && 0 < Word(h, fl[k]) < MAX_INT
    && Word(h, fl[k] + 1) == (if k + 1 < |fl| then fl[k + 1] else 0)
  }

  lemma ListIs(h: Heap, S: set<int>) returns (fl: seq<int>)
    requires Ok(h, S) && |h.a| <= MAX_INT
    ensures fl == FreeList(h) && h.avail == (if fl == [] then 0 else fl[0])
    ensures forall k :: 0 <= k < |fl| ==> Listed(h, fl, k)
  {
    fl :| Inv(h, S, fl);
    FreeListIs(h, S, fl);
    forall k | 0 <= k < |fl| ensures Listed(h, fl, k) {
      assert Linked(h, fl, k);
      assert fl[k] in fl;
      assert Block(h, S, fl[k]);
    }
  }

  /** One turn of the kernel's loop. */
  lemma BestStep(h: Heap, fl: seq<int>, k: nat, ints: int, tries: int, it: int, mx: int)
    requires k < |fl| && tries > 0
    ensures var sz := Size(h, fl[k]);
            Best(h, FirstFits(h, fl[k..], ints, tries), it, mx)
            == if sz < ints then Best(h, FirstFits(h, fl[k + 1..], ints, tries), it, mx)
               else if sz < mx then Best(h, FirstFits(h, fl[k + 1..], ints, tries - 1), fl[k], sz)
               else Best(h, FirstFits(h, fl[k + 1..], ints, tries - 1), it, mx)
  {
    assert fl[k..][1..] == fl[k + 1..];
  }

  /** The kernel's search: the smallest of the first twenty blocks that fit. */
  method SearchBest(a: array<int>, avail: int, ints: int, ghost fl: seq<int>) returns (it: int, mx: int)
    requires avail == (if fl == [] then 0 else fl[0])
    requires forall k :: 0 <= k < |fl| ==> Listed(HeapOf(a, avail), fl, k)
    ensures (it, mx) == Best(HeapOf(a, avail), FirstFits(HeapOf(a, avail), fl, ints, KERNEL_TRIES), 0, MAX_INT)
  {
    ghost var h := HeapOf(a, avail);
    mx := MAX_INT;
    it := 0;
    var countDown := KERNEL_TRIES;
    var p := avail;
    ghost var k := 0;
    ghost var best := Best(h, FirstFits(h, fl, ints, KERNEL_TRIES), 0, MAX_INT);
    assert fl[0..] == fl && (fl != [] ==> Listed(h, fl, 0));
    while p != 0
      invariant 0 <= k <= |fl| && p == (if k < |fl| then fl[k] else 0) && (p == 0 ==> k == |fl|) && countDown > 0
      invariant Best(h, FirstFits(h, fl[k..], ints, countDown), it, mx) == best
      decreases |fl| - k
    {
      assert Listed(h, fl, k) && (k + 1 < |fl| ==> Listed(h, fl, k + 1));
      BestStep(h, fl, k, ints, countDown, it, mx);
      var sz := Abs(a[p]);
      if sz >= ints {
        if sz < mx {
          mx := sz;
          it := p;
        }
        countDown := countDown - 1;
        if countDown == 0 {
          break;
        }
      }
      p := a[p + 1];
      k := k + 1;
    }
  }

  /** The user library's search: the first block that fits. */
  method SearchFirst(a: array<int>, avail: int, ints: int, ghost fl: seq<int>) returns (it: int, mx: int)
    requires avail == (if fl == [] then 0 else fl[0])
    requires forall k :: 0 <= k < |fl| ==> Listed(HeapOf(a, avail), fl, k)
    ensures (it, mx) == Best(HeapOf(a, avail), FirstFits(HeapOf(a, avail), fl, ints, USER_TRIES), 0, MAX_INT)
  {
    ghost var h := HeapOf(a, avail);
    it := avail;
    ghost var k := 0;
    ghost var best := Best(h, FirstFits(h, fl, ints, USER_TRIES), 0, MAX_INT);
    assert fl[0..] == fl && (fl != [] ==> Listed(h, fl, 0));
    while it != 0
      invariant 0 <= k <= |fl| && it == (if k < |fl| then fl[k] else 0) && (it == 0 ==> k == |fl|)
      invariant Best(h, FirstFits(h, fl[k..], ints, USER_TRIES), 0, MAX_INT) == best
      decreases |fl| - k
    {
      assert Listed(h, fl, k) && (k + 1 < |fl| ==> Listed(h, fl, k + 1));
      BestStep(h, fl, k, ints, USER_TRIES, 0, MAX_INT);
      mx := Abs(a[it]);
      if mx >= ints {
        return;
      }
      it := a[it + 1];
      k := k + 1;
    }
    mx := MAX_INT;
  }
}

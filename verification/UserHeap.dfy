/** The heap of the user library as an object over one array of words. */
module UserHeap {
  import opened Words
  import opened WordBytes
  import HeapBlocks
  import opened HeapSearch
  import opened HeapRuns
  import opened HeapArray
  import R = Realloc

  class Heap {
    const words: array<int>
    var avail: int
    ghost var starts: set<int>

    ghost function Now(): HeapBlocks.Heap
      reads this, words
    {
      HeapOf(words, avail)
    }

    ghost predicate Valid()
      reads this, words
    {
      HeapBlocks.Ok(Now(), starts) && words.Length <= MAX_INT
    }

    ghost function Live(): set<int>
      reads this, words
    {
      HeapBlocks.Live(Now(), starts)
    }

    constructor (base: array<int>)
      requires 8 <= base.Length <= MAX_INT
      modifies base
      ensures words == base && Valid() && Now() == HeapBlocks.Init(old(base[..])) && Live() == {}
    {
      words := base;
      avail := 0;
      starts := {0, 2, base.Length - 2};
      new;
      var len := base.Length;
      ghost var h := HeapBlocks.InitKeeps(base[..]);
      MakeTakenAt(words, 0, 2);
      avail := MakeAvailAt(words, avail, 2, len - 4);
      MakeTakenAt(words, len - 2, 2);
      assert HeapOf(words, avail) == h;
    }

    method Malloc(bytes: int) returns (p: Ptr)
      requires Valid() && 0 <= bytes < WORD_LIMIT
      modifies this, words
      ensures Valid() && (Now(), p) == HeapRuns.Malloc(old(Now()), USER_TRIES, bytes)
      ensures starts == MallocStarts(old(Now()), old(starts), USER_TRIES, bytes)
    {
      if bytes == 0 {
        return At(0);
      }
      ghost var h, S := Now(), starts;
      var ints := (bytes + 3) % WORD_LIMIT / 4 + 2;
      if ints < 4 {
        ints := 4;
      }
      p := Null;
      ghost var fl := ListIs(Now(), starts);
      var it, mx := SearchFirst(words, avail, ints, fl);
      if it != 0 {
        ChoiceIs(Now(), starts, USER_TRIES, bytes);
        avail := TakeBlock(words, avail, it, mx, ints, starts);
        starts := HeapBlocks.TakenStarts(starts, it, mx, ints);
        p := At(it + 1);
      }
      MallocIs(h, S, USER_TRIES, bytes, it, mx, Now());
      ghost var h', S', r := MallocKeeps(h, S, USER_TRIES, bytes);
    }

    /** Null, the array, or a block, taken or not. */
    ghost predicate Freeable(p: Ptr)
      reads this, words
    {
      p == Null || p == At(0) || (p.index - 1 in starts && HeapBlocks.Inner(Now(), p.index - 1))
    }

    method Free(p: Ptr)
      requires Valid() && Freeable(p)
      modifies this, words
      ensures Valid() && Now() == R.UserFree(old(Now()), p)
      ensures Live() == old(Live()) - (if p.At? then {p.index - 1} else {})
    {
      if p == Null || p == At(0) {
        return;
      }
      var idx := p.index - 1;
      if words[idx] >= 0 {
        return;
      }
      ghost var h', S' := R.UserFreeKeeps(Now(), starts, idx);
      avail := FreeBlock(words, avail, idx, starts);
      starts := S';
    }

    method FreeLive(idx: int)
      requires Valid() && idx in Live()
      modifies this, words
      ensures Valid() && Now() == R.UserFree(old(Now()), At(idx + 1))
    {
      Free(At(idx + 1));
    }

    method LoadByte(i: int, k: int) returns (b: int)
      requires 0 <= i && 0 <= k < 4 * (words.Length - i - 1)
      ensures b == R.Byte(Now(), i, k)
    {
      b := GetByte(words[i + 1 + k / 4], k % 4);
    }

    method StoreByte(i: int, k: int, b: int)
      requires 0 <= i && 0 <= k < 4 * (words.Length - i - 1)
      modifies words
      ensures Now() == R.StoreByte(old(Now()), i, k, b)
    {
      var x := i + 1 + k / 4;
      words[x] := PutByte(words[x], k % 4, b);
    }

    /** Copies m bytes from the payload of block s to that of block i. */
    method CopyBytes(i: int, s: int, m: int)
      requires 0 <= i && 0 <= s && 0 <= m <= 4 * (words.Length - i - 1) && m <= 4 * (words.Length - s - 1)
      modifies words
      ensures Now() == R.Copied(old(Now()), i, s, m)
    {
      ghost var h := Now();
      var k := 0;
      while k < m
        invariant 0 <= k <= m
        invariant Now() == R.Copied(h, i, s, k)
      {
        ghost var h0 := Now();
        var b := LoadByte(s, k);
        StoreByte(i, k, b);
        R.CopiedNext(h, i, s, k, h0, Now());
        k := k + 1;
      }
    }

    method Realloc(p: Ptr, newSize: int) returns (q: Ptr)
      requires Valid() && 0 <= newSize < WORD_LIMIT && Freeable(p) && (newSize != 0 ==> p != At(0))
      requires p.At? && p.index - 1 in Live() && newSize != 0 ==> R.CopyFits(Now(), p.index - 1, newSize)
      modifies this, words
      ensures Valid() && (Now(), q) == R.Realloc(old(Now()), p, newSize)
    {
      if p == Null {
        q := Malloc(newSize);
        return;
      }
      if newSize == 0 {
        Free(p);
        return Null;
      }
      var idx := p.index - 1;
      if words[idx] >= 0 {
        return Null;
      }
      q := Move(idx, newSize);
    }

    /** The copy of realloc. */
    method CopyInto(idx: int, j: int, m: int)
      requires Valid() && R.CanMove(Now(), starts, idx, j, m)
      modifies words
      ensures Valid() && idx in Live() && Now() == R.Copied(old(Now()), j, idx, m)
    {
      CopyBytes(j, idx, m);
    }

    /** The second half of realloc: the copy, if there is a new block, and the return of the old one. */
    method CopyAndFree(idx: int, q: Ptr, m: int)
      requires Valid() && idx in Live() && (q != Null ==> R.CanMove(Now(), starts, idx, q.index - 1, m))
      modifies this, words
      ensures Valid()
      ensures Now() == R.UserFree(old(if q == Null then Now() else R.Copied(Now(), q.index - 1, idx, m)), At(idx + 1))
    {
      if q != Null {
        CopyInto(idx, q.index - 1, m);
      }
      FreeLive(idx);
    }

    /** realloc of a live block to a non-zero size. */
    method Move(idx: int, newSize: int) returns (q: Ptr)
      requires Valid() && 0 < newSize < WORD_LIMIT && idx in Live() && R.CopyFits(Now(), idx, newSize)
      modifies this, words
      ensures Valid() && (Now(), q) == R.Realloc(old(Now()), At(idx + 1), newSize)
    {
      ghost var h, S := Now(), starts;
      R.InArray(h, S, idx);
      var sz := 4 * HeapBlocks.Abs(words[idx]);
      var m := if newSize > sz then sz else newSize;
      ghost var h1, S1, r := MallocKeeps(h, S, USER_TRIES, newSize);
      q := Malloc(newSize);
      if q != Null {
        R.MoveStages(h, S, idx, newSize, h1, S1, q.index - 1, m);
      }
      CopyAndFree(idx, q, m);
      R.ReallocIs(h, idx, newSize, m, h1, q, Now());
    }
  }
}

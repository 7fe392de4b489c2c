/** The kernel heap as an object over one array of words. */
module KernelHeap {
  import opened Words
  import opened Wrappers
  import opened WordBytes
  import opened HeapBlocks
  import opened HeapSearch
  import opened HeapRuns
  import opened HeapArray

  class Heap {
    const words: array<int>
    var avail: int
    var count: int
    ghost var starts: set<int>

    ghost function Now(): State
      reads this, words
    {
      State(HeapOf(words, avail), starts, count)
    }

    ghost predicate Valid()
      reads this, words
    {
      Good(Now())
    }

    constructor (base: array<int>)
      requires 8 <= base.Length <= MAX_INT
      modifies base
      ensures words == base && Valid() && Now() == State(Init(old(base[..])), {0, 2, base.Length - 2}, 0)
    {
      words := base;
      avail := 0;
      count := 0;
      starts := {0, 2, base.Length - 2};
      new;
      var len := base.Length;
      ghost var h := InitKeeps(base[..]);
      MakeTakenAt(words, 0, 2);
      avail := MakeAvailAt(words, avail, 2, len - 4);
      MakeTakenAt(words, len - 2, 2);
      assert HeapOf(words, avail) == h;
    }

    method Malloc(bytes: int) returns (p: Ptr)
      requires Valid() && 0 <= bytes < WORD_LIMIT
      modifies this, words
      ensures Valid() && Some(Now()) == Step(old(Now()), MallocCall(bytes))
      ensures p == HeapRuns.Malloc(old(Now().heap), KERNEL_TRIES, bytes).1
    {
      if bytes == 0 {
        return At(0);
      }
      ghost var s := Now();
      var ints := (bytes + 3) % WORD_LIMIT / 4 + 2;
      if ints < 4 {
        ints := 4;
      }
      p := Null;
      ghost var fl := ListIs(Now().heap, starts);
      var it, mx := SearchBest(words, avail, ints, fl);
      if it != 0 {
        ChoiceIs(Now().heap, starts, KERNEL_TRIES, bytes);
        avail := TakeBlock(words, avail, it, mx, ints, starts);
        starts := TakenStarts(starts, it, mx, ints);
        p := At(it + 1);
      }
      if p != Null {
        count := count + 1;
      }
      MallocStepIs(s, bytes, it, mx, Now());
      StepKeeps(s, MallocCall(bytes));
    }

    /** False when it panics: the block was not taken. */
    method Free(p: Ptr) returns (ok: bool)
      requires Valid() && Allowed(Now(), FreeCall(p))
      modifies this, words
      ensures ok <==> Step(old(Now()), FreeCall(p)).Some?
      ensures ok ==> Valid() && Some(Now()) == Step(old(Now()), FreeCall(p))
      ensures !ok ==> Now() == old(Now()).(count := old(count) - 1)
    {
      if p == Null || p == At(0) {
        return true;
      }
      StepKeeps(Now(), FreeCall(p));
      count := count - 1;
      var idx := p.index - 1;
      if words[idx] >= 0 {
        return false;
      }
      ghost var h := Now().heap;
      avail := FreeBlock(words, avail, idx, starts);
      starts := Merged(starts, FreedStart(h, idx), FreedEnd(h, idx));
      ok := true;
    }
  }
}

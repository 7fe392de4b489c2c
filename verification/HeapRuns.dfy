/** malloc, free and the client's own stores as steps of one state machine, over every run. */
module HeapRuns {
  import opened Words
  import opened Wrappers
  import opened WordBytes
  import opened HeapBlocks
  import opened HeapSearch

  /** What malloc returns and free takes: null, or the address of a word of the array.  Word 0 stands
      for the array itself, which is what a request for no bytes returns. */
  datatype Ptr = Null | At(index: int)

  // ---- The free list, as the code walks it ----

  function Walk(h: Heap, p: int, steps: nat): seq<int>
    decreases steps
  {
    if p == 0 || steps == 0 then [] else [p] + Walk(h, Word(h, p + 1), steps - 1)
  }

  function FreeList(h: Heap): seq<int> {
    Walk(h, h.avail, |h.a|)
  }

  lemma {:induction false} WalkIs(h: Heap, S: set<int>, fl: seq<int>, k: nat, steps: nat)
    requires Chain(h, S, fl) && k <= |fl| <= k + steps
    ensures Walk(h, if k == |fl| then 0 else fl[k], steps) == fl[k..]
    decreases steps
  {
    if k < |fl| {
      assert Linked(h, fl, k);
      WalkIs(h, S, fl, k + 1, steps - 1);
    }
  }

  lemma {:induction false} RangeCount(n: nat) returns (r: set<int>)
    ensures |r| == n && forall i :: i in r <==> 0 <= i < n
  {
    if n == 0 {
      r := {};
    } else {
      var q := RangeCount(n - 1);
      r := q + {n - 1};
    }
  }

  lemma SubsetCount(s: set<int>, t: set<int>)
    requires s <= t
    ensures |s| <= |t|
  {
    assert t == s + (t - s);
  }

  lemma {:induction false} DistinctCount(fl: seq<int>) returns (s: set<int>)
    requires forall k, l :: 0 <= k < l < |fl| ==> fl[k] != fl[l]
    ensures |s| == |fl| && forall i :: i in s <==> i in fl
  {
    if fl == [] {
      s := {};
    } else {
      var n := |fl| - 1;
      var init, x := fl[..n], fl[n];
      var q := DistinctCount(init);
      forall k | 0 <= k < n ensures init[k] != x {
      }
      assert x !in init;
      assert x !in q;
      s := q + {x};
      forall i ensures i in fl <==> i in init || i == x {
        assert fl == init + [x];
      }
    }
  }

  /** The walk from `avail` meets exactly the free blocks, each once, and ends. */
  lemma FreeListIs(h: Heap, S: set<int>, fl: seq<int>)
    requires Inv(h, S, fl)
    ensures FreeList(h) == fl
  {
    var s := DistinctCount(fl);
    var r := RangeCount(|h.a|);
    forall i | i in s ensures i in r {
      var k :| 0 <= k < |fl| && fl[k] == i;
      assert Inner(h, fl[k]);
    }
    SubsetCount(s, r);
    WalkIs(h, S, fl, 0, |h.a|);
  }

  // ---- The calls ----

  function Choice(h: Heap, tries: int, bytes: int): (int, int) {
    Best(h, FirstFits(h, FreeList(h), Ints(bytes), tries), 0, MAX_INT)
  }

  function Malloc(h: Heap, tries: int, bytes: int): (Heap, Ptr) {
    if bytes == 0 then (h, At(0))
    else
      var (it, mx) := Choice(h, tries, bytes);
      if it == 0 then (h, Null) else (Carve(Unlink(h, it), it, mx, Ints(bytes)), At(it + 1))
  }

  /** The block starts after malloc. */
  function MallocStarts(h: Heap, S: set<int>, tries: int, bytes: int): set<int> {
    var (it, mx) := Choice(h, tries, bytes);
    if bytes == 0 || it == 0 then S else TakenStarts(S, it, mx, Ints(bytes))
  }

  /** A choice of malloc: block it is the smallest of the first fits, the earliest on ties. */
  ghost predicate BestOf(h: Heap, cs: seq<int>, it: int) {
    exists k: nat :: Smallest(h, cs, k) && cs[k] == it
  }

  lemma ChoiceIs(h: Heap, S: set<int>, tries: int, bytes: int)
    requires Ok(h, S) && |h.a| <= MAX_INT && 1 <= tries && 0 < bytes
    ensures var (it, mx) := Choice(h, tries, bytes);
            if it == 0 then forall i :: i in S && Word(h, i) > 0 ==> Size(h, i) < Ints(bytes)
            else it in S && Word(h, it) == mx >= Ints(bytes) &&
                 BestOf(h, FirstFits(h, FreeList(h), Ints(bytes), tries), it)
  {
    var fl :| Inv(h, S, fl);
    FreeListIs(h, S, fl);
    var k := BestFit(h, S, fl, Ints(bytes), tries);
    var cs := FirstFits(h, fl, Ints(bytes), tries);
    if cs != [] {
      assert Smallest(h, cs, k);
      FreeIsInner(h, S, cs[k]);
    }
  }

  /** What malloc promises.  Null means that no free block is large enough.  Otherwise one block becomes
      live: it was free, it is the best of the first fits, what is left of it is split off when it is at
      least four words, it has room exactly when the request is at most 2^32-4 bytes, and no other live
      block changes. */
  lemma MallocKeeps(h: Heap, S: set<int>, tries: int, bytes: int) returns (h': Heap, S': set<int>, r: Ptr)
    requires Ok(h, S) && |h.a| <= MAX_INT && 1 <= tries && 0 <= bytes < WORD_LIMIT
    ensures (h', r) == Malloc(h, tries, bytes) && S' == MallocStarts(h, S, tries, bytes)
    ensures Ok(h', S') && |h'.a| == |h.a|
    ensures bytes == 0 ==> h' == h && S' == S && r == At(0)
    ensures r == Null ==> h' == h && S' == S && bytes != 0
    ensures r == Null ==> forall i :: i in S && Word(h, i) > 0 ==> Size(h, i) < Ints(bytes)
    ensures r.At? && bytes != 0 ==> Granted(h, S, h', S', tries, bytes, r.index - 1)
  {
    if bytes == 0 {
      h', S', r := h, S, At(0);
    } else {
      ChoiceIs(h, S, tries, bytes);
      var (it, mx) := Choice(h, tries, bytes);
      if it == 0 {
        h', S', r := h, S, Null;
      } else {
        h', S' := Grants(h, S, tries, bytes, it, mx);
        r := At(it + 1);
      }
    }
  }

  /** malloc put together from the search and the taking. */
  lemma MallocIs(h: Heap, S: set<int>, tries: int, bytes: int, it: int, mx: int, h': Heap)
    requires 0 < bytes && (it, mx) == Choice(h, tries, bytes)
    requires h' == (if it == 0 then h else Carve(Unlink(h, it), it, mx, Ints(bytes)))
    ensures Malloc(h, tries, bytes) == (h', if it == 0 then Null else At(it + 1))
    ensures MallocStarts(h, S, tries, bytes) == if it == 0 then S else TakenStarts(S, it, mx, Ints(bytes))
  {
  }

  lemma Grants(h: Heap, S: set<int>, tries: int, bytes: int, it: int, mx: int) returns (h': Heap, S': set<int>)
    requires Ok(h, S) && 0 < bytes < WORD_LIMIT && it in S && Word(h, it) == mx >= Ints(bytes)
    requires BestOf(h, FirstFits(h, FreeList(h), Ints(bytes), tries), it)
    ensures h' == Carve(Unlink(h, it), it, mx, Ints(bytes)) && S' == TakenStarts(S, it, mx, Ints(bytes))
    ensures Ok(h', S') && |h'.a| == |h.a| && Granted(h, S, h', S', tries, bytes, it)
  {
    h', S' := TakeKeeps(h, S, it, mx, Ints(bytes));
    RoomWhen(bytes);
  }

  ghost predicate Granted(h: Heap, S: set<int>, h': Heap, S': set<int>, tries: int, bytes: int, it: int) {
    && it in S && Word(h, it) > 0 && BestOf(h, FirstFits(h, FreeList(h), Ints(bytes), tries), it)
    && it !in Live(h, S) && Live(h', S') == Live(h, S) + {it}
    && (4 * (Size(h', it) - 2) >= bytes <==> bytes <= WORD_LIMIT - 4)
    && Size(h', it) == (if Size(h, it) - Ints(bytes) >= 4 then Ints(bytes) else Size(h, it)) >= Ints(bytes)
    && (forall j :: j in Live(h, S) ==> SameBlock(h, h', j))
  }

  /** A request that wraps around gets four words of a fresh heap. */
  lemma HugeRequestGetsFourWords(a: seq<int>, tries: int)
    requires 12 <= |a| <= MAX_INT && 1 <= tries
    ensures var (h', r) := Malloc(Init(a), tries, 0xFFFF_FFFF);
            r == At(3) && Size(h', 2) == 4
  {
    var h := InitKeeps(a);
    var S := {0, 2, |a| - 2};
    assert Ints(0xFFFF_FFFF) == 4;
    SentinelsTaken(h, S);
    var h', S', r := MallocKeeps(h, S, tries, 0xFFFF_FFFF);
  }

  lemma SentinelsTaken(h: Heap, S: set<int>)
    requires Ok(h, S)
    ensures Word(h, 0) == Word(h, |h.a| - 2) == -2
  {
  }

  // ---- Client stores ----

  /** Word x is payload of block i: between its tags. */
  ghost predicate Payload(h: Heap, i: int, x: int) {
    i < x < Right(h, i) - 1
  }

  /** The heaps differ at most in the payload of block i. */
  ghost predicate SameOutside(h: Heap, i: int, h': Heap) {
    && |h'.a| == |h.a| && h'.avail == h.avail
    && (forall x :: !Payload(h, i, x) ==> Word(h', x) == Word(h, x))
  }

  /** Stores to the payload of a live block disturb neither the tags, nor the list, nor other blocks. */
  lemma PayloadKeeps(h: Heap, S: set<int>, i: int, h': Heap)
    requires Ok(h, S) && i in Live(h, S) && SameOutside(h, i, h')
    ensures Ok(h', S) && Live(h', S) == Live(h, S)
    ensures forall j :: j in S ==> Word(h', j) == Word(h, j)
    ensures forall j :: j in S && j != i ==> SameBlock(h, h', j)
  {
    var fl :| Inv(h, S, fl);
    forall j | j in S ensures SameTags(h, h', j) && (j != i ==> SameBlock(h, h', j)) {
      PayloadElsewhere(h, S, i, h', j);
    }
    PayloadInv(h, S, i, h', fl);
    assert Inv(h', S, fl);
  }

  lemma PayloadInv(h: Heap, S: set<int>, i: int, h': Heap, fl: seq<int>)
    requires Inv(h, S, fl) && i in Live(h, S) && |h'.a| == |h.a| && h'.avail == h.avail
    requires forall j {:trigger SameTags(h, h', j)} :: j in S ==> SameTags(h, h', j)
    requires forall j :: j in S ==> Word(h', j) == Word(h, j)
    requires forall j :: j in S && j != i ==> SameBlock(h, h', j)
    ensures Inv(h', S, fl)
  {
    SameTiles(h, S, h');
    NoNewNeighbours(h, S, h');
    forall k | 0 <= k < |fl|
      ensures Word(h', fl[k] + 1) == Word(h, fl[k] + 1) && Word(h', fl[k] + 2) == Word(h, fl[k] + 2)
    {
      assert fl[k] in fl && SameBlock(h, h', fl[k]);
    }
    RetagChain(h, S, h', S, fl);
  }

  lemma PayloadElsewhere(h: Heap, S: set<int>, i: int, h': Heap, j: int)
    requires Tiled(h, S) && i in S && j in S && SameOutside(h, i, h')
    ensures SameTags(h, h', j) && (j != i ==> SameBlock(h, h', j))
  {
    assert Block(h, S, i);
    assert Block(h, S, j);
  }

  /** One store of the client's. */
  lemma StoreKeeps(h: Heap, S: set<int>, i: int, x: int, v: int) returns (h': Heap)
    requires Ok(h, S) && i in Live(h, S) && Payload(h, i, x)
    ensures h' == Set(h, x, v) && Ok(h', S) && |h'.a| == |h.a| && Live(h', S) == Live(h, S)
    ensures forall j :: j in S ==> Word(h', j) == Word(h, j)
    ensures forall j :: j in S && j != i ==> SameBlock(h, h', j)
  {
    h' := Set(h, x, v);
    PayloadKeeps(h, S, i, h');
  }

  // ---- Runs ----

  /** The kernel heap: its words, where its blocks start, and the count of blocks handed out. */
  datatype State = State(heap: Heap, starts: set<int>, count: int)

  datatype Call = MallocCall(bytes: int) | FreeCall(p: Ptr) | StoreCall(x: int, v: int)

  ghost predicate Good(s: State) {
    && Ok(s.heap, s.starts) && |s.heap.a| <= MAX_INT
    && s.count == |Live(s.heap, s.starts)|
  }

  /** What the heap demands of its clients: free is called on null, on the array, or on a block, and
      stores go to the payload of live blocks. */
  ghost predicate Allowed(s: State, c: Call) {
    match c
    case MallocCall(bytes) => 0 <= bytes < WORD_LIMIT
    case FreeCall(p) => p == Null || p == At(0) || (p.index - 1 in s.starts && Inner(s.heap, p.index - 1))
    case StoreCall(x, _) => exists i :: i in Live(s.heap, s.starts) && Payload(s.heap, i, x)
  }

  /** One call; None when it panics. */
  function Step(s: State, c: Call): Option<State> {
    match c
    case MallocCall(bytes) =>
      var (h, r) := Malloc(s.heap, KERNEL_TRIES, bytes);
      Some(State(h, MallocStarts(s.heap, s.starts, KERNEL_TRIES, bytes),
                 s.count + if r == Null || bytes == 0 then 0 else 1))
    case FreeCall(p) =>
      if p == Null || p == At(0) then Some(s)
      else
        var i := p.index - 1;
        if Word(s.heap, i) >= 0 then None
        else Some(State(FreeAt(s.heap, i), Merged(s.starts, FreedStart(s.heap, i), FreedEnd(s.heap, i)), s.count - 1))
    case StoreCall(x, v) => Some(s.(heap := Set(s.heap, x, v)))
  }

  /** A store changes the word stored to, and nothing else. */
  lemma StoreStep(s: State, x: int, v: int)
    requires Good(s) && Allowed(s, StoreCall(x, v))
    ensures var s' := Step(s, StoreCall(x, v)).value;
            && Step(s, StoreCall(x, v)).Some? && s'.starts == s.starts && s'.count == s.count
            && forall y :: Word(s'.heap, y) == if y == x then v else Word(s.heap, y)
  {
    var i :| i in Live(s.heap, s.starts) && Payload(s.heap, i, x);
    assert Block(s.heap, s.starts, i);
  }

  /** Every call keeps the heap; only freeing a free block panics. */
  lemma StepKeeps(s: State, c: Call)
    requires Good(s) && Allowed(s, c)
    ensures Step(s, c) == None <==> c.FreeCall? && c.p.At? && c.p.index != 0 && c.p.index - 1 !in Live(s.heap, s.starts)
    ensures Step(s, c).Some? ==> Good(Step(s, c).value)
  {
    match c
    case MallocCall(bytes) => var h', S', r := MallocKeeps(s.heap, s.starts, KERNEL_TRIES, bytes);
    case FreeCall(p) => if p.At? && p.index != 0 { FreeStep(s, p.index - 1); }
    case StoreCall(x, v) =>
      var i :| i in Live(s.heap, s.starts) && Payload(s.heap, i, x);
      var h' := StoreKeeps(s.heap, s.starts, i, x, v);
  }

  lemma FreeStep(s: State, i: int)
    requires Good(s) && i in s.starts && Inner(s.heap, i)
    ensures var s' := Step(s, FreeCall(At(i + 1)));
            if i in Live(s.heap, s.starts) then s'.Some? && Good(s'.value) else s' == None
  {
    if i in Live(s.heap, s.starts) {
      var h', S' := FreeKeeps(s.heap, s.starts, i, FreedStart(s.heap, i), FreedEnd(s.heap, i));
    }
  }

  function Run(s: State, cs: seq<Call>): Option<State>
    decreases |cs|
  {
    if cs == [] then Some(s)
    else
      var s' :- Step(s, cs[0]);
      Run(s', cs[1..])
  }

  /** Each call of the run is one the heap allows at that point. */
  ghost predicate Follows(s: State, cs: seq<Call>)
    decreases |cs|
  {
    cs == [] || (Allowed(s, cs[0]) && (Step(s, cs[0]).Some? ==> Follows(Step(s, cs[0]).value, cs[1..])))
  }

  lemma {:induction false} RunKeeps(s: State, cs: seq<Call>)
    requires Good(s) && Follows(s, cs)
    ensures Run(s, cs).Some? ==> Good(Run(s, cs).value)
    decreases |cs|
  {
    if cs != [] {
      StepKeeps(s, cs[0]);
      if Step(s, cs[0]).Some? {
        RunKeeps(Step(s, cs[0]).value, cs[1..]);
      }
    }
  }

  /** Every run after heapInit keeps the tiling, the list, and the count. */
  lemma EveryRun(a: seq<int>, cs: seq<Call>)
    requires 8 <= |a| <= MAX_INT && Follows(State(Init(a), {0, 2, |a| - 2}, 0), cs)
    ensures var s := Run(State(Init(a), {0, 2, |a| - 2}, 0), cs);
            s.Some? ==> Good(s.value)
  {
    var h := InitKeeps(a);
    RunKeeps(State(h, {0, 2, |a| - 2}, 0), cs);
  }

  /** The blocks of a tiling cover every word, each word once. */
  lemma {:induction false} WordInOneBlock(h: Heap, S: set<int>, i: int, x: int) returns (j: int)
    requires Tiled(h, S) && i in S && i <= x < |h.a|
    ensures j in S && j <= x < Right(h, j)
    ensures forall k :: k in S && k <= x < Right(h, k) ==> k == j
    decreases |h.a| - i
  {
    assert Block(h, S, i);
    if x < Right(h, i) {
      j := i;
      forall k | k in S && k <= x < Right(h, k) ensures k == j {
        Disjoint(h, S, j, k, x);
      }
    } else {
      WordIsSigned(h, S, i);
      j := WordInOneBlock(h, S, Right(h, i), x);
    }
  }

  /** Block j is live in both states and the same in every word. */
  ghost predicate Untouched(s: State, s': State, j: int) {
    j in Live(s'.heap, s'.starts) && SameBlock(s.heap, s'.heap, j)
  }

  /** A call changes no word of a live block other than the one it stores to or frees. */
  lemma StepPrivate(s: State, c: Call, j: int) returns (s': State)
    requires Good(s) && Allowed(s, c) && Step(s, c).Some? && j in Live(s.heap, s.starts)
    requires c != FreeCall(At(j + 1)) && (c.StoreCall? ==> !Payload(s.heap, j, c.x))
    ensures Step(s, c) == Some(s') && Untouched(s, s', j)
  {
    s' := Step(s, c).value;
    match c
    case MallocCall(bytes) => MallocPrivate(s, bytes, s', j);
    case FreeCall(p) => if p.At? && p.index != 0 { FreePrivate(s, p.index - 1, s', j); }
    case StoreCall(x, v) =>
      var i :| i in Live(s.heap, s.starts) && Payload(s.heap, i, x);
      var h' := StoreKeeps(s.heap, s.starts, i, x, v);
  }

  lemma MallocPrivate(s: State, bytes: int, s': State, j: int)
    requires Good(s) && 0 <= bytes < WORD_LIMIT && Step(s, MallocCall(bytes)) == Some(s') && j in Live(s.heap, s.starts)
    ensures Untouched(s, s', j)
  {
    var h', S', r := MallocKeeps(s.heap, s.starts, KERNEL_TRIES, bytes);
  }

  lemma FreePrivate(s: State, i: int, s': State, j: int)
    requires Good(s) && i in s.starts && Inner(s.heap, i) && j != i
    requires Step(s, FreeCall(At(i + 1))) == Some(s') && j in Live(s.heap, s.starts)
    ensures Untouched(s, s', j)
  {
    var h', S' := FreeKeeps(s.heap, s.starts, i, FreedStart(s.heap, i), FreedEnd(s.heap, i));
  }

  /** malloc and then free of what it returned: the same blocks at the same places with the same sizes, the
      same ones free, every live block as it was, and the same count. */
  lemma MallocThenFree(s: State, bytes: int) returns (s1: State, s2: State)
    requires Good(s) && 0 < bytes < WORD_LIMIT && Malloc(s.heap, KERNEL_TRIES, bytes).1 != Null
    ensures Step(s, MallocCall(bytes)) == Some(s1)
    ensures Step(s1, FreeCall(Malloc(s.heap, KERNEL_TRIES, bytes).1)) == Some(s2)
    ensures s2.starts == s.starts && s2.count == s.count && Ok(s2.heap, s.starts)
    ensures forall j :: j in s.starts ==> Word(s2.heap, j) == Word(s.heap, j)
    ensures forall j :: j in Live(s.heap, s.starts) ==> SameBlock(s.heap, s2.heap, j)
  {
    var it, mx, h1 := MallocStep(s, bytes);
    var h1', h2 := MallocFreeRestores(s.heap, s.starts, it, mx, Ints(bytes));
    s1 := State(h1, TakenStarts(s.starts, it, mx, Ints(bytes)), s.count + 1);
    s2 := State(h2, s.starts, s.count);
    FreeTakenStep(s, s1, it, mx, Ints(bytes), h2);
  }

  /** A step of malloc put together. */
  lemma MallocStepIs(s: State, bytes: int, it: int, mx: int, s': State)
    requires 0 < bytes && (it, mx) == Choice(s.heap, KERNEL_TRIES, bytes)
    requires s' == if it == 0 then s
                   else State(Carve(Unlink(s.heap, it), it, mx, Ints(bytes)),
                              TakenStarts(s.starts, it, mx, Ints(bytes)), s.count + 1)
    ensures Step(s, MallocCall(bytes)) == Some(s')
    ensures Malloc(s.heap, KERNEL_TRIES, bytes).1 == if it == 0 then Null else At(it + 1)
  {
    MallocIs(s.heap, s.starts, KERNEL_TRIES, bytes, it, mx, s'.heap);
  }

  lemma MallocStep(s: State, bytes: int) returns (it: int, mx: int, h1: Heap)
    requires Good(s) && 0 < bytes < WORD_LIMIT && Malloc(s.heap, KERNEL_TRIES, bytes).1 != Null
    ensures it in s.starts && Word(s.heap, it) == mx && 4 <= Ints(bytes) <= mx
    ensures h1 == Carve(Unlink(s.heap, it), it, mx, Ints(bytes)) && Malloc(s.heap, KERNEL_TRIES, bytes).1 == At(it + 1)
    ensures Step(s, MallocCall(bytes)) == Some(State(h1, TakenStarts(s.starts, it, mx, Ints(bytes)), s.count + 1))
  {
    var h, S := s.heap, s.starts;
    ChoiceIs(h, S, KERNEL_TRIES, bytes);
    it, mx := Choice(h, KERNEL_TRIES, bytes).0, Choice(h, KERNEL_TRIES, bytes).1;
    h1 := Carve(Unlink(h, it), it, mx, Ints(bytes));
    MallocIs(h, S, KERNEL_TRIES, bytes, it, mx, h1);
  }

  lemma FreeTakenStep(s: State, s1: State, it: int, mx: int, ints: int, h2: Heap)
    requires Ok(s.heap, s.starts) && it in s.starts && Word(s.heap, it) == mx && 4 <= ints <= mx
    requires s1 == State(Carve(Unlink(s.heap, it), it, mx, ints), TakenStarts(s.starts, it, mx, ints), s.count + 1)
    requires h2 == FreeAt(s1.heap, it)
    ensures Step(s1, FreeCall(At(it + 1))) == Some(State(h2, s.starts, s.count))
  {
    TakenBounds(s.heap, s.starts, it, mx, ints, s1.heap);
    FreeStepIs(s1, it, it, it + mx, h2, s.starts);
  }

  /** What free finds after malloc: the bounds of the free block that was taken. */
  lemma TakenBounds(h: Heap, S: set<int>, it: int, mx: int, ints: int, h1: Heap)
    requires Ok(h, S) && it in S && Word(h, it) == mx && 4 <= ints <= mx && h1 == Carve(Unlink(h, it), it, mx, ints)
    ensures Word(h1, it) < 0 && it > 0 && FreedStart(h1, it) == it && FreedEnd(h1, it) == it + mx
    ensures Merged(TakenStarts(S, it, mx, ints), it, it + mx) == S
  {
    FreeIsInner(h, S, it);
    var h', S' := TakeKeeps(h, S, it, mx, ints);
    FreedBoundsOfTakenOk(h, S, h1, it, mx, ints);
    RestoredStarts(h, S, it, mx, ints);
  }

  lemma FreeStepIs(s: State, it: int, i: int, e: int, h': Heap, S': set<int>)
    requires Word(s.heap, it) < 0 && it > 0 && FreedStart(s.heap, it) == i && FreedEnd(s.heap, it) == e
    requires h' == FreeAt(s.heap, it) && S' == Merged(s.starts, i, e)
    ensures Step(s, FreeCall(At(it + 1))) == Some(State(h', S', s.count - 1))
  {
  }
}

/** The boundary-tag heap as a function of its words.

    The heap is one array of words tiled by blocks.  The first and last word of a block hold its size,
    positive when the block is free and negative when it is taken.  Free blocks are linked through
    their second and third word.
 */
module HeapBlocks {
  datatype Heap = Heap(a: seq<int>, avail: int)

  function Abs(x: int): int {
    if x < 0 then -x else x
  }

  function Word(h: Heap, i: int): int {
    if 0 <= i < |h.a| then h.a[i] else 0
  }

  function Set(h: Heap, i: int, w: int): Heap {
    if 0 <= i < |h.a| then h.(a := h.a[i := w]) else h
  }

  function Size(h: Heap, i: int): int {
    Abs(Word(h, i))
  }

  function Left(h: Heap, i: int): int {
    i - 1 - Size(h, i - 1) + 1
  }

  function Right(h: Heap, i: int): int {
    i + Size(h, i)
  }

  // ---- The primitives ----

  /** Takes block i off the free list. */
  function Unlink(h: Heap, i: int): Heap {
    var prev, next := Word(h, i + 2), Word(h, i + 1);
    var h1 := if prev == 0 then h.(avail := next) else Set(h, prev + 1, next);
    if next != 0 then Set(h1, next + 2, prev) else h1
  }

  /** Writes the two tags of a block of |v| words at i. */
  function Tag(h: Heap, i: int, v: int): Heap {
    Set(Set(h, i, v), i + Abs(v) - 1, v)
  }

  /** Puts block i at the head of the free list. */
  function Push(h: Heap, i: int): Heap {
    var h1 := Set(Set(h, i + 1, h.avail), i + 2, 0);
    (if h.avail != 0 then Set(h1, h.avail + 2, i) else h1).(avail := i)
  }

  function MakeAvail(h: Heap, i: int, ints: int): Heap {
    Push(Tag(h, i, ints), i)
  }

  function MakeTaken(h: Heap, i: int, ints: int): Heap {
    Tag(h, i, -ints)
  }

  // ---- The operations ----

  /** Takes `ints` of the mx words of block `it`, or all of them when less than four would be left. */
  function Carve(h: Heap, it: int, mx: int, ints: int): Heap {
    if mx - ints >= 4 then MakeAvail(MakeTaken(h, it, ints), it + ints, mx - ints) else MakeTaken(h, it, mx)
  }

  function UnlinkIfFree(h: Heap, i: int): Heap {
    if Word(h, i) > 0 then Unlink(h, i) else h
  }

  /** Where the freed block will start and end. */
  function FreedStart(h: Heap, idx: int): int {
    if Word(h, Left(h, idx)) > 0 then Left(h, idx) else idx
  }

  function FreedEnd(h: Heap, idx: int): int {
    if Word(h, Right(h, idx)) > 0 then Right(h, Right(h, idx)) else Right(h, idx)
  }

  /** Takes the free neighbours of idx off the list. */
  function Detach(h: Heap, idx: int): Heap {
    UnlinkIfFree(UnlinkIfFree(h, Left(h, idx)), Right(h, idx))
  }

  /** Frees taken block idx, merging it with free neighbours. */
  function FreeAt(h: Heap, idx: int): Heap {
    MakeAvail(Detach(h, idx), FreedStart(h, idx), FreedEnd(h, idx) - FreedStart(h, idx))
  }

  function Init(a: seq<int>): Heap {
    MakeTaken(MakeAvail(MakeTaken(Heap(a, 0), 0, 2), 2, |a| - 4), |a| - 2, 2)
  }

  // ---- The invariant ----

  ghost predicate Inner(h: Heap, i: int) {
    0 < i < |h.a| - 2
  }

  /** Block i: its tags agree, and its neighbours on both sides are blocks. */
  ghost predicate Block(h: Heap, S: set<int>, i: int) {
    && 0 <= i <= |h.a| - 2 && (Inner(h, i) ==> Size(h, i) >= 4)
    && Right(h, i) <= |h.a| && Word(h, Right(h, i) - 1) == Word(h, i)
    && (i < |h.a| - 2 ==> Right(h, i) in S)
    && (i > 0 ==> Left(h, i) in S && Right(h, Left(h, i)) == i)
    && (forall j :: j in S && i < j ==> Right(h, i) <= j)
  }

  /** The blocks at S tile the array between two taken sentinels of two words. */
  ghost predicate Tiled(h: Heap, S: set<int>) {
    && 8 <= |h.a| && 0 in S && |h.a| - 2 in S
    && Word(h, 0) == Word(h, 1) == -2 && Word(h, |h.a| - 2) == Word(h, |h.a| - 1) == -2
    && (forall i {:trigger Block(h, S, i)} :: i in S ==> Block(h, S, i))
  }

  ghost predicate NoAdjacent(h: Heap, S: set<int>) {
    forall i {:trigger i in S} :: i in S && Word(h, i) > 0 ==> Word(h, Right(h, i)) < 0
  }

  ghost predicate Linked(h: Heap, fl: seq<int>, k: int)
    requires 0 <= k < |fl|
  {
    && Word(h, fl[k] + 1) == (if k + 1 < |fl| then fl[k + 1] else 0)
    && Word(h, fl[k] + 2) == (if k > 0 then fl[k - 1] else 0)
  }

  /** fl is the free list: doubly linked, each block once. */
  ghost predicate Chain(h: Heap, S: set<int>, fl: seq<int>) {
    && h.avail == (if fl == [] then 0 else fl[0])
    && (forall k :: 0 <= k < |fl| ==> Linked(h, fl, k))
    && (forall k :: 0 <= k < |fl| ==> fl[k] in S && Inner(h, fl[k]) && Size(h, fl[k]) >= 4)
    && (forall k, l :: 0 <= k < l < |fl| ==> fl[k] != fl[l])
  }

  ghost predicate Inv(h: Heap, S: set<int>, fl: seq<int>) {
    && Tiled(h, S) && NoAdjacent(h, S) && Chain(h, S, fl)
    && (forall i {:trigger i in fl} {:trigger i in S} :: i in fl <==> i in S && Word(h, i) > 0)
  }

  /** Some free list makes the heap with block starts S well formed. */
  ghost predicate Ok(h: Heap, S: set<int>) {
    exists fl :: Inv(h, S, fl)
  }

  /** The blocks that clients hold. */
  ghost function Live(h: Heap, S: set<int>): set<int> {
    set i | i in S && Inner(h, i) && Word(h, i) < 0
  }

  // ---- Tags ----

  /** The starts left when the blocks from i up to e become one. */
  function Merged(S: set<int>, i: int, e: int): set<int> {
    set j | j in S && !(i < j < e)
  }

  /** Outside lo..hi the two heaps have the same words and the same starts. */
  ghost predicate Outside(h: Heap, S: set<int>, h': Heap, S': set<int>, lo: int, hi: int) {
    && |h'.a| == |h.a| && 0 < lo < hi <= |h.a| - 2 && lo in S && hi in S
    && (forall x :: x < lo || x >= hi ==> Word(h', x) == Word(h, x))
    && (forall x :: x <= lo || x >= hi ==> (x in S' <==> x in S))
  }

  /** A block away from lo..hi is a block of the new heap. */
  lemma FarBlock(h: Heap, S: set<int>, h': Heap, S': set<int>, lo: int, hi: int, j: int)
    requires Tiled(h, S) && Outside(h, S, h', S', lo, hi)
    requires j in S && (j < lo || j > hi)
    ensures Block(h', S', j)
  {
    assert Block(h, S, j);
    if j > 0 {
      var l := Left(h, j);
      assert Block(h, S, l);
      if j > hi {
        assert l >= hi;
      }
    }
    if j < lo {
      assert Right(h, j) <= lo;
    }
  }

  /** A heap that agrees outside lo..hi and has well-tagged blocks from lo to hi is tiled. */
  lemma RetiledBetween(h: Heap, S: set<int>, h': Heap, S': set<int>, lo: int, hi: int)
    requires Tiled(h, S) && Outside(h, S, h', S', lo, hi)
    requires forall j {:trigger Block(h', S', j)} :: j in S' && lo <= j <= hi ==> Block(h', S', j)
    ensures Tiled(h', S')
  {
    SentinelsStay(h, S, h', S', lo, hi);
    forall j | j in S' ensures Block(h', S', j) {
      if j < lo || j > hi {
        FarBlock(h, S, h', S', lo, hi, j);
      }
    }
  }

  lemma SentinelsStay(h: Heap, S: set<int>, h': Heap, S': set<int>, lo: int, hi: int)
    requires Tiled(h, S) && Outside(h, S, h', S', lo, hi)
    ensures 0 in S' && |h'.a| - 2 in S'
    ensures Word(h', 0) == Word(h', 1) == -2 && Word(h', |h'.a| - 2) == Word(h', |h'.a| - 1) == -2
  {
    assert Block(h, S, 0);
  }

  /** The first block of a retagged stretch keeps its left neighbour. */
  lemma LeftStays(h: Heap, S: set<int>, h': Heap, S': set<int>, lo: int, hi: int)
    requires Tiled(h, S) && Outside(h, S, h', S', lo, hi)
    ensures Left(h', lo) in S' && Right(h', Left(h', lo)) == lo
  {
    assert Block(h, S, lo);
    assert Block(h, S, Left(h, lo));
  }

  lemma CoalesceTiles(h: Heap, S: set<int>, i: int, v: int)
    requires Tiled(h, S) && i in S && Inner(h, i)
    requires Abs(v) >= 4 && i + Abs(v) in S && i + Abs(v) <= |h.a| - 2
    ensures Tiled(Tag(h, i, v), Merged(S, i, i + Abs(v)))
    ensures forall x :: x != i && x != i + Abs(v) - 1 ==> Word(Tag(h, i, v), x) == Word(h, x)
  {
    var h', e := Tag(h, i, v), i + Abs(v);
    var S' := Merged(S, i, e);
    LeftStays(h, S, h', S', i, e);
    assert Block(h, S, e);
    assert Block(h', S', i);
    assert Block(h', S', e);
    RetiledBetween(h, S, h', S', i, e);
  }

  lemma SplitWords(h: Heap, i: int, v: int, w: int)
    requires 0 <= i && Abs(v) >= 4 && Abs(w) >= 4 && i + Abs(v) + Abs(w) <= |h.a|
    ensures var m, e, h' := i + Abs(v), i + Abs(v) + Abs(w), Tag(Tag(h, i, v), i + Abs(v), w);
            && |h'.a| == |h.a| && Word(h', i) == Word(h', m - 1) == v && Word(h', m) == Word(h', e - 1) == w
            && forall x :: x != i && x != m - 1 && x != m && x != e - 1 ==> Word(h', x) == Word(h, x)
  {
  }

  lemma SplitTiles(h: Heap, S: set<int>, h': Heap, i: int, m: int)
    requires Tiled(h, S) && i in S && Inner(h, i) && |h'.a| == |h.a| && i + 4 <= m <= Right(h, i) - 4
    requires forall x :: x < i || x >= Right(h, i) ==> Word(h', x) == Word(h, x)
    requires Size(h', i) == m - i && Word(h', m - 1) == Word(h', i)
    requires Size(h', m) == Right(h, i) - m && Word(h', Right(h, i) - 1) == Word(h', m)
    ensures Tiled(h', S + {m})
  {
    var S', e := S + {m}, Right(h, i);
    assert Block(h, S, i);
    assert Block(h, S, e);
    LeftStays(h, S, h', S', i, e);
    assert Block(h', S', i);
    assert Block(h', S', m);
    assert Block(h', S', e);
    RetiledBetween(h, S, h', S', i, e);
  }

  /** Both tags of block i are the same. */
  ghost predicate SameTags(h: Heap, h': Heap, i: int) {
    Word(h', i) == Word(h, i) && Word(h', Right(h, i) - 1) == Word(h, Right(h, i) - 1)
  }

  /** Tags stay as they are when only words that are no tags change. */
  lemma SameTiles(h: Heap, S: set<int>, h': Heap)
    requires Tiled(h, S) && |h'.a| == |h.a|
    requires forall i {:trigger SameTags(h, h', i)} :: i in S ==> SameTags(h, h', i)
    ensures Tiled(h', S)
  {
    SameSentinels(h, S, h');
    SameBlocks(h, S, h');
  }

  lemma SameSentinels(h: Heap, S: set<int>, h': Heap)
    requires Tiled(h, S) && |h'.a| == |h.a|
    requires forall i {:trigger SameTags(h, h', i)} :: i in S ==> SameTags(h, h', i)
    ensures Word(h', 0) == Word(h', 1) == -2 && Word(h', |h'.a| - 2) == Word(h', |h'.a| - 1) == -2
  {
    assert SameTags(h, h', 0) && SameTags(h, h', |h.a| - 2);
  }

  lemma SameBlocks(h: Heap, S: set<int>, h': Heap)
    requires Tiled(h, S) && |h'.a| == |h.a|
    requires forall i {:trigger SameTags(h, h', i)} :: i in S ==> SameTags(h, h', i)
    ensures forall i {:trigger Block(h', S, i)} :: i in S ==> Block(h', S, i)
  {
    forall i | i in S ensures Block(h', S, i) {
      SameTile(h, S, h', i);
    }
  }

  lemma SameTile(h: Heap, S: set<int>, h': Heap, i: int)
    requires Tiled(h, S) && |h'.a| == |h.a| && i in S
    requires forall i {:trigger SameTags(h, h', i)} :: i in S ==> SameTags(h, h', i)
    ensures Block(h', S, i)
  {
    assert Block(h, S, i) && SameTags(h, h', i);
    if i > 0 {
      assert Block(h, S, Left(h, i)) && SameTags(h, h', Left(h, i));
      assert Right(h, Left(h, i)) - 1 == i - 1;
    }
  }

  /** The second and third word of an inner block of a tiling are no tags of any block. */
  lemma LinkWordsAreNoTags(h: Heap, S: set<int>, i: int, j: int)
    requires Tiled(h, S) && i in S && Inner(h, i) && j in S
    ensures j != i + 1 && j != i + 2 && Right(h, j) - 1 != i + 1 && Right(h, j) - 1 != i + 2
  {
    assert Block(h, S, i);
    assert Block(h, S, j);
    if j > i {
    } else if j < i {
    }
  }

  // ---- The free list ----

  lemma UnlinkWords(h: Heap, S: set<int>, fl: seq<int>, k: nat)
    requires Tiled(h, S) && Chain(h, S, fl) && k < |fl|
    ensures var h' := Unlink(h, fl[k]);
            && |h'.a| == |h.a|
            && forall x :: (k == 0 || x != fl[k - 1] + 1) && (k + 1 == |fl| || x != fl[k + 1] + 2) ==>
                  Word(h', x) == Word(h, x)
  {
    assert Linked(h, fl, k);
  }

  lemma UnlinkTiles(h: Heap, S: set<int>, fl: seq<int>, k: nat)
    requires Tiled(h, S) && Chain(h, S, fl) && k < |fl|
    ensures Tiled(Unlink(h, fl[k]), S)
    ensures forall i :: i in S ==> Word(Unlink(h, fl[k]), i) == Word(h, i)
  {
    var h' := Unlink(h, fl[k]);
    UnlinkWords(h, S, fl, k);
    forall i | i in S ensures SameTags(h, h', i) {
      if k > 0 { LinkWordsAreNoTags(h, S, fl[k - 1], i); }
      if k + 1 < |fl| { LinkWordsAreNoTags(h, S, fl[k + 1], i); }
    }
    SameTiles(h, S, h');
  }

  function Without(fl: seq<int>, k: nat): seq<int>
    requires k < |fl|
  {
    fl[..k] + fl[k + 1..]
  }

  /** Distinct blocks of a chain have distinct link words. */
  lemma LinkWordsApart(h: Heap, S: set<int>, fl: seq<int>, k: nat, l: nat)
    requires Tiled(h, S) && Chain(h, S, fl) && k < |fl| && l < |fl| && k != l
    ensures fl[k] + 1 != fl[l] + 2
  {
    assert fl[k] in S && fl[l] in S;
    assert Block(h, S, fl[k]);
    assert Block(h, S, fl[l]);
  }

  /** The words next to a removed block lead past it. */
  lemma UnlinkLinks(h: Heap, S: set<int>, fl: seq<int>, k: nat, l: nat)
    requires Tiled(h, S) && Chain(h, S, fl) && k < |fl| && l < |fl| && l != k
    ensures var h' := Unlink(h, fl[k]);
            && Word(h', fl[l] + 1) == (if l + 1 == k then Word(h, fl[k] + 1) else Word(h, fl[l] + 1))
            && Word(h', fl[l] + 2) == (if l == k + 1 then Word(h, fl[k] + 2) else Word(h, fl[l] + 2))
  {
    assert Linked(h, fl, k);
    if k > 0 && k - 1 != l { LinkWordsApart(h, S, fl, k - 1, l); }
    if k + 1 < |fl| && k + 1 != l { LinkWordsApart(h, S, fl, l, k + 1); }
    if k > 0 && k + 1 < |fl| { LinkWordsApart(h, S, fl, k - 1, k + 1); }
  }

  lemma UnlinkChain(h: Heap, S: set<int>, fl: seq<int>, k: nat)
    requires Tiled(h, S) && Chain(h, S, fl) && k < |fl|
    ensures Chain(Unlink(h, fl[k]), S, Without(fl, k))
  {
    var h', fl' := Unlink(h, fl[k]), Without(fl, k);
    UnlinkTiles(h, S, fl, k);
    UnlinkAvail(h, S, fl, k);
    forall l: nat | l < |fl'| ensures Linked(h', fl', l) {
      UnlinkLinked(h, S, fl, k, l);
    }
  }

  lemma UnlinkAvail(h: Heap, S: set<int>, fl: seq<int>, k: nat)
    requires Chain(h, S, fl) && k < |fl|
    ensures Unlink(h, fl[k]).avail == (if Without(fl, k) == [] then 0 else Without(fl, k)[0])
  {
    assert Linked(h, fl, k);
  }

  lemma UnlinkLinked(h: Heap, S: set<int>, fl: seq<int>, k: nat, l: nat)
    requires Tiled(h, S) && Chain(h, S, fl) && k < |fl| && l < |fl| - 1
    ensures Linked(Unlink(h, fl[k]), Without(fl, k), l)
  {
    var o := if l < k then l else l + 1;
    assert Linked(h, fl, k);
    assert Linked(h, fl, o);
    UnlinkLinks(h, S, fl, k, o);
  }

  lemma PushWords(h: Heap, i: int)
    requires 0 <= i && i + 2 < |h.a| && (h.avail == 0 || 0 <= h.avail + 2 < |h.a|) && h.avail + 2 != i + 1
    requires h.avail != i
    ensures var h' := Push(h, i);
            && |h'.a| == |h.a| && h'.avail == i && Word(h', i + 1) == h.avail && Word(h', i + 2) == 0
            && (h.avail != 0 ==> Word(h', h.avail + 2) == i)
            && forall x :: x != i + 1 && x != i + 2 && (h.avail == 0 || x != h.avail + 2) ==> Word(h', x) == Word(h, x)
  {
  }

  lemma PushTiles(h: Heap, S: set<int>, fl: seq<int>, i: int)
    requires Tiled(h, S) && Chain(h, S, fl) && i in S && Inner(h, i) && i !in fl
    ensures Tiled(Push(h, i), S)
    ensures forall j :: j in S ==> Word(Push(h, i), j) == Word(h, j)
    ensures forall x :: x != i + 1 && x != i + 2 && (fl == [] || x != fl[0] + 2) ==> Word(Push(h, i), x) == Word(h, x)
    ensures Chain(Push(h, i), S, [i] + fl)
  {
    var h', fl' := Push(h, i), [i] + fl;
    assert Block(h, S, i);
    if fl != [] {
      assert Block(h, S, fl[0]);
    }
    PushWords(h, i);
    forall j | j in S ensures SameTags(h, h', j) {
      LinkWordsAreNoTags(h, S, i, j);
      if fl != [] { LinkWordsAreNoTags(h, S, fl[0], j); }
    }
    SameTiles(h, S, h');
    PushChain(h, S, fl, i);
  }

  lemma PushChain(h: Heap, S: set<int>, fl: seq<int>, i: int)
    requires Tiled(h, S) && Chain(h, S, fl) && i in S && Inner(h, i) && i !in fl
    requires forall j :: j in S ==> Word(Push(h, i), j) == Word(h, j)
    ensures Chain(Push(h, i), S, [i] + fl)
  {
    var h', fl' := Push(h, i), [i] + fl;
    assert Block(h, S, i);
    if fl != [] {
      assert Block(h, S, fl[0]);
    }
    forall l: nat | l < |fl'| ensures Linked(h', fl', l) {
      PushLinks(h, S, fl, i, l);
    }
    assert |h'.a| == |h.a| && h'.avail == i by { PushWords(h, i); }
  }

  lemma PushLinks(h: Heap, S: set<int>, fl: seq<int>, i: int, l: nat)
    requires Tiled(h, S) && Chain(h, S, fl) && i in S && Inner(h, i) && i !in fl && l <= |fl|
    ensures Linked(Push(h, i), [i] + fl, l)
  {
    Spread(h, S, i, i);
    if fl != [] { Spread(h, S, i, fl[0]); }
    if l > 0 {
      assert Linked(h, fl, l - 1);
      Spread(h, S, i, fl[l - 1]);
      Spread(h, S, fl[0], fl[l - 1]);
    }
    PushLinksAt(h, fl, i, l);
  }

  /** Two inner blocks are in the array and at least four words apart. */
  lemma Spread(h: Heap, S: set<int>, i: int, j: int)
    requires Tiled(h, S) && i in S && j in S && Inner(h, i) && Inner(h, j)
    ensures 2 <= i && i + 2 < |h.a| && j + 2 < |h.a| && (i == j || Far(i, j))
  {
    assert Block(h, S, 0);
    assert Block(h, S, i);
    assert Block(h, S, j);
  }

  predicate Far(i: int, j: int) {
    i + 4 <= j || j + 4 <= i
  }

  lemma PushLinksAt(h: Heap, fl: seq<int>, i: int, l: nat)
    requires l <= |fl| && 2 <= i && i + 2 < |h.a| && h.avail == (if fl == [] then 0 else fl[0])
    requires fl != [] ==> 0 < fl[0] && fl[0] + 2 < |h.a| && Far(i, fl[0])
    requires l > 0 ==> Linked(h, fl, l - 1) && Far(i, fl[l - 1])
    requires l > 1 ==> Far(fl[0], fl[l - 1])
    ensures Linked(Push(h, i), [i] + fl, l)
  {
    PushWords(h, i);
  }

  lemma RetagChain(h: Heap, S: set<int>, h': Heap, S': set<int>, fl: seq<int>)
    requires Chain(h, S, fl) && |h'.a| == |h.a| && h'.avail == h.avail
    requires forall k :: 0 <= k < |fl| ==> fl[k] in S' && Word(h', fl[k]) == Word(h, fl[k])
    requires forall k :: 0 <= k < |fl| ==>
               Word(h', fl[k] + 1) == Word(h, fl[k] + 1) && Word(h', fl[k] + 2) == Word(h, fl[k] + 2)
    ensures Chain(h', S', fl)
  {
    forall k | 0 <= k < |fl| ensures Linked(h', fl, k) {
      assert Linked(h, fl, k);
    }
  }

  /** Two blocks have no word in common. */
  lemma Disjoint(h: Heap, S: set<int>, i: int, j: int, x: int)
    requires Tiled(h, S) && i in S && j in S && i <= x < Right(h, i) && j <= x < Right(h, j)
    ensures i == j
  {
    assert Block(h, S, i);
    assert Block(h, S, j);
  }

  ghost predicate SameBlock(h: Heap, h': Heap, j: int) {
    forall x :: j <= x < Right(h, j) ==> Word(h', x) == Word(h, x)
  }

  /** The heap with the blocks in `out` off the free list though still tagged free. */
  ghost predicate Open(h: Heap, S: set<int>, fl: seq<int>, out: set<int>) {
    && Tiled(h, S) && NoAdjacent(h, S) && Chain(h, S, fl)
    && (forall i {:trigger i in fl} {:trigger i in S} :: i in fl <==> i in S && Word(h, i) > 0 && i !in out)
  }

  ghost predicate Opened(h: Heap, S: set<int>, out: set<int>) {
    exists fl :: Open(h, S, fl, out)
  }

  /** Tags that only turn from free to taken make no free neighbours. */
  lemma NoNewNeighbours(h: Heap, S: set<int>, h': Heap)
    requires Tiled(h, S) && NoAdjacent(h, S)
    requires forall j :: j in S ==> Word(h', j) == Word(h, j) || (Word(h', j) < 0 < Word(h, j))
    ensures NoAdjacent(h', S)
  {
    forall i | i in S && Word(h', i) > 0 ensures Word(h', Right(h', i)) < 0 {
      FreeIsInner(h, S, i);
    }
  }

  /** Taking a block off the list changes no tag and no word of a taken block. */
  lemma UnlinkOpens(h: Heap, S: set<int>, fl: seq<int>, out: set<int>, k: nat)
    requires Open(h, S, fl, out) && k < |fl|
    ensures var h' := Unlink(h, fl[k]);
            && Open(h', S, Without(fl, k), out + {fl[k]})
            && |h'.a| == |h.a|
            && (forall j :: j in S ==> Word(h', j) == Word(h, j))
            && (forall j :: j in S && Word(h, j) < 0 ==> SameBlock(h, h', j))
  {
    var h', fl' := Unlink(h, fl[k]), Without(fl, k);
    UnlinkTiles(h, S, fl, k);
    UnlinkChain(h, S, fl, k);
    NoNewNeighbours(h, S, h');
    forall j | j in S && Word(h, j) < 0 ensures SameBlock(h, h', j) {
      UnlinkSameBlock(h, S, fl, k, j);
    }
    forall i ensures i in fl' <==> i in S && Word(h', i) > 0 && i !in out + {fl[k]} {
      WithoutMembers(fl, k, i);
    }
  }

  lemma WithoutMembers(fl: seq<int>, k: nat, i: int)
    requires k < |fl| && forall k, l :: 0 <= k < l < |fl| ==> fl[k] != fl[l]
    ensures i in Without(fl, k) <==> i in fl && i != fl[k]
  {
    if i in fl && i != fl[k] {
      var l :| 0 <= l < |fl| && fl[l] == i;
      assert Without(fl, k)[if l < k then l else l - 1] == i;
    }
  }

  lemma UnlinkSameBlock(h: Heap, S: set<int>, fl: seq<int>, k: nat, j: int)
    requires Tiled(h, S) && Chain(h, S, fl) && k < |fl| && j in S && j !in fl
    ensures SameBlock(h, Unlink(h, fl[k]), j)
  {
    UnlinkWords(h, S, fl, k);
    forall x | j <= x < Right(h, j) ensures Word(Unlink(h, fl[k]), x) == Word(h, x) {
      if k > 0 && x == fl[k - 1] + 1 { Disjoint(h, S, fl[k - 1], j, x); }
      if k + 1 < |fl| && x == fl[k + 1] + 2 { Disjoint(h, S, fl[k + 1], j, x); }
    }
  }

  /** Retagging a stretch lo..hi leaves the list and the blocks elsewhere alone. */
  lemma RetagElsewhere(h: Heap, S: set<int>, h': Heap, lo: int, hi: int, j: int)
    requires Tiled(h, S) && lo in S && hi in S && lo < hi && |h'.a| == |h.a|
    requires forall x :: x < lo || x >= hi ==> Word(h', x) == Word(h, x)
    requires j in S && (j < lo || j >= hi)
    ensures SameBlock(h, h', j)
  {
    assert Block(h, S, j);
  }

  lemma RetagKeepsChain(h: Heap, S: set<int>, h': Heap, S': set<int>, fl: seq<int>, lo: int, hi: int)
    requires Tiled(h, S) && Chain(h, S, fl) && lo in S && hi in S && lo < hi && |h'.a| == |h.a| && h'.avail == h.avail
    requires forall x :: x < lo || x >= hi ==> Word(h', x) == Word(h, x)
    requires forall k :: 0 <= k < |fl| ==> fl[k] in S' && (fl[k] < lo || fl[k] >= hi)
    ensures Chain(h', S', fl)
  {
    forall k | 0 <= k < |fl| ensures SameBlock(h, h', fl[k]) && Right(h, fl[k]) >= fl[k] + 4 {
      RetagElsewhere(h, S, h', lo, hi, fl[k]);
    }
    RetagChain(h, S, h', S', fl);
  }

  // ---- malloc ----

  /** Starts of other blocks lie outside block i. */
  lemma Beyond(h: Heap, S: set<int>, i: int, j: int)
    requires Tiled(h, S) && i in S && j in S && j != i
    ensures j < i || Right(h, i) <= j
  {
    assert Block(h, S, i);
  }

  lemma TakeWholeTiles(h: Heap, S: set<int>, it: int) returns (h': Heap)
    requires Tiled(h, S) && it in S && Inner(h, it) && Word(h, it) > 0
    ensures h' == MakeTaken(h, it, Size(h, it)) && Tiled(h', S) && Word(h', it) == -Word(h, it)
    ensures |h'.a| == |h.a| && h'.avail == h.avail
    ensures forall x :: x < it || x >= Right(h, it) ==> Word(h', x) == Word(h, x)
    ensures forall j :: j in S && j != it ==> Word(h', j) == Word(h, j)
  {
    var mx := Size(h, it);
    h' := Tag(h, it, -mx);
    assert Block(h, S, it);
    CoalesceTiles(h, S, it, -mx);
    assert Merged(S, it, it + mx) == S;
    forall j | j in S && j != it ensures Word(h', j) == Word(h, j) {
      Beyond(h, S, it, j);
    }
  }

  /** A free block off the list is tagged taken as a whole. */
  lemma TakeWhole(h: Heap, S: set<int>, fl: seq<int>, it: int) returns (h': Heap)
    requires Open(h, S, fl, {it}) && it in S && Word(h, it) > 0
    ensures h' == MakeTaken(h, it, Size(h, it)) && |h'.a| == |h.a|
    ensures Inv(h', S, fl) && Word(h', it) == -Word(h, it)
    ensures forall j :: j in S && j != it ==> Word(h', j) == Word(h, j)
    ensures forall j :: j in S && j != it ==> SameBlock(h, h', j)
  {
    FreeIsInner(h, S, it);
    h' := TakeWholeTiles(h, S, it);
    NoNewNeighbours(h, S, h');
    forall j | j in S && j != it ensures SameBlock(h, h', j) {
      Beyond(h, S, it, j);
      RetagElsewhere(h, S, h', it, Right(h, it), j);
    }
    forall k | 0 <= k < |fl| ensures fl[k] < it || fl[k] >= Right(h, it) {
      Beyond(h, S, it, fl[k]);
    }
    RetagKeepsChain(h, S, h', S, fl, it, Right(h, it));
  }

  lemma FreeIsInner(h: Heap, S: set<int>, i: int)
    requires Tiled(h, S) && NoAdjacent(h, S) && i in S && Word(h, i) > 0
    ensures Inner(h, i) && Right(h, i) in S && Right(h, i) <= |h.a| - 2 && Word(h, Right(h, i)) < 0
  {
    assert Block(h, S, i);
  }

  lemma SplitTakeTiles(h: Heap, S: set<int>, it: int, ints: int) returns (h': Heap)
    requires Tiled(h, S) && it in S && Inner(h, it) && Word(h, it) > 0 && 4 <= ints <= Size(h, it) - 4
    ensures h' == Tag(MakeTaken(h, it, ints), it + ints, Size(h, it) - ints)
    ensures Tiled(h', S + {it + ints}) && |h'.a| == |h.a| && h'.avail == h.avail
    ensures Word(h', it) == -ints && Word(h', it + ints) == Size(h, it) - ints
    ensures forall x :: x < it || x >= Right(h, it) ==> Word(h', x) == Word(h, x)
    ensures forall j :: j in S && j != it ==> Word(h', j) == Word(h, j)
    ensures it + ints !in S
  {
    h' := Tag(MakeTaken(h, it, ints), it + ints, Size(h, it) - ints);
    assert Block(h, S, it);
    SplitWords(h, it, -ints, Size(h, it) - ints);
    SplitTiles(h, S, h', it, it + ints);
    forall j | j in S && j != it ensures Word(h', j) == Word(h, j) {
      Beyond(h, S, it, j);
    }
  }

  /** Pushing a block onto the list changes no word of a block that is not on it. */
  lemma PushSameBlock(h: Heap, S: set<int>, fl: seq<int>, i: int, j: int)
    requires Tiled(h, S) && Chain(h, S, fl) && i in S && Inner(h, i) && i !in fl
    requires j in S && j != i && j !in fl
    ensures SameBlock(h, Push(h, i), j)
  {
    PushTiles(h, S, fl, i);
    assert Block(h, S, i);
    forall x | j <= x < Right(h, j) ensures Word(Push(h, i), x) == Word(h, x) {
      if i <= x < Right(h, i) { Disjoint(h, S, i, j, x); }
      if fl != [] && x == fl[0] + 2 { Disjoint(h, S, fl[0], j, x); }
    }
  }

  lemma SplitNeighbours(h: Heap, S: set<int>, h': Heap, it: int, m: int)
    requires Tiled(h, S) && NoAdjacent(h, S) && it in S && Word(h, it) > 0
    requires Word(h', it) < 0 && m + Size(h', m) == Right(h, it)
    requires forall j :: j in S && j != it ==> Word(h', j) == Word(h, j)
    ensures NoAdjacent(h', S + {m})
  {
    FreeIsInner(h, S, it);
    forall i | i in S + {m} && Word(h', i) > 0 ensures Word(h', Right(h', i)) < 0 {
      if i != m {
        FreeIsInner(h, S, i);
      }
    }
  }

  /** A free block off the list is split: its first words taken, the rest back on the list. */
  lemma TakeSplit(h: Heap, S: set<int>, fl: seq<int>, it: int, ints: int) returns (h': Heap)
    requires Open(h, S, fl, {it}) && it in S && Word(h, it) > 0 && 4 <= ints <= Size(h, it) - 4
    ensures h' == MakeAvail(MakeTaken(h, it, ints), it + ints, Size(h, it) - ints) && |h'.a| == |h.a|
    ensures it + ints !in S && Ok(h', S + {it + ints})
    ensures Word(h', it) == -ints && Word(h', it + ints) == Size(h, it) - ints
    ensures forall j :: j in S && j != it ==> Word(h', j) == Word(h, j)
    ensures forall j :: j in S && j != it && Word(h, j) < 0 ==> SameBlock(h, h', j)
  {
    var m, e, S' := it + ints, Right(h, it), S + {it + ints};
    FreeIsInner(h, S, it);
    var h2 := SplitTakeTiles(h, S, it, ints);
    forall j | j in S && j != it ensures (j < it || j >= e) && SameBlock(h, h2, j) {
      Beyond(h, S, it, j);
      RetagElsewhere(h, S, h2, it, e, j);
    }
    RetagKeepsChain(h, S, h2, S', fl, it, e);
    h' := PushJoins(h2, S', fl, m);
    SplitNeighbours(h, S, h', it, m);
    assert Inv(h', S', [m] + fl);
    forall j | j in S && j != it && Word(h, j) < 0 ensures SameBlock(h, h', j) {
      SameBlockThen(h, h2, h', j);
    }
  }

  /** The starts after taking `ints` of the mx words of free block it. */
  function TakenStarts(S: set<int>, it: int, mx: int, ints: int): set<int> {
    if mx - ints >= 4 then S + {it + ints} else S
  }

  lemma TakeLive(h: Heap, S: set<int>, h': Heap, it: int, mx: int, ints: int)
    requires |h'.a| == |h.a| && it in S && Inner(h, it) && Word(h, it) > 0 && Word(h', it) < 0
    requires mx - ints >= 4 ==> Word(h', it + ints) > 0
    requires forall j :: j in S && j != it ==> Word(h', j) == Word(h, j)
    ensures Live(h', TakenStarts(S, it, mx, ints)) == Live(h, S) + {it} && it !in Live(h, S)
  {
  }

  lemma SameBlockThen(h: Heap, h1: Heap, h2: Heap, j: int)
    requires SameBlock(h, h1, j) && SameBlock(h1, h2, j) && Word(h1, j) == Word(h, j)
    ensures SameBlock(h, h2, j)
  {
  }

  lemma SameBlocksThen(h: Heap, h1: Heap, h2: Heap, js: set<int>)
    requires forall j :: j in js ==> SameBlock(h, h1, j) && SameBlock(h1, h2, j) && Word(h1, j) == Word(h, j)
    ensures forall j :: j in js ==> SameBlock(h, h2, j)
  {
    forall j | j in js ensures SameBlock(h, h2, j) {
      SameBlockThen(h, h1, h2, j);
    }
  }

  /** Both ways of taking words from a free block that is off the list. */
  lemma TakeOpen(h: Heap, S: set<int>, it: int, mx: int, ints: int) returns (h': Heap, S': set<int>)
    requires Opened(h, S, {it}) && it in S && Word(h, it) == mx && 4 <= ints <= mx
    ensures h' == Carve(h, it, mx, ints) && S' == TakenStarts(S, it, mx, ints)
    ensures |h'.a| == |h.a| && Ok(h', S')
    ensures Word(h', it) == -(if mx - ints >= 4 then ints else mx)
    ensures mx - ints >= 4 ==> it + ints !in S && Word(h', it + ints) == mx - ints
    ensures forall j :: j in S && j != it ==> Word(h', j) == Word(h, j)
    ensures forall j :: j in S && Word(h, j) < 0 ==> SameBlock(h, h', j)
  {
    var fl :| Open(h, S, fl, {it});
    if mx - ints >= 4 {
      h' := TakeSplit(h, S, fl, it, ints);
      S' := S + {it + ints};
    } else {
      h' := TakeWhole(h, S, fl, it);
      S' := S;
    }
  }

  lemma UnlinkOpensAt(h: Heap, S: set<int>, it: int) returns (h': Heap)
    requires Ok(h, S) && it in S && Word(h, it) > 0
    ensures h' == Unlink(h, it) && Opened(h', S, {it}) && |h'.a| == |h.a| && Inner(h, it)
    ensures forall j :: j in S ==> Word(h', j) == Word(h, j)
    ensures forall j :: j in S && Word(h, j) < 0 ==> SameBlock(h, h', j)
  {
    var fl :| Inv(h, S, fl);
    FreeIsInner(h, S, it);
    assert it in fl;
    var k :| 0 <= k < |fl| && fl[k] == it;
    UnlinkOpens(h, S, fl, {}, k);
    assert {} + {it} == {it};
    h' := Unlink(h, it);
  }

  /** malloc: the invariant is kept, one block becomes live, it has the words asked for and lies in a
      block that was free; no live block changes in any word. */
  lemma TakeKeeps(h: Heap, S: set<int>, it: int, mx: int, ints: int) returns (h': Heap, S': set<int>)
    requires Ok(h, S) && it in S && Word(h, it) == mx && 4 <= ints <= mx
    ensures h' == Carve(Unlink(h, it), it, mx, ints) && S' == TakenStarts(S, it, mx, ints)
    ensures |h'.a| == |h.a| && Ok(h', S')
    ensures Word(h', it) == -(if mx - ints >= 4 then ints else mx)
    ensures mx - ints >= 4 ==> it + ints !in S && Word(h', it + ints) == mx - ints
    ensures forall j :: j in S && j != it ==> Word(h', j) == Word(h, j)
    ensures forall j :: j in S && Word(h, j) < 0 ==> SameBlock(h, h', j)
    ensures Live(h', S') == Live(h, S) + {it} && it !in Live(h, S)
  {
    var h1 := UnlinkOpensAt(h, S, it);
    h', S' := TakeOpen(h1, S, it, mx, ints);
    forall j | j in S && Word(h, j) < 0 ensures SameBlock(h, h', j) {
      SameBlockThen(h, h1, h', j);
    }
    TakeLive(h, S, h', it, mx, ints);
  }

  // ---- free ----

  lemma MergeNeighbours(h: Heap, S: set<int>, h': Heap, i: int, e: int)
    requires Tiled(h, S) && NoAdjacent(h, S) && i in S && e in S && 0 < i < e
    requires Word(h, Left(h, i)) < 0 && Word(h, e) < 0 && Right(h', i) == e
    requires forall j :: j in Merged(S, i, e) && j != i ==> Word(h', j) == Word(h, j)
    ensures NoAdjacent(h', Merged(S, i, e))
  {
    forall f | f in Merged(S, i, e) && Word(h', f) > 0 ensures Word(h', Right(h', f)) < 0 {
      if f != i {
        FreeIsInner(h, S, f);
        assert Block(h, S, i);
        assert Block(h, S, f);
        assert Block(h, S, Left(h, i));
      }
    }
  }

  lemma MergeTags(h: Heap, S: set<int>, fl: seq<int>, out: set<int>, i: int, e: int) returns (h': Heap, S': set<int>)
    requires Open(h, S, fl, out) && i in S && e in S && Inner(h, i) && i + 4 <= e <= |h.a| - 2
    requires forall j :: j in S && i <= j < e ==> j !in fl
    ensures h' == Tag(h, i, e - i) && S' == Merged(S, i, e)
    ensures |h'.a| == |h.a| && Tiled(h', S') && Chain(h', S', fl) && Word(h', i) == e - i
    ensures forall j :: j in S' && j != i ==> Word(h', j) == Word(h, j)
    ensures forall j :: j in S' && j != i ==> SameBlock(h, h', j)
  {
    h', S' := Tag(h, i, e - i), Merged(S, i, e);
    CoalesceTiles(h, S, i, e - i);
    RetagKeepsChain(h, S, h', S', fl, i, e);
    forall j | j in S' && j != i ensures SameBlock(h, h', j) {
      RetagElsewhere(h, S, h', i, e, j);
    }
  }

  /** A block tagged free joins the list. */
  lemma PushJoins(h: Heap, S: set<int>, fl: seq<int>, i: int) returns (h': Heap)
    requires Tiled(h, S) && Chain(h, S, fl) && i in S && Inner(h, i) && i !in fl
    ensures h' == Push(h, i) && |h'.a| == |h.a| && Tiled(h', S) && Chain(h', S, [i] + fl)
    ensures forall j :: j in S ==> Word(h', j) == Word(h, j)
    ensures forall j :: j in S && j != i && j !in fl ==> SameBlock(h, h', j)
  {
    h' := Push(h, i);
    PushTiles(h, S, fl, i);
    forall j | j in S && j != i && j !in fl ensures SameBlock(h, h', j) {
      PushSameBlock(h, S, fl, i, j);
    }
  }

  /** The blocks from i to e, all taken or off the list, become one free block on the list. */
  lemma MergeFree(h: Heap, S: set<int>, fl: seq<int>, out: set<int>, i: int, e: int) returns (h': Heap, S': set<int>)
    requires Open(h, S, fl, out) && i in S && e in S && Inner(h, i) && i + 4 <= e <= |h.a| - 2
    requires Word(h, Left(h, i)) < 0 && Word(h, e) < 0
    requires forall j :: j in S && i <= j < e ==> j !in fl
    requires forall j :: j in out ==> i <= j < e
    ensures h' == MakeAvail(h, i, e - i) && S' == Merged(S, i, e)
    ensures |h'.a| == |h.a| && Ok(h', S') && Word(h', i) == e - i
    ensures forall j :: j in S' && j != i ==> Word(h', j) == Word(h, j)
    ensures forall j :: j in S' && Word(h, j) < 0 && j != i ==> SameBlock(h, h', j)
  {
    var h1;
    h1, S' := MergeTags(h, S, fl, out, i, e);
    h' := PushJoins(h1, S', fl, i);
    MergeNeighbours(h, S, h', i, e);
    assert Inv(h', S', [i] + fl);
    forall j | j in S' && Word(h, j) < 0 && j != i ensures SameBlock(h, h', j) {
      SameBlockThen(h, h1, h', j);
    }
  }

  lemma WordIsSigned(h: Heap, S: set<int>, i: int)
    requires Tiled(h, S) && i in S
    ensures Word(h, i) != 0
  {
    assert Block(h, S, i);
  }

  /** The merged block is bounded by taken blocks and holds idx and its free neighbours only. */
  lemma FreedBounds(h: Heap, S: set<int>, idx: int)
    requires Tiled(h, S) && NoAdjacent(h, S) && idx in S && Inner(h, idx) && Word(h, idx) < 0
    ensures var i, e := FreedStart(h, idx), FreedEnd(h, idx);
            && i in S && e in S && Inner(h, i) && i + 4 <= e <= |h.a| - 2
            && Word(h, Left(h, i)) < 0 && Word(h, e) < 0 && i <= idx < e
            && (forall j :: j in S && i <= j < e ==> j == i || j == idx || j == Right(h, idx))
            && (forall j :: j in S && i <= j < e ==> j == idx || Word(h, j) > 0)
  {
    var left, right := Left(h, idx), Right(h, idx);
    assert Block(h, S, idx);
    assert Block(h, S, left);
    assert Block(h, S, right);
    WordIsSigned(h, S, left);
    WordIsSigned(h, S, right);
    if Word(h, right) > 0 { FreeIsInner(h, S, right); }
    if Word(h, left) > 0 {
      FreeIsInner(h, S, left);
      assert Block(h, S, Left(h, left));
      WordIsSigned(h, S, Left(h, left));
      if Word(h, Left(h, left)) > 0 { FreeIsInner(h, S, Left(h, left)); }
    }
  }

  lemma UnlinkIfFreeOpens(h: Heap, S: set<int>, fl: seq<int>, out: set<int>, i: int)
      returns (h': Heap, fl': seq<int>, out': set<int>)
    requires Open(h, S, fl, out) && i in S && i !in out
    ensures h' == UnlinkIfFree(h, i) && out' == (if Word(h, i) > 0 then out + {i} else out)
    ensures Open(h', S, fl', out') && |h'.a| == |h.a|
    ensures forall j :: j in S ==> Word(h', j) == Word(h, j)
    ensures forall j :: j in S && Word(h, j) < 0 ==> SameBlock(h, h', j)
  {
    if Word(h, i) > 0 {
      assert i in fl;
      var k :| 0 <= k < |fl| && fl[k] == i;
      UnlinkOpens(h, S, fl, out, k);
      h', fl', out' := Unlink(h, i), Without(fl, k), out + {i};
    } else {
      h', fl', out' := h, fl, out;
    }
  }

  /** The free neighbours are the other blocks between the bounds. */
  lemma FreedNeighbours(h: Heap, S: set<int>, idx: int, j: int)
    requires Tiled(h, S) && NoAdjacent(h, S) && idx in S && Inner(h, idx) && Word(h, idx) < 0 && j in S
    ensures FreedStart(h, idx) <= j < FreedEnd(h, idx) && j != idx
       <==> Word(h, j) > 0 && (j == Left(h, idx) || j == Right(h, idx))
  {
    FreedBounds(h, S, idx);
    assert Block(h, S, idx);
    assert Block(h, S, Left(h, idx));
    if Word(h, Right(h, idx)) > 0 { assert Block(h, S, Right(h, idx)); }
  }

  /** The blocks off the list once both neighbours are: those between the bounds other than idx. */
  lemma FreedOut(h: Heap, S: set<int>, idx: int, i: int, e: int, out: set<int>)
    requires Ok(h, S) && idx in Live(h, S) && i == FreedStart(h, idx) && e == FreedEnd(h, idx)
    requires forall j :: j in out <==> (j == Left(h, idx) || j == Right(h, idx)) && Word(h, j) > 0
    ensures forall j :: j in out <==> j in S && i <= j < e && j != idx
  {
    assert Block(h, S, idx);
    forall j ensures j in out <==> j in S && i <= j < e && j != idx {
      if j in S { FreedNeighbours(h, S, idx, j); }
    }
  }

  lemma FreeLive(h: Heap, S: set<int>, h': Heap, S': set<int>, i: int, e: int, idx: int)
    requires |h'.a| == |h.a| && Word(h', i) > 0 && S' == Merged(S, i, e) && i <= idx < e
    requires forall j :: j in S && i <= j < e && j != idx ==> Word(h, j) > 0
    requires forall j :: j in S' && j != i ==> Word(h', j) == Word(h, j)
    ensures Live(h', S') == Live(h, S) - {idx}
  {
  }

  lemma UnlinkIfFreeStage(h: Heap, S: set<int>, out: set<int>, i: int) returns (h': Heap, out': set<int>)
    requires Opened(h, S, out) && i in S && i !in out
    ensures Word(h, i) > 0 ==> Unlinkable(h, i)
    ensures h' == UnlinkIfFree(h, i) && Opened(h', S, out') && |h'.a| == |h.a|
    ensures out' == (if Word(h, i) > 0 then out + {i} else out)
    ensures forall j :: j in S ==> Word(h', j) == Word(h, j)
    ensures forall j :: j in S && Word(h, j) < 0 ==> SameBlock(h, h', j)
  {
    if Word(h, i) > 0 { LinksInRange(h, S, out, i); }
    var fl :| Open(h, S, fl, out);
    var fl';
    h', fl', out' := UnlinkIfFreeOpens(h, S, fl, out, i);
  }

  /** Both free neighbours are off the list. */
  lemma FreeOpensAt(h: Heap, S: set<int>, idx: int, i: int, e: int) returns (h1: Heap, out: set<int>)
    requires Ok(h, S) && idx in Live(h, S) && i == FreedStart(h, idx) && e == FreedEnd(h, idx)
    ensures h1 == Detach(h, idx) && Opened(h1, S, out) && |h1.a| == |h.a|
    ensures forall j :: j in out <==> j in S && i <= j < e && j != idx
    ensures forall j :: j in S ==> Word(h1, j) == Word(h, j)
    ensures forall j :: j in S && Word(h, j) < 0 ==> SameBlock(h, h1, j)
  {
    var left, right := Left(h, idx), Right(h, idx);
    assert left in S && right in S && left < idx < right by { assert Block(h, S, idx); }
    h1, out := UnlinkBoth(h, S, left, right);
    FreedOut(h, S, idx, i, e, out);
    DetachIs(h, idx, left, right);
  }

  lemma UnlinkBoth(h: Heap, S: set<int>, left: int, right: int) returns (h': Heap, out: set<int>)
    requires Ok(h, S) && left in S && right in S && left < right
    ensures h' == UnlinkIfFree(UnlinkIfFree(h, left), right) && Opened(h', S, out) && |h'.a| == |h.a|
    ensures forall j :: j in out <==> (j == left || j == right) && Word(h, j) > 0
    ensures forall j :: j in S ==> Word(h', j) == Word(h, j)
    ensures forall j :: j in S && Word(h, j) < 0 ==> SameBlock(h, h', j)
  {
    OkIsOpened(h, S);
    var h0, out0 := UnlinkIfFreeStage(h, S, {}, left);
    h', out := UnlinkThen(h, S, h0, out0, right);
  }

  /** Another block is taken off the list of h0, which has the tags and the taken blocks of h. */
  lemma UnlinkThen(h: Heap, S: set<int>, h0: Heap, out0: set<int>, i: int) returns (h': Heap, out: set<int>)
    requires Opened(h0, S, out0) && i in S && i !in out0
    requires forall j :: j in S ==> Word(h0, j) == Word(h, j)
    requires forall j :: j in S && Word(h, j) < 0 ==> SameBlock(h, h0, j)
    ensures h' == UnlinkIfFree(h0, i) && Opened(h', S, out) && |h'.a| == |h0.a|
    ensures out == (if Word(h, i) > 0 then out0 + {i} else out0)
    ensures forall j :: j in S ==> Word(h', j) == Word(h, j)
    ensures forall j :: j in S && Word(h, j) < 0 ==> SameBlock(h, h', j)
  {
    h', out := UnlinkIfFreeStage(h0, S, out0, i);
    SameBlocksThen(h, h0, h', set j | j in S && Word(h, j) < 0);
  }

  lemma DetachIs(h: Heap, idx: int, left: int, right: int)
    requires left == Left(h, idx) && right == Right(h, idx)
    ensures Detach(h, idx) == UnlinkIfFree(UnlinkIfFree(h, left), right)
  {
  }

  lemma FreedBoundsAfter(h: Heap, S: set<int>, h1: Heap, out: set<int>, idx: int, i: int, e: int)
    requires Ok(h, S) && Opened(h1, S, out) && idx in Live(h, S) && |h1.a| == |h.a|
    requires forall j :: j in S ==> Word(h1, j) == Word(h, j)
    requires i == FreedStart(h, idx) && e == FreedEnd(h, idx)
    ensures i in S && e in S && Inner(h1, i) && i + 4 <= e <= |h.a| - 2 && i <= idx < e
    ensures Word(h1, Left(h1, i)) < 0 && Word(h1, e) < 0
    ensures forall j :: j in S && i <= j < e && j != idx ==> Word(h, j) > 0
  {
    FreedBounds(h, S, idx);
    assert Left(h, i) in S by { assert Block(h, S, i); }
    LeftOfSame(h, S, h1, i);
  }

  /** free: the invariant is kept, the block and its free neighbours become one free block from i to
      e, no other live block changes in any word. */
  lemma FreeKeeps(h: Heap, S: set<int>, idx: int, i: int, e: int) returns (h': Heap, S': set<int>)
    requires Ok(h, S) && idx in Live(h, S) && i == FreedStart(h, idx) && e == FreedEnd(h, idx)
    ensures h' == FreeAt(h, idx) && S' == Merged(S, i, e)
    ensures |h'.a| == |h.a| && Ok(h', S') && Word(h', i) == e - i
    ensures forall j :: j in S' && j != i ==> Word(h', j) == Word(h, j)
    ensures forall j :: j in Live(h, S) && j != idx ==> SameBlock(h, h', j)
    ensures Live(h', S') == Live(h, S) - {idx}
  {
    var h1, out := FreeOpensAt(h, S, idx, i, e);
    FreedBoundsAfter(h, S, h1, out, idx, i, e);
    h', S' := FreeMerges(h, S, h1, out, idx, i, e);
    FreeAtIs(h, idx, i, e);
  }

  lemma FreeAtIs(h: Heap, idx: int, i: int, e: int)
    requires i == FreedStart(h, idx) && e == FreedEnd(h, idx)
    ensures FreeAt(h, idx) == MakeAvail(Detach(h, idx), i, e - i)
  {
  }

  lemma FreeMerges(h: Heap, S: set<int>, h1: Heap, out: set<int>, idx: int, i: int, e: int)
    returns (h': Heap, S': set<int>)
    requires Opened(h1, S, out) && |h1.a| == |h.a| && idx in S && Word(h, idx) < 0
    requires i in S && e in S && Inner(h1, i) && i + 4 <= e <= |h.a| - 2 && i <= idx < e
    requires Word(h1, Left(h1, i)) < 0 && Word(h1, e) < 0
    requires forall j :: j in out <==> j in S && i <= j < e && j != idx
    requires forall j :: j in S ==> Word(h1, j) == Word(h, j)
    requires forall j :: j in S && Word(h, j) < 0 ==> SameBlock(h, h1, j)
    requires forall j :: j in S && i <= j < e && j != idx ==> Word(h, j) > 0
    ensures h' == MakeAvail(h1, i, e - i) && S' == Merged(S, i, e)
    ensures |h'.a| == |h.a| && Ok(h', S') && Word(h', i) == e - i
    ensures forall j :: j in S' && j != i ==> Word(h', j) == Word(h, j)
    ensures forall j :: j in Live(h, S) && j != idx ==> SameBlock(h, h', j)
    ensures Live(h', S') == Live(h, S) - {idx}
  {
    var fl1 :| Open(h1, S, fl1, out);
    h', S' := MergeFree(h1, S, fl1, out, i, e);
    FreeLive(h, S, h', S', i, e, idx);
    forall j | j in Live(h, S) && j != idx ensures SameBlock(h, h', j) {
      SameBlockThen(h, h1, h', j);
    }
  }

  lemma LeftOfSame(h: Heap, S: set<int>, h': Heap, i: int)
    requires Tiled(h, S) && Tiled(h', S) && i in S && i > 0
    requires forall j :: j in S ==> Word(h', j) == Word(h, j)
    ensures Left(h', i) == Left(h, i)
  {
    assert Block(h, S, i);
    assert Block(h', S, i);
    assert Block(h, S, Left(h', i));
    assert Block(h, S, Left(h, i));
  }

  // ---- malloc then free ----

  /** The block before a free block is taken. */
  lemma TakenBefore(h: Heap, S: set<int>, it: int)
    requires Tiled(h, S) && NoAdjacent(h, S) && it in S && Word(h, it) > 0
    ensures it > 0 && Left(h, it) in S && Right(h, Left(h, it)) == it && Word(h, Left(h, it)) < 0
  {
    FreeIsInner(h, S, it);
    assert Block(h, S, it);
    var l := Left(h, it);
    WordIsSigned(h, S, l);
    if Word(h, l) > 0 { FreeIsInner(h, S, l); }
  }

  /** The bounds that free finds for a block just taken are those of the free block it came from. */
  lemma FreedBoundsOfTaken(h: Heap, S: set<int>, h': Heap, it: int, mx: int, ints: int)
    requires Tiled(h, S) && NoAdjacent(h, S) && it in S && Word(h, it) == mx && 4 <= ints <= mx
    requires Word(h', it) == -(if mx - ints >= 4 then ints else mx)
    requires mx - ints >= 4 ==> Word(h', it + ints) == mx - ints
    requires forall j :: j in S && j != it ==> Word(h', j) == Word(h, j)
    requires forall j :: j in S && Word(h, j) < 0 ==> SameBlock(h, h', j)
    ensures FreedStart(h', it) == it && FreedEnd(h', it) == it + mx
  {
    TakenBefore(h, S, it);
    FreeIsInner(h, S, it);
    var l := Left(h, it);
    assert SameBlock(h, h', l);
    assert Word(h', it - 1) == Word(h, it - 1);
    assert Left(h', it) == l;
  }

  /** Freeing a block just allocated restores the tiling: the same blocks at the same places with the
      same sizes, the same ones free, whether or not the block was split. */
  lemma MallocFreeRestores(h: Heap, S: set<int>, it: int, mx: int, ints: int) returns (h1: Heap, h': Heap)
    requires Ok(h, S) && it in S && Word(h, it) == mx && 4 <= ints <= mx
    ensures h1 == Carve(Unlink(h, it), it, mx, ints) && h' == FreeAt(h1, it)
    ensures |h'.a| == |h.a| && Ok(h', S)
    ensures forall j :: j in S ==> Word(h', j) == Word(h, j)
    ensures forall j :: j in Live(h, S) ==> SameBlock(h, h', j)
  {
    var S1, S2;
    h1, S1 := TakeKeeps(h, S, it, mx, ints);
    FreedBoundsOfTakenOk(h, S, h1, it, mx, ints);
    h', S2 := FreeKeeps(h1, S1, it, it, it + mx);
    assert S2 == S by { RestoredStarts(h, S, it, mx, ints); }
    assert Ok(h', S);
    LiveKeepWords(h, S, h1, it);
    SameBlocksThen(h, h1, h', Live(h, S));
  }

  lemma LiveKeepWords(h: Heap, S: set<int>, h1: Heap, it: int)
    requires Word(h, it) > 0 && forall j :: j in S && j != it ==> Word(h1, j) == Word(h, j)
    ensures forall j :: j in Live(h, S) ==> j in S && j != it && Word(h, j) < 0 && Word(h1, j) == Word(h, j)
  {
  }

  lemma FreedBoundsOfTakenOk(h: Heap, S: set<int>, h': Heap, it: int, mx: int, ints: int)
    requires Ok(h, S) && it in S && Word(h, it) == mx && 4 <= ints <= mx
    requires Word(h', it) == -(if mx - ints >= 4 then ints else mx)
    requires mx - ints >= 4 ==> Word(h', it + ints) == mx - ints
    requires forall j :: j in S && j != it ==> Word(h', j) == Word(h, j)
    requires forall j :: j in S && Word(h, j) < 0 ==> SameBlock(h, h', j)
    ensures FreedStart(h', it) == it && FreedEnd(h', it) == it + mx
  {
    FreedBoundsOfTaken(h, S, h', it, mx, ints);
  }

  lemma RestoredStarts(h: Heap, S: set<int>, it: int, mx: int, ints: int)
    requires Ok(h, S) && it in S && Word(h, it) == mx && 4 <= ints <= mx
    ensures Merged(TakenStarts(S, it, mx, ints), it, it + mx) == S
  {
    forall j | j in S ensures j <= it || it + mx <= j {
      assert Block(h, S, it);
    }
  }

  // ---- heapInit ----

  lemma InitKeeps(a: seq<int>) returns (h: Heap)
    requires |a| >= 8
    ensures h == Init(a) && |h.a| == |a|
    ensures Ok(h, {0, 2, |a| - 2}) && Live(h, {0, 2, |a| - 2}) == {}
    ensures Word(h, 2) == |a| - 4
  {
    InitWords(a);
    h := Init(a);
    InitInv(h);
    assert Inv(h, {0, 2, |a| - 2}, [2]);
  }

  lemma InitWords(a: seq<int>)
    requires |a| >= 8
    ensures var h := Init(a);
            && |h.a| == |a| && h.avail == 2
            && Word(h, 0) == Word(h, 1) == -2 && Word(h, |a| - 2) == Word(h, |a| - 1) == -2
            && Word(h, 2) == Word(h, |a| - 3) == |a| - 4 && Word(h, 3) == 0 && Word(h, 4) == 0
  {
  }

  /** One free block between two sentinels is a heap. */
  lemma InitInv(h: Heap)
    requires |h.a| >= 8 && h.avail == 2
    requires Word(h, 0) == Word(h, 1) == -2 && Word(h, |h.a| - 2) == Word(h, |h.a| - 1) == -2
    requires Word(h, 2) == Word(h, |h.a| - 3) == |h.a| - 4 && Word(h, 3) == 0 && Word(h, 4) == 0
    ensures Inv(h, {0, 2, |h.a| - 2}, [2])
  {
    var S := {0, 2, |h.a| - 2};
    forall i | i in S ensures Block(h, S, i) {
    }
    assert Linked(h, [2], 0);
  }

  // ---- Bounds ----

  /** The words that unlinking a listed block touches are words of the array. */
  lemma LinksInRange(h: Heap, S: set<int>, out: set<int>, i: int)
    requires Opened(h, S, out) && i in S && Word(h, i) > 0 && i !in out
    ensures 0 <= i && i + Size(h, i) <= |h.a| && Size(h, i) >= 4
    ensures Word(h, i + 2) == 0 || 0 <= Word(h, i + 2) + 1 < |h.a|
    ensures Word(h, i + 1) == 0 || 0 <= Word(h, i + 1) + 2 < |h.a|
  {
    var fl :| Open(h, S, fl, out);
    FreeIsInner(h, S, i);
    assert Block(h, S, i);
    assert i in fl;
    var k :| 0 <= k < |fl| && fl[k] == i;
    assert Linked(h, fl, k);
    if k > 0 { assert Block(h, S, fl[k - 1]); }
    if k + 1 < |fl| { assert Block(h, S, fl[k + 1]); }
  }

  lemma AvailInRange(h: Heap, S: set<int>, out: set<int>)
    requires Opened(h, S, out)
    ensures h.avail == 0 || 0 <= h.avail + 2 < |h.a|
  {
    var fl :| Open(h, S, fl, out);
    if fl != [] { assert Block(h, S, fl[0]); }
  }

  lemma OkIsOpened(h: Heap, S: set<int>)
    requires Ok(h, S)
    ensures Opened(h, S, {})
  {
    var fl :| Inv(h, S, fl);
    assert Open(h, S, fl, {});
  }

  /** What unlinking block i touches is in the array. */
  ghost predicate Unlinkable(h: Heap, i: int) {
    && 0 <= i && i + 2 < |h.a|
    && (Word(h, i + 2) == 0 || 0 <= Word(h, i + 2) + 1 < |h.a|)
    && (Word(h, i + 1) == 0 || 0 <= Word(h, i + 1) + 2 < |h.a|)
  }

  lemma FreeStages(h: Heap, S: set<int>, idx: int, left: int, right: int) returns (h1: Heap, h2: Heap)
    requires Ok(h, S) && idx in Live(h, S) && left == Left(h, idx) && right == Right(h, idx)
    ensures 0 <= left < idx < right < |h.a|
    ensures Word(h, left) > 0 ==> Unlinkable(h, left)
    ensures h1 == UnlinkIfFree(h, left) && |h1.a| == |h.a|
    ensures Word(h1, left) == Word(h, left) && Word(h1, right) == Word(h, right)
    ensures Word(h, right) > 0 ==> Unlinkable(h1, right)
    ensures h2 == UnlinkIfFree(h1, right) && |h2.a| == |h.a| && Word(h2, right) == Word(h, right)
    ensures h2.avail == 0 || 0 <= h2.avail + 2 < |h.a|
  {
    FreedBoundsOk(h, S, idx);
    OkIsOpened(h, S);
    var out1, out2;
    h1, out1 := UnlinkIfFreeStage(h, S, {}, left);
    h2, out2 := UnlinkIfFreeStage(h1, S, out1, right);
    AvailInRange(h2, S, out2);
  }

  lemma FreedBoundsOk(h: Heap, S: set<int>, idx: int)
    requires Ok(h, S) && idx in Live(h, S)
    ensures var left, right, i, e := Left(h, idx), Right(h, idx), FreedStart(h, idx), FreedEnd(h, idx);
            && left in S && right in S && 0 <= left < idx < right < |h.a|
            && right - left == Size(h, left) + Size(h, idx)
            && 0 <= i && i + 4 <= e <= |h.a|
  {
    assert Block(h, S, idx);
    assert Block(h, S, Left(h, idx));
    assert Block(h, S, Right(h, idx));
    FreedBounds(h, S, idx);
    assert Block(h, S, FreedStart(h, idx));
  }

  lemma TakeStages(h: Heap, S: set<int>, it: int) returns (h1: Heap)
    requires Ok(h, S) && it in S && Word(h, it) > 0
    ensures Unlinkable(h, it) && h1 == Unlink(h, it) && |h1.a| == |h.a|
    ensures 0 <= it && it + Size(h, it) <= |h.a| && (h1.avail == 0 || 0 <= h1.avail + 2 < |h.a|)
  {
    OkIsOpened(h, S);
    LinksInRange(h, S, {}, it);
    h1 := UnlinkOpensAt(h, S, it);
    AvailInRange(h1, S, {it});
  }
}

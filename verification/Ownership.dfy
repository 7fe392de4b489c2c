/** Who owns each physical frame.

    A `Book` names, for every frame that was ever issued, its one owner.  `Inv` ties the book to the
    contents of memory: the free list, the directories, the tables and the data pages all live in
    the same frames, and each issued frame plays exactly one part.
 */
module Ownership {
  import opened PhysMem

  /** First and last-plus-one directory index of the per-process range 0x80000000..0xF0000000. */
  const FIRST_PDI := 512
  const LAST_PDI := 960

  datatype Owner =
    | Free                                  // on the free list
    | Held                                  // in a local variable of the kernel, not linked yet
    | Global                                // kernel, APIC and shared tables, the shared page
    | Dir                                   // a page directory
    | Table(pd: int, pdi: int)              // the page table in a private slot of a directory
    | Data(pd: int, pdi: int, pti: int)     // the page in a slot of such a table

  datatype Book = Book(start: int, owner: map<int, Owner>, free: seq<int>)

  predicate Private(i: int) {
    FIRST_PDI <= i < LAST_PDI
  }

  // ---- Reading the page tables ----

  predicate HasTable(s: Phys, pd: int, i: int) {
    Present(Load(s, pd, i))
  }

  function TableAt(s: Phys, pd: int, i: int): int {
    FrameOf(Load(s, pd, i))
  }

  predicate HasPage(s: Phys, pd: int, i: int, j: int) {
    HasTable(s, pd, i) && Present(Load(s, TableAt(s, pd, i), j))
  }

  function PageAt(s: Phys, pd: int, i: int, j: int): int {
    FrameOf(Load(s, TableAt(s, pd, i), j))
  }

  /** Frame f holds the same words in both memories. */
  ghost predicate SameWords(s: Phys, s': Phys, f: int) {
    forall k :: Load(s', f, k) == Load(s, f, k)
  }

  // ---- The invariant ----

  predicate Owns(b: Book, f: int, o: Owner) {
    f in b.owner && b.owner[f] == o
  }

  ghost predicate SameDirs(b: Book, b': Book) {
    forall f :: Owns(b', f, Dir) <==> Owns(b, f, Dir)
  }

  ghost predicate Shape(s: Phys, b: Book) {
    && 0 < b.start <= s.avail <= s.limit <= |s.mem| <= MAX_FRAMES
    && (forall f :: 0 <= f < |s.mem| ==> |s.mem[f]| == WORDS)
    && (forall f :: f in b.owner <==> b.start <= f < s.avail)
  }

  /** The k-th free frame is free and its first word leads to the next one. */
  ghost predicate Linked(s: Phys, b: Book, k: int)
    requires 0 <= k < |b.free|
  {
    && Owns(b, b.free[k], Free)
    && Load(s, b.free[k], 0) == (if k + 1 < |b.free| then Entry(b.free[k + 1], 0) else 0)
  }

  ghost predicate FreeChain(s: Phys, b: Book) {
    && s.firstFree == (if b.free == [] then 0 else b.free[0])
    && (forall k :: 0 <= k < |b.free| ==> Linked(s, b, k))
    && (forall k, l :: 0 <= k < l < |b.free| ==> b.free[k] != b.free[l])
    && (forall f :: Owns(b, f, Free) ==> f in b.free)
  }

  /** Every claim in the book is borne out by the tables in memory. */
  ghost predicate ClaimsHold(s: Phys, b: Book) {
    && (forall f, pd, i :: Owns(b, f, Table(pd, i)) ==>
          Owns(b, pd, Dir) && Private(i) && HasTable(s, pd, i) && TableAt(s, pd, i) == f)
    && (forall f, pd, i, j :: Owns(b, f, Data(pd, i, j)) ==>
          Owns(b, pd, Dir) && Private(i) && 0 <= j < WORDS && HasPage(s, pd, i, j) && PageAt(s, pd, i, j) == f)
  }

  /** Every present private entry in memory is in the book, so no two entries share a frame, and is open
      to user code. */
  ghost predicate EntriesOwned(s: Phys, b: Book) {
    && (forall pd, i :: Owns(b, pd, Dir) && Private(i) && HasTable(s, pd, i) ==>
          Owns(b, TableAt(s, pd, i), Table(pd, i)) && UserEntry(Load(s, pd, i)))
    && (forall pd, i, j :: Owns(b, pd, Dir) && Private(i) && HasPage(s, pd, i, j) ==>
          Owns(b, PageAt(s, pd, i, j), Data(pd, i, j)) && UserEntry(Load(s, TableAt(s, pd, i), j)))
  }

  ghost predicate Inv(s: Phys, b: Book) {
    Shape(s, b) && FreeChain(s, b) && ClaimsHold(s, b) && EntriesOwned(s, b)
  }

  /** Between kernel operations no frame is in hand. */
  ghost predicate Settled(s: Phys, b: Book) {
    Inv(s, b) && forall f :: !Owns(b, f, Held)
  }

  // ---- Book-keeping of the primitive steps ----

  function Relabel(b: Book, f: int, o: Owner): Book {
    b.(owner := b.owner[f := o])
  }

  function BookAlloc(s: Phys, b: Book, f: int): Book {
    Relabel(if s.firstFree != 0 && b.free != [] then b.(free := b.free[1..]) else b, f, Held)
  }

  function BookFree(b: Book, f: int): Book {
    Relabel(b.(free := [f] + b.free), f, Free)
  }

  /** How many frames are left: returned ones, and ones that were never issued. */
  function Left(s: Phys, b: Book): int {
    |b.free| + s.limit - s.avail
  }

  /** There is a frame to hand out exactly when one is left. */
  lemma AllocWhen(s: Phys, b: Book)
    requires Inv(s, b)
    ensures AllocFrame(s).Some? <==> 0 < Left(s, b)
    ensures 0 <= Left(s, b)
  {
    if b.free != [] { assert Linked(s, b, 0); }
  }

  // ---- Primitive steps keep the invariant ----

  lemma EntryFrame(f: int, flags: int)
    requires 0 <= flags < FRAME_SIZE
    ensures FrameOf(Entry(f, flags)) == f
    ensures Present(Entry(f, flags)) <==> flags % 2 == 1
  {
    EvenPlus(f * 2048, flags);
  }

  lemma EvenPlus(x: int, y: int)
    ensures (2 * x + y) % 2 == y % 2
  {
  }

  lemma EightPlus(x: int, y: int)
    ensures (8 * x + y) % 8 == y % 8
  {
  }

  lemma QuarterPlus(x: int, y: int)
    ensures (8 * x + y) / 4 == 2 * x + y / 4
  {
  }

  lemma EntryOpen(f: int, flags: int)
    requires UserEntry(flags)
    ensures UserEntry(Entry(f, flags))
  {
    EightPlus(f * 512, flags);
  }

  lemma EntryUserBit(f: int, flags: int)
    ensures UserBit(Entry(f, flags)) <==> UserBit(flags)
  {
    QuarterPlus(f * 512, flags);
    EvenPlus(f * 512, flags / 4);
  }

  lemma PopFreeChain(s: Phys, b: Book)
    requires Inv(s, b)
    requires s.firstFree != 0
    ensures b.free != [] && b.free[0] == s.firstFree
    ensures var (s', f) := AllocFrame(s).value; FreeChain(s', BookAlloc(s, b, f))
  {
    var (s', f) := AllocFrame(s).value;
    var b' := BookAlloc(s, b, f);
    assert b'.free == b.free[1..];
    assert Linked(s, b, 0);
    if |b.free| > 1 { EntryFrame(b.free[1], 0); }
    forall g | Owns(b', g, Free) ensures g in b'.free {
      assert Owns(b, g, Free);
      var k :| 0 <= k < |b.free| && b.free[k] == g;
      assert b'.free[k - 1] == g;
    }
    forall k | 0 <= k < |b'.free| ensures Linked(s', b', k) {
      assert Linked(s, b, k + 1);
    }
  }

  lemma AllocKeeps(s: Phys, b: Book)
    requires Inv(s, b)
    requires AllocFrame(s).Some?
    ensures var (s', f) := AllocFrame(s).value;
            && Inv(s', BookAlloc(s, b, f))
            && (f !in b.owner || b.owner[f] == Free)
            && 0 < f < |s.mem| && s'.mem == s.mem[f := Zeros()]
  {
    var (s', f) := AllocFrame(s).value;
    var b' := BookAlloc(s, b, f);
    assert forall g, o :: g != f ==> (Owns(b, g, o) <==> Owns(b', g, o));
    assert forall g, i :: g != f ==> Load(s', g, i) == Load(s, g, i);
    if s.firstFree != 0 {
      PopFreeChain(s, b);
      assert Linked(s, b, 0);
    } else {
      BumpFreeChain(s, b);
    }
  }

  lemma BumpFreeChain(s: Phys, b: Book)
    requires Inv(s, b) && s.firstFree == 0 && AllocFrame(s).Some?
    ensures var (s', f) := AllocFrame(s).value; f == s.avail && f !in b.owner && FreeChain(s', BookAlloc(s, b, f))
  {
    assert b.free != [] ==> Linked(s, b, 0);
    assert forall g :: Owns(b, g, Free) ==> g in b.free;
  }

  lemma PushFreeChain(s: Phys, b: Book, f: int)
    requires Inv(s, b)
    requires Owns(b, f, Held)
    ensures FreeChain(DeallocFrame(s, f), BookFree(b, f))
  {
    var s' := DeallocFrame(s, f);
    var b' := BookFree(b, f);
    forall k | 0 <= k < |b'.free| ensures Linked(s', b', k) {
      if k > 0 {
        assert Linked(s, b, k - 1);
      }
    }
    forall k, l | 0 <= k < l < |b'.free| ensures b'.free[k] != b'.free[l] {
      assert Linked(s, b, l - 1);
    }
    forall g | Owns(b', g, Free) ensures g in b'.free {
      if g != f { assert Owns(b, g, Free); }
    }
  }

  lemma FreeKeeps(s: Phys, b: Book, f: int)
    requires Inv(s, b)
    requires Owns(b, f, Held)
    ensures Inv(DeallocFrame(s, f), BookFree(b, f))
  {
    var s' := DeallocFrame(s, f);
    var b' := BookFree(b, f);
    assert forall g, o :: g != f ==> (Owns(b, g, o) <==> Owns(b', g, o));
    assert forall g, i :: g != f ==> Load(s', g, i) == Load(s, g, i);
    PushFreeChain(s, b, f);
  }

  /** Storing into a frame that is not free leaves the free list alone. */
  lemma StoreFreeChain(s: Phys, b: Book, f: int, i: int, w: int, g: int, o: Owner)
    requires Inv(s, b)
    requires f in b.owner && b.owner[f] != Free
    requires g in b.owner && b.owner[g] != Free && o != Free
    ensures FreeChain(Store(s, f, i, w), Relabel(b, g, o))
    ensures Shape(Store(s, f, i, w), Relabel(b, g, o))
  {
    var s' := Store(s, f, i, w);
    var b' := Relabel(b, g, o);
    assert forall h :: Owns(b', h, Free) <==> Owns(b, h, Free);
    assert forall h, k :: h != f ==> Load(s', h, k) == Load(s, h, k);
    forall k | 0 <= k < |b.free| ensures Linked(s', b', k) {
      assert Linked(s, b, k);
    }
  }

  /** Installing a zeroed table in an empty private slot of a directory. */
  lemma LinkTableKeeps(s: Phys, b: Book, pd: int, i: int, t: int, w: int)
    requires Inv(s, b)
    requires Owns(b, pd, Dir) && Private(i) && !HasTable(s, pd, i)
    requires Owns(b, t, Held) && s.mem[t] == Zeros()
    requires Present(w) && FrameOf(w) == t && UserEntry(w)
    ensures Inv(Store(s, pd, i, w), Relabel(b, t, Table(pd, i)))
  {
    var s' := Store(s, pd, i, w);
    var b' := Relabel(b, t, Table(pd, i));
    StoreFreeChain(s, b, pd, i, w, t, Table(pd, i));
    assert forall g, o :: g != t ==> (Owns(b, g, o) <==> Owns(b', g, o));
    assert forall g, k :: g != pd || k != i ==> Load(s', g, k) == Load(s, g, k);
    assert forall j :: Load(s', t, j) == 0;
    assert ClaimsHold(s', b') by { LinkTableClaims(s, b, s', b', pd, i, t); }
  }

  lemma LinkTableClaims(s: Phys, b: Book, s': Phys, b': Book, pd: int, i: int, t: int)
    requires ClaimsHold(s, b) && Owns(b, pd, Dir) && Private(i) && !HasTable(s, pd, i)
    requires EntriesOwned(s, b) && Owns(b', t, Table(pd, i)) && Owns(b, t, Held)
    requires forall g, o :: g != t ==> (Owns(b, g, o) <==> Owns(b', g, o))
    requires forall g, k :: g != pd || k != i ==> Load(s', g, k) == Load(s, g, k)
    requires HasTable(s', pd, i) && TableAt(s', pd, i) == t
    ensures ClaimsHold(s', b')
  {
  }

  /** Installing a page in an empty slot of a private table. */
  lemma LinkPageKeeps(s: Phys, b: Book, pd: int, i: int, j: int, d: int, w: int)
    requires Inv(s, b)
    requires Owns(b, pd, Dir) && Private(i) && HasTable(s, pd, i) && 0 <= j < WORDS && !HasPage(s, pd, i, j)
    requires Owns(b, d, Held)
    requires Present(w) && FrameOf(w) == d && UserEntry(w)
    ensures Inv(Store(s, TableAt(s, pd, i), j, w), Relabel(b, d, Data(pd, i, j)))
  {
    var t := TableAt(s, pd, i);
    var s' := Store(s, t, j, w);
    var b' := Relabel(b, d, Data(pd, i, j));
    assert Owns(b, t, Table(pd, i));
    StoreFreeChain(s, b, t, j, w, d, Data(pd, i, j));
    assert forall g, o :: g != d ==> (Owns(b, g, o) <==> Owns(b', g, o));
    assert forall g, k :: g != t || k != j ==> Load(s', g, k) == Load(s, g, k);
  }

  /** Clearing the entry of a present page puts its frame back in hand. */
  lemma UnlinkPageKeeps(s: Phys, b: Book, pd: int, i: int, j: int)
    requires Inv(s, b)
    requires Owns(b, pd, Dir) && Private(i) && 0 <= j < WORDS && HasPage(s, pd, i, j)
    ensures Inv(Store(s, TableAt(s, pd, i), j, 0), Relabel(b, PageAt(s, pd, i, j), Held))
  {
    var t := TableAt(s, pd, i);
    var d := PageAt(s, pd, i, j);
    var s' := Store(s, t, j, 0);
    var b' := Relabel(b, d, Held);
    assert Owns(b, t, Table(pd, i)) && Owns(b, d, Data(pd, i, j));
    StoreFreeChain(s, b, t, j, 0, d, Held);
    assert forall g, o :: g != d ==> (Owns(b, g, o) <==> Owns(b', g, o));
    assert forall g, k :: g != t || k != j ==> Load(s', g, k) == Load(s, g, k);
  }

  /** Clearing the directory entry of a table without pages puts the table back in hand. */
  lemma UnlinkTableKeeps(s: Phys, b: Book, pd: int, i: int)
    requires Inv(s, b)
    requires Owns(b, pd, Dir) && Private(i) && HasTable(s, pd, i)
    requires forall j :: 0 <= j < WORDS ==> !HasPage(s, pd, i, j)
    ensures Inv(Store(s, pd, i, 0), Relabel(b, TableAt(s, pd, i), Held))
  {
    var t := TableAt(s, pd, i);
    var s' := Store(s, pd, i, 0);
    var b' := Relabel(b, t, Held);
    assert Owns(b, t, Table(pd, i));
    StoreFreeChain(s, b, pd, i, 0, t, Held);
    assert forall g, o :: g != t ==> (Owns(b, g, o) <==> Owns(b', g, o));
    assert forall g, k :: g != pd || k != i ==> Load(s', g, k) == Load(s, g, k);
  }

  /** Directories keep their private range when an entry outside it changes. */
  lemma StoreOutsideKeeps(s: Phys, b: Book, f: int, i: int, w: int)
    requires Inv(s, b)
    requires f in b.owner
    requires b.owner[f] == Dir ==> !Private(i)
    requires b.owner[f] != Free && !b.owner[f].Table?
    ensures Inv(Store(s, f, i, w), b)
  {
    var s' := Store(s, f, i, w);
    assert Relabel(b, f, b.owner[f]) == b;
    StoreFreeChain(s, b, f, i, w, f, b.owner[f]);
    assert forall g, k :: g != f || k != i ==> Load(s', g, k) == Load(s, g, k);
  }

  /** A zeroed frame in hand becomes a directory with an empty private range, or a global frame. */
  lemma AdoptKeeps(s: Phys, b: Book, f: int, o: Owner)
    requires Inv(s, b)
    requires Owns(b, f, Held)
    requires o == Global || (o == Dir && s.mem[f] == Zeros())
    ensures Inv(s, Relabel(b, f, o))
  {
    var b' := Relabel(b, f, o);
    assert forall g, p :: g != f ==> (Owns(b, g, p) <==> Owns(b', g, p));
    assert o == Dir ==> forall i :: Load(s, f, i) == 0;
    assert forall g :: Owns(b', g, Free) <==> Owns(b, g, Free);
    forall k | 0 <= k < |b.free| ensures Linked(s, b', k) {
      assert Linked(s, b, k);
    }
  }

  /** The contents of data pages and of frames in hand are free to change. */
  lemma FillKeeps(s: Phys, b: Book, f: int, words: seq<int>)
    requires Inv(s, b)
    requires f in b.owner && (b.owner[f] == Held || b.owner[f] == Global || b.owner[f].Data?)
    requires |words| == WORDS
    ensures Inv(Fill(s, f, words), b)
  {
    var s' := Fill(s, f, words);
    assert forall g, k :: g != f ==> Load(s', g, k) == Load(s, g, k);
    forall k | 0 <= k < |b.free| ensures Linked(s', b, k) {
      assert Linked(s, b, k);
    }
  }
}

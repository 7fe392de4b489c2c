/** Fork copies an address space exactly. */
module Forking {
  import opened Wrappers
  import opened PhysMem
  import opened Ownership
  import opened Paging
  import opened Mapping

  /** Frame g of s' holds the words of frame f of s. */
  ghost predicate SamePage(s: Phys, f: int, s': Phys, g: int) {
    forall k :: Load(s', g, k) == Load(s, f, k)
  }

  /** Slot i, j of the child in s' mirrors that of the parent in s. */
  ghost predicate Mirrors(s: Phys, pd: int, s': Phys, child: int, i: int, j: int) {
    && (HasPage(s', child, i, j) <==> HasPage(s, pd, i, j))
    && (HasPage(s, pd, i, j) ==> SamePage(s, PageAt(s, pd, i, j), s', PageAt(s', child, i, j)))
  }

  /** A page that is there keeps its place and its words while memory grows around it. */
  lemma PageStays(s: Phys, b: Book, s': Phys, b': Book, more: iset<Owner>, pd: int, i: int, j: int)
    requires Inv(s, b) && Grows(s, b, s', b', more)
    requires Owns(b, pd, Dir) && Private(i) && HasPage(s, pd, i, j)
    ensures HasPage(s', pd, i, j) && PageAt(s', pd, i, j) == PageAt(s, pd, i, j)
    ensures SameWords(s, s', PageAt(s, pd, i, j))
  {
    assert Owns(b, PageAt(s, pd, i, j), Data(pd, i, j));
  }

  /** Filling a page that was added keeps everything that was there before. */
  lemma FillNew(s: Phys, b: Book, s': Phys, b': Book, more: iset<Owner>, pd: int, i: int, j: int, words: seq<int>)
    requires Inv(s, b) && Inv(s', b') && Grows(s, b, s', b', more)
    requires Owns(b, pd, Dir) && Private(i) && HasPage(s', pd, i, j) && !HasPage(s, pd, i, j)
    requires |words| == WORDS
    ensures var d := PageAt(s', pd, i, j);
            Owns(b', d, Data(pd, i, j)) && Inv(Fill(s', d, words), b') && Grows(s, b, Fill(s', d, words), b', more)
    ensures var s'' := Fill(s', PageAt(s', pd, i, j), words);
            forall p, k, l :: Owns(b, p, Dir) && Private(k) && HasPage(s', p, k, l) ==>
                HasPage(s'', p, k, l) && PageAt(s'', p, k, l) == PageAt(s', p, k, l)
  {
    var d := PageAt(s', pd, i, j);
    assert Owns(b', d, Data(pd, i, j));
    FillKeeps(s', b', d, words);
    var s'' := Fill(s', d, words);
    assert forall g, k :: g != d ==> Load(s'', g, k) == Load(s', g, k);
    forall f, o | Owns(b, f, o) && o != Free ensures f != d {
      assert Owns(b', f, o);
    }
    forall f | f in b.owner && (b.owner[f].Data? || b.owner[f] == Global) ensures SameWords(s, s'', f) {
      assert Owns(b, f, b.owner[f]);
    }
    forall p, k | Owns(b, p, Dir) && Private(k) && HasTable(s', p, k)
      ensures TableAt(s', p, k) != d {
      assert Owns(b', p, Dir);
      assert Owns(b', TableAt(s', p, k), Table(p, k));
    }
  }

  /** One iteration of the page loop: a fresh page with the parent's words. */
  lemma ForkPage(s: Phys, b: Book, pd: int, child: int, i: int, j: int) returns (s': Phys, b': Book)
    requires Inv(s, b)
    requires Owns(b, pd, Dir) && Owns(b, child, Dir) && Private(i) && 0 <= j < WORDS
    requires HasPage(s, pd, i, j) && HasTable(s, child, i) && !HasPage(s, child, i, j)
    requires AllocFrame(s).Some?
    ensures var pt, ct := TableAt(s, pd, i), TableAt(s, child, i);
            var (s1, d) := AllocFrame(s).value;
            var s2 := Store(s1, ct, j, Entry(d, PAGE_FLAGS));
            s' == CopyFrame(s2, FrameOf(Load(s2, pt, j)), FrameOf(Load(s2, ct, j)))
    ensures Inv(s', b') && SameDirs(b, b') && Grows(s, b, s', b', iset{Data(child, i, j)})
    ensures Mirrors(s, pd, s', child, i, j) && Left(s', b') == Left(s, b) - 1
  {
    var pt, ct := TableAt(s, pd, i), TableAt(s, child, i);
    var (s1, d) := AllocFrame(s).value;
    var s2 := Store(s1, ct, j, Entry(d, PAGE_FLAGS));
    b' := AddPage(s, b, child, i, j);
    PageStays(s, b, s2, b', iset{Data(child, i, j)}, pd, i, j);
    var src := PageAt(s, pd, i, j);
    assert TableAt(s2, pd, i) == pt && TableAt(s2, child, i) == ct;
    assert FrameOf(Load(s2, pt, j)) == src && FrameOf(Load(s2, ct, j)) == d;
    assert Owns(b, src, Data(pd, i, j));
    s' := CopyFrame(s2, src, d);
    FillNew(s, b, s2, b', iset{Data(child, i, j)}, child, i, j, FrameWords(s2, src));
    assert forall k :: Load(s', d, k) == Load(s2, src, k);
  }

  ghost function PageCopies(s: Phys, pd: int, child: int, i: int, j: int): iset<Owner> {
    iset o: Owner | o.Data? && o.pd == child && o.pdi == i && j <= o.pti < WORDS && HasPage(s, pd, i, o.pti)
  }

  /** What the page loop still has to copy is not disturbed by the page just added to the child. */
  lemma PageCopiesAfter(s: Phys, b: Book, s': Phys, b': Book, pd: int, child: int, i: int, j: int)
    requires Inv(s, b) && Grows(s, b, s', b', iset{Data(child, i, j)})
    requires Owns(b, pd, Dir) && pd != child && Private(i) && 0 <= j < WORDS && HasPage(s, pd, i, j)
    ensures PageCopies(s, pd, child, i, j) == iset{Data(child, i, j)} + PageCopies(s', pd, child, i, j + 1)
  {
    forall l ensures HasPage(s', pd, i, l) <==> HasPage(s, pd, i, l) {
      assert Data(pd, i, l) !in iset{Data(child, i, j)};
    }
  }

  lemma MirrorsThen(s: Phys, b: Book, s1: Phys, b1: Book, s': Phys, b': Book,
                    x: iset<Owner>, y: iset<Owner>, pd: int, child: int, i: int, j: int)
    requires Inv(s, b) && Inv(s1, b1) && Grows(s, b, s1, b1, x) && Grows(s1, b1, s', b', y)
    requires Owns(b, pd, Dir) && Owns(b, child, Dir) && Private(i)
    requires Data(pd, i, j) !in x && Data(child, i, j) !in y
    requires Mirrors(s, pd, s1, child, i, j)
    ensures Mirrors(s, pd, s', child, i, j)
  {
    assert Owns(b1, child, Dir);
    if HasPage(s1, child, i, j) {
      PageStays(s1, b1, s', b', y, child, i, j);
    }
  }

  lemma MirrorsBefore(s: Phys, b: Book, s1: Phys, b1: Book, s': Phys,
                      x: iset<Owner>, pd: int, child: int, i: int, j: int)
    requires Inv(s, b) && Grows(s, b, s1, b1, x)
    requires Owns(b, pd, Dir) && Private(i)
    requires Data(pd, i, j) !in x
    requires Mirrors(s1, pd, s', child, i, j)
    ensures Mirrors(s, pd, s', child, i, j)
  {
    if HasPage(s, pd, i, j) {
      PageStays(s, b, s1, b1, x, pd, i, j);
    }
  }

  /** Both tables, and the child's empty slots, are as before after a page was added to slot j. */
  lemma TablesStay(s: Phys, b: Book, s': Phys, b': Book, pd: int, child: int, i: int, j: int)
    requires Grows(s, b, s', b', iset{Data(child, i, j)})
    requires Owns(b, pd, Dir) && Owns(b, child, Dir) && Private(i)
    requires HasTable(s, pd, i) && HasTable(s, child, i)
    requires forall l :: j < l < WORDS ==> !HasPage(s, child, i, l)
    ensures Owns(b', pd, Dir) && Owns(b', child, Dir)
    ensures HasTable(s', pd, i) && TableAt(s', pd, i) == TableAt(s, pd, i)
    ensures HasTable(s', child, i) && TableAt(s', child, i) == TableAt(s, child, i)
    ensures forall l :: j < l < WORDS ==> !HasPage(s', child, i, l)
  {
  }

  lemma JoinPageCopies(s: Phys, b: Book, s1: Phys, b1: Book, s': Phys, b': Book, pd: int, child: int, i: int, j: int)
    requires Inv(s, b) && Inv(s1, b1)
    requires Grows(s, b, s1, b1, iset{Data(child, i, j)}) && Grows(s1, b1, s', b', PageCopies(s1, pd, child, i, j + 1))
    requires Owns(b, pd, Dir) && Owns(b, child, Dir) && pd != child && Private(i) && 0 <= j < WORDS
    requires HasPage(s, pd, i, j)
    requires Mirrors(s, pd, s1, child, i, j)
    requires forall l :: j < l < WORDS ==> Mirrors(s1, pd, s', child, i, l)
    ensures Grows(s, b, s', b', PageCopies(s, pd, child, i, j))
    ensures forall l :: j <= l < WORDS ==> Mirrors(s, pd, s', child, i, l)
  {
    var x, y := iset{Data(child, i, j)}, PageCopies(s1, pd, child, i, j + 1);
    GrowsThen(s, b, s1, b1, s', b', x, y);
    PageCopiesAfter(s, b, s1, b1, pd, child, i, j);
    MirrorsThen(s, b, s1, b1, s', b', x, y, pd, child, i, j);
    forall l | j < l < WORDS ensures Mirrors(s, pd, s', child, i, l) {
      MirrorsBefore(s, b, s1, b1, s', x, pd, child, i, l);
    }
  }

  lemma SkipPage(s: Phys, b: Book, s': Phys, b': Book, pd: int, child: int, i: int, j: int)
    requires Grows(s, b, s', b', PageCopies(s, pd, child, i, j + 1))
    requires Owns(b, child, Dir) && Private(i) && !HasPage(s, pd, i, j) && !HasPage(s, child, i, j)
    requires forall l :: j < l < WORDS ==> Mirrors(s, pd, s', child, i, l)
    ensures Grows(s, b, s', b', PageCopies(s, pd, child, i, j))
    ensures forall l :: j <= l < WORDS ==> Mirrors(s, pd, s', child, i, l)
  {
    assert PageCopies(s, pd, child, i, j) == PageCopies(s, pd, child, i, j + 1);
  }

  /** How many pages the table in slot i of pd has from entry j on. */
  function PageCount(s: Phys, pd: int, i: int, j: int): nat
    decreases WORDS - j
  {
    if j >= WORDS then 0 else (if HasPage(s, pd, i, j) then 1 else 0) + PageCount(s, pd, i, j + 1)
  }

  lemma {:induction false} SamePageCount(s: Phys, s': Phys, pd: int, i: int, j: int)
    requires forall l :: HasPage(s', pd, i, l) <==> HasPage(s, pd, i, l)
    ensures PageCount(s', pd, i, j) == PageCount(s, pd, i, j)
    decreases WORDS - j
  {
    if j < WORDS {
      SamePageCount(s, s', pd, i, j + 1);
    }
  }

  lemma PageCountStays(s: Phys, b: Book, s': Phys, b': Book, pd: int, child: int, i: int, j: int)
    requires Grows(s, b, s', b', iset{Data(child, i, j)}) && Owns(b, pd, Dir) && pd != child && Private(i)
    ensures PageCount(s', pd, i, j + 1) == PageCount(s, pd, i, j + 1)
  {
    forall l ensures HasPage(s', pd, i, l) <==> HasPage(s, pd, i, l) {
      assert Data(pd, i, l) !in iset{Data(child, i, j)};
    }
    SamePageCount(s, s', pd, i, j + 1);
  }

  /** The page loop after a page has been copied. */
  lemma ForkPagesNext(s: Phys, pt: int, ct: int, j: int, s': Phys)
    requires j < WORDS && Present(Load(s, pt, j)) && AllocFrame(s).Some?
    requires var (s1, d) := AllocFrame(s).value;
             var s2 := Store(s1, ct, j, Entry(d, PAGE_FLAGS));
             s' == CopyFrame(s2, FrameOf(Load(s2, pt, j)), FrameOf(Load(s2, ct, j)))
    ensures ForkPages(s, pt, ct, j) == ForkPages(s', pt, ct, j + 1)
  {
  }

  lemma {:induction false} ForkPagesCopy(s: Phys, b: Book, pd: int, child: int, i: int, j: int)
      returns (s': Phys, b': Book)
    requires Inv(s, b)
    requires Owns(b, pd, Dir) && Owns(b, child, Dir) && pd != child && Private(i) && 0 <= j
    requires HasTable(s, pd, i) && HasTable(s, child, i)
    requires forall l :: j <= l < WORDS ==> !HasPage(s, child, i, l)
    requires ForkPages(s, TableAt(s, pd, i), TableAt(s, child, i), j).Some?
    ensures ForkPages(s, TableAt(s, pd, i), TableAt(s, child, i), j) == Some(s')
    ensures Inv(s', b') && SameDirs(b, b') && Grows(s, b, s', b', PageCopies(s, pd, child, i, j))
    ensures forall l :: j <= l < WORDS ==> Mirrors(s, pd, s', child, i, l)
    ensures Left(s', b') == Left(s, b) - PageCount(s, pd, i, j)
    decreases WORDS - j
  {
    if j >= WORDS {
      s', b' := s, b;
      GrowsNothing(s, b);
      assert PageCopies(s, pd, child, i, j) == iset{};
    } else if HasPage(s, pd, i, j) {
      var s1, b1 := ForkPage(s, b, pd, child, i, j);
      TablesStay(s, b, s1, b1, pd, child, i, j);
      ForkPagesNext(s, TableAt(s, pd, i), TableAt(s, child, i), j, s1);
      PageCountStays(s, b, s1, b1, pd, child, i, j);
      s', b' := ForkPagesCopy(s1, b1, pd, child, i, j + 1);
      JoinPageCopies(s, b, s1, b1, s', b', pd, child, i, j);
    } else {
      s', b' := ForkPagesCopy(s, b, pd, child, i, j + 1);
      SkipPage(s, b, s', b', pd, child, i, j);
    }
  }

  // ---- One directory slot ----

  /** Directory slot i of the child in s' mirrors that of the parent in s. */
  ghost predicate SlotMirrors(s: Phys, pd: int, s': Phys, child: int, i: int) {
    && (HasTable(s', child, i) <==> HasTable(s, pd, i))
    && forall j :: 0 <= j < WORDS ==> Mirrors(s, pd, s', child, i, j)
  }

  ghost function Copies(s: Phys, pd: int, child: int, lo: int, hi: int): iset<Owner> {
    (iset o: Owner | o.Table? && o.pd == child && lo <= o.pdi < hi && HasTable(s, pd, o.pdi))
    + (iset o: Owner | o.Data? && o.pd == child && lo <= o.pdi < hi && 0 <= o.pti < WORDS
          && HasPage(s, pd, o.pdi, o.pti))
  }

  lemma OneSlotCopies(s: Phys, b: Book, s1: Phys, b1: Book, pd: int, child: int, i: int)
    requires Grows(s, b, s1, b1, iset{Table(child, i)})
    requires Owns(b, pd, Dir) && pd != child && Private(i) && HasTable(s, pd, i)
    ensures Copies(s, pd, child, i, i + 1) == iset{Table(child, i)} + PageCopies(s1, pd, child, i, 0)
  {
  }

  lemma ForkSlotCopy(s: Phys, b: Book, pd: int, child: int, i: int) returns (s': Phys, b': Book)
    requires Inv(s, b)
    requires Owns(b, pd, Dir) && Owns(b, child, Dir) && pd != child && Private(i)
    requires !HasTable(s, child, i)
    requires ForkSlot(s, pd, child, i).Some?
    ensures ForkSlot(s, pd, child, i) == Some(s')
    ensures Inv(s', b') && SameDirs(b, b') && Grows(s, b, s', b', Copies(s, pd, child, i, i + 1))
    ensures SlotMirrors(s, pd, s', child, i) && Left(s', b') == Left(s, b) - SlotCount(s, pd, i)
  {
    if !HasTable(s, pd, i) {
      s', b' := s, b;
      GrowsNothing(s, b);
      assert Copies(s, pd, child, i, i + 1) == iset{};
    } else {
      var (s0, t) := AllocFrame(s).value;
      var s1 := Store(s0, child, i, Entry(t, TABLE_FLAGS));
      var b1 := AddTable(s, b, child, i);
      assert Owns(b1, pd, Dir) && Owns(b1, child, Dir) && HasTable(s1, child, i) && HasTable(s1, pd, i);
      s', b' := ForkPagesCopy(s1, b1, pd, child, i, 0);
      TableCountStays(s, b, s1, b1, pd, child, i);
      TableThenPages(s, b, s1, b1, s', b', pd, child, i);
      ForkSlotIs(s, pd, child, i, s1);
    }
  }

  /** How many frames slot i of pd takes: the table and its pages. */
  function SlotCount(s: Phys, pd: int, i: int): nat {
    if HasTable(s, pd, i) then 1 + PageCount(s, pd, i, 0) else 0
  }

  lemma TableCountStays(s: Phys, b: Book, s': Phys, b': Book, pd: int, child: int, i: int)
    requires Grows(s, b, s', b', iset{Table(child, i)}) && Owns(b, pd, Dir) && pd != child && Private(i)
    ensures SlotCount(s', pd, i) == SlotCount(s, pd, i)
  {
    forall l ensures HasPage(s', pd, i, l) <==> HasPage(s, pd, i, l) {
    }
    SamePageCount(s, s', pd, i, 0);
  }

  lemma ForkSlotIs(s: Phys, pd: int, child: int, i: int, s1: Phys)
    requires HasTable(s, pd, i) && AllocFrame(s).Some?
    requires s1 == Store(AllocFrame(s).value.0, child, i, Entry(AllocFrame(s).value.1, TABLE_FLAGS))
    ensures ForkSlot(s, pd, child, i) == ForkPages(s1, TableAt(s1, pd, i), TableAt(s1, child, i), 0)
  {
  }

  /** A table for the child, and then its pages. */
  lemma TableThenPages(s: Phys, b: Book, s1: Phys, b1: Book, s': Phys, b': Book, pd: int, child: int, i: int)
    requires Inv(s, b) && Grows(s, b, s1, b1, iset{Table(child, i)})
    requires Grows(s1, b1, s', b', PageCopies(s1, pd, child, i, 0))
    requires Owns(b, pd, Dir) && Owns(b, child, Dir) && pd != child && Private(i) && HasTable(s, pd, i)
    requires forall j :: 0 <= j < WORDS ==> Mirrors(s1, pd, s', child, i, j)
    ensures Grows(s, b, s', b', Copies(s, pd, child, i, i + 1)) && SlotMirrors(s, pd, s', child, i)
  {
    var x := iset{Table(child, i)};
    GrowsThen(s, b, s1, b1, s', b', x, PageCopies(s1, pd, child, i, 0));
    OneSlotCopies(s, b, s1, b1, pd, child, i);
    forall j | 0 <= j < WORDS ensures Mirrors(s, pd, s', child, i, j) {
      MirrorsBefore(s, b, s1, b1, s', x, pd, child, i, j);
    }
    assert Owns(b1, child, Dir);
  }

  // ---- The whole private range ----

  lemma CopiesAfter(s: Phys, b: Book, s1: Phys, b1: Book, pd: int, child: int, i: int)
    requires Grows(s, b, s1, b1, Copies(s, pd, child, i, i + 1))
    requires Owns(b, pd, Dir) && pd != child && Private(i)
    ensures Copies(s, pd, child, i, LAST_PDI) == Copies(s, pd, child, i, i + 1) + Copies(s1, pd, child, i + 1, LAST_PDI)
  {
    forall k | i < k < LAST_PDI ensures HasTable(s1, pd, k) == HasTable(s, pd, k) {
    }
    forall k, l | i < k < LAST_PDI ensures HasPage(s1, pd, k, l) == HasPage(s, pd, k, l) {
    }
  }

  lemma SlotMirrorsThen(s: Phys, b: Book, s1: Phys, b1: Book, s': Phys, b': Book, pd: int, child: int, i: int)
    requires Inv(s, b) && Inv(s1, b1) && Grows(s, b, s1, b1, Copies(s, pd, child, i, i + 1))
    requires Grows(s1, b1, s', b', Copies(s1, pd, child, i + 1, LAST_PDI))
    requires Owns(b, pd, Dir) && Owns(b, child, Dir) && pd != child && Private(i)
    requires SlotMirrors(s, pd, s1, child, i)
    ensures SlotMirrors(s, pd, s', child, i)
  {
    assert Owns(b1, child, Dir);
    forall j | 0 <= j < WORDS ensures Mirrors(s, pd, s', child, i, j) {
      MirrorsThen(s, b, s1, b1, s', b', Copies(s, pd, child, i, i + 1), Copies(s1, pd, child, i + 1, LAST_PDI),
                  pd, child, i, j);
    }
  }

  lemma SlotMirrorsBefore(s: Phys, b: Book, s1: Phys, b1: Book, s': Phys, pd: int, child: int, i: int, k: int)
    requires Inv(s, b) && Grows(s, b, s1, b1, Copies(s, pd, child, i, i + 1))
    requires Owns(b, pd, Dir) && pd != child && Private(k)
    requires SlotMirrors(s1, pd, s', child, k)
    ensures SlotMirrors(s, pd, s', child, k)
  {
    forall j | 0 <= j < WORDS ensures Mirrors(s, pd, s', child, k, j) {
      MirrorsBefore(s, b, s1, b1, s', Copies(s, pd, child, i, i + 1), pd, child, k, j);
    }
  }

  lemma {:induction false} ForkFromCopy(s: Phys, b: Book, pd: int, child: int, i: int) returns (s': Phys, b': Book)
    requires Inv(s, b)
    requires Owns(b, pd, Dir) && Owns(b, child, Dir) && pd != child && FIRST_PDI <= i <= LAST_PDI
    requires forall k :: i <= k < LAST_PDI ==> !HasTable(s, child, k)
    requires ForkFrom(s, pd, child, i).Some?
    ensures ForkFrom(s, pd, child, i) == Some(s')
    ensures Inv(s', b') && SameDirs(b, b') && Grows(s, b, s', b', Copies(s, pd, child, i, LAST_PDI))
    ensures forall k :: i <= k < LAST_PDI ==> SlotMirrors(s, pd, s', child, k)
    decreases LAST_PDI - i
  {
    if i == LAST_PDI {
      s', b' := s, b;
      GrowsNothing(s, b);
      assert Copies(s, pd, child, i, LAST_PDI) == iset{};
    } else {
      var s1, b1 := ForkSlotCopy(s, b, pd, child, i);
      assert Owns(b1, pd, Dir) && Owns(b1, child, Dir);
      assert forall k :: i < k < LAST_PDI ==> !HasTable(s1, child, k);
      ForkFromIs(s, pd, child, i, s1);
      s', b' := ForkFromCopy(s1, b1, pd, child, i + 1);
      SlotThenRest(s, b, s1, b1, s', b', pd, child, i);
    }
  }

  lemma ForkFromIs(s: Phys, pd: int, child: int, i: int, s1: Phys)
    requires i < LAST_PDI && ForkSlot(s, pd, child, i) == Some(s1)
    ensures ForkFrom(s, pd, child, i) == ForkFrom(s1, pd, child, i + 1)
  {
  }

  /** One directory slot, and then the following ones. */
  lemma SlotThenRest(s: Phys, b: Book, s1: Phys, b1: Book, s': Phys, b': Book, pd: int, child: int, i: int)
    requires Inv(s, b) && Inv(s1, b1) && Grows(s, b, s1, b1, Copies(s, pd, child, i, i + 1))
    requires Grows(s1, b1, s', b', Copies(s1, pd, child, i + 1, LAST_PDI))
    requires Owns(b, pd, Dir) && Owns(b, child, Dir) && pd != child && Private(i)
    requires SlotMirrors(s, pd, s1, child, i) && forall k :: i < k < LAST_PDI ==> SlotMirrors(s1, pd, s', child, k)
    ensures Grows(s, b, s', b', Copies(s, pd, child, i, LAST_PDI))
    ensures forall k :: i <= k < LAST_PDI ==> SlotMirrors(s, pd, s', child, k)
  {
    GrowsThen(s, b, s1, b1, s', b', Copies(s, pd, child, i, i + 1), Copies(s1, pd, child, i + 1, LAST_PDI));
    assert Copies(s, pd, child, i, LAST_PDI)
           == Copies(s, pd, child, i, i + 1) + Copies(s1, pd, child, i + 1, LAST_PDI) by {
      CopiesAfter(s, b, s1, b1, pd, child, i);
    }
    SlotMirrorsThen(s, b, s1, b1, s', b', pd, child, i);
    forall k | i < k < LAST_PDI ensures SlotMirrors(s, pd, s', child, k) {
      SlotMirrorsBefore(s, b, s1, b1, s', pd, child, i, k);
    }
  }

  // ---- Fork ----

  /** A frame that b does not have in use. */
  predicate Unused(b: Book, f: int) {
    f !in b.owner || b.owner[f] == Free
  }

  /** Writing a new directory outside its private range concerns no address space of b. */
  lemma StoreNewDir(s: Phys, b: Book, s': Phys, b': Book, child: int, i: int, w: int)
    requires Inv(s', b') && Grows(s, b, s', b', iset{})
    requires Inv(s, b) && Unused(b, child) && Owns(b', child, Dir) && !Private(i)
    ensures Inv(Store(s', child, i, w), b') && Grows(s, b, Store(s', child, i, w), b', iset{})
  {
    var s'' := Store(s', child, i, w);
    StoreOutsideKeeps(s', b', child, i, w);
    assert forall g, k :: g != child || k != i ==> Load(s'', g, k) == Load(s', g, k);
    forall f | f in b.owner && (b.owner[f].Data? || b.owner[f] == Global) ensures SameWords(s, s'', f) {
      assert Owns(b, f, b.owner[f]);
    }
    forall p, k | Owns(b, p, Dir) && Private(k) && HasTable(s', p, k) ensures TableAt(s', p, k) != child {
      assert Owns(b', p, Dir);
      assert Owns(b', TableAt(s', p, k), Table(p, k));
    }
  }

  lemma NewDir(s: Phys, b: Book) returns (s': Phys, b': Book, child: int)
    requires Inv(s, b) && AllocFrame(s).Some?
    ensures AllocFrame(s) == Some((s', child)) && Left(s', b') == Left(s, b) - 1
    ensures Inv(s', b') && Grows(s, b, s', b', iset{})
    ensures Unused(b, child) && Owns(b', child, Dir) && forall k :: Load(s', child, k) == 0
    ensures forall f, o :: f != child ==> (Owns(b', f, o) <==> Owns(b, f, o))
  {
    var b1: Book;
    s', b1, child := TakeFrame(s, b);
    AdoptKeeps(s', b1, child, Dir);
    b' := Relabel(b1, child, Dir);
    forall f | f in b.owner && (b.owner[f].Data? || b.owner[f] == Global) ensures SameWords(s, s', f) {
      assert Owns(b, f, b.owner[f]);
    }
    forall p, k | Owns(b, p, Dir) && Private(k) && HasTable(s, p, k) ensures TableAt(s, p, k) != child {
      assert Owns(b, TableAt(s, p, k), Table(p, k));
    }
  }

  lemma {:induction false} ShareFromKeeps(s: Phys, b: Book, s1: Phys, b1: Book, pd: int, child: int, i: int, hi: int)
      returns (s': Phys)
    requires Inv(s, b) && Inv(s1, b1) && Grows(s, b, s1, b1, iset{})
    requires Unused(b, child) && Owns(b1, child, Dir) && pd != child && 0 <= i && hi <= FIRST_PDI
    ensures s' == ShareFrom(s1, pd, child, i, hi)
    ensures Inv(s', b1) && Grows(s, b, s', b1, iset{})
    ensures forall f, k :: f != child || !(i <= k < hi) ==> Load(s', f, k) == Load(s1, f, k)
    ensures forall k :: i <= k < hi ==>
              Load(s', child, k) == if HasTable(s1, pd, k) then Load(s1, pd, k) else Load(s1, child, k)
    decreases hi - i
  {
    if i >= hi {
      s' := s1;
    } else if HasTable(s1, pd, i) {
      var s2 := Store(s1, child, i, Load(s1, pd, i));
      StoreNewDir(s, b, s1, b1, child, i, Load(s1, pd, i));
      assert forall f, k :: f != child || k != i ==> Load(s2, f, k) == Load(s1, f, k);
      s' := ShareFromKeeps(s, b, s2, b1, pd, child, i + 1, hi);
      assert Load(s', child, i) == Load(s2, child, i);
      assert forall k :: HasTable(s2, pd, k) == HasTable(s1, pd, k);
    } else {
      s' := ShareFromKeeps(s, b, s1, b1, pd, child, i + 1, hi);
      assert Load(s', child, i) == Load(s1, child, i);
    }
  }

  /** The child's own entries outside the private range do not enter into what it mirrors. */
  lemma SlotMirrorsStore(s: Phys, pd: int, s': Phys, b': Book, child: int, k: int, i: int, w: int)
    requires Inv(s', b') && Owns(b', child, Dir) && Private(k) && !Private(i)
    requires SlotMirrors(s, pd, s', child, k)
    ensures SlotMirrors(s, pd, Store(s', child, i, w), child, k)
  {
    var s'' := Store(s', child, i, w);
    assert forall g, l :: g != child || l != i ==> Load(s'', g, l) == Load(s', g, l);
    if HasTable(s', child, k) {
      assert Owns(b', TableAt(s', child, k), Table(child, k));
    }
    forall j | 0 <= j < WORDS ensures Mirrors(s, pd, s'', child, k, j) {
      assert Mirrors(s, pd, s', child, k, j);
      if HasPage(s', child, k, j) {
        assert Owns(b', PageAt(s', child, k, j), Data(child, k, j));
      }
    }
  }

  /** The copies all belong to the child, so the address spaces of b see no new page. */
  lemma OnlyTheChild(s: Phys, b: Book, s2: Phys, b2: Book, s': Phys, b': Book, pd: int, child: int)
    requires Grows(s, b, s2, b2, iset{}) && Grows(s2, b2, s', b', Copies(s2, pd, child, FIRST_PDI, LAST_PDI))
    requires Unused(b, child)
    ensures Grows(s, b, s', b', iset{})
  {
    var y := Copies(s2, pd, child, FIRST_PDI, LAST_PDI);
    GrowsThen(s, b, s2, b2, s', b', iset{}, y);
    forall p, i, j | Owns(b, p, Dir) ensures Table(p, i) !in iset{} + y && Data(p, i, j) !in iset{} + y {
    }
  }

  /** The directory entries outside the private range that fork shares with the child. */
  predicate Shared(s: Phys, c: Config, pd: int, k: int) {
    (0 <= k < MemPdes(c) && HasTable(s, pd, k)) || k == c.ApicPdi() || k == LAST_PDI
  }

  /** Fork up to its last two assignments. */
  lemma ForkBody(s: Phys, b: Book, c: Config, pd: int) returns (s1: Phys, s3: Phys, b': Book, child: int)
    requires Inv(s, b) && Owns(b, pd, Dir) && Sane(c)
    requires Fork(s, c, pd).Some?
    ensures AllocFrame(s) == Some((s1, child))
    ensures ForkFrom(ShareFrom(s1, pd, child, 0, MemPdes(c)), pd, child, FIRST_PDI) == Some(s3)
    ensures Inv(s3, b') && Grows(s, b, s3, b', iset{})
    ensures Unused(b, child) && forall f :: Owns(b', f, Dir) <==> f == child || Owns(b, f, Dir)
    ensures forall k :: Private(k) ==> SlotMirrors(s, pd, s3, child, k)
    ensures forall k :: !Private(k) ==>
              Load(s3, child, k) == if 0 <= k < MemPdes(c) && HasTable(s, pd, k) then Load(s, pd, k) else 0
  {
    var b1;
    s1, b1, child := NewDir(s, b);
    var s2 := ShareFromKeeps(s, b, s1, b1, pd, child, 0, MemPdes(c));
    assert Owns(b1, pd, Dir);
    s3, b' := ForkFromCopy(s2, b1, pd, child, FIRST_PDI);
    assert Owns(b', child, Dir) by {
      assert Owns(b1, child, Dir);
    }
    forall k | !Private(k)
      ensures Load(s3, child, k) == if 0 <= k < MemPdes(c) && HasTable(s, pd, k) then Load(s, pd, k) else 0 {
      assert Load(s3, child, k) == Load(s2, child, k);
      assert Load(s1, pd, k) == Load(s, pd, k);
    }
    OnlyTheChild(s, b, s2, b1, s3, b', pd, child);
    forall k | Private(k) ensures SlotMirrors(s, pd, s3, child, k) {
      SlotMirrorsFrom(s, b, s2, b1, s3, pd, child, k);
    }
  }

  lemma SlotMirrorsFrom(s: Phys, b: Book, s1: Phys, b1: Book, s': Phys, pd: int, child: int, k: int)
    requires Inv(s, b) && Grows(s, b, s1, b1, iset{})
    requires Owns(b, pd, Dir) && Private(k)
    requires SlotMirrors(s1, pd, s', child, k)
    ensures SlotMirrors(s, pd, s', child, k)
  {
    forall j | 0 <= j < WORDS ensures Mirrors(s, pd, s', child, k, j) {
      MirrorsBefore(s, b, s1, b1, s', iset{}, pd, child, k, j);
    }
  }

  lemma ShareEntryKeeps(s: Phys, b: Book, s1: Phys, b1: Book, pd: int, child: int, i: int) returns (s': Phys)
    requires Inv(s, b) && Inv(s1, b1) && Grows(s, b, s1, b1, iset{})
    requires Unused(b, child) && Owns(b1, child, Dir) && Owns(b, pd, Dir) && 0 <= i < WORDS && !Private(i)
    requires forall k :: Private(k) ==> SlotMirrors(s, pd, s1, child, k)
    ensures s' == ShareEntry(s1, pd, child, i)
    ensures Inv(s', b1) && Grows(s, b, s', b1, iset{})
    ensures forall k :: Private(k) ==> SlotMirrors(s, pd, s', child, k)
    ensures Load(s', child, i) == Load(s, pd, i) && forall k :: k != i ==> Load(s', child, k) == Load(s1, child, k)
  {
    s' := ShareEntry(s1, pd, child, i);
    StoreNewDir(s, b, s1, b1, child, i, Load(s1, pd, i));
    forall k | Private(k) ensures SlotMirrors(s, pd, s', child, k) {
      SlotMirrorsStore(s, pd, s1, b1, child, k, i, Load(s1, pd, i));
    }
  }

  /** Fork: nothing that was in use changes, the child is a new directory, every private slot of the
      child mirrors the parent's, and the child shares the parent's kernel, APIC and shared tables. */
  lemma ForkCopies(s: Phys, b: Book, c: Config, pd: int) returns (s': Phys, b': Book, child: int)
    requires Inv(s, b) && Owns(b, pd, Dir) && Sane(c)
    requires Fork(s, c, pd).Some?
    ensures Fork(s, c, pd) == Some((s', child))
    ensures Inv(s', b') && Grows(s, b, s', b', iset{})
    ensures Unused(b, child) && forall f :: Owns(b', f, Dir) <==> f == child || Owns(b, f, Dir)
    ensures forall k :: Private(k) ==> SlotMirrors(s, pd, s', child, k)
    ensures forall k :: !Private(k) ==> Load(s', child, k) == if Shared(s, c, pd, k) then Load(s, pd, k) else 0
  {
    var s1, s3, s4;
    s1, s3, b', child := ForkBody(s, b, c, pd);
    s4 := ShareEntryKeeps(s, b, s3, b', pd, child, c.ApicPdi());
    s' := ShareEntryKeeps(s, b, s4, b', pd, child, LAST_PDI);
  }
}

/** What unmapping does to every address space and to the ownership of every frame. */
module Unmapping {
  import opened PhysMem
  import opened Ownership
  import opened Paging

  /** From (s, b) to (s', b') exactly the frames whose owner is in `gone` were returned to the free
      list; every other page keeps its frame and its contents, in every address space. */
  ghost predicate Frees(s: Phys, b: Book, s': Phys, b': Book, gone: iset<Owner>) {
    && |s'.mem| == |s.mem| && b'.owner.Keys == b.owner.Keys
    && (forall f :: f in b.owner ==> b'.owner[f] == if b.owner[f] in gone then Free else b.owner[f])
    && (forall f :: f in b'.owner && (b'.owner[f].Data? || b'.owner[f] == Global) ==> SameWords(s, s', f))
    && (forall pd, i :: Owns(b, pd, Dir) && !Private(i) ==> Load(s', pd, i) == Load(s, pd, i))
    && (forall pd, i :: Owns(b, pd, Dir) && Private(i) ==>
          (HasTable(s', pd, i) <==> HasTable(s, pd, i) && Table(pd, i) !in gone))
    && (forall pd, i :: Owns(b, pd, Dir) && Private(i) && HasTable(s', pd, i) ==>
          TableAt(s', pd, i) == TableAt(s, pd, i))
    && (forall pd, i, j :: Owns(b, pd, Dir) && Private(i) ==>
          (HasPage(s', pd, i, j) <==> HasPage(s, pd, i, j) && Data(pd, i, j) !in gone))
    && (forall pd, i, j :: Owns(b, pd, Dir) && Private(i) && HasPage(s', pd, i, j) ==>
          PageAt(s', pd, i, j) == PageAt(s, pd, i, j))
  }

  lemma FreesNothing(s: Phys, b: Book)
    requires Inv(s, b)
    ensures Frees(s, b, s, b, iset{})
  {
  }

  lemma FreesThen(s: Phys, b: Book, s1: Phys, b1: Book, s2: Phys, b2: Book, x: iset<Owner>, y: iset<Owner>)
    requires Frees(s, b, s1, b1, x) && Frees(s1, b1, s2, b2, y)
    requires Dir !in x && Free !in y
    ensures Frees(s, b, s2, b2, x + y)
  {
    assert forall pd :: Owns(b, pd, Dir) ==> Owns(b1, pd, Dir);
  }

  /** Returning a frame and clearing an entry of another frame can be done in either order. */
  lemma ReturnThenClear(s: Phys, f: int, g: int, i: int)
    requires f != g
    ensures Store(DeallocFrame(s, f), g, i, 0) == DeallocFrame(Store(s, g, i, 0), f)
  {
    var x, y := Store(DeallocFrame(s, f), g, i, 0), DeallocFrame(Store(s, g, i, 0), f);
    assert x.mem == y.mem;
  }

  /** One present page: return its frame, clear its entry. */
  lemma FreePageFrees(s: Phys, b: Book, s': Phys, b': Book, pd: int, i: int, j: int)
    requires Inv(s, b)
    requires Owns(b, pd, Dir) && Private(i) && 0 <= j < WORDS && HasPage(s, pd, i, j)
    requires |s'.mem| == |s.mem| && b'.owner == b.owner[PageAt(s, pd, i, j) := Free]
    requires forall f, k :: f != PageAt(s, pd, i, j) && (f != TableAt(s, pd, i) || k != j) ==>
               Load(s', f, k) == Load(s, f, k)
    requires Load(s', TableAt(s, pd, i), j) == 0
    ensures Frees(s, b, s', b', iset{Data(pd, i, j)})
  {
    var t, d := TableAt(s, pd, i), PageAt(s, pd, i, j);
    assert Owns(b, t, Table(pd, i)) && Owns(b, d, Data(pd, i, j));
    assert forall f :: Owns(b, f, Data(pd, i, j)) ==> f == d;
    forall f | f in b.owner ensures b'.owner[f] == if b.owner[f] in iset{Data(pd, i, j)} then Free else b.owner[f] {
      assert Owns(b, f, b.owner[f]);
    }
    forall p, k | Owns(b, p, Dir) && Private(k)
      ensures Load(s', p, k) == Load(s, p, k) && HasTable(s', p, k) == HasTable(s, p, k)
                && TableAt(s', p, k) == TableAt(s, p, k) {
    }
    forall p, k, l | Owns(b, p, Dir) && Private(k)
      ensures HasPage(s', p, k, l) <==> HasPage(s, p, k, l) && Data(p, k, l) !in iset{Data(pd, i, j)}
      ensures HasPage(s', p, k, l) ==> PageAt(s', p, k, l) == PageAt(s, p, k, l) {
      if HasTable(s, p, k) {
        assert Owns(b, TableAt(s, p, k), Table(p, k));
      }
    }
  }

  lemma FreePage(s: Phys, b: Book, pd: int, i: int, j: int) returns (b': Book)
    requires Inv(s, b)
    requires Owns(b, pd, Dir) && Private(i) && 0 <= j < WORDS && HasPage(s, pd, i, j)
    ensures var t := TableAt(s, pd, i);
            var s' := Store(DeallocFrame(s, FrameOf(Load(s, t, j))), t, j, 0);
            Inv(s', b') && Frees(s, b, s', b', iset{Data(pd, i, j)})
  {
    var t, d := TableAt(s, pd, i), PageAt(s, pd, i, j);
    assert Owns(b, t, Table(pd, i)) && Owns(b, d, Data(pd, i, j));
    var s1, b1 := Store(s, t, j, 0), Relabel(b, d, Held);
    UnlinkPageKeeps(s, b, pd, i, j);
    FreeKeeps(s1, b1, d);
    var s' := Store(DeallocFrame(s, d), t, j, 0);
    b' := BookFree(b1, d);
    ReturnThenClear(s, d, t, j);
    assert b'.owner == b.owner[d := Free];
    FreePageFrees(s, b, s', b', pd, i, j);
  }

  /** One table without pages: return its frame, clear its directory entry. */
  lemma FreeTableFrees(s: Phys, b: Book, s': Phys, b': Book, pd: int, i: int)
    requires Inv(s, b)
    requires Owns(b, pd, Dir) && Private(i) && HasTable(s, pd, i)
    requires forall j :: 0 <= j < WORDS ==> !HasPage(s, pd, i, j)
    requires |s'.mem| == |s.mem| && b'.owner == b.owner[TableAt(s, pd, i) := Free]
    requires forall f, k :: f != TableAt(s, pd, i) && (f != pd || k != i) ==> Load(s', f, k) == Load(s, f, k)
    requires Load(s', pd, i) == 0
    ensures Frees(s, b, s', b', iset{Table(pd, i)})
  {
    var t := TableAt(s, pd, i);
    assert Owns(b, t, Table(pd, i));
    forall f | f in b.owner ensures b'.owner[f] == if b.owner[f] in iset{Table(pd, i)} then Free else b.owner[f] {
      assert Owns(b, f, b.owner[f]);
    }
    forall p, k, l | Owns(b, p, Dir) && Private(k)
      ensures HasPage(s', p, k, l) <==> HasPage(s, p, k, l) && Data(p, k, l) !in iset{Table(pd, i)}
      ensures HasPage(s', p, k, l) ==> PageAt(s', p, k, l) == PageAt(s, p, k, l) {
      if HasTable(s, p, k) {
        assert Owns(b, TableAt(s, p, k), Table(p, k));
        if p == pd && k == i { assert !HasPage(s, pd, i, l); }
      }
    }
  }

  lemma FreeTable(s: Phys, b: Book, pd: int, i: int) returns (b': Book)
    requires Inv(s, b)
    requires Owns(b, pd, Dir) && Private(i) && HasTable(s, pd, i)
    requires forall j :: 0 <= j < WORDS ==> !HasPage(s, pd, i, j)
    ensures var s' := Store(DeallocFrame(s, TableAt(s, pd, i)), pd, i, 0);
            Inv(s', b') && Frees(s, b, s', b', iset{Table(pd, i)})
  {
    var t := TableAt(s, pd, i);
    assert Owns(b, t, Table(pd, i));
    var s1, b1 := Store(s, pd, i, 0), Relabel(b, t, Held);
    UnlinkTableKeeps(s, b, pd, i);
    FreeKeeps(s1, b1, t);
    b' := BookFree(b1, t);
    ReturnThenClear(s, t, pd, i);
    assert b'.owner == b.owner[t := Free];
    FreeTableFrees(s, b, Store(DeallocFrame(s, t), pd, i, 0), b', pd, i);
  }

  // ---- Regions ----

  /** Data owners of address space pd with page number in a..e, and table owners with all of their
      1024 pages in a..e. */
  ghost function PagesIn(pd: int, a: int, e: int): iset<Owner> {
    iset o: Owner | o.Data? && o.pd == pd && 0 <= o.pti < WORDS && a <= o.pdi * WORDS + o.pti < e
  }

  ghost function TablesIn(pd: int, a: int, e: int): iset<Owner> {
    iset o: Owner | o.Table? && o.pd == pd && a <= o.pdi * WORDS && o.pdi * WORDS + WORDS <= e
  }

  lemma SplitPages(pd: int, i: int, j: int, hi: int)
    requires 0 <= j < hi <= WORDS
    ensures PagesIn(pd, i * WORDS + j, i * WORDS + hi)
         == iset{Data(pd, i, j)} + PagesIn(pd, i * WORDS + (j + 1), i * WORDS + hi)
  {
  }

  /** The directory and the table in hand survive the freeing of other owners. */
  lemma StillThere(s: Phys, b: Book, s': Phys, b': Book, gone: iset<Owner>, pd: int, i: int)
    requires Frees(s, b, s', b', gone)
    requires Owns(b, pd, Dir) && Dir !in gone && Private(i) && HasTable(s, pd, i) && Table(pd, i) !in gone
    ensures Owns(b', pd, Dir) && HasTable(s', pd, i) && TableAt(s', pd, i) == TableAt(s, pd, i)
  {
  }

  lemma AbsentPage(s: Phys, b: Book, s': Phys, b': Book, pd: int, i: int, j: int, gone: iset<Owner>)
    requires Inv(s, b) && Frees(s, b, s', b', gone)
    requires !HasPage(s, pd, i, j)
    ensures Frees(s, b, s', b', iset{Data(pd, i, j)} + gone)
  {
    var all := iset{Data(pd, i, j)} + gone;
    forall f | f in b.owner ensures b'.owner[f] == if b.owner[f] in all then Free else b.owner[f] {
      assert Owns(b, f, b.owner[f]);
    }
  }

  lemma {:induction false} ReleasePagesFrees(s: Phys, b: Book, pd: int, i: int, j: int, hi: int) returns (b': Book)
    requires Inv(s, b)
    requires Owns(b, pd, Dir) && Private(i) && HasTable(s, pd, i) && 0 <= j && hi <= WORDS
    ensures var s' := ReleasePages(s, TableAt(s, pd, i), j, hi);
            Inv(s', b') && Frees(s, b, s', b', PagesIn(pd, i * WORDS + j, i * WORDS + hi))
    decreases hi - j
  {
    var t := TableAt(s, pd, i);
    var rest := PagesIn(pd, i * WORDS + (j + 1), i * WORDS + hi);
    if j >= hi {
      b' := b;
      FreesNothing(s, b);
      assert PagesIn(pd, i * WORDS + j, i * WORDS + hi) == iset{};
    } else if HasPage(s, pd, i, j) {
      var s1 := Store(DeallocFrame(s, FrameOf(Load(s, t, j))), t, j, 0);
      var b1 := FreePage(s, b, pd, i, j);
      StillThere(s, b, s1, b1, iset{Data(pd, i, j)}, pd, i);
      b' := ReleasePagesFrees(s1, b1, pd, i, j + 1, hi);
      FreesThen(s, b, s1, b1, ReleasePages(s1, t, j + 1, hi), b', iset{Data(pd, i, j)}, rest);
      SplitPages(pd, i, j, hi);
    } else {
      b' := ReleasePagesFrees(s, b, pd, i, j + 1, hi);
      AbsentPage(s, b, ReleasePages(s, t, j + 1, hi), b', pd, i, j, rest);
      SplitPages(pd, i, j, hi);
    }
  }

  ghost function Gone(pd: int, a: int, e: int): iset<Owner> {
    PagesIn(pd, a, e) + TablesIn(pd, a, e)
  }

  /** Owners that no frame has may be listed as gone. */
  lemma FreesMore(s: Phys, b: Book, s': Phys, b': Book, x: iset<Owner>, y: iset<Owner>)
    requires Inv(s, b) && Frees(s, b, s', b', x)
    requires forall f :: f in b.owner ==> b.owner[f] !in y
    ensures Frees(s, b, s', b', x + y)
  {
    forall pd, i | Owns(b, pd, Dir) && Private(i) && HasTable(s, pd, i) ensures Table(pd, i) !in y {
      assert Owns(b, TableAt(s, pd, i), Table(pd, i));
    }
    forall pd, i, j | Owns(b, pd, Dir) && Private(i) && HasPage(s, pd, i, j) ensures Data(pd, i, j) !in y {
      assert Owns(b, PageAt(s, pd, i, j), Data(pd, i, j));
    }
  }

  lemma OneTable(pd: int, i: int, lo: int, hi: int)
    requires 0 <= lo && hi <= WORDS
    ensures TablesIn(pd, i * WORDS + lo, i * WORDS + hi)
         == if lo == 0 && hi == WORDS then iset{Table(pd, i)} else iset{}
  {
  }

  lemma ReleaseNothing(s: Phys, b: Book, pd: int, i: int, lo: int, hi: int)
    requires Inv(s, b)
    requires !HasTable(s, pd, i) && 0 <= lo && hi <= WORDS
    ensures Frees(s, b, s, b, Gone(pd, i * WORDS + lo, i * WORDS + hi))
  {
    var gone := Gone(pd, i * WORDS + lo, i * WORDS + hi);
    forall f | f in b.owner ensures b.owner[f] !in gone {
      assert Owns(b, f, b.owner[f]);
    }
    FreesNothing(s, b);
    FreesMore(s, b, s, b, iset{}, gone);
    assert iset{} + gone == gone;
  }

  lemma ReleaseSlotsFrees(s: Phys, b: Book, pd: int, i: int, lo: int, hi: int) returns (b': Book)
    requires Inv(s, b)
    requires Owns(b, pd, Dir) && Private(i) && 0 <= lo && hi <= WORDS
    ensures var s' := ReleaseSlots(s, pd, i, lo, hi);
            Inv(s', b') && Frees(s, b, s', b', Gone(pd, i * WORDS + lo, i * WORDS + hi))
  {
    var a, e := i * WORDS + lo, i * WORDS + hi;
    if !HasTable(s, pd, i) {
      b' := b;
      ReleaseNothing(s, b, pd, i, lo, hi);
    } else {
      var t := TableAt(s, pd, i);
      var s1 := ReleasePages(s, t, lo, hi);
      var b1 := ReleasePagesFrees(s, b, pd, i, lo, hi);
      OneTable(pd, i, lo, hi);
      if lo == 0 && hi == WORDS {
        StillThere(s, b, s1, b1, PagesIn(pd, a, e), pd, i);
        forall j | 0 <= j < WORDS ensures !HasPage(s1, pd, i, j) {
          assert Data(pd, i, j) in PagesIn(pd, a, e);
        }
        b' := FreeTable(s1, b1, pd, i);
        FreesThen(s, b, s1, b1, ReleaseSlots(s, pd, i, lo, hi), b', PagesIn(pd, a, e), iset{Table(pd, i)});
      } else {
        b' := b1;
        assert PagesIn(pd, a, e) + iset{} == PagesIn(pd, a, e);
      }
    }
  }

  /** A virtual address is its page number and its offset in the page. */
  lemma PageNumber(va: int)
    requires 0 <= va
    ensures va / FRAME_SIZE == Pdi(va) * WORDS + Pti(va)
    ensures 0 <= Pti(va) < WORDS
  {
  }

  /** The page numbers left when the directory slots below i are done. */
  function Cut(a: int, i: int): int {
    if i * WORDS > a then i * WORDS else a
  }

  lemma SplitGone(pd: int, start: int, end: int, i: int)
    requires 0 <= start < end
    requires Pdi(start) <= i <= Pdi(end)
    ensures Gone(pd, Cut(start / FRAME_SIZE, i), end / FRAME_SIZE)
         == Gone(pd, i * WORDS + LowSlot(i, start), i * WORDS + HighSlot(i, end))
          + Gone(pd, Cut(start / FRAME_SIZE, i + 1), end / FRAME_SIZE)
  {
    PageNumber(start);
    PageNumber(end);
  }

  lemma UnmapStep(s: Phys, b: Book, pd: int, start: int, end: int, i: int) returns (b': Book)
    requires Inv(s, b) && Owns(b, pd, Dir)
    requires PRIVATE_START <= start < end <= PRIVATE_END && Pdi(start) <= i <= Pdi(end)
    ensures var s' := ReleaseSlots(s, pd, i, LowSlot(i, start), HighSlot(i, end));
            Inv(s', b') && Frees(s, b, s', b', Gone(pd, i * WORDS + LowSlot(i, start), i * WORDS + HighSlot(i, end)))
  {
    var lo, hi := LowSlot(i, start), HighSlot(i, end);
    PageNumber(start);
    PageNumber(end);
    if i < LAST_PDI {
      b' := ReleaseSlotsFrees(s, b, pd, i, lo, hi);
    } else {
      assert lo == hi == 0;
      assert Gone(pd, i * WORDS + lo, i * WORDS + hi) == iset{};
      b' := b;
      FreesNothing(s, b);
    }
  }

  lemma {:induction false} UnmapFromFrees(s: Phys, b: Book, pd: int, start: int, end: int, i: int) returns (b': Book)
    requires Inv(s, b) && Owns(b, pd, Dir)
    requires PRIVATE_START <= start < end <= PRIVATE_END && Pdi(start) <= i
    ensures var s' := UnmapFrom(s, pd, start, end, i);
            Inv(s', b') && Frees(s, b, s', b', Gone(pd, Cut(start / FRAME_SIZE, i), end / FRAME_SIZE))
    decreases Pdi(end) - i
  {
    if i > Pdi(end) {
      b' := b;
      UnmapNone(s, b, pd, start, end, i);
    } else {
      var s1 := ReleaseSlots(s, pd, i, LowSlot(i, start), HighSlot(i, end));
      var b1 := UnmapStep(s, b, pd, start, end, i);
      assert Owns(b1, pd, Dir);
      b' := UnmapFromFrees(s1, b1, pd, start, end, i + 1);
      UnmapThen(s, b, s1, b1, UnmapFrom(s1, pd, start, end, i + 1), b', pd, start, end, i);
      UnmapFromIs(s, pd, start, end, i);
    }
  }

  /** Past the last directory entry nothing is left to do. */
  lemma UnmapNone(s: Phys, b: Book, pd: int, start: int, end: int, i: int)
    requires Inv(s, b) && PRIVATE_START <= start < end <= PRIVATE_END && Pdi(end) < i
    ensures UnmapFrom(s, pd, start, end, i) == s
    ensures Frees(s, b, s, b, Gone(pd, Cut(start / FRAME_SIZE, i), end / FRAME_SIZE))
  {
    PageNumber(end);
    assert Gone(pd, Cut(start / FRAME_SIZE, i), end / FRAME_SIZE) == iset{};
    FreesNothing(s, b);
  }

  /** The slots of one directory entry, and then those of the following ones. */
  lemma UnmapThen(s: Phys, b: Book, s1: Phys, b1: Book, s2: Phys, b2: Book, pd: int, start: int, end: int, i: int)
    requires PRIVATE_START <= start < end <= PRIVATE_END && Pdi(start) <= i <= Pdi(end)
    requires Frees(s, b, s1, b1, Gone(pd, i * WORDS + LowSlot(i, start), i * WORDS + HighSlot(i, end)))
    requires Frees(s1, b1, s2, b2, Gone(pd, Cut(start / FRAME_SIZE, i + 1), end / FRAME_SIZE))
    ensures Frees(s, b, s2, b2, Gone(pd, Cut(start / FRAME_SIZE, i), end / FRAME_SIZE))
  {
    FreesThen(s, b, s1, b1, s2, b2, Gone(pd, i * WORDS + LowSlot(i, start), i * WORDS + HighSlot(i, end)),
              Gone(pd, Cut(start / FRAME_SIZE, i + 1), end / FRAME_SIZE));
    SplitGone(pd, start, end, i);
  }

  lemma UnmapFromIs(s: Phys, pd: int, start: int, end: int, i: int)
    requires i <= Pdi(end)
    ensures UnmapFrom(s, pd, start, end, i)
              == UnmapFrom(ReleaseSlots(s, pd, i, LowSlot(i, start), HighSlot(i, end)), pd, start, end, i + 1)
  {
  }

  /** Unmapping is exact: the frames returned are those of the present pages of start..end and of the
      tables that lie in start..end with all of their 4 MB; nothing else changes hands or contents. */
  lemma UnmapFrees(s: Phys, b: Book, pd: int, start: int, end: int) returns (b': Book)
    requires Inv(s, b) && Owns(b, pd, Dir)
    requires PRIVATE_START <= start < end <= PRIVATE_END
    ensures var s' := Unmap(s, pd, start, end);
            Inv(s', b') && Frees(s, b, s', b', Gone(pd, start / FRAME_SIZE, end / FRAME_SIZE))
  {
    b' := UnmapFromFrees(s, b, pd, start, end, Pdi(start));
    PageNumber(start);
    assert Cut(start / FRAME_SIZE, Pdi(start)) == start / FRAME_SIZE;
  }

  /** Freeing an address space is unmapping the whole private range. */
  lemma {:induction false} FreeFromIsUnmap(s: Phys, pd: int, start: int, end: int, i: int)
    requires start == PRIVATE_START && end == PRIVATE_END
    requires FIRST_PDI <= i <= LAST_PDI
    ensures FreeFrom(s, pd, i) == UnmapFrom(s, pd, start, end, i)
    decreases LAST_PDI - i
  {
    assert LowSlot(i, start) == 0 && HighSlot(i, end) == if i == LAST_PDI then 0 else WORDS;
    if i < LAST_PDI {
      FreeFromIsUnmap(ReleaseSlots(s, pd, i, 0, WORDS), pd, start, end, i + 1);
    }
  }

  lemma FreeSpaceIsUnmap(s: Phys, pd: int)
    ensures FreeSpace(s, pd) == Unmap(s, pd, PRIVATE_START, PRIVATE_END)
  {
    FreeFromIsUnmap(s, pd, PRIVATE_START, PRIVATE_END, FIRST_PDI);
  }
}

/** The paging theorems in terms of the addresses a process uses. */
module Views {
  import opened Wrappers
  import opened PhysMem
  import opened Ownership
  import opened Paging
  import opened Mapping
  import opened Unmapping
  import opened Forking

  predicate PrivateAddr(va: int) {
    PRIVATE_START <= va < PRIVATE_END
  }

  lemma PrivateSlots(va: int)
    requires PrivateAddr(va)
    ensures Private(Pdi(va)) && 0 <= Pti(va) < WORDS
  {
  }

  /** Address space pd translates va to the same place and reads the same word there. */
  ghost predicate SameView(s: Phys, s': Phys, pd: int, va: int) {
    && Translate(s', pd, va) == Translate(s, pd, va)
    && (Translate(s, pd, va).Some? ==> ReadWord(s', pd, va) == ReadWord(s, pd, va))
  }

  /** No two private pages, of one address space or of two, are the same frame. */
  lemma NoSharing(s: Phys, b: Book, p: int, q: int, va: int, vb: int)
    requires Inv(s, b) && Owns(b, p, Dir) && Owns(b, q, Dir) && PrivateAddr(va) && PrivateAddr(vb)
    requires Translate(s, p, va).Some? && Translate(s, q, vb).Some?
    requires Translate(s, p, va).value / FRAME_SIZE == Translate(s, q, vb).value / FRAME_SIZE
    ensures p == q && va / FRAME_SIZE == vb / FRAME_SIZE
  {
    PrivateSlots(va);
    PrivateSlots(vb);
    var f, g := PageAt(s, p, Pdi(va), Pti(va)), PageAt(s, q, Pdi(vb), Pti(vb));
    assert Owns(b, f, Data(p, Pdi(va), Pti(va))) && Owns(b, g, Data(q, Pdi(vb), Pti(vb)));
    PageNumber(va);
    PageNumber(vb);
  }

  lemma GrowsView(s: Phys, b: Book, s': Phys, b': Book, more: iset<Owner>, pd: int, va: int)
    requires Inv(s, b) && Grows(s, b, s', b', more)
    requires Owns(b, pd, Dir) && PrivateAddr(va) && Data(pd, Pdi(va), Pti(va)) !in more
    ensures SameView(s, s', pd, va)
  {
    PrivateSlots(va);
    if HasPage(s, pd, Pdi(va), Pti(va)) {
      PageStays(s, b, s', b', more, pd, Pdi(va), Pti(va));
    }
  }

  /** The child translates exactly the private addresses the parent does and reads the same words,
      from frames that were not in use, through tables that were not in use; every address space that existed
      sees what it saw. */
  lemma ForkExact(s: Phys, b: Book, c: Config, pd: int) returns (s': Phys, b': Book, child: int)
    requires Settled(s, b) && Owns(b, pd, Dir) && Sane(c)
    requires Fork(s, c, pd).Some?
    ensures Fork(s, c, pd) == Some((s', child)) && Settled(s', b') && Grows(s, b, s', b', iset{})
    ensures Unused(b, child) && forall f :: Owns(b', f, Dir) <==> f == child || Owns(b, f, Dir)
    ensures forall va :: PrivateAddr(va) ==> (Translate(s', child, va).Some? <==> Translate(s, pd, va).Some?)
    ensures forall va :: PrivateAddr(va) && Translate(s, pd, va).Some? ==>
              ReadWord(s', child, va) == ReadWord(s, pd, va) && Unused(b, Translate(s', child, va).value / FRAME_SIZE)
    ensures forall i :: Private(i) && HasTable(s', child, i) ==> Unused(b, TableAt(s', child, i))
    ensures forall p, va :: Owns(b, p, Dir) && PrivateAddr(va) ==> Owns(b', p, Dir) && SameView(s, s', p, va)
    ensures forall k :: !Private(k) ==> Load(s', child, k) == if Shared(s, c, pd, k) then Load(s, pd, k) else 0
  {
    s', b', child := ForkCopies(s, b, c, pd);
    forall p, va | Owns(b, p, Dir) && PrivateAddr(va) ensures Owns(b', p, Dir) && SameView(s, s', p, va) {
      GrowsView(s, b, s', b', iset{}, p, va);
    }
    forall va | PrivateAddr(va)
      ensures Translate(s', child, va).Some? <==> Translate(s, pd, va).Some?
      ensures Translate(s, pd, va).Some? ==>
                ReadWord(s', child, va) == ReadWord(s, pd, va)
                && Unused(b, Translate(s', child, va).value / FRAME_SIZE) {
      ChildView(s, b, s', b', pd, child, va);
    }
    forall i | Private(i) && HasTable(s', child, i) ensures Unused(b, TableAt(s', child, i)) {
      ChildTable(s, b, s', b', child, i);
    }
  }

  /** A table of the child's was not in use. */
  lemma ChildTable(s: Phys, b: Book, s': Phys, b': Book, child: int, i: int)
    requires Inv(s, b) && Inv(s', b') && Grows(s, b, s', b', iset{})
    requires Unused(b, child) && Owns(b', child, Dir) && Private(i) && HasTable(s', child, i)
    ensures Unused(b, TableAt(s', child, i))
  {
    var f := TableAt(s', child, i);
    assert Owns(b', f, Table(child, i));
    assert f in b.owner ==> Owns(b, f, b.owner[f]);
  }

  lemma ChildView(s: Phys, b: Book, s': Phys, b': Book, pd: int, child: int, va: int)
    requires Inv(s, b) && Inv(s', b') && Grows(s, b, s', b', iset{})
    requires Unused(b, child) && Owns(b', child, Dir) && PrivateAddr(va)
    requires forall k :: Private(k) ==> SlotMirrors(s, pd, s', child, k)
    ensures Translate(s', child, va).Some? <==> Translate(s, pd, va).Some?
    ensures Translate(s, pd, va).Some? ==>
              ReadWord(s', child, va) == ReadWord(s, pd, va) && Unused(b, Translate(s', child, va).value / FRAME_SIZE)
  {
    PrivateSlots(va);
    var i, j := Pdi(va), Pti(va);
    assert SlotMirrors(s, pd, s', child, i);
    assert Mirrors(s, pd, s', child, i, j);
    if HasPage(s, pd, i, j) {
      var f := PageAt(s', child, i, j);
      assert Owns(b', f, Data(child, i, j));
      assert f in b.owner ==> Owns(b, f, b.owner[f]);
    }
  }

  /** After a page fault the address translates; a page that is new reads zero; every other private
      page of every address space is as it was. */
  lemma FaultExact(s: Phys, b: Book, pd: int, va: int) returns (s': Phys, b': Book)
    requires Settled(s, b) && Owns(b, pd, Dir) && PrivateAddr(va)
    requires MapPage(s, pd, va).Some?
    ensures MapPage(s, pd, va) == Some(s') && Settled(s', b') && SameDirs(b, b')
    ensures Grows(s, b, s', b', iset{Table(pd, Pdi(va)), Data(pd, Pdi(va), Pti(va))})
    ensures Translate(s', pd, va).Some? && (Translate(s, pd, va).None? ==> ReadWord(s', pd, va) == 0)
    ensures forall p, vb :: Owns(b, p, Dir) && PrivateAddr(vb) &&
              (p != pd || vb / FRAME_SIZE != va / FRAME_SIZE || Translate(s, pd, va).Some?)
              ==> Owns(b', p, Dir) && SameView(s, s', p, vb)
  {
    s' := MapPage(s, pd, va).value;
    b' := MapPageGrows(s, b, pd, va);
    PrivateSlots(va);
    var more := iset{Table(pd, Pdi(va)), Data(pd, Pdi(va), Pti(va))};
    forall p, vb | Owns(b, p, Dir) && PrivateAddr(vb) &&
        (p != pd || vb / FRAME_SIZE != va / FRAME_SIZE || Translate(s, pd, va).Some?)
      ensures Owns(b', p, Dir) && SameView(s, s', p, vb) {
      PageNumber(va);
      PageNumber(vb);
      if Data(p, Pdi(vb), Pti(vb)) in more {
        PrivateSlots(vb);
        PageStays(s, b, s', b', more, p, Pdi(vb), Pti(vb));
      } else {
        GrowsView(s, b, s', b', more, p, vb);
      }
    }
  }

  /** After unmapping start..end none of its addresses translates in pd, and every other private page
      of every address space is as it was.  The frames returned are those of the pages of the region
      and of the page tables whose 4 MB lie in it; every other frame keeps its owner. */
  lemma UnmapExact(s: Phys, b: Book, pd: int, start: int, end: int) returns (b': Book)
    requires Settled(s, b) && Owns(b, pd, Dir)
    requires PRIVATE_START <= start < end <= PRIVATE_END && start % FRAME_SIZE == 0 && end % FRAME_SIZE == 0
    ensures var s' := Unmap(s, pd, start, end);
            && Settled(s', b') && Frees(s, b, s', b', Gone(pd, start / FRAME_SIZE, end / FRAME_SIZE))
            && (forall va :: start <= va < end ==> Translate(s', pd, va) == None)
            && (forall p, va :: Owns(b, p, Dir) && PrivateAddr(va) && (p != pd || !(start <= va < end)) ==>
                  Owns(b', p, Dir) && SameView(s, s', p, va))
    ensures b'.owner.Keys == b.owner.Keys
    ensures forall f :: f in b.owner ==>
              b'.owner[f] == match b.owner[f] {
                case Data(p, i, j) =>
                  if p == pd && start <= (i * WORDS + j) * FRAME_SIZE < end then Free else Data(p, i, j)
                case Table(p, i) =>
                  if p == pd && start <= i * PAGE_TABLE_SPAN && (i + 1) * PAGE_TABLE_SPAN <= end then Free
                  else Table(p, i)
                case o => o
              }
  {
    b' := UnmapFrees(s, b, pd, start, end);
    var s' := Unmap(s, pd, start, end);
    var a, e := start / FRAME_SIZE, end / FRAME_SIZE;
    forall f ensures !Owns(b', f, Held) {
      assert !Owns(b, f, Held);
    }
    forall f | f in b.owner ensures b.owner[f] in Gone(pd, a, e) <==> match b.owner[f] {
        case Data(p, i, j) => p == pd && start <= (i * WORDS + j) * FRAME_SIZE < end
        case Table(p, i) => p == pd && start <= i * PAGE_TABLE_SPAN && (i + 1) * PAGE_TABLE_SPAN <= end
        case o => false } {
      assert Owns(b, f, b.owner[f]);
    }
    forall va | start <= va < end ensures Translate(s', pd, va) == None {
      PrivateSlots(va);
      PageNumber(va);
      assert Data(pd, Pdi(va), Pti(va)) in Gone(pd, a, e);
    }
    forall p, va | Owns(b, p, Dir) && PrivateAddr(va) && (p != pd || !(start <= va < end))
      ensures Owns(b', p, Dir) && SameView(s, s', p, va) {
      PageNumber(va);
      FreesView(s, b, s', b', Gone(pd, a, e), p, va);
    }
  }

  lemma FreesView(s: Phys, b: Book, s': Phys, b': Book, gone: iset<Owner>, pd: int, va: int)
    requires Inv(s, b) && Inv(s', b') && Frees(s, b, s', b', gone)
    requires Owns(b, pd, Dir) && Dir !in gone && PrivateAddr(va) && Data(pd, Pdi(va), Pti(va)) !in gone
    ensures Owns(b', pd, Dir) && SameView(s, s', pd, va)
  {
    PrivateSlots(va);
    var i, j := Pdi(va), Pti(va);
    if HasPage(s, pd, i, j) {
      assert Owns(b, PageAt(s, pd, i, j), Data(pd, i, j));
    }
  }

  /** Freeing an address space returns all of its pages and tables and nothing else; its directory
      stays issued. */
  lemma FreeSpaceExact(s: Phys, b: Book, pd: int) returns (b': Book)
    requires Settled(s, b) && Owns(b, pd, Dir)
    ensures var s' := FreeSpace(s, pd);
            && Settled(s', b') && Frees(s, b, s', b', Gone(pd, PRIVATE_START / FRAME_SIZE, PRIVATE_END / FRAME_SIZE))
            && (forall va :: PrivateAddr(va) ==> Translate(s', pd, va) == None)
            && (forall p, va :: Owns(b, p, Dir) && PrivateAddr(va) && p != pd ==> SameView(s, s', p, va))
    ensures b'.owner.Keys == b.owner.Keys
    ensures forall f :: f in b.owner ==>
              b'.owner[f] == if (b.owner[f].Data? || b.owner[f].Table?) && b.owner[f].pd == pd then Free else b.owner[f]
  {
    FreeSpaceIsUnmap(s, pd);
    b' := UnmapExact(s, b, pd, PRIVATE_START, PRIVATE_END);
    forall f | f in b.owner
      ensures b'.owner[f] == if (b.owner[f].Data? || b.owner[f].Table?) && b.owner[f].pd == pd then Free
                              else b.owner[f] {
      assert Owns(b, f, b.owner[f]);
    }
  }
}

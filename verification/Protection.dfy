/** What user code can reach.  A page is open to user code when the user bit is set in its directory entry
    and in its table entry (Intel SDM volume 3A, section 4.6). */
module Protection {
  import opened Words
  import opened PhysMem
  import opened Ownership
  import opened Paging
  import opened Unmapping
  import opened Views
  import opened Startup
  import opened Regions
  import opened AddressSpaces

  predicate UserMayRead(s: Phys, pd: int, va: int) {
    && HasPage(s, pd, Pdi(va), Pti(va))
    && UserBit(Load(s, pd, Pdi(va))) && UserBit(Load(s, TableAt(s, pd, Pdi(va)), Pti(va)))
  }

  predicate UserMayWrite(s: Phys, pd: int, va: int) {
    && UserMayRead(s, pd, va)
    && Writable(Load(s, pd, Pdi(va))) && Writable(Load(s, TableAt(s, pd, Pdi(va)), Pti(va)))
  }

  /** The page at 0xF0000000, which all processes share. */
  predicate SharedAddr(va: int) {
    PRIVATE_END <= va < PRIVATE_END + FRAME_SIZE
  }

  lemma OpenBits(w: int)
    requires UserEntry(w)
    ensures Present(w) && Writable(w) && UserBit(w)
  {
    var q := w / 8;
    assert w == 2 * (4 * q + 3) + 1 && w / 2 == 2 * (2 * q + 1) + 1 && w / 4 == 2 * q + 1;
    EvenPlus(4 * q + 3, 1);
    EvenPlus(2 * q + 1, 1);
    EvenPlus(q, 1);
  }

  /** A present private page is open to its process, for reading and for writing. */
  lemma PrivateIsOpen(s: Phys, b: Book, pd: int, va: int)
    requires Inv(s, b) && Owns(b, pd, Dir) && PrivateAddr(va)
    ensures UserMayRead(s, pd, va) <==> Translate(s, pd, va).Some?
    ensures UserMayWrite(s, pd, va) <==> Translate(s, pd, va).Some?
  {
    PrivateSlots(va);
    if HasPage(s, pd, Pdi(va), Pti(va)) {
      OpenBits(Load(s, pd, Pdi(va)));
      OpenBits(Load(s, TableAt(s, pd, Pdi(va)), Pti(va)));
    }
  }

  /** Outside the private range only the shared page is open. */
  lemma OutsideIsGuarded(s: Phys, b: Book, g: Globals, pd: int, va: int)
    requires Guarded(s, g, pd) && SharedTable(s, b, g) && 0 <= va < WORD_LIMIT && !PrivateAddr(va)
    ensures UserMayRead(s, pd, va) <==> SharedAddr(va)
    ensures SharedAddr(va) ==> UserMayWrite(s, pd, va) && PageAt(s, pd, Pdi(va), Pti(va)) == g.sharedFrame
  {
    PageNumber(va);
    if Pdi(va) == LAST_PDI {
      EntryFrame(g.sharedPt, TABLE_FLAGS);
      EntryOpen(g.sharedPt, TABLE_FLAGS);
      OpenBits(Entry(g.sharedPt, TABLE_FLAGS));
      EntryFrame(g.sharedFrame, PAGE_FLAGS);
      EntryOpen(g.sharedFrame, PAGE_FLAGS);
      OpenBits(Entry(g.sharedFrame, PAGE_FLAGS));
    }
  }

  /** In every state of every run user code of a process reaches exactly the present pages of its own
      regions and the one shared page, and may write what it reaches. */
  lemma UserReaches(m: Machine, b: Book, g: Globals, c: Config, k: nat, va: int)
    requires MachineInv(m, b, g, c) && k < |m.procs| && 0 <= va < WORD_LIMIT
    ensures var pd := m.procs[k].pd;
            && (UserMayRead(m.phys, pd, va) <==> SharedAddr(va) || (PrivateAddr(va) && Translate(m.phys, pd, va).Some?))
            && (UserMayRead(m.phys, pd, va) ==> UserMayWrite(m.phys, pd, va))
            && (UserMayRead(m.phys, pd, va) && PrivateAddr(va) ==> Covered(m.procs[k].regions, va))
  {
    var pd := m.procs[k].pd;
    assert Owns(b, pd, Dir);
    if PrivateAddr(va) {
      PrivateIsOpen(m.phys, b, pd, va);
      if Translate(m.phys, pd, va).Some? {
        assert Mapped(m.procs, pd, va);
      }
    } else {
      OutsideIsGuarded(m.phys, b, g, pd, va);
    }
  }

  /** The frame that user code reaches is a page of its own or the shared page: never a directory, a table,
      a free frame, or a page of another process. */
  lemma UserReachesFrame(m: Machine, b: Book, g: Globals, c: Config, k: nat, va: int)
    requires MachineInv(m, b, g, c) && k < |m.procs| && 0 <= va < WORD_LIMIT && UserMayRead(m.phys, m.procs[k].pd, va)
    ensures var pd := m.procs[k].pd;
            var f := PageAt(m.phys, pd, Pdi(va), Pti(va));
            if PrivateAddr(va) then Owns(b, f, Data(pd, Pdi(va), Pti(va))) else f == g.sharedFrame && Owns(b, f, Global)
  {
    var pd := m.procs[k].pd;
    assert Owns(b, pd, Dir);
    if PrivateAddr(va) {
      PrivateSlots(va);
    } else {
      assert Guarded(m.phys, g, pd);
      OutsideIsGuarded(m.phys, b, g, pd, va);
    }
  }
}

/** The kernel's memory code: methods that change physical memory in place, proved against the
    functions of `PhysMem` and `Paging`. */
module KernelMemory {
  import opened Wrappers
  import PhysMem
  import opened Ownership
  import opened Paging
  import opened Views
  import Startup
  import Unmapping

  type Phys = PhysMem.Phys

  class Memory {
    var mem: seq<seq<int>>
    var firstFree: int
    var avail: int
    var limit: int
    ghost var book: Book

    ghost function State(): Phys
      reads this
    {
      PhysMem.Phys(mem, firstFree, avail, limit)
    }

    ghost predicate Shaped()
      reads this
    {
      forall f :: 0 <= f < |mem| ==> |mem[f]| == PhysMem.WORDS
    }

    ghost predicate Valid()
      reads this
    {
      Shaped() && Settled(State(), book)
    }

    // ---- The memory bus ----

    method Load(f: int, i: int) returns (w: int)
      ensures w == PhysMem.Load(State(), f, i)
    {
      if 0 <= f < |mem| && 0 <= i < |mem[f]| {
        w := mem[f][i];
      } else {
        w := 0;
      }
    }

    method Store(f: int, i: int, w: int)
      requires Shaped()
      modifies `mem
      ensures Shaped() && State() == PhysMem.Store(old(State()), f, i, w)
    {
      if 0 <= f < |mem| && 0 <= i < |mem[f]| {
        mem := mem[f := mem[f][i := w]];
      }
    }

    method Bzero(f: int)
      requires Shaped()
      modifies `mem
      ensures Shaped() && State() == PhysMem.Fill(old(State()), f, PhysMem.Zeros())
    {
      if 0 <= f < |mem| {
        mem := mem[f := PhysMem.Zeros()];
      }
    }

    // ---- physmem.cc ----

    /** `ok` is false when the kernel panics for want of frames. */
    method AllocFrame() returns (ok: bool, p: int)
      requires Shaped()
      modifies `mem, `firstFree, `avail
      ensures Shaped()
      ensures ok <==> PhysMem.AllocFrame(old(State())).Some?
      ensures ok ==> PhysMem.AllocFrame(old(State())) == Some((State(), p))
    {
      if firstFree != 0 {
        p := firstFree;
        var next := Load(p, 0);
        firstFree := PhysMem.FrameOf(next);
      } else {
        if avail == limit {
          return false, 0;
        }
        p := avail;
        avail := avail + 1;
      }
      Bzero(p);
      ok := true;
    }

    method DeallocFrame(p: int)
      requires Shaped()
      modifies `mem, `firstFree
      ensures Shaped() && State() == PhysMem.DeallocFrame(old(State()), p)
    {
      Store(p, 0, PhysMem.Entry(firstFree, 0));
      firstFree := p;
    }

    // ---- vmm.cc: the mapping half of vmm_pageFault ----

    method MapPage(pd: int, va: int) returns (ok: bool)
      requires Valid() && Owns(book, pd, Dir) && PrivateAddr(va)
      modifies this
      ensures ok <==> Paging.MapPage(old(State()), pd, va).Some?
      ensures ok ==> Paging.MapPage(old(State()), pd, va) == Some(State()) && Valid() && SameDirs(old(book), book)
    {
      ghost var s := State();
      var pdi := Pdi(va);
      var pde := Load(pd, pdi);
      if !PhysMem.Present(pde) {
        var t;
        ok, t := AllocFrame();
        if !ok { return; }
        Store(pd, pdi, PhysMem.Entry(t, TABLE_FLAGS));
      }
      pde := Load(pd, pdi);
      var table := PhysMem.FrameOf(pde);
      var pti := Pti(va);
      var pte := Load(table, pti);
      if !PhysMem.Present(pte) {
        var d;
        ok, d := AllocFrame();
        if !ok { return; }
        Store(table, pti, PhysMem.Entry(d, PAGE_FLAGS));
      }
      ok := true;
      ghost var s', b' := FaultExact(s, book, pd, va);
      book := b';
    }

    // ---- pcb.h and vmm.cc: unmapping ----

    method ReleasePages(table: int, lo: int, hi: int)
      requires Shaped()
      modifies `mem, `firstFree
      ensures Shaped() && State() == Paging.ReleasePages(old(State()), table, lo, hi)
    {
      var pti := lo;
      while pti < hi
        invariant Shaped()
        invariant Paging.ReleasePages(State(), table, pti, hi) == Paging.ReleasePages(old(State()), table, lo, hi)
      {
        var pte := Load(table, pti);
        if PhysMem.Present(pte) {
          DeallocFrame(PhysMem.FrameOf(pte));
          Store(table, pti, 0);
        }
        pti := pti + 1;
      }
    }

    /** The slots lo..hi of one directory entry. */
    method UnmapSlot(pd: int, pdi: int, lo: int, hi: int)
      requires Shaped()
      modifies `mem, `firstFree
      ensures Shaped() && State() == ReleaseSlots(old(State()), pd, pdi, lo, hi)
    {
      var pde := Load(pd, pdi);
      if PhysMem.Present(pde) {
        var table := PhysMem.FrameOf(pde);
        ReleasePages(table, lo, hi);
        if lo == 0 && hi == PhysMem.WORDS {
          DeallocFrame(table);
          Store(pd, pdi, 0);
        }
      }
    }

    method Unmap(pd: int, start: int, end: int)
      requires Valid() && Owns(book, pd, Dir)
      requires PRIVATE_START <= start < end <= PRIVATE_END && start % PhysMem.FRAME_SIZE == 0
      requires end % PhysMem.FRAME_SIZE == 0
      modifies `mem, `firstFree, `book
      ensures Valid() && State() == Paging.Unmap(old(State()), pd, start, end) && SameDirs(old(book), book)
    {
      var pdi := Pdi(start);
      while pdi <= Pdi(end)
        invariant Shaped() && book == old(book)
        invariant UnmapFrom(State(), pd, start, end, pdi) == Paging.Unmap(old(State()), pd, start, end)
      {
        Unmapping.UnmapFromIs(State(), pd, start, end, pdi);
        var lo, hi := 0, PhysMem.WORDS;
        if pdi == Pdi(start) {
          lo := Pti(start);
        }
        if pdi == Pdi(end) {
          hi := Pti(end);
        }
        UnmapSlot(pd, pdi, lo, hi);
        pdi := pdi + 1;
      }
      book := UnmapExact(old(State()), book, pd, start, end);
    }

    method FreeSpace(pd: int)
      requires Valid() && Owns(book, pd, Dir)
      modifies `mem, `firstFree, `book
      ensures Valid() && State() == Paging.FreeSpace(old(State()), pd) && SameDirs(old(book), book)
    {
      var pdi := FIRST_PDI;
      while pdi < LAST_PDI
        invariant FIRST_PDI <= pdi <= LAST_PDI && Shaped() && book == old(book)
        invariant FreeFrom(State(), pd, pdi) == Paging.FreeSpace(old(State()), pd)
      {
        var pde := Load(pd, pdi);
        if PhysMem.Present(pde) {
          var table := PhysMem.FrameOf(pde);
          ReleasePages(table, 0, PhysMem.WORDS);
          DeallocFrame(table);
          Store(pd, pdi, 0);
        }
        pdi := pdi + 1;
      }
      book := FreeSpaceExact(old(State()), book, pd);
    }

    // ---- sys.cc: fork ----

    method CopyWords(src: int, dst: int)
      requires Shaped()
      modifies `mem
      ensures Shaped() && State() == PhysMem.CopyFrame(old(State()), src, dst)
    {
      ghost var words := PhysMem.FrameWords(State(), src);
      var i := 0;
      while i < PhysMem.WORDS
        invariant 0 <= i <= PhysMem.WORDS && Shaped() && |mem| == |old(mem)|
        invariant forall f :: 0 <= f < |mem| && f != dst ==> mem[f] == old(mem[f])
        invariant 0 <= dst < |mem| ==> |mem[dst]| == PhysMem.WORDS
        invariant 0 <= dst < |mem| ==>
                    forall j :: 0 <= j < PhysMem.WORDS ==> mem[dst][j] == if j < i then words[j] else old(mem[dst])[j]
      {
        var w := Load(src, i);
        Store(dst, i, w);
        i := i + 1;
      }
      assert 0 <= dst < |mem| ==> mem[dst] == words;
      assert mem == PhysMem.CopyFrame(old(State()), src, dst).mem;
    }

    method CopyPages(pt: int, ct: int) returns (ok: bool)
      requires Shaped()
      modifies `mem, `firstFree, `avail
      ensures Shaped()
      ensures ok <==> ForkPages(old(State()), pt, ct, 0).Some?
      ensures ok ==> ForkPages(old(State()), pt, ct, 0) == Some(State())
    {
      var pti := 0;
      while pti < PhysMem.WORDS
        invariant Shaped()
        invariant ForkPages(State(), pt, ct, pti) == ForkPages(old(State()), pt, ct, 0)
      {
        var pte := Load(pt, pti);
        if PhysMem.Present(pte) {
          var d;
          ok, d := AllocFrame();
          if !ok { return; }
          Store(ct, pti, PhysMem.Entry(d, PAGE_FLAGS));
          pte := Load(pt, pti);
          var cpte := Load(ct, pti);
          CopyWords(PhysMem.FrameOf(pte), PhysMem.FrameOf(cpte));
        }
        pti := pti + 1;
      }
      ok := true;
    }

    method CopySlot(pd: int, child: int, pdi: int) returns (ok: bool)
      requires Shaped()
      modifies `mem, `firstFree, `avail
      ensures Shaped()
      ensures ok <==> ForkSlot(old(State()), pd, child, pdi).Some?
      ensures ok ==> ForkSlot(old(State()), pd, child, pdi) == Some(State())
    {
      var pde := Load(pd, pdi);
      if !PhysMem.Present(pde) {
        return true;
      }
      var t;
      ok, t := AllocFrame();
      if !ok { return; }
      Store(child, pdi, PhysMem.Entry(t, TABLE_FLAGS));
      pde := Load(pd, pdi);
      var cpde := Load(child, pdi);
      ok := CopyPages(PhysMem.FrameOf(pde), PhysMem.FrameOf(cpde));
    }

    method CopyPrivate(pd: int, child: int) returns (ok: bool)
      requires Shaped()
      modifies `mem, `firstFree, `avail
      ensures Shaped()
      ensures ok <==> ForkFrom(old(State()), pd, child, FIRST_PDI).Some?
      ensures ok ==> ForkFrom(old(State()), pd, child, FIRST_PDI) == Some(State())
    {
      var pdi := FIRST_PDI;
      while pdi < LAST_PDI
        invariant Shaped()
        invariant ForkFrom(State(), pd, child, pdi) == ForkFrom(old(State()), pd, child, FIRST_PDI)
      {
        ok := CopySlot(pd, child, pdi);
        if !ok { return; }
        pdi := pdi + 1;
      }
      ok := true;
    }

    method Fork(c: Config, pd: int) returns (ok: bool, child: int)
      requires Valid() && Owns(book, pd, Dir) && Sane(c)
      modifies this
      ensures ok <==> Paging.Fork(old(State()), c, pd).Some?
      ensures ok ==> Paging.Fork(old(State()), c, pd) == Some((State(), child)) && Valid()
      ensures ok ==> forall f :: Owns(book, f, Dir) <==> f == child || Owns(old(book), f, Dir)
    {
      ok, child := AllocFrame();
      if !ok { return; }
      ghost var s1 := State();
      var pdi := 0;
      while pdi < MemPdes(c)
        invariant Shaped() && book == old(book)
        invariant ShareFrom(State(), pd, child, pdi, MemPdes(c)) == ShareFrom(s1, pd, child, 0, MemPdes(c))
      {
        var pde := Load(pd, pdi);
        if PhysMem.Present(pde) {
          Store(child, pdi, pde);
        }
        pdi := pdi + 1;
      }
      ok := CopyPrivate(pd, child);
      if !ok { return; }
      var apic := Load(pd, c.ApicPdi());
      Store(child, c.ApicPdi(), apic);
      var shared := Load(pd, LAST_PDI);
      Store(child, LAST_PDI, shared);
      ghost var s', b', ch := ForkExact(old(State()), book, c, pd);
      book := b';
    }

    // ---- vmm.cc: per_core_init ----

    method PerCoreInit(g: Startup.Globals, c: Config) returns (ok: bool, pd: int)
      requires Valid() && Startup.KernelInv(State(), book, g, c) && Sane(c)
      modifies this
      ensures ok <==> Startup.CoreInit(old(State()), g, c).Some?
      ensures ok ==> Startup.CoreInit(old(State()), g, c) == Some((State(), pd))
      ensures ok ==> Valid() && Startup.KernelInv(State(), book, g, c)
    {
      ok, pd := AllocFrame();
      if !ok { return; }
      ghost var s1 := State();
      for i := 0 to |g.kernelPt|
        invariant Shaped() && book == old(book)
        invariant Startup.KernelEntries(State(), pd, g.kernelPt, i) == Startup.KernelEntries(s1, pd, g.kernelPt, 0)
      {
        Store(pd, i, PhysMem.Entry(g.kernelPt[i], Startup.KERNEL_TABLE));
      }
      Store(pd, c.ApicPdi(), PhysMem.Entry(g.apicPt, Startup.APIC_TABLE));
      Store(pd, LAST_PDI, PhysMem.Entry(g.sharedPt, TABLE_FLAGS));
      ghost var s', b', p := Startup.CoreInitBuilds(old(State()), book, g, c);
      book := b';
    }
  }
}

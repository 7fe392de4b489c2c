/** Which part of memory the kernel reaches through the directory of the running process.

    The kernel writes to the frames that it hands out through the directory in use.  A first address space
    maps 32 tables of 4 MB; a forked one the whole 4 MB pieces of memory among them.
 */
module KernelRange {
  import opened Wrappers
  import opened PhysMem
  import opened Ownership
  import opened Paging
  import opened Unmapping
  import opened Forking
  import opened Startup
  import opened Views
  import opened AddressSpaces

  // ---- What every address space maps ----

  /** A kernel address is mapped to itself where the directory has the kernel tables, and not mapped beyond
      the last of them. */
  lemma KernelAddress(s: Phys, b: Book, g: Globals, c: Config, pd: int, va: int)
    requires KernelInv(s, b, g, c) && Owns(b, pd, Dir) && FRAME_SIZE <= va < PRIVATE_START
    ensures Pdi(va) < MemPdes(c) && Pdi(va) < KERNEL_TABLES ==> Translate(s, pd, va) == Some(va)
    ensures Pdi(va) >= KERNEL_TABLES ==> Translate(s, pd, va) == None
  {
    assert KernelMapped(s, g, pd, MemPdes(c)) && Guarded(s, g, pd) && ApicMapped(s, g, c, pd);
    if Pdi(va) < MemPdes(c) && Pdi(va) < KERNEL_TABLES {
      KernelIdentity(s, b, g, c, pd, MemPdes(c), va);
    }
  }

  // ---- Rights ----

  /** The bit that keeps a device's page out of the cache. */
  predicate Uncached(w: int) {
    w / 16 % 2 == 1
  }

  lemma EntryBits(f: int, flags: int)
    requires 0 <= flags < FRAME_SIZE
    ensures Writable(Entry(f, flags)) == Writable(flags) && Uncached(Entry(f, flags)) == Uncached(flags)
  {
    Halves(f * 2048, flags);
    EvenPlus(f * 1024, flags / 2);
    Sixteenths(f * 256, flags);
    EvenPlus(f * 128, flags / 16);
  }

  lemma Halves(x: int, y: int)
    ensures (2 * x + y) / 2 == x + y / 2
  {
  }

  lemma Sixteenths(x: int, y: int)
    ensures (16 * x + y) / 16 == x + y / 16
  {
  }

  /** The kernel may write its pages, and user code may not use them. */
  lemma KernelRights(s: Phys, b: Book, g: Globals, c: Config, pd: int, va: int)
    requires KernelInv(s, b, g, c) && Owns(b, pd, Dir) && FRAME_SIZE <= va < PRIVATE_START
    requires Pdi(va) < MemPdes(c) && Pdi(va) < KERNEL_TABLES
    ensures Writable(Load(s, pd, Pdi(va))) && Writable(Load(s, TableAt(s, pd, Pdi(va)), Pti(va)))
    ensures !UserBit(Load(s, pd, Pdi(va)))
  {
    var i, j := Pdi(va), Pti(va);
    assert KernelMapped(s, g, pd, MemPdes(c)) && Guarded(s, g, pd) && KernelTable(s, b, g.kernelPt[i], i);
    PageNumber(va);
    EntryFrame(g.kernelPt[i], KERNEL_TABLE);
    EntryBits(g.kernelPt[i], KERNEL_TABLE);
    EntryBits(i * WORDS + j, KERNEL_PAGE);
  }

  /** Through every directory the page of a device that lies in the 4 MB of the second controller is mapped to
      itself, for the kernel alone, to be written and not cached. */
  lemma DevicePage(s: Phys, b: Book, g: Globals, c: Config, pd: int, device: int)
    requires KernelInv(s, b, g, c) && Sane(c) && Owns(b, pd, Dir)
    requires device in {c.localApic, c.ioApic} && device / WORDS == c.ioApic / WORDS
    ensures Translate(s, pd, device * FRAME_SIZE) == Some(device * FRAME_SIZE)
    ensures var pde := Load(s, pd, device / WORDS);
            var pte := Load(s, FrameOf(pde), device % WORDS);
            Writable(pde) && Writable(pte) && Uncached(pde) && Uncached(pte) && !UserBit(pde)
  {
    DeviceSlots(device);
    assert ApicMapped(s, g, c, pd) && Guarded(s, g, pd);
    if device % WORDS == c.ioApic % WORDS { SameSlots(device, c.ioApic); }
    EntryFrame(g.apicPt, APIC_TABLE);
    EntryFrame(device, APIC_PAGE);
    EntryBits(g.apicPt, APIC_TABLE);
    EntryBits(device, APIC_PAGE);
  }

  lemma SameSlots(x: int, y: int)
    requires x / WORDS == y / WORDS && x % WORDS == y % WORDS
    ensures x == y
  {
  }

  lemma DeviceSlots(f: int)
    ensures Pdi(f * FRAME_SIZE) == f / WORDS && Pti(f * FRAME_SIZE) == f % WORDS && f * FRAME_SIZE % FRAME_SIZE == 0
  {
  }

  // ---- After fork ----

  /** A forked address space maps a kernel address exactly when the 4 MB around it lie below memSize
      rounded down to a multiple of 4 MB, and below 128 MB. */
  lemma ChildKernelAddress(s: Phys, b: Book, g: Globals, c: Config, pd: int, va: int)
    requires Settled(s, b) && KernelInv(s, b, g, c) && Sane(c) && Owns(b, pd, Dir)
    requires Fork(s, c, pd).Some?
    requires FRAME_SIZE <= va < PRIVATE_START
    ensures var (s', child) := Fork(s, c, pd).value;
            Translate(s', child, va) == if Pdi(va) < MemPdes(c) && Pdi(va) < KERNEL_TABLES then Some(va) else None
  {
    var s', b', child := ForkKernel(s, b, g, c, pd);
    KernelAddress(s', b', g, c, child, va);
    if MemPdes(c) <= Pdi(va) < KERNEL_TABLES {
      assert Load(s', child, Pdi(va)) == 0;
    }
  }

  lemma ForkKernel(s: Phys, b: Book, g: Globals, c: Config, pd: int) returns (s': Phys, b': Book, child: int)
    requires Settled(s, b) && KernelInv(s, b, g, c) && Sane(c) && Owns(b, pd, Dir) && Fork(s, c, pd).Some?
    ensures Fork(s, c, pd) == Some((s', child)) && KernelInv(s', b', g, c) && Owns(b', child, Dir)
    ensures forall k :: MemPdes(c) <= k < KERNEL_TABLES ==> Load(s', child, k) == 0
    ensures forall k :: !Private(k) ==> Load(s', pd, k) == Load(s, pd, k)
  {
    s', b', child := ForkExact(s, b, c, pd);
    ChildKernelMapped(s, b, g, c, pd, s', child);
    KernelInvGrows(s, b, s', b', iset{}, g, c, child);
  }

  /** Memory is made of whole tables, and there are kernel tables for all of it. */
  predicate WholeTables(c: Config) {
    c.memSize % PAGE_TABLE_SPAN == 0 && c.memSize <= KERNEL_TABLES * PAGE_TABLE_SPAN
  }

  /** With whole tables the last directory slot below memSize is one that fork shares. */
  lemma WholeTablesCover(c: Config, va: int)
    requires WholeTables(c) && 0 <= va < c.memSize
    ensures Pdi(va) < MemPdes(c) && Pdi(va) < KERNEL_TABLES
  {
  }

  /** Otherwise the last byte of memory lies beyond. */
  lemma TailUncovered(c: Config)
    requires Sane(c) && 0 < c.memSize && !WholeTables(c)
    ensures MemPdes(c) <= Pdi(c.memSize - 1) || KERNEL_TABLES <= Pdi(c.memSize - 1)
  {
  }

  /** Fork promises the child all of memory; it keeps the promise exactly when memSize is a multiple of 4 MB
      and at most 128 MB. */
  lemma ChildMapsAllMemoryWhen(s: Phys, b: Book, g: Globals, c: Config, pd: int)
    requires Settled(s, b) && KernelInv(s, b, g, c) && Sane(c) && Owns(b, pd, Dir)
    requires Fork(s, c, pd).Some? && FRAME_SIZE < c.memSize
    ensures var (s', child) := Fork(s, c, pd).value;
            (forall va :: FRAME_SIZE <= va < c.memSize ==> Translate(s', child, va) == Some(va)) <==> WholeTables(c)
  {
    var (s', child) := Fork(s, c, pd).value;
    if WholeTables(c) {
      forall va | FRAME_SIZE <= va < c.memSize ensures Translate(s', child, va) == Some(va) {
        WholeTablesCover(c, va);
        ChildKernelAddress(s, b, g, c, pd, va);
      }
    } else {
      TailUncovered(c);
      ChildKernelAddress(s, b, g, c, pd, c.memSize - 1);
    }
  }

  // ---- From power-on ----

  /** The kernel and its heap lie in the first 6 MB; the frames after them are handed out. */
  const FIRST_FRAME := 0x600

  /** A machine with c.memSize bytes of memory, enough for start-up and a first fork. */
  ghost predicate Installed(mem: seq<seq<int>>, c: Config) {
    && Sane(c) && c.memSize == |mem| * FRAME_SIZE && FIRST_FRAME + 37 <= |mem|
    && (forall f :: 0 <= f < |mem| ==> |mem[f]| == WORDS)
  }

  /** The allocator as kernelInit sets it up. */
  function PowerOn(mem: seq<seq<int>>): Phys {
    Phys(mem, 0, FIRST_FRAME, |mem|)
  }

  /** No frame has been returned, and n have never been issued. */
  predicate Fresh(s: Phys, n: int) {
    s.firstFree == 0 && s.limit - s.avail == n >= 0
  }

  lemma FreshAlloc(s: Phys, n: int)
    requires Fresh(s, n)
    ensures AllocFrame(s).Some? <==> 1 <= n
    ensures 1 <= n ==> Fresh(AllocFrame(s).value.0, n - 1)
  {
  }

  lemma {:induction false} KernelTablesWhen(s: Phys, i: int, n: int)
    requires Fresh(s, n) && 0 <= i <= KERNEL_TABLES
    ensures KernelTables(s, i).Some? <==> KERNEL_TABLES - i <= n
    ensures KERNEL_TABLES - i <= n ==> Fresh(KernelTables(s, i).value.0, n - (KERNEL_TABLES - i))
    decreases KERNEL_TABLES - i
  {
    if i < KERNEL_TABLES {
      FreshAlloc(s, n);
      if 1 <= n {
        var (s1, t) := AllocFrame(s).value;
        KernelTablesWhen(Fill(s1, t, IdentityWords(i)), i + 1, n - 1);
      }
    }
  }

  /** Start-up needs 35 frames: with fewer it panics before there is a process. */
  lemma GlobalInitWhen(s: Phys, n: int, c: Config)
    requires Fresh(s, n)
    ensures GlobalInit(s, c).Some? <==> 35 <= n
    ensures 35 <= n ==> Fresh(GlobalInit(s, c).value.0, n - 35)
  {
    FreshAlloc(s, n);
    if 1 <= n {
      var (s1, shared) := AllocFrame(s).value;
      FreshAlloc(s1, n - 1);
      if 2 <= n {
        var (s2, frame) := AllocFrame(s1).value;
        var s3 := Store(s2, shared, 0, Entry(frame, PAGE_FLAGS));
        FreshAlloc(s3, n - 2);
        if 3 <= n {
          var (s4, apic) := AllocFrame(s3).value;
          var s5 := Store(s4, apic, c.localApic % WORDS, Entry(c.localApic, APIC_PAGE));
          var s6 := Store(s5, apic, c.ioApic % WORDS, Entry(c.ioApic, APIC_PAGE));
          KernelTablesWhen(s6, 0, n - 3);
        }
      }
    }
  }

  /** A machine needs 6 MB and 35 frames to start. */
  lemma StartsWhen(mem: seq<seq<int>>, c: Config)
    requires 0x600 <= |mem|
    ensures GlobalInit(PowerOn(mem), c).Some? <==> 0x623 <= |mem|
  {
    GlobalInitWhen(PowerOn(mem), |mem| - FIRST_FRAME, c);
  }

  lemma {:induction false} KernelEntriesFresh(s: Phys, pd: int, kernelPt: seq<int>, i: nat, n: int)
    requires Fresh(s, n) && i <= |kernelPt|
    ensures Fresh(KernelEntries(s, pd, kernelPt, i), n)
    decreases |kernelPt| - i
  {
    if i < |kernelPt| {
      KernelEntriesFresh(Store(s, pd, i, Entry(kernelPt[i], KERNEL_TABLE)), pd, kernelPt, i + 1, n);
    }
  }

  lemma CoreInitWhen(s: Phys, g: Globals, c: Config, n: int)
    requires Fresh(s, n)
    ensures CoreInit(s, g, c).Some? <==> 1 <= n
    ensures 1 <= n ==> Fresh(CoreInit(s, g, c).value.0, n - 1)
  {
    FreshAlloc(s, n);
    if 1 <= n {
      var (s1, pd) := AllocFrame(s).value;
      KernelEntriesFresh(s1, pd, g.kernelPt, 0, n - 1);
    }
  }

  /** Sharing entries with another directory changes none of pd's. */
  lemma {:induction false} ShareFromLoads(s: Phys, pd: int, child: int, i: int, hi: int)
    requires pd != child
    ensures forall k :: Load(ShareFrom(s, pd, child, i, hi), pd, k) == Load(s, pd, k)
    decreases hi - i
  {
    if i < hi {
      ShareFromLoads(if HasTable(s, pd, i) then Store(s, child, i, Load(s, pd, i)) else s, pd, child, i + 1, hi);
    }
  }

  lemma {:induction false} ForkFromNothing(s: Phys, pd: int, child: int, i: int)
    requires FIRST_PDI <= i && forall k :: Private(k) ==> !HasTable(s, pd, k)
    ensures ForkFrom(s, pd, child, i) == Some(s)
    decreases LAST_PDI - i
  {
    if i < LAST_PDI {
      ForkFromNothing(s, pd, child, i + 1);
    }
  }

  /** Forking an address space without private pages takes one frame. */
  lemma EmptyForks(s: Phys, b: Book, c: Config, pd: int)
    requires Inv(s, b) && Owns(b, pd, Dir) && AllocFrame(s).Some? && forall k :: Private(k) ==> !HasTable(s, pd, k)
    ensures Fork(s, c, pd).Some?
  {
    var s1, b1, child := NewDir(s, b);
    var s2 := ShareFrom(s1, pd, child, 0, MemPdes(c));
    ShareFromLoads(s1, pd, child, 0, MemPdes(c));
    ForkFromNothing(s2, pd, child, FIRST_PDI);
  }

  /** Start-up, the first address space and its fork, none of which runs out of frames. */
  lemma FirstFork(mem: seq<seq<int>>, c: Config)
      returns (s: Phys, g: Globals, s1: Phys, b1: Book, pd: int, s2: Phys, b2: Book, child: int)
    requires Installed(mem, c)
    ensures GlobalInit(PowerOn(mem), c) == Some((s, g))
    ensures CoreInit(s, g, c) == Some((s1, pd)) && Fork(s1, c, pd) == Some((s2, child))
    ensures Settled(s1, b1) && KernelInv(s1, b1, g, c) && Owns(b1, pd, Dir) && KernelMapped(s1, g, pd, KERNEL_TABLES)
    ensures KernelInv(s2, b2, g, c) && forall k :: !Private(k) ==> Load(s2, pd, k) == Load(s1, pd, k)
  {
    var n := |mem| - FIRST_FRAME;
    GlobalInitWhen(PowerOn(mem), n, c);
    var b;
    s, b, g := GlobalInitBuilds(mem, FIRST_FRAME, |mem|, c);
    CoreInitWhen(s, g, c, n - 35);
    s1, b1, pd := CoreInitBuilds(s, b, g, c);
    FreshAlloc(s1, n - 36);
    EmptyForks(s1, b1, c, pd);
    s2, b2, child := ForkKernel(s1, b1, g, c, pd);
  }

  /** With ten megabytes the first process maps the last byte of memory to itself, and its child does not
      map it. */
  lemma ChildLosesTheTail(mem: seq<seq<int>>, c: Config)
      returns (s: Phys, g: Globals, s1: Phys, pd: int, s2: Phys, child: int)
    requires Installed(mem, c) && c.memSize == 0xA0_0000
    ensures GlobalInit(PowerOn(mem), c) == Some((s, g))
    ensures CoreInit(s, g, c) == Some((s1, pd)) && Fork(s1, c, pd) == Some((s2, child))
    ensures Translate(s2, pd, 0x9F_FFFF) == Some(0x9F_FFFF) && Translate(s2, child, 0x9F_FFFF) == None
  {
    var b1, b2;
    s, g, s1, b1, pd, s2, b2, child := FirstFork(mem, c);
    assert KernelMapped(s2, g, pd, KERNEL_TABLES);
    KernelIdentity(s2, b2, g, c, pd, KERNEL_TABLES, 0x9F_FFFF);
    ChildKernelAddress(s1, b1, g, c, pd, 0x9F_FFFF);
  }

  /** With 132 megabytes neither of them maps the byte at 128 MB. */
  lemma NobodyMapsTheTail(mem: seq<seq<int>>, c: Config)
      returns (s: Phys, g: Globals, s1: Phys, pd: int, s2: Phys, child: int)
    requires Installed(mem, c) && c.memSize == 0x840_0000
    ensures GlobalInit(PowerOn(mem), c) == Some((s, g))
    ensures CoreInit(s, g, c) == Some((s1, pd)) && Fork(s1, c, pd) == Some((s2, child))
    ensures Translate(s1, pd, 0x800_0000) == None && Translate(s2, child, 0x800_0000) == None
  {
    var b1, b2;
    s, g, s1, b1, pd, s2, b2, child := FirstFork(mem, c);
    KernelAddress(s1, b1, g, c, pd, 0x800_0000);
    ChildKernelAddress(s1, b1, g, c, pd, 0x800_0000);
  }

  // ---- The frames that the kernel reaches ----

  predicate Reaches(s: Phys, pd: int, f: int) {
    Translate(s, pd, f * FRAME_SIZE) == Some(f * FRAME_SIZE)
  }

  /** Through every directory the kernel reaches every frame of a memory of whole tables. */
  lemma DirectoryReaches(s: Phys, b: Book, g: Globals, c: Config, pd: int, f: int)
    requires KernelInv(s, b, g, c) && Sane(c) && WholeTables(c) && Owns(b, pd, Dir)
    requires 0 < f && (f + 1) * FRAME_SIZE <= c.memSize
    ensures Reaches(s, pd, f)
  {
    WholeTablesCover(c, f * FRAME_SIZE);
    KernelAddress(s, b, g, c, pd, f * FRAME_SIZE);
  }

  /** The first frame is left out: page 0 is not mapped. */
  ghost predicate AllReached(m: Machine, frames: int) {
    forall k, f :: 0 <= k < |m.procs| && 0 < f < frames ==> Reaches(m.phys, m.procs[k].pd, f)
  }

  ghost predicate AlwaysReached(s: Phys, g: Globals, c: Config, frames: int) {
    forall ops :: Run(Machine(s, []), g, c, ops).Some? ==> AllReached(Run(Machine(s, []), g, c, ops).value, frames)
  }

  /** In every run on such a machine every frame in use, whatever for, is reached through every directory. */
  lemma EveryFrameReached(mem: seq<seq<int>>, c: Config, ops: seq<Op>)
      returns (m: Machine, b: Book, g: Globals)
    requires Installed(mem, c) && WholeTables(c)
    requires var i := GlobalInit(PowerOn(mem), c);
             i.Some? && Run(Machine(i.value.0, []), i.value.1, c, ops).Some?
    ensures var i := GlobalInit(PowerOn(mem), c);
            g == i.value.1 && Run(Machine(i.value.0, []), g, c, ops) == Some(m) && MachineInv(m, b, g, c)
    ensures forall pd, f :: Owns(b, pd, Dir) && f in b.owner ==> Reaches(m.phys, pd, f)
    ensures AllReached(m, |mem|)
  {
    m, b, g := EveryRun(mem, FIRST_FRAME, |mem|, c, ops);
    forall pd, f | Owns(b, pd, Dir) && 0 < f < |mem| ensures Reaches(m.phys, pd, f) {
      DirectoryReaches(m.phys, b, g, c, pd, f);
    }
  }

  /** From power-on to a process and its child. */
  lemma ForkRun(c: Config, s: Phys, g: Globals, s1: Phys, pd: int, s2: Phys, child: int)
      returns (ops: seq<Op>, m: Machine)
    requires CoreInit(s, g, c) == Some((s1, pd)) && Fork(s1, c, pd) == Some((s2, child))
    ensures Run(Machine(s, []), g, c, ops) == Some(m)
    ensures |m.procs| == 2 && m.procs[1].pd == child && m.phys == s2
  {
    ops := [Boot(true), ForkProc(0)];
    var m1 := Step(Machine(s, []), g, c, ops[0]).value;
    m := Step(m1, g, c, ops[1]).value;
    assert ops[1..] == [ForkProc(0)] && ops[1..][1..] == [];
    assert Run(m, g, c, []) == Some(m);
    assert Run(m1, g, c, ops[1..]) == Some(m);
  }

  /** Every process of every run lets the kernel reach all of memory exactly when memory is a multiple of 4 MB
      and at most 128 MB. */
  lemma KernelReachesAllWhen(mem: seq<seq<int>>, c: Config) returns (s: Phys, g: Globals)
    requires Installed(mem, c)
    ensures GlobalInit(PowerOn(mem), c) == Some((s, g))
    ensures AlwaysReached(s, g, c, |mem|) <==> WholeTables(c)
  {
    var s1, b1, pd, s2, b2, child;
    s, g, s1, b1, pd, s2, b2, child := FirstFork(mem, c);
    if WholeTables(c) {
      forall ops | Run(Machine(s, []), g, c, ops).Some?
        ensures AllReached(Run(Machine(s, []), g, c, ops).value, |mem|)
      {
        var m, b, g' := EveryFrameReached(mem, c, ops);
      }
    } else {
      var ops, m := ForkRun(c, s, g, s1, pd, s2, child);
      TailFrame(c, |mem|);
      ChildKernelAddress(s1, b1, g, c, pd, (|mem| - 1) * FRAME_SIZE);
      assert !Reaches(m.phys, m.procs[1].pd, |mem| - 1);
      assert !AllReached(m, |mem|);
    }
  }

  /** The last frame lies beyond when the last byte does. */
  lemma TailFrame(c: Config, frames: int)
    requires Sane(c) && 1 < frames && c.memSize == frames * FRAME_SIZE && !WholeTables(c)
    ensures var i := Pdi((frames - 1) * FRAME_SIZE);
            MemPdes(c) <= i || KERNEL_TABLES <= i
  {
  }
}

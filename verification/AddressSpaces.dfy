/** Processes with their address spaces and region lists, as a machine whose steps are the memory
    system calls, page faults, stores of user code, and the creation and end of address spaces. */
module AddressSpaces {
  import opened Words
  import opened Wrappers
  import opened PhysMem
  import opened Ownership
  import opened Paging
  import opened Mapping
  import opened Unmapping
  import opened Forking
  import opened Startup
  import opened Views
  import opened Regions

  const STACK := Region(0xEFF0_0000, 0x10_0000)

  datatype Proc = Proc(pd: int, regions: seq<Region>)

  /** Physical memory and the processes that have not exited. */
  datatype Machine = Machine(phys: Phys, procs: seq<Proc>)

  datatype Op =
    | Boot(init: bool)                      // a core's address space; with the first process in it if init
    | Mmap(p: nat, addr: int, size: int)    // without a file
    | Munmap(p: nat, addr: int)
    | Fault(p: nat, va: int)
    | StoreWord(p: nat, va: int, w: int)    // by user code
    | ForkProc(p: nat)
    | Exit(p: nat)

  // ---- System calls ----

  /** simple_mmap without a file: the new region list and the value returned. */
  function MmapCall(rs: seq<Region>, addr: int, size: int): (seq<Region>, int) {
    if size == 0 then (rs, 0)
    else if addr % FRAME_SIZE != 0 || size % FRAME_SIZE != 0 then (rs, 0)
    else if addr != 0 && (addr < PRIVATE_START || Add32(addr, size) >= PRIVATE_END || Add32(addr, size) < addr) then
      (rs, 0)
    else if addr != 0 && Intersects(rs, addr, size) then (rs, 0)
    else AddVme(rs, addr, size)
  }

  /** What the documentation asks of a call at a given address: page aligned, private, and free. */
  ghost predicate MmapWanted(rs: seq<Region>, addr: int, size: int) {
    addr % FRAME_SIZE == 0 && size % FRAME_SIZE == 0 && Fits(rs, addr, size)
  }

  /** What the code asks besides: the range ends neither at the end of the private range nor at a region. */
  ghost predicate MmapSpared(rs: seq<Region>, addr: int, size: int) {
    addr + size < PRIVATE_END && !EndsAtARegion(rs, addr, size)
  }

  /** A call at a given address succeeds exactly when both hold. */
  lemma MmapAtWhen(rs: seq<Region>, addr: int, size: int)
    requires Wf(rs) && 0 < addr < WORD_LIMIT && 0 < size < WORD_LIMIT
    ensures MmapCall(rs, addr, size).1 != 0 <==> MmapWanted(rs, addr, size) && MmapSpared(rs, addr, size)
  {
    if PRIVATE_START <= addr && addr + size < PRIVATE_END {
      IntersectsWhen(rs, addr, size);
    }
  }

  /** So it does what is documented exactly unless the range is free and ends at the end of the private
      range or at a region. */
  lemma MmapAgreesWhen(rs: seq<Region>, addr: int, size: int)
    requires Wf(rs) && 0 < addr < WORD_LIMIT && 0 < size < WORD_LIMIT
    ensures (MmapCall(rs, addr, size).1 != 0 <==> MmapWanted(rs, addr, size))
       <==> (MmapWanted(rs, addr, size) ==> MmapSpared(rs, addr, size))
  {
    MmapAtWhen(rs, addr, size);
  }

  /** The last private page is free and refused, and so is the page below the initial stack. */
  lemma MmapRefusesFreePages()
    ensures MmapWanted([], 0xEFFF_F000, 0x1000) && MmapCall([], 0xEFFF_F000, 0x1000).1 == 0
    ensures Wf([STACK]) && MmapWanted([STACK], 0xEFEF_F000, 0x1000) && MmapCall([STACK], 0xEFEF_F000, 0x1000).1 == 0
  {
    GuardRefusesAFreePage();
  }

  /** The first page that a new process maps lies at 2 GB. */
  lemma FirstPage()
    ensures MmapCall([STACK], 0, 0x1000) == ([Region(0x8000_0000, 0x1000), STACK], 0x8000_0000)
  {
    var rs := [STACK];
    assert FindGap(rs, 0, PRIVATE_START, 0x1000) == (0, 0x8000_0000);
    assert AddVme(rs, 0, 0x1000) == (Insert(rs, 0, Region(0x8000_0000, 0x1000)), 0x8000_0000);
    assert rs[..0] == [] && rs[0..] == rs;
    assert Insert(rs, 0, Region(0x8000_0000, 0x1000)) == [Region(0x8000_0000, 0x1000), STACK];
  }

  /** A successful call adds one region of the size asked for: at the address asked for, or at the
      lowest address with room.  A failing call changes nothing.  For address 0 it succeeds exactly when
      something fits. */
  lemma MmapExact(rs: seq<Region>, addr: int, size: int)
    requires Wf(rs) && 0 <= addr < WORD_LIMIT && 0 <= size < WORD_LIMIT
    ensures var (rs', ret) := MmapCall(rs, addr, size);
            if ret == 0 then rs' == rs
            else Adds(rs, rs', Region(ret, size)) && (addr != 0 ==> ret == addr) &&
                 (addr == 0 ==> forall a :: Fits(rs, a, size) ==> ret <= a)
    ensures addr == 0 ==>
              (MmapCall(rs, addr, size).1 != 0 <==> 0 < size && size % FRAME_SIZE == 0 && exists a :: Fits(rs, a, size))
    ensures addr != 0 ==>
              (MmapCall(rs, addr, size).1 != 0 <==>
               0 < size && MmapWanted(rs, addr, size) && MmapSpared(rs, addr, size))
  {
    if addr != 0 && 0 < size { MmapAtWhen(rs, addr, size); }
    if 0 < size && size % FRAME_SIZE == 0 && addr % FRAME_SIZE == 0 {
      if addr == 0 {
        FirstFitIsLowest(rs, size);
        if AddVme(rs, 0, size).1 != 0 {
          AddAnywhereKeeps(rs, size);
        }
      } else if MmapCall(rs, addr, size).1 != 0 {
        IntersectsWhen(rs, addr, size);
        AddAtKeeps(rs, addr, size);
      }
    }
  }

  function UserStore(s: Phys, pd: int, va: int, w: int): Phys {
    if Translate(s, pd, va).Some? then Store(s, PageAt(s, pd, Pdi(va), Pti(va)), va % FRAME_SIZE / 4, w) else s
  }

  /** One step; a step of a process that is not there, or that the kernel refuses, changes nothing. */
  function Step(m: Machine, g: Globals, c: Config, op: Op): Option<Machine> {
    match op
    case Boot(init) =>
      var (s, pd) :- CoreInit(m.phys, g, c);
      Some(Machine(s, if init then m.procs + [Proc(pd, AddVme([], STACK.start, STACK.size).0)] else m.procs))
    case _ =>
      if op.p >= |m.procs| then Some(m) else ProcStep(m, c, op, m.procs[op.p])
  }

  function ProcStep(m: Machine, c: Config, op: Op, q: Proc): Option<Machine>
    requires !op.Boot? && op.p < |m.procs|
  {
    match op
    case Mmap(p, addr, size) =>
      Some(m.(procs := m.procs[p := q.(regions := MmapCall(q.regions, addr % WORD_LIMIT, size % WORD_LIMIT).0)]))
    case Munmap(p, addr) =>
      if !PrivateAddr(addr) || RemoveVme(q.regions, addr).None? then Some(m) else
        var (rs, r) := RemoveVme(q.regions, addr).value;
        Some(Machine(Unmap(m.phys, q.pd, r.start, r.End()), m.procs[p := q.(regions := rs)]))
    case Fault(p, va) =>
      if !ContainsRange(q.regions, va, va) then Some(m) else
        var s :- MapPage(m.phys, q.pd, va);
        Some(m.(phys := s))
    case StoreWord(p, va, w) =>
      Some(if PrivateAddr(va) then m.(phys := UserStore(m.phys, q.pd, va, w)) else m)
    case ForkProc(p) =>
      var (s, child) :- Fork(m.phys, c, q.pd);
      Some(Machine(s, m.procs + [Proc(child, DeepCopy(q.regions, []))]))
    case Exit(p) =>
      Some(Machine(FreeSpace(m.phys, q.pd), m.procs[..p] + m.procs[p + 1..]))
  }

  function Run(m: Machine, g: Globals, c: Config, ops: seq<Op>): Option<Machine>
    decreases |ops|
  {
    if ops == [] then Some(m) else
      var m1 :- Step(m, g, c, ops[0]);
      Run(m1, g, c, ops[1..])
  }

  // ---- The invariant ----

  ghost predicate ProcsOk(m: Machine, b: Book) {
    && (forall k :: 0 <= k < |m.procs| ==> Owns(b, m.procs[k].pd, Dir) && Wf(m.procs[k].regions))
    && (forall k, l :: 0 <= k < l < |m.procs| ==> m.procs[k].pd != m.procs[l].pd)
  }

  /** Some live process has address space pd and has va in a region. */
  ghost predicate Mapped(procs: seq<Proc>, pd: int, va: int) {
    exists k :: 0 <= k < |procs| && procs[k].pd == pd && Covered(procs[k].regions, va)
  }

  /** A private page is present only in the address space, and in a region, of a live process. */
  ghost predicate PagesInRegions(m: Machine, b: Book) {
    forall pd, va :: Owns(b, pd, Dir) && PrivateAddr(va) && Translate(m.phys, pd, va).Some? ==> Mapped(m.procs, pd, va)
  }

  ghost predicate MachineInv(m: Machine, b: Book, g: Globals, c: Config) {
    Settled(m.phys, b) && KernelInv(m.phys, b, g, c) && ProcsOk(m, b) && PagesInRegions(m, b)
  }

  // ---- Each step keeps it ----

  lemma MappedStays(procs: seq<Proc>, procs': seq<Proc>, pd: int, va: int, p: nat)
    requires Mapped(procs, pd, va) && p < |procs| <= |procs'|
    requires forall k :: 0 <= k < |procs| && k != p ==> procs'[k] == procs[k]
    requires procs'[p].pd == procs[p].pd
    requires (procs[p].pd == pd && Covered(procs[p].regions, va) ==> Covered(procs'[p].regions, va))
    ensures Mapped(procs', pd, va)
  {
    var k :| 0 <= k < |procs| && procs[k].pd == pd && Covered(procs[k].regions, va);
    assert procs'[k].pd == pd && Covered(procs'[k].regions, va);
  }

  lemma BootKeeps(m: Machine, b: Book, g: Globals, c: Config, init: bool) returns (m': Machine, b': Book)
    requires MachineInv(m, b, g, c) && Sane(c) && Step(m, g, c, Boot(init)).Some?
    ensures Step(m, g, c, Boot(init)) == Some(m') && MachineInv(m', b', g, c) && |m'.phys.mem| == |m.phys.mem|
  {
    var s, pd;
    s, b', pd := CoreInitBuilds(m.phys, b, g, c);
    m' := Step(m, g, c, Boot(init)).value;
    StackMapped();
    BootProcs(m, b, m', b', pd);
    BootPages(m, b, m', b', pd);
  }

  lemma StackMapped()
    ensures Wf(AddVme([], STACK.start, STACK.size).0)
  {
    AddAtKeeps([], STACK.start, STACK.size);
  }

  lemma BootProcs(m: Machine, b: Book, m': Machine, b': Book, pd: int)
    requires ProcsOk(m, b) && !Owns(b, pd, Dir) && Owns(b', pd, Dir) && forall p :: Owns(b, p, Dir) ==> Owns(b', p, Dir)
    requires m'.procs == m.procs || (exists rs :: Wf(rs) && m'.procs == m.procs + [Proc(pd, rs)])
    ensures ProcsOk(m', b')
  {
  }

  /** A new address space has no private page, and the others keep theirs. */
  lemma BootPages(m: Machine, b: Book, m': Machine, b': Book, pd: int)
    requires PagesInRegions(m, b) && Inv(m.phys, b) && Grows(m.phys, b, m'.phys, b', iset{})
    requires m.procs <= m'.procs && forall p :: Owns(b', p, Dir) ==> p == pd || Owns(b, p, Dir)
    requires forall k :: Private(k) ==> !HasTable(m'.phys, pd, k)
    ensures PagesInRegions(m', b')
  {
    forall p, va | Owns(b', p, Dir) && PrivateAddr(va) && Translate(m'.phys, p, va).Some?
      ensures Mapped(m'.procs, p, va)
    {
      PrivateSlots(va);
      if p != pd {
        GrowsView(m.phys, b, m'.phys, b', iset{}, p, va);
        var k :| 0 <= k < |m.procs| && m.procs[k].pd == p && Covered(m.procs[k].regions, va);
        assert m'.procs[k] == m.procs[k];
      }
    }
  }

  lemma MmapKeeps(m: Machine, b: Book, g: Globals, c: Config, op: Op) returns (m': Machine, b': Book)
    requires MachineInv(m, b, g, c) && op.Mmap? && op.p < |m.procs|
    ensures Step(m, g, c, op) == Some(m') && MachineInv(m', b', g, c) && |m'.phys.mem| == |m.phys.mem|
  {
    var q := m.procs[op.p];
    m', b' := Step(m, g, c, op).value, b;
    MmapExact(q.regions, op.addr % WORD_LIMIT, op.size % WORD_LIMIT);
    forall pd, va | Owns(b, pd, Dir) && PrivateAddr(va) && Translate(m.phys, pd, va).Some?
      ensures Mapped(m'.procs, pd, va)
    {
      assert Mapped(m.procs, pd, va);
      MappedStays(m.procs, m'.procs, pd, va, op.p);
    }
  }

  /** Unmapping, as far as the invariant is concerned. */
  lemma UnmapKeeps(s: Phys, b: Book, g: Globals, c: Config, pd: int, start: int, end: int) returns (s': Phys, b': Book)
    requires Settled(s, b) && KernelInv(s, b, g, c) && Sane(c) && Owns(b, pd, Dir)
    requires PRIVATE_START <= start < end <= PRIVATE_END && start % FRAME_SIZE == 0 && end % FRAME_SIZE == 0
    ensures s' == Unmap(s, pd, start, end) && |s'.mem| == |s.mem|
    ensures Settled(s', b') && KernelInv(s', b', g, c) && SameDirs(b, b')
    ensures forall p, va :: Owns(b, p, Dir) && PrivateAddr(va) && Translate(s', p, va).Some? ==>
              Translate(s, p, va).Some? && (p != pd || !(start <= va < end))
  {
    s' := Unmap(s, pd, start, end);
    b' := UnmapExact(s, b, pd, start, end);
    KernelInvFrees(s, b, s', b', Gone(pd, start / FRAME_SIZE, end / FRAME_SIZE), g, c);
    forall p, va | Owns(b, p, Dir) && PrivateAddr(va) && Translate(s', p, va).Some?
      ensures Translate(s, p, va).Some? && (p != pd || !(start <= va < end)) {
      if p != pd || !(start <= va < end) {
        assert SameView(s, s', p, va);
      }
    }
  }

  lemma MappableBounds(r: Region)
    requires Mappable(r)
    ensures r.End() == r.start + r.size && PRIVATE_START <= r.start < r.End() <= PRIVATE_END
    ensures r.start % FRAME_SIZE == 0 && r.End() % FRAME_SIZE == 0
  {
  }

  lemma MunmapKeeps(m: Machine, b: Book, g: Globals, c: Config, op: Op) returns (m': Machine, b': Book)
    requires MachineInv(m, b, g, c) && Sane(c) && op.Munmap? && op.p < |m.procs|
    ensures Step(m, g, c, op) == Some(m') && MachineInv(m', b', g, c) && |m'.phys.mem| == |m.phys.mem|
  {
    var q := m.procs[op.p];
    RemoveExact(q.regions, op.addr);
    if !PrivateAddr(op.addr) || RemoveVme(q.regions, op.addr).None? {
      return m, b;
    }
    var (rs, r) := RemoveVme(q.regions, op.addr).value;
    MappableBounds(r);
    var s;
    s, b' := UnmapKeeps(m.phys, b, g, c, q.pd, r.start, r.End());
    m' := Machine(s, m.procs[op.p := q.(regions := rs)]);
    MunmapPages(m, b, m', b', op.p, r);
  }

  /** The pages that are left after unmapping region r of process p lie in the regions that are left. */
  lemma MunmapPages(m: Machine, b: Book, m': Machine, b': Book, p: nat, r: Region)
    requires PagesInRegions(m, b) && SameDirs(b, b') && p < |m.procs| == |m'.procs|
    requires forall k :: 0 <= k < |m.procs| && k != p ==> m'.procs[k] == m.procs[k]
    requires m'.procs[p].pd == m.procs[p].pd && Adds(m'.procs[p].regions, m.procs[p].regions, r)
    requires forall pd, va :: Owns(b, pd, Dir) && PrivateAddr(va) && Translate(m'.phys, pd, va).Some? ==>
               Translate(m.phys, pd, va).Some? && (pd != m.procs[p].pd || !Covers(r, va))
    ensures PagesInRegions(m', b')
  {
    forall pd, va | Owns(b', pd, Dir) && PrivateAddr(va) && Translate(m'.phys, pd, va).Some?
      ensures Mapped(m'.procs, pd, va)
    {
      assert Mapped(m.procs, pd, va);
      MappedStays(m.procs, m'.procs, pd, va, p);
    }
  }

  /** Regions are made of whole pages. */
  lemma PageCovered(rs: seq<Region>, va: int, vb: int)
    requires Wf(rs) && Covered(rs, va) && va / FRAME_SIZE == vb / FRAME_SIZE
    ensures Covered(rs, vb)
  {
    var k :| 0 <= k < |rs| && Covers(rs[k], va);
    assert Mappable(rs[k]);
    assert Covers(rs[k], vb);
  }

  lemma FaultKeeps(m: Machine, b: Book, g: Globals, c: Config, op: Op) returns (m': Machine, b': Book)
    requires MachineInv(m, b, g, c) && Sane(c) && op.Fault? && op.p < |m.procs| && Step(m, g, c, op).Some?
    ensures Step(m, g, c, op) == Some(m') && MachineInv(m', b', g, c) && |m'.phys.mem| == |m.phys.mem|
  {
    var q, va := m.procs[op.p], op.va;
    m', b' := Step(m, g, c, op).value, b;
    ContainsRangeExact(q.regions, va, va);
    if ContainsRange(q.regions, va, va) {
      assert Covered(q.regions, va);
      var k :| 0 <= k < |q.regions| && Covers(q.regions[k], va);
      assert Mappable(q.regions[k]) && PrivateAddr(va);
      var s;
      s, b' := FaultExact(m.phys, b, q.pd, va);
      KernelInvFault(m.phys, b, g, c, q.pd, va, s, b');
      forall pd, vb | Owns(b', pd, Dir) && PrivateAddr(vb) && Translate(s, pd, vb).Some?
        ensures Mapped(m'.procs, pd, vb)
      {
        if pd == q.pd && vb / FRAME_SIZE == va / FRAME_SIZE {
          PageCovered(q.regions, va, vb);
          assert m'.procs[op.p] == q;
        } else {
          assert SameView(m.phys, s, pd, vb);
        }
      }
    }
  }

  lemma KernelInvFault(s: Phys, b: Book, g: Globals, c: Config, pd: int, va: int, s': Phys, b': Book)
    requires Sane(c) && KernelInv(s, b, g, c) && SameDirs(b, b') && Owns(b, pd, Dir)
    requires Grows(s, b, s', b', iset{Table(pd, Pdi(va)), Data(pd, Pdi(va), Pti(va))})
    ensures KernelInv(s', b', g, c)
  {
    assert KernelMapped(s, g, pd, MemPdes(c)) && Guarded(s, g, pd) && ApicMapped(s, g, c, pd);
    KernelInvGrows(s, b, s', b', iset{Table(pd, Pdi(va)), Data(pd, Pdi(va), Pti(va))}, g, c, pd);
  }

  /** A store of user code changes one word of one of its own pages. */
  lemma UserStoreKeeps(s: Phys, b: Book, pd: int, va: int, w: int) returns (s': Phys)
    requires Settled(s, b) && Owns(b, pd, Dir) && PrivateAddr(va)
    ensures s' == UserStore(s, pd, va, w) && Settled(s', b) && |s'.mem| == |s.mem|
    ensures forall p, vb :: Owns(b, p, Dir) && PrivateAddr(vb) ==> Translate(s', p, vb) == Translate(s, p, vb)
    ensures forall p, vb :: Owns(b, p, Dir) && PrivateAddr(vb) && (p != pd || vb / 4 != va / 4) ==>
              SameView(s, s', p, vb)
    ensures Translate(s, pd, va).Some? ==> ReadWord(s', pd, va) == w
    ensures forall g, c :: KernelInv(s, b, g, c) ==> KernelInv(s', b, g, c)
  {
    s' := UserStore(s, pd, va, w);
    PrivateSlots(va);
    var i, j := Pdi(va), Pti(va);
    if HasPage(s, pd, i, j) {
      var f, k := PageAt(s, pd, i, j), va % FRAME_SIZE / 4;
      assert Owns(b, f, Data(pd, i, j));
      StoreOutsideKeeps(s, b, f, k, w);
      assert forall h, l :: h != f || l != k ==> Load(s', h, l) == Load(s, h, l);
      forall p, vb | Owns(b, p, Dir) && PrivateAddr(vb)
        ensures Translate(s', p, vb) == Translate(s, p, vb)
                  && (p != pd || vb / 4 != va / 4 ==> SameView(s, s', p, vb)) {
        StoreView(s, b, s', pd, va, p, vb);
      }
      forall g, c | KernelInv(s, b, g, c) ensures KernelInv(s', b, g, c) {
        KernelInvStore(s, b, s', g, c, f, k);
      }
    }
  }

  lemma KernelInvStore(s: Phys, b: Book, s': Phys, g: Globals, c: Config, f: int, k: int)
    requires KernelInv(s, b, g, c) && f in b.owner && b.owner[f].Data?
    requires forall h, l :: h != f || l != k ==> Load(s', h, l) == Load(s, h, l)
    ensures KernelInv(s', b, g, c)
  {
    forall i | 0 <= i < KERNEL_TABLES ensures KernelTable(s', b, g.kernelPt[i], i) {
      assert KernelTable(s, b, g.kernelPt[i], i);
    }
    forall p | Owns(b, p, Dir)
      ensures KernelMapped(s', g, p, MemPdes(c)) && Guarded(s', g, p) && ApicMapped(s', g, c, p)
    {
      assert KernelMapped(s, g, p, MemPdes(c)) && Guarded(s, g, p) && ApicMapped(s, g, c, p);
    }
  }

  lemma StoreView(s: Phys, b: Book, s': Phys, pd: int, va: int, p: int, vb: int)
    requires Inv(s, b) && Owns(b, pd, Dir) && Owns(b, p, Dir) && PrivateAddr(va) && PrivateAddr(vb)
    requires Translate(s, pd, va).Some?
    requires forall h, l :: h != PageAt(s, pd, Pdi(va), Pti(va)) || l != va % FRAME_SIZE / 4 ==>
               Load(s', h, l) == Load(s, h, l)
    ensures Translate(s', p, vb) == Translate(s, p, vb)
    ensures p != pd || vb / 4 != va / 4 ==> SameView(s, s', p, vb)
  {
    PrivateSlots(va);
    PrivateSlots(vb);
    var i, j := Pdi(vb), Pti(vb);
    assert Owns(b, PageAt(s, pd, Pdi(va), Pti(va)), Data(pd, Pdi(va), Pti(va)));
    if HasTable(s, p, i) {
      assert Owns(b, TableAt(s, p, i), Table(p, i));
    }
    if HasPage(s, p, i, j) {
      assert Owns(b, PageAt(s, p, i, j), Data(p, i, j));
      PageNumber(va);
      PageNumber(vb);
      if p == pd && va / FRAME_SIZE == vb / FRAME_SIZE && vb / 4 != va / 4 {
        WordsApart(va, vb);
      }
    }
  }

  /** Different words of one page. */
  lemma WordsApart(va: int, vb: int)
    requires va / FRAME_SIZE == vb / FRAME_SIZE && vb / 4 != va / 4
    ensures vb % FRAME_SIZE / 4 != va % FRAME_SIZE / 4
  {
    var q := va / FRAME_SIZE;
    assert va / 4 == 1024 * q + va % FRAME_SIZE / 4;
    assert vb / 4 == 1024 * q + vb % FRAME_SIZE / 4;
  }

  lemma StoreWordKeeps(m: Machine, b: Book, g: Globals, c: Config, op: Op) returns (m': Machine, b': Book)
    requires MachineInv(m, b, g, c) && op.StoreWord? && op.p < |m.procs|
    ensures Step(m, g, c, op) == Some(m') && MachineInv(m', b', g, c) && |m'.phys.mem| == |m.phys.mem|
  {
    m', b' := Step(m, g, c, op).value, b;
    if PrivateAddr(op.va) {
      var s := UserStoreKeeps(m.phys, b, m.procs[op.p].pd, op.va, op.w);
      forall pd, va | Owns(b, pd, Dir) && PrivateAddr(va) && Translate(s, pd, va).Some?
        ensures Mapped(m'.procs, pd, va)
      {
        assert Translate(m.phys, pd, va).Some?;
      }
    }
  }

  lemma ForkKeeps(m: Machine, b: Book, g: Globals, c: Config, op: Op) returns (m': Machine, b': Book)
    requires MachineInv(m, b, g, c) && Sane(c) && op.ForkProc? && op.p < |m.procs| && Step(m, g, c, op).Some?
    ensures Step(m, g, c, op) == Some(m') && MachineInv(m', b', g, c) && |m'.phys.mem| == |m.phys.mem|
  {
    var q := m.procs[op.p];
    var s, child;
    s, b', child := ForkExact(m.phys, b, c, q.pd);
    m' := Step(m, g, c, op).value;
    assert q.regions + [] == q.regions;
    DeepCopyIs(q.regions, []);
    assert m'.procs == m.procs + [Proc(child, q.regions)];
    assert KernelMapped(s, g, child, MemPdes(c)) && Guarded(s, g, child) && ApicMapped(s, g, c, child) by {
      ChildKernelMapped(m.phys, b, g, c, q.pd, s, child);
    }
    KernelInvGrows(m.phys, b, s, b', iset{}, g, c, child);
    BootProcs(m, b, m', b', child);
    ForkPagesIn(m, b, m', b', op.p, child);
  }

  /** The child's pages lie in its regions, and the others' where they lay. */
  lemma ForkPagesIn(m: Machine, b: Book, m': Machine, b': Book, p: nat, child: int)
    requires ProcsOk(m, b) && PagesInRegions(m, b) && p < |m.procs|
    requires m'.procs == m.procs + [Proc(child, m.procs[p].regions)]
    requires forall f :: Owns(b', f, Dir) <==> f == child || Owns(b, f, Dir)
    requires forall va :: PrivateAddr(va) ==>
               (Translate(m'.phys, child, va).Some? <==> Translate(m.phys, m.procs[p].pd, va).Some?)
    requires forall pd, va :: Owns(b, pd, Dir) && PrivateAddr(va) ==> SameView(m.phys, m'.phys, pd, va)
    ensures PagesInRegions(m', b')
  {
    forall pd, va | Owns(b', pd, Dir) && PrivateAddr(va) && Translate(m'.phys, pd, va).Some?
      ensures Mapped(m'.procs, pd, va)
    {
      assert pd != child ==> SameView(m.phys, m'.phys, pd, va);
      ForkMapped(m.procs, p, child, pd, va);
    }
  }

  /** The child's regions cover what its parent's cover, and the others' stay. */
  lemma ForkMapped(procs: seq<Proc>, p: nat, child: int, pd: int, va: int)
    requires p < |procs| && forall i, j :: 0 <= i < j < |procs| ==> procs[i].pd != procs[j].pd
    requires Mapped(procs, if pd == child then procs[p].pd else pd, va)
    ensures Mapped(procs + [Proc(child, procs[p].regions)], pd, va)
  {
    var procs' := procs + [Proc(child, procs[p].regions)];
    var k :| 0 <= k < |procs| && procs[k].pd == (if pd == child then procs[p].pd else pd)
             && Covered(procs[k].regions, va);
    if pd == child {
      assert k == p;
      assert procs'[|procs|].pd == pd && Covered(procs'[|procs|].regions, va);
    } else {
      assert procs'[k] == procs[k];
    }
  }

  lemma ChildKernelMapped(s: Phys, b: Book, g: Globals, c: Config, pd: int, s': Phys, child: int)
    requires KernelInv(s, b, g, c) && Sane(c) && Owns(b, pd, Dir)
    requires forall k :: !Private(k) ==> Load(s', child, k) == if Shared(s, c, pd, k) then Load(s, pd, k) else 0
    ensures KernelMapped(s', g, child, MemPdes(c)) && Guarded(s', g, child) && ApicMapped(s', g, c, child)
  {
    assert KernelMapped(s, g, pd, MemPdes(c)) && Guarded(s, g, pd) && ApicMapped(s, g, c, pd);
    EntryFrame(g.sharedPt, TABLE_FLAGS);
    forall i | 0 <= i < MemPdes(c) && i < |g.kernelPt|
      ensures Load(s', child, i) == Entry(g.kernelPt[i], KERNEL_TABLE)
    {
      EntryFrame(g.kernelPt[i], KERNEL_TABLE);
      assert HasTable(s, pd, i);
    }
  }

  lemma WithoutProc(m: Machine, b: Book, b': Book, s: Phys, p: nat) returns (m': Machine)
    requires ProcsOk(m, b) && SameDirs(b, b') && p < |m.procs|
    ensures m' == Machine(s, m.procs[..p] + m.procs[p + 1..])
    ensures ProcsOk(m', b')
    ensures forall pd, va :: pd != m.procs[p].pd && Mapped(m.procs, pd, va) ==> Mapped(m'.procs, pd, va)
  {
    m' := Machine(s, m.procs[..p] + m.procs[p + 1..]);
    assert forall k :: 0 <= k < |m'.procs| ==> m'.procs[k] == m.procs[if k < p then k else k + 1];
    forall pd, va | pd != m.procs[p].pd && Mapped(m.procs, pd, va) ensures Mapped(m'.procs, pd, va) {
      var k :| 0 <= k < |m.procs| && m.procs[k].pd == pd && Covered(m.procs[k].regions, va);
      assert m'.procs[if k < p then k else k - 1] == m.procs[k];
    }
  }

  lemma ExitKeeps(m: Machine, b: Book, g: Globals, c: Config, op: Op) returns (m': Machine, b': Book)
    requires MachineInv(m, b, g, c) && Sane(c) && op.Exit? && op.p < |m.procs|
    ensures Step(m, g, c, op) == Some(m') && MachineInv(m', b', g, c) && |m'.phys.mem| == |m.phys.mem|
  {
    var q := m.procs[op.p];
    FreeSpaceIsUnmap(m.phys, q.pd);
    var s;
    s, b' := UnmapKeeps(m.phys, b, g, c, q.pd, PRIVATE_START, PRIVATE_END);
    m' := WithoutProc(m, b, b', s, op.p);
  }

  // ---- Every run ----

  lemma StepKeeps(m: Machine, b: Book, g: Globals, c: Config, op: Op) returns (m': Machine, b': Book)
    requires MachineInv(m, b, g, c) && Sane(c) && Step(m, g, c, op).Some?
    ensures Step(m, g, c, op) == Some(m') && MachineInv(m', b', g, c) && |m'.phys.mem| == |m.phys.mem|
  {
    if !op.Boot? && op.p >= |m.procs| {
      return m, b;
    }
    match op
    case Boot(init) => m', b' := BootKeeps(m, b, g, c, init);
    case Mmap(_, _, _) => m', b' := MmapKeeps(m, b, g, c, op);
    case Munmap(_, _) => m', b' := MunmapKeeps(m, b, g, c, op);
    case Fault(_, _) => m', b' := FaultKeeps(m, b, g, c, op);
    case StoreWord(_, _, _) => m', b' := StoreWordKeeps(m, b, g, c, op);
    case ForkProc(_) => m', b' := ForkKeeps(m, b, g, c, op);
    case Exit(_) => m', b' := ExitKeeps(m, b, g, c, op);
  }

  /** Over every run: each issued frame has exactly one owner, free frames form one acyclic list, region
      lists stay sorted, disjoint, page aligned and private, present private pages lie in regions of
      live processes, and the kernel's tables stay mapped everywhere. */
  lemma {:induction false} RunKeeps(m: Machine, b: Book, g: Globals, c: Config, ops: seq<Op>)
    returns (m': Machine, b': Book)
    requires MachineInv(m, b, g, c) && Sane(c) && Run(m, g, c, ops).Some?
    ensures Run(m, g, c, ops) == Some(m') && MachineInv(m', b', g, c) && |m'.phys.mem| == |m.phys.mem|
    decreases |ops|
  {
    if ops == [] {
      m', b' := m, b;
    } else {
      var m1, b1 := StepKeeps(m, b, g, c, ops[0]);
      m', b' := RunKeeps(m1, b1, g, c, ops[1..]);
    }
  }

  /** The whole story from power-on: any memory, any machine, any sequence of steps. */
  lemma EveryRun(mem: seq<seq<int>>, start: int, limit: int, c: Config, ops: seq<Op>)
      returns (m: Machine, b: Book, g: Globals)
    requires 0 < start <= limit <= |mem| <= MAX_FRAMES && (forall f :: 0 <= f < |mem| ==> |mem[f]| == WORDS) && Sane(c)
    requires var i := GlobalInit(Phys(mem, 0, start, limit), c);
             i.Some? && Run(Machine(i.value.0, []), i.value.1, c, ops).Some?
    ensures var i := GlobalInit(Phys(mem, 0, start, limit), c);
            && g == i.value.1 && Run(Machine(i.value.0, []), g, c, ops) == Some(m)
            && MachineInv(m, b, g, c) && |m.phys.mem| == |mem|
  {
    var s, b0;
    s, b0, g := GlobalInitBuilds(mem, start, limit, c);
    m, b := RunKeeps(Machine(s, []), b0, g, c, ops);
  }

  // ---- Processes do not see each other's steps ----

  lemma StepIsolated(m: Machine, b: Book, g: Globals, c: Config, op: Op, q: nat, va: int)
    requires MachineInv(m, b, g, c) && Sane(c) && Step(m, g, c, op).Some?
    requires q < |m.procs| && PrivateAddr(va) && (op.Boot? || op.p != q)
    ensures SameView(m.phys, Step(m, g, c, op).value.phys, m.procs[q].pd, va)
  {
    var s', pd := Step(m, g, c, op).value.phys, m.procs[q].pd;
    if !op.Boot? && op.p >= |m.procs| {
      return;
    }
    match op
    case Boot(init) =>
      var s, b', child := CoreInitBuilds(m.phys, b, g, c);
      GrowsView(m.phys, b, s, b', iset{}, pd, va);
    case Mmap(_, _, _) =>
    case Munmap(p, addr) =>
      RemoveExact(m.procs[p].regions, addr);
      if PrivateAddr(addr) && RemoveVme(m.procs[p].regions, addr).Some? {
        var (rs, r) := RemoveVme(m.procs[p].regions, addr).value;
        OtherUnmap(m.phys, b, m.procs[p].pd, r, pd, va);
      }
    case Fault(p, vb) =>
      ContainsRangeExact(m.procs[p].regions, vb, vb);
      if ContainsRange(m.procs[p].regions, vb, vb) {
        OtherFault(m.phys, b, m.procs[p], vb, pd, va);
      }
    case StoreWord(p, vb, w) =>
      if PrivateAddr(vb) {
        var s := UserStoreKeeps(m.phys, b, m.procs[p].pd, vb, w);
      }
    case ForkProc(p) =>
      var s, b', child := ForkExact(m.phys, b, c, m.procs[p].pd);
    case Exit(p) =>
      var b' := FreeSpaceExact(m.phys, b, m.procs[p].pd);
  }

  lemma OtherUnmap(s: Phys, b: Book, pd: int, r: Region, q: int, va: int)
    requires Settled(s, b) && Owns(b, pd, Dir) && Owns(b, q, Dir) && q != pd && PrivateAddr(va) && Mappable(r)
    ensures SameView(s, Unmap(s, pd, r.start, r.End()), q, va)
  {
    assert r.End() == r.start + r.size;
    var b' := UnmapExact(s, b, pd, r.start, r.End());
  }

  lemma OtherFault(s: Phys, b: Book, p: Proc, vb: int, q: int, va: int)
    requires Settled(s, b) && Owns(b, p.pd, Dir) && Owns(b, q, Dir) && q != p.pd && PrivateAddr(va) && Wf(p.regions)
    requires Covered(p.regions, vb) && MapPage(s, p.pd, vb).Some?
    ensures SameView(s, MapPage(s, p.pd, vb).value, q, va)
  {
    var k :| 0 <= k < |p.regions| && Covers(p.regions[k], vb);
    assert Mappable(p.regions[k]);
    var s', b' := FaultExact(s, b, p.pd, vb);
  }
}

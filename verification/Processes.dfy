/** What processes see of the machine.

    To a process its address space is a list of regions and a memory.  Frames, directories, tables and the
    free list do not occur.  Every step of the machine is a step of such processes, each of which acts on
    itself alone.
 */
module Processes {
  import opened Words
  import opened Wrappers
  import opened PhysMem
  import opened Ownership
  import opened Paging
  import opened Unmapping
  import opened Startup
  import opened Views
  import opened Regions
  import opened AddressSpaces

  /** The private addresses that are mapped, each with the word that is read there. */
  datatype Space = Space(regions: seq<Region>, memory: imap<int, int>)

  ghost function Memory(s: Phys, pd: int): imap<int, int> {
    imap va | PrivateAddr(va) && Translate(s, pd, va).Some? :: ReadWord(s, pd, va)
  }

  ghost function SpaceOf(s: Phys, q: Proc): Space {
    Space(q.regions, Memory(s, q.pd))
  }

  ghost function Spaces(m: Machine): seq<Space> {
    seq(|m.procs|, k requires 0 <= k < |m.procs| => SpaceOf(m.phys, m.procs[k]))
  }

  // ---- The steps, as processes see them ----

  /** A page of zeros where there was none. */
  ghost function Touched(memory: imap<int, int>, va: int): imap<int, int> {
    imap x | x in memory || (PrivateAddr(x) && x / 4096 == va / 4096) :: if x in memory then memory[x] else 0
  }

  ghost function Without(memory: imap<int, int>, r: Region): imap<int, int> {
    imap x | x in memory && !Covers(r, x) :: memory[x]
  }

  ghost function Stored(memory: imap<int, int>, va: int, w: int): imap<int, int> {
    imap x | x in memory :: if x / 4 == va / 4 then w else memory[x]
  }

  /** What a step of a process makes of its space. */
  ghost function Own(q: Space, op: Op): Space {
    match op
    case Mmap(_, addr, size) => q.(regions := MmapCall(q.regions, addr % WORD_LIMIT, size % WORD_LIMIT).0)
    case Munmap(_, addr) =>
      if !PrivateAddr(addr) || RemoveVme(q.regions, addr).None? then q
      else var (rs, r) := RemoveVme(q.regions, addr).value; Space(rs, Without(q.memory, r))
    case Fault(_, va) => if Covered(q.regions, va) then q.(memory := Touched(q.memory, va)) else q
    case StoreWord(_, va, w) => if va in q.memory then q.(memory := Stored(q.memory, va, w)) else q
    case _ => q
  }

  /** The first process starts with a stack of a megabyte below 0xF0000000, a child as a copy of its parent. */
  ghost function Seen(qs: seq<Space>, op: Op): seq<Space> {
    match op
    case Boot(init) => if init then qs + [Space([Region(0xEFF0_0000, 0x10_0000)], imap[])] else qs
    case ForkProc(p) => if p < |qs| then qs + [qs[p]] else qs
    case Exit(p) => if p < |qs| then qs[..p] + qs[p + 1..] else qs
    case _ => if op.p < |qs| then qs[op.p := Own(qs[op.p], op)] else qs
  }

  // ---- Each step ----

  lemma SameMemory(s: Phys, s': Phys, pd: int)
    requires forall va :: PrivateAddr(va) ==> SameView(s, s', pd, va)
    ensures Memory(s', pd) == Memory(s, pd)
  {
    forall va ensures va in Memory(s', pd) <==> va in Memory(s, pd) {
      if PrivateAddr(va) { assert SameView(s, s', pd, va); }
    }
    forall va | va in Memory(s, pd) ensures Memory(s', pd)[va] == Memory(s, pd)[va] {
      assert SameView(s, s', pd, va);
    }
  }

  /** The processes that do not take the step are as they were. */
  lemma OthersSame(m: Machine, b: Book, g: Globals, c: Config, op: Op, k: nat)
    requires MachineInv(m, b, g, c) && Sane(c) && Step(m, g, c, op).Some? && k < |m.procs| && (op.Boot? || op.p != k)
    ensures Memory(Step(m, g, c, op).value.phys, m.procs[k].pd) == Memory(m.phys, m.procs[k].pd)
  {
    forall va | PrivateAddr(va) ensures SameView(m.phys, Step(m, g, c, op).value.phys, m.procs[k].pd, va) {
      StepIsolated(m, b, g, c, op, k, va);
    }
    SameMemory(m.phys, Step(m, g, c, op).value.phys, m.procs[k].pd);
  }

  lemma StackOnly()
    ensures AddVme([], STACK.start, STACK.size).0 == [Region(0xEFF0_0000, 0x10_0000)]
  {
  }

  lemma BootSeen(m: Machine, b: Book, g: Globals, c: Config, init: bool)
    requires MachineInv(m, b, g, c) && Sane(c) && Step(m, g, c, Boot(init)).Some?
    ensures Spaces(Step(m, g, c, Boot(init)).value) == Seen(Spaces(m), Boot(init))
  {
    var m' := Step(m, g, c, Boot(init)).value;
    var s, b', pd := CoreInitBuilds(m.phys, b, g, c);
    forall k: nat | k < |m.procs| ensures SpaceOf(m'.phys, m'.procs[k]) == SpaceOf(m.phys, m.procs[k]) {
      OthersSame(m, b, g, c, Boot(init), k);
    }
    StackOnly();
    EmptyMemory(s, pd);
    if init { OneMore(m, m', Space([Region(0xEFF0_0000, 0x10_0000)], imap[])); }
  }

  lemma EmptyMemory(s: Phys, pd: int)
    requires forall k :: Private(k) ==> !HasTable(s, pd, k)
    ensures Memory(s, pd) == imap[]
  {
    forall va ensures va !in Memory(s, pd) {
      if PrivateAddr(va) { PrivateSlots(va); }
    }
  }

  /** A step of process p that keeps the others: the list changes in one place. */
  lemma OneSeen(m: Machine, b: Book, g: Globals, c: Config, op: Op, q: Space)
    requires MachineInv(m, b, g, c) && Sane(c) && Step(m, g, c, op).Some? && !op.Boot? && op.p < |m.procs|
    requires var m' := Step(m, g, c, op).value;
             && |m'.procs| == |m.procs| && SpaceOf(m'.phys, m'.procs[op.p]) == q
             && forall k :: 0 <= k < |m.procs| && k != op.p ==> m'.procs[k] == m.procs[k]
    ensures Spaces(Step(m, g, c, op).value) == Spaces(m)[op.p := q]
  {
    var m' := Step(m, g, c, op).value;
    forall k: nat | k < |m.procs| && k != op.p ensures SpaceOf(m'.phys, m'.procs[k]) == SpaceOf(m.phys, m.procs[k]) {
      OthersSame(m, b, g, c, op, k);
    }
    OneChanged(m, m', op.p, q);
  }

  lemma OneChanged(m: Machine, m': Machine, p: nat, q: Space)
    requires p < |m.procs| == |m'.procs| && SpaceOf(m'.phys, m'.procs[p]) == q
    requires forall k :: 0 <= k < |m.procs| && k != p ==> SpaceOf(m'.phys, m'.procs[k]) == SpaceOf(m.phys, m.procs[k])
    ensures Spaces(m') == Spaces(m)[p := q]
  {
  }

  lemma MunmapOwn(s: Phys, b: Book, pd: int, r: Region)
    requires Settled(s, b) && Owns(b, pd, Dir) && Mappable(r)
    ensures Memory(Unmap(s, pd, r.start, r.End()), pd) == Without(Memory(s, pd), r)
  {
    MappableBounds(r);
    var b' := UnmapExact(s, b, pd, r.start, r.End());
    LessMemory(s, Unmap(s, pd, r.start, r.End()), pd, r);
  }

  lemma LessMemory(s: Phys, s': Phys, pd: int, r: Region)
    requires forall va :: Covers(r, va) ==> Translate(s', pd, va) == None
    requires forall va :: PrivateAddr(va) && !Covers(r, va) ==> SameView(s, s', pd, va)
    ensures Memory(s', pd) == Without(Memory(s, pd), r)
  {
    forall va | PrivateAddr(va) && !Covers(r, va)
      ensures va in Memory(s', pd) <==> va in Memory(s, pd)
      ensures va in Memory(s, pd) ==> Memory(s', pd)[va] == Memory(s, pd)[va]
    {
      assert SameView(s, s', pd, va);
    }
  }

  lemma FaultOwn(s: Phys, b: Book, pd: int, va: int)
    requires Settled(s, b) && Owns(b, pd, Dir) && PrivateAddr(va) && MapPage(s, pd, va).Some?
    ensures Memory(MapPage(s, pd, va).value, pd) == Touched(Memory(s, pd), va)
  {
    var s', b' := FaultExact(s, b, pd, va);
    forall x | PrivateAddr(x)
      ensures x in Memory(s', pd) <==> x in Touched(Memory(s, pd), va)
      ensures x in Memory(s', pd) ==> Memory(s', pd)[x] == Touched(Memory(s, pd), va)[x]
    {
      FaultAt(s, b, s', b', pd, va, x);
    }
  }

  /** The page that a fault maps is new throughout, or was there. */
  lemma FaultAt(s: Phys, b: Book, s': Phys, b': Book, pd: int, va: int, x: int)
    requires Settled(s, b) && Owns(b, pd, Dir) && PrivateAddr(va) && PrivateAddr(x) && MapPage(s, pd, va) == Some(s')
    ensures x / FRAME_SIZE != va / FRAME_SIZE ==> SameView(s, s', pd, x)
    ensures x / FRAME_SIZE == va / FRAME_SIZE ==>
              && Translate(s', pd, x).Some?
              && ReadWord(s', pd, x) == if Translate(s, pd, x).Some? then ReadWord(s, pd, x) else 0
  {
    if x / FRAME_SIZE == va / FRAME_SIZE {
      SamePageSlots(va, x);
      var s1, b1 := FaultExact(s, b, pd, x);
      assert MapPage(s, pd, x) == MapPage(s, pd, va);
      if Translate(s, pd, x).Some? {
        assert SameView(s, s1, pd, x);
      }
    } else {
      var s1, b1 := FaultExact(s, b, pd, va);
    }
  }

  lemma SamePageSlots(va: int, x: int)
    requires 0 <= va && 0 <= x && x / FRAME_SIZE == va / FRAME_SIZE
    ensures Pdi(x) == Pdi(va) && Pti(x) == Pti(va)
  {
    PageNumber(va);
    PageNumber(x);
  }

  lemma StoreOwn(s: Phys, b: Book, pd: int, va: int, w: int)
    requires Settled(s, b) && Owns(b, pd, Dir) && PrivateAddr(va)
    ensures Memory(UserStore(s, pd, va, w), pd) ==
            if va in Memory(s, pd) then Stored(Memory(s, pd), va, w) else Memory(s, pd)
  {
    var s' := UserStoreKeeps(s, b, pd, va, w);
    if va in Memory(s, pd) {
      StoredMemory(s, s', pd, va, w);
    }
  }

  lemma StoredMemory(s: Phys, s': Phys, pd: int, va: int, w: int)
    requires PrivateAddr(va) && ReadWord(s', pd, va) == w
    requires forall x :: PrivateAddr(x) ==> Translate(s', pd, x) == Translate(s, pd, x)
    requires forall x :: PrivateAddr(x) && x / 4 != va / 4 ==> SameView(s, s', pd, x)
    ensures Memory(s', pd) == Stored(Memory(s, pd), va, w)
  {
    forall x | x in Memory(s, pd) ensures x in Memory(s', pd) && Memory(s', pd)[x] == Stored(Memory(s, pd), va, w)[x] {
      if x / 4 == va / 4 {
        SameWordRead(s', pd, va, x);
      } else {
        assert SameView(s, s', pd, x);
      }
    }
    forall x | x in Memory(s', pd) ensures x in Memory(s, pd) {
    }
  }

  lemma SameWordRead(s: Phys, pd: int, va: int, x: int)
    requires 0 <= va && 0 <= x && x / 4 == va / 4
    ensures ReadWord(s, pd, x) == ReadWord(s, pd, va)
  {
    SameWordPlace(va, x);
    SamePageSlots(va, x);
  }

  lemma SameWordPlace(va: int, x: int)
    requires x / 4 == va / 4
    ensures x / FRAME_SIZE == va / FRAME_SIZE && x % FRAME_SIZE / 4 == va % FRAME_SIZE / 4
  {
    assert va / FRAME_SIZE == va / 4 / 1024 && x / FRAME_SIZE == x / 4 / 1024;
    assert va % FRAME_SIZE / 4 == va / 4 - 1024 * (va / FRAME_SIZE);
    assert x % FRAME_SIZE / 4 == x / 4 - 1024 * (x / FRAME_SIZE);
  }

  /** The child's memory is the parent's, and nobody else's changes. */
  lemma ForkMemory(s: Phys, b: Book, c: Config, pd: int) returns (s': Phys, child: int)
    requires Settled(s, b) && Owns(b, pd, Dir) && Sane(c) && Fork(s, c, pd).Some?
    ensures Fork(s, c, pd) == Some((s', child)) && Memory(s', child) == Memory(s, pd)
    ensures forall p :: Owns(b, p, Dir) ==> Memory(s', p) == Memory(s, p)
  {
    var b';
    s', b', child := ForkExact(s, b, c, pd);
    forall p | Owns(b, p, Dir) ensures Memory(s', p) == Memory(s, p) {
      SameMemory(s, s', p);
    }
    CopiedMemory(s, s', pd, child);
  }

  lemma CopiedMemory(s: Phys, s': Phys, pd: int, child: int)
    requires forall va :: PrivateAddr(va) ==> (Translate(s', child, va).Some? <==> Translate(s, pd, va).Some?)
    requires forall va :: PrivateAddr(va) && Translate(s, pd, va).Some? ==>
               ReadWord(s', child, va) == ReadWord(s, pd, va)
    ensures Memory(s', child) == Memory(s, pd)
  {
    forall va | PrivateAddr(va) ensures va in Memory(s', child) <==> va in Memory(s, pd) {
    }
  }

  lemma ForkSeen(m: Machine, b: Book, g: Globals, c: Config, p: nat)
    requires MachineInv(m, b, g, c) && Sane(c) && Step(m, g, c, ForkProc(p)).Some? && p < |m.procs|
    ensures Spaces(Step(m, g, c, ForkProc(p)).value) == Spaces(m) + [Spaces(m)[p]]
  {
    var q := m.procs[p];
    var s, child := ForkMemory(m.phys, b, c, q.pd);
    assert q.regions + [] == q.regions;
    DeepCopyIs(q.regions, []);
    OneMore(m, Step(m, g, c, ForkProc(p)).value, SpaceOf(m.phys, q));
  }

  lemma OneMore(m: Machine, m': Machine, q: Space)
    requires |m'.procs| == |m.procs| + 1 && SpaceOf(m'.phys, m'.procs[|m.procs|]) == q
    requires forall k :: 0 <= k < |m.procs| ==> SpaceOf(m'.phys, m'.procs[k]) == SpaceOf(m.phys, m.procs[k])
    ensures Spaces(m') == Spaces(m) + [q]
  {
  }

  lemma ExitSeen(m: Machine, b: Book, g: Globals, c: Config, p: nat)
    requires MachineInv(m, b, g, c) && Sane(c) && p < |m.procs|
    ensures Spaces(Step(m, g, c, Exit(p)).value) == Spaces(m)[..p] + Spaces(m)[p + 1..]
  {
    var m' := Step(m, g, c, Exit(p)).value;
    forall k: nat | k < |m.procs| && k != p ensures SpaceOf(m'.phys, m.procs[k]) == SpaceOf(m.phys, m.procs[k]) {
      OthersSame(m, b, g, c, Exit(p), k);
    }
    OneLess(m, m', p);
  }

  lemma OneLess(m: Machine, m': Machine, p: nat)
    requires p < |m.procs| && m'.procs == m.procs[..p] + m.procs[p + 1..]
    requires forall k :: 0 <= k < |m.procs| && k != p ==> SpaceOf(m'.phys, m.procs[k]) == SpaceOf(m.phys, m.procs[k])
    ensures Spaces(m') == Spaces(m)[..p] + Spaces(m)[p + 1..]
  {
  }

  lemma MunmapSeen(m: Machine, b: Book, g: Globals, c: Config, op: Op)
    requires MachineInv(m, b, g, c) && Sane(c) && op.Munmap? && op.p < |m.procs|
    ensures Spaces(Step(m, g, c, op).value) == Spaces(m)[op.p := Own(Spaces(m)[op.p], op)]
  {
    var q := m.procs[op.p];
    RemoveExact(q.regions, op.addr);
    if PrivateAddr(op.addr) && RemoveVme(q.regions, op.addr).Some? {
      var (rs, r) := RemoveVme(q.regions, op.addr).value;
      MunmapOwn(m.phys, b, q.pd, r);
    }
    OneSeen(m, b, g, c, op, Own(Spaces(m)[op.p], op));
  }

  lemma FaultSeen(m: Machine, b: Book, g: Globals, c: Config, op: Op)
    requires MachineInv(m, b, g, c) && Sane(c) && op.Fault? && op.p < |m.procs| && Step(m, g, c, op).Some?
    ensures Spaces(Step(m, g, c, op).value) == Spaces(m)[op.p := Own(Spaces(m)[op.p], op)]
  {
    var q := m.procs[op.p];
    ContainsRangeExact(q.regions, op.va, op.va);
    if Covered(q.regions, op.va) {
      var k :| 0 <= k < |q.regions| && Covers(q.regions[k], op.va);
      assert Mappable(q.regions[k]);
      FaultOwn(m.phys, b, q.pd, op.va);
    }
    OneSeen(m, b, g, c, op, Own(Spaces(m)[op.p], op));
  }

  lemma StoreSeen(m: Machine, b: Book, g: Globals, c: Config, op: Op)
    requires MachineInv(m, b, g, c) && Sane(c) && op.StoreWord? && op.p < |m.procs|
    ensures Spaces(Step(m, g, c, op).value) == Spaces(m)[op.p := Own(Spaces(m)[op.p], op)]
  {
    if PrivateAddr(op.va) {
      StoreOwn(m.phys, b, m.procs[op.p].pd, op.va, op.w);
    }
    OneSeen(m, b, g, c, op, Own(Spaces(m)[op.p], op));
  }

  lemma MmapSeen(m: Machine, b: Book, g: Globals, c: Config, op: Op)
    requires MachineInv(m, b, g, c) && Sane(c) && op.Mmap? && op.p < |m.procs|
    ensures Spaces(Step(m, g, c, op).value) == Spaces(m)[op.p := Own(Spaces(m)[op.p], op)]
  {
    OneSeen(m, b, g, c, op, Own(Spaces(m)[op.p], op));
  }

  lemma NobodySeen(m: Machine, g: Globals, c: Config, op: Op)
    requires !op.Boot? && op.p >= |m.procs|
    ensures Step(m, g, c, op) == Some(m) && Seen(Spaces(m), op) == Spaces(m)
  {
  }

  /** A step of the machine is a step of its processes. */
  lemma StepSeen(m: Machine, b: Book, g: Globals, c: Config, op: Op)
    requires MachineInv(m, b, g, c) && Sane(c) && Step(m, g, c, op).Some?
    ensures Spaces(Step(m, g, c, op).value) == Seen(Spaces(m), op)
  {
    if !op.Boot? && op.p >= |m.procs| {
      NobodySeen(m, g, c, op);
      return;
    }
    match op
    case Boot(init) => BootSeen(m, b, g, c, init);
    case Mmap(_, _, _) => MmapSeen(m, b, g, c, op);
    case Munmap(_, _) => MunmapSeen(m, b, g, c, op);
    case Fault(_, _) => FaultSeen(m, b, g, c, op);
    case StoreWord(_, _, _) => StoreSeen(m, b, g, c, op);
    case ForkProc(p) => ForkSeen(m, b, g, c, p);
    case Exit(p) => ExitSeen(m, b, g, c, p);
  }

  // ---- Every run ----

  ghost function SeenThrough(qs: seq<Space>, ops: seq<Op>): seq<Space>
    decreases |ops|
  {
    if ops == [] then qs else SeenThrough(Seen(qs, ops[0]), ops[1..])
  }

  lemma {:induction false} RunSeen(m: Machine, b: Book, g: Globals, c: Config, ops: seq<Op>)
    requires MachineInv(m, b, g, c) && Sane(c) && Run(m, g, c, ops).Some?
    ensures Spaces(Run(m, g, c, ops).value) == SeenThrough(Spaces(m), ops)
    decreases |ops|
  {
    if ops != [] {
      StepSeen(m, b, g, c, ops[0]);
      var m1, b1 := StepKeeps(m, b, g, c, ops[0]);
      RunSeen(m1, b1, g, c, ops[1..]);
    }
  }

  /** Over every run from power-on the processes are what their own steps made of them: physical memory is
      never seen. */
  lemma EveryRunSeen(mem: seq<seq<int>>, start: int, limit: int, c: Config, ops: seq<Op>)
    requires 0 < start <= limit <= |mem| <= MAX_FRAMES && (forall f :: 0 <= f < |mem| ==> |mem[f]| == WORDS) && Sane(c)
    requires var i := GlobalInit(Phys(mem, 0, start, limit), c);
             i.Some? && Run(Machine(i.value.0, []), i.value.1, c, ops).Some?
    ensures var i := GlobalInit(Phys(mem, 0, start, limit), c);
            Spaces(Run(Machine(i.value.0, []), i.value.1, c, ops).value) == SeenThrough([], ops)
  {
    var s, b, g := GlobalInitBuilds(mem, start, limit, c);
    RunSeen(Machine(s, []), b, g, c, ops);
  }
}

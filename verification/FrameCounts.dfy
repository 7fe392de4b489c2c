/** When the kernel runs out of frames: each step succeeds exactly when as many are left as it needs. */
module FrameCounts {
  import opened PhysMem
  import opened Ownership
  import opened Paging
  import opened Mapping
  import opened Forking
  import opened Startup
  import opened Views
  import opened Regions
  import opened AddressSpaces

  // ---- Page fault ----

  /** A table if there is none, and a page if there is none. */
  function FaultNeeds(s: Phys, pd: int, va: int): int {
    (if HasTable(s, pd, Pdi(va)) then 0 else 1) + if HasPage(s, pd, Pdi(va), Pti(va)) then 0 else 1
  }

  lemma FaultWhen(s: Phys, b: Book, pd: int, va: int)
    requires Inv(s, b) && Owns(b, pd, Dir) && PrivateAddr(va)
    ensures MapPage(s, pd, va).Some? <==> FaultNeeds(s, pd, va) <= Left(s, b)
  {
    PrivateSlots(va);
    AllocWhen(s, b);
    var i, j := Pdi(va), Pti(va);
    if !HasTable(s, pd, i) && AllocFrame(s).Some? {
      var b1 := AddTable(s, b, pd, i);
      var s1 := EnsureTable(s, pd, i).value;
      AllocWhen(s1, b1);
      assert !HasPage(s1, pd, i, j);
    }
  }

  // ---- Fork ----

  lemma {:induction false} PagesWhen(s: Phys, b: Book, pd: int, child: int, i: int, j: int)
    requires Inv(s, b)
    requires Owns(b, pd, Dir) && Owns(b, child, Dir) && pd != child && Private(i) && 0 <= j
    requires HasTable(s, pd, i) && HasTable(s, child, i)
    requires forall l :: j <= l < WORDS ==> !HasPage(s, child, i, l)
    ensures ForkPages(s, TableAt(s, pd, i), TableAt(s, child, i), j).Some? <==> PageCount(s, pd, i, j) <= Left(s, b)
    decreases WORDS - j
  {
    AllocWhen(s, b);
    if j < WORDS {
      if !HasPage(s, pd, i, j) {
        PagesWhen(s, b, pd, child, i, j + 1);
      } else if AllocFrame(s).Some? {
        var s1, b1 := ForkPage(s, b, pd, child, i, j);
        TablesStay(s, b, s1, b1, pd, child, i, j);
        ForkPagesNext(s, TableAt(s, pd, i), TableAt(s, child, i), j, s1);
        PageCountStays(s, b, s1, b1, pd, child, i, j);
        PagesWhen(s1, b1, pd, child, i, j + 1);
      }
    }
  }

  lemma SlotWhen(s: Phys, b: Book, pd: int, child: int, i: int)
    requires Inv(s, b)
    requires Owns(b, pd, Dir) && Owns(b, child, Dir) && pd != child && Private(i) && !HasTable(s, child, i)
    ensures ForkSlot(s, pd, child, i).Some? <==> SlotCount(s, pd, i) <= Left(s, b)
  {
    AllocWhen(s, b);
    if HasTable(s, pd, i) && AllocFrame(s).Some? {
      var (s0, t) := AllocFrame(s).value;
      var s1 := Store(s0, child, i, Entry(t, TABLE_FLAGS));
      var b1 := AddTable(s, b, child, i);
      assert Owns(b1, pd, Dir) && Owns(b1, child, Dir) && HasTable(s1, child, i) && HasTable(s1, pd, i);
      PagesWhen(s1, b1, pd, child, i, 0);
      TableCountStays(s, b, s1, b1, pd, child, i);
      ForkSlotIs(s, pd, child, i, s1);
    }
  }

  /** How many frames the private slots of pd take from slot i on. */
  function SpaceCount(s: Phys, pd: int, i: int): nat
    decreases LAST_PDI - i
  {
    if i >= LAST_PDI then 0 else SlotCount(s, pd, i) + SpaceCount(s, pd, i + 1)
  }

  lemma {:induction false} SameSpaceCount(s: Phys, s': Phys, pd: int, i: int)
    requires FIRST_PDI <= i
    requires forall k :: i <= k < LAST_PDI ==> (HasTable(s', pd, k) <==> HasTable(s, pd, k))
    requires forall k, l :: i <= k < LAST_PDI ==> (HasPage(s', pd, k, l) <==> HasPage(s, pd, k, l))
    ensures SpaceCount(s', pd, i) == SpaceCount(s, pd, i)
    decreases LAST_PDI - i
  {
    if i < LAST_PDI {
      SamePageCount(s, s', pd, i, 0);
      SameSpaceCount(s, s', pd, i + 1);
    }
  }

  lemma SpaceCountStays(s: Phys, b: Book, s': Phys, b': Book, more: iset<Owner>, pd: int, i: int)
    requires Grows(s, b, s', b', more) && Owns(b, pd, Dir) && FIRST_PDI <= i
    requires forall k :: Table(pd, k) !in more
    requires forall k, l :: Data(pd, k, l) !in more
    ensures SpaceCount(s', pd, i) == SpaceCount(s, pd, i)
  {
    SameSpaceCount(s, s', pd, i);
  }

  lemma {:induction false} SlotsWhen(s: Phys, b: Book, pd: int, child: int, i: int)
    requires Inv(s, b)
    requires Owns(b, pd, Dir) && Owns(b, child, Dir) && pd != child && FIRST_PDI <= i <= LAST_PDI
    requires forall k :: i <= k < LAST_PDI ==> !HasTable(s, child, k)
    ensures ForkFrom(s, pd, child, i).Some? <==> SpaceCount(s, pd, i) <= Left(s, b)
    decreases LAST_PDI - i
  {
    AllocWhen(s, b);
    if i < LAST_PDI {
      SlotWhen(s, b, pd, child, i);
      if ForkSlot(s, pd, child, i).Some? {
        var s1, b1 := ForkSlotCopy(s, b, pd, child, i);
        ForkFromIs(s, pd, child, i, s1);
        assert Owns(b1, pd, Dir) && Owns(b1, child, Dir);
        SpaceCountStays(s, b, s1, b1, Copies(s, pd, child, i, i + 1), pd, i + 1);
        SlotsWhen(s1, b1, pd, child, i + 1);
      }
    }
  }

  lemma {:induction false} ShareFromLeft(s: Phys, b: Book, pd: int, child: int, i: int, hi: int)
    ensures Left(ShareFrom(s, pd, child, i, hi), b) == Left(s, b)
    decreases hi - i
  {
    if i < hi {
      ShareFromLeft(if HasTable(s, pd, i) then Store(s, child, i, Load(s, pd, i)) else s, b, pd, child, i + 1, hi);
    }
  }

  /** fork needs a directory, and a frame for each table and page of its parent's. */
  lemma ForkWhen(s: Phys, b: Book, c: Config, pd: int)
    requires Inv(s, b) && Owns(b, pd, Dir) && Sane(c)
    ensures Fork(s, c, pd).Some? <==> 1 + SpaceCount(s, pd, FIRST_PDI) <= Left(s, b)
  {
    AllocWhen(s, b);
    if AllocFrame(s).Some? {
      var s1, b1, child := NewDir(s, b);
      var s2 := ShareFromKeeps(s, b, s1, b1, pd, child, 0, MemPdes(c));
      ShareFromLeft(s1, b1, pd, child, 0, MemPdes(c));
      assert Owns(b1, pd, Dir);
      SpaceCountStays(s, b, s2, b1, iset{}, pd, FIRST_PDI);
      SlotsWhen(s2, b1, pd, child, FIRST_PDI);
    }
  }

  // ---- Steps ----

  /** The frames that a step needs. */
  function Needs(m: Machine, op: Op): int {
    match op
    case Boot(_) => 1
    case Fault(p, va) =>
      if p < |m.procs| && ContainsRange(m.procs[p].regions, va, va) then FaultNeeds(m.phys, m.procs[p].pd, va) else 0
    case ForkProc(p) => if p < |m.procs| then 1 + SpaceCount(m.phys, m.procs[p].pd, FIRST_PDI) else 0
    case _ => 0
  }

  /** In every state of every run a step succeeds exactly when the frames that it needs are left. */
  lemma StepWhen(m: Machine, b: Book, g: Globals, c: Config, op: Op)
    requires MachineInv(m, b, g, c) && Sane(c)
    ensures Step(m, g, c, op).Some? <==> Needs(m, op) <= Left(m.phys, b)
  {
    AllocWhen(m.phys, b);
    if !op.Boot? && op.p >= |m.procs| {
      return;
    }
    match op
    case Fault(p, va) =>
      var q := m.procs[p];
      ContainsRangeExact(q.regions, va, va);
      if ContainsRange(q.regions, va, va) {
        assert Covered(q.regions, va);
        var k :| 0 <= k < |q.regions| && Covers(q.regions[k], va);
        assert Mappable(q.regions[k]);
        FaultWhen(m.phys, b, q.pd, va);
      }
    case ForkProc(p) => ForkWhen(m.phys, b, c, m.procs[p].pd);
    case _ =>
  }
}

/** Building the first address spaces, and the kernel's identity mapping that every one of them keeps. */
module Startup {
  import opened Wrappers
  import opened PhysMem
  import opened Ownership
  import opened Paging
  import opened Mapping
  import opened Unmapping
  import opened Forking

  const KERNEL_TABLES := 32
  const KERNEL_PAGE := 0x103
  const KERNEL_TABLE := 0x3
  const APIC_PAGE := 0x113
  const APIC_TABLE := 0x13

  /** The frames of the shared table, the shared page, the APIC table and the kernel tables. */
  datatype Globals = Globals(sharedPt: int, sharedFrame: int, apicPt: int, kernelPt: seq<int>)

  /** Words of the i-th kernel table: page j is mapped to itself; page 0 of memory is not mapped. */
  function IdentityWords(i: int): seq<int> {
    seq(WORDS, j => if i == 0 && j == 0 then 0 else Entry(i * WORDS + j, KERNEL_PAGE))
  }

  function KernelTables(s: Phys, i: int): Option<(Phys, seq<int>)>
    decreases KERNEL_TABLES - i
  {
    if i >= KERNEL_TABLES then Some((s, [])) else
      var (s1, t) :- AllocFrame(s);
      var (s2, ts) :- KernelTables(Fill(s1, t, IdentityWords(i)), i + 1);
      Some((s2, [t] + ts))
  }

  function GlobalInit(s: Phys, c: Config): Option<(Phys, Globals)> {
    var (s1, shared) :- AllocFrame(s);
    var (s2, frame) :- AllocFrame(s1);
    var s3 := Store(s2, shared, 0, Entry(frame, PAGE_FLAGS));
    var (s4, apic) :- AllocFrame(s3);
    var s5 := Store(s4, apic, c.localApic % WORDS, Entry(c.localApic, APIC_PAGE));
    var s6 := Store(s5, apic, c.ioApic % WORDS, Entry(c.ioApic, APIC_PAGE));
    var (s7, kernel) :- KernelTables(s6, 0);
    Some((s7, Globals(shared, frame, apic, kernel)))
  }

  function KernelEntries(s: Phys, pd: int, kernelPt: seq<int>, i: int): Phys
    decreases |kernelPt| - i
  {
    if 0 <= i < |kernelPt| then
      KernelEntries(Store(s, pd, i, Entry(kernelPt[i], KERNEL_TABLE)), pd, kernelPt, i + 1)
    else s
  }

  /** A new address space; yields the new memory and its directory. */
  function CoreInit(s: Phys, g: Globals, c: Config): Option<(Phys, int)> {
    var (s1, pd) :- AllocFrame(s);
    var s2 := KernelEntries(s1, pd, g.kernelPt, 0);
    var s3 := Store(s2, pd, c.ApicPdi(), Entry(g.apicPt, APIC_TABLE));
    Some((Store(s3, pd, LAST_PDI, Entry(g.sharedPt, TABLE_FLAGS)), pd))
  }

  // ---- What start-up establishes ----

  /** The kernel tables are global frames holding the identity mapping. */
  ghost predicate KernelTable(s: Phys, b: Book, t: int, i: int) {
    Owns(b, t, Global) && forall j :: 0 <= j < WORDS ==> Load(s, t, j) == IdentityWords(i)[j]
  }

  /** Directory pd has the first n kernel tables in their places. */
  ghost predicate KernelMapped(s: Phys, g: Globals, pd: int, n: int) {
    forall i :: 0 <= i < n && i < |g.kernelPt| ==> Load(s, pd, i) == Entry(g.kernelPt[i], KERNEL_TABLE)
  }

  /** The shared table maps one page. */
  ghost predicate SharedTable(s: Phys, b: Book, g: Globals) {
    && Owns(b, g.sharedPt, Global) && Owns(b, g.sharedFrame, Global)
    && (forall j :: 0 <= j < WORDS ==> Load(s, g.sharedPt, j) == if j == 0 then Entry(g.sharedFrame, PAGE_FLAGS) else 0)
  }

  /** Outside the private range directory pd opens nothing to user code but the shared table, and below it
      maps nothing beyond the kernel tables. */
  ghost predicate Guarded(s: Phys, g: Globals, pd: int) {
    && Load(s, pd, LAST_PDI) == Entry(g.sharedPt, TABLE_FLAGS)
    && (forall k :: KERNEL_TABLES <= k < FIRST_PDI ==> Load(s, pd, k) == 0)
    && (forall k :: !Private(k) && k != LAST_PDI ==> !UserBit(Load(s, pd, k)))
  }

  /** The table for the interrupt controllers maps their two frames; the second entry wins. */
  ghost predicate ApicTable(s: Phys, b: Book, g: Globals, c: Config) {
    Owns(b, g.apicPt, Global) && forall j :: 0 <= j < WORDS ==> Load(s, g.apicPt, j) == ApicWord(c, j)
  }

  function ApicWord(c: Config, j: int): int {
    if j == c.ioApic % WORDS then Entry(c.ioApic, APIC_PAGE)
    else if j == c.localApic % WORDS then Entry(c.localApic, APIC_PAGE)
    else 0
  }

  /** Directory pd has that table in its place. */
  ghost predicate ApicMapped(s: Phys, g: Globals, c: Config, pd: int) {
    Load(s, pd, c.ApicPdi()) == Entry(g.apicPt, APIC_TABLE)
  }

  /** Every address space maps the kernel's tables, up to the whole 4 MB that memory covers, and guards
      them. */
  ghost predicate KernelInv(s: Phys, b: Book, g: Globals, c: Config) {
    && |g.kernelPt| == KERNEL_TABLES
    && (forall i :: 0 <= i < KERNEL_TABLES ==> KernelTable(s, b, g.kernelPt[i], i))
    && (forall pd :: Owns(b, pd, Dir) ==>
          KernelMapped(s, g, pd, MemPdes(c)) && Guarded(s, g, pd) && ApicMapped(s, g, c, pd))
    && SharedTable(s, b, g) && ApicTable(s, b, g, c)
  }

  /** Taking a frame for good. */
  lemma NewGlobal(s: Phys, b: Book, words: seq<int>) returns (s': Phys, b': Book, f: int)
    requires Settled(s, b) && AllocFrame(s).Some? && |words| == WORDS
    ensures var (s1, t) := AllocFrame(s).value; f == t && s' == Fill(s1, t, words) && 0 <= f < |s.mem|
    ensures Settled(s', b') && Owns(b', f, Global) && |s'.mem| == |s.mem|
    ensures Unused(b, f) && forall g, o :: g != f ==> (Owns(b', g, o) <==> Owns(b, g, o))
    ensures forall j :: 0 <= j < WORDS ==> Load(s', f, j) == words[j]
    ensures forall g, j :: g != f ==> Load(s', g, j) == Load(s, g, j)
  {
    var s1, b1;
    s1, b1, f := TakeFrame(s, b);
    AdoptKeeps(s1, b1, f, Global);
    b' := Relabel(b1, f, Global);
    FillKeeps(s1, b', f, words);
    s' := Fill(s1, f, words);
    forall h ensures !Owns(b', h, Held) {
      assert !Owns(b, h, Held);
    }
  }

  lemma {:induction false} KernelTablesBuild(s: Phys, b: Book, i: int) returns (s': Phys, b': Book, ts: seq<int>)
    requires Settled(s, b) && 0 <= i <= KERNEL_TABLES && KernelTables(s, i).Some?
    ensures KernelTables(s, i) == Some((s', ts)) && |ts| == KERNEL_TABLES - i
    ensures Settled(s', b') && |s'.mem| == |s.mem|
    ensures forall f :: !Unused(b, f) ==> SameWords(s, s', f)
    ensures forall f, o :: Owns(b, f, o) && o != Free ==> Owns(b', f, o)
    ensures forall f :: Owns(b', f, Dir) ==> Owns(b, f, Dir)
    ensures forall k :: 0 <= k < |ts| ==> KernelTable(s', b', ts[k], i + k)
    decreases KERNEL_TABLES - i
  {
    if i == KERNEL_TABLES {
      s', b', ts := s, b, [];
    } else {
      var s1, b1, t := NewGlobal(s, b, IdentityWords(i));
      assert AllocFrame(s).value.1 == t;
      var rest;
      s', b', rest := KernelTablesBuild(s1, b1, i + 1);
      ts := [t] + rest;
      forall f | !Unused(b, f) ensures SameWords(s, s', f) {
        assert Owns(b, f, b.owner[f]);
        assert !Unused(b1, f);
        assert SameWords(s1, s', f);
      }
      assert !Unused(b1, t);
      assert SameWords(s1, s', t);
      forall k | 0 <= k < |ts| ensures KernelTable(s', b', ts[k], i + k) {
        if k == 0 {
          assert Owns(b1, t, Global);
        } else {
          assert KernelTable(s', b', rest[k - 1], i + 1 + (k - 1));
        }
      }
    }
  }

  /** From a fresh allocator over start..limit, global initialisation leaves every issued frame global
      and the kernel tables in place. */
  lemma GlobalInitBuilds(mem: seq<seq<int>>, start: int, limit: int, c: Config)
      returns (s: Phys, b: Book, g: Globals)
    requires 0 < start <= limit <= |mem| <= MAX_FRAMES && forall f :: 0 <= f < |mem| ==> |mem[f]| == WORDS
    requires GlobalInit(Phys(mem, 0, start, limit), c).Some?
    ensures GlobalInit(Phys(mem, 0, start, limit), c) == Some((s, g))
    ensures Settled(s, b) && KernelInv(s, b, g, c) && |s.mem| == |mem| && forall f :: !Owns(b, f, Dir)
  {
    var s0, b0 := Phys(mem, 0, start, limit), Book(start, map[], []);
    assert Settled(s0, b0);
    var s1, b1, shared, frame := SharedPageBuilds(s0, b0);
    var s2, b2, apic := ApicTableBuilds(s1, b1, c);
    var kernel;
    s, b, kernel := KernelTablesBuild(s2, b2, 0);
    g := Globals(shared, frame, apic, kernel);
    SharedStays(s1, b1, s2, b2, s, b, g);
    assert SameWords(s2, s, apic) by { assert !Unused(b2, apic); }
    GlobalInitIs(s0, c, s1, s2, s, g);
  }

  lemma SharedStays(s1: Phys, b1: Book, s2: Phys, b2: Book, s: Phys, b: Book, g: Globals)
    requires SharedTable(s1, b1, g)
    requires forall f :: Owns(b1, f, Global) ==> Owns(b2, f, Global) && SameWords(s1, s2, f)
    requires forall f :: !Unused(b2, f) ==> SameWords(s2, s, f)
    requires forall f, o :: Owns(b2, f, o) && o != Free ==> Owns(b, f, o)
    ensures SharedTable(s, b, g)
  {
    assert SameWords(s1, s2, g.sharedPt) && !Unused(b2, g.sharedPt);
    assert SameWords(s2, s, g.sharedPt);
  }

  /** Initialisation put together from its parts. */
  lemma GlobalInitIs(s0: Phys, c: Config, s1: Phys, s2: Phys, s: Phys, g: Globals)
    requires AllocFrame(s0).Some? && AllocFrame(AllocFrame(s0).value.0).Some? && AllocFrame(s1).Some?
    requires g.sharedPt == AllocFrame(s0).value.1 && g.sharedFrame == AllocFrame(AllocFrame(s0).value.0).value.1
    requires s1 == Store(AllocFrame(AllocFrame(s0).value.0).value.0, g.sharedPt, 0, Entry(g.sharedFrame, PAGE_FLAGS))
    requires g.apicPt == AllocFrame(s1).value.1
    requires s2 == Store(Store(AllocFrame(s1).value.0, g.apicPt, c.localApic % WORDS, Entry(c.localApic, APIC_PAGE)),
                         g.apicPt, c.ioApic % WORDS, Entry(c.ioApic, APIC_PAGE))
    requires KernelTables(s2, 0) == Some((s, g.kernelPt))
    ensures GlobalInit(s0, c) == Some((s, g))
  {
  }

  /** The shared table and its one page. */
  lemma SharedPageBuilds(s: Phys, b: Book) returns (s': Phys, b': Book, shared: int, frame: int)
    requires Settled(s, b) && AllocFrame(s).Some? && AllocFrame(AllocFrame(s).value.0).Some?
    requires forall f :: !Owns(b, f, Dir)
    ensures AllocFrame(s).value.1 == shared && AllocFrame(AllocFrame(s).value.0).value.1 == frame
    ensures s' == Store(AllocFrame(AllocFrame(s).value.0).value.0, shared, 0, Entry(frame, PAGE_FLAGS))
    ensures |s'.mem| == |s.mem|
    ensures Settled(s', b') && Owns(b', shared, Global) && Owns(b', frame, Global) && forall f :: !Owns(b', f, Dir)
    ensures forall j :: 0 <= j < WORDS ==> Load(s', shared, j) == if j == 0 then Entry(frame, PAGE_FLAGS) else 0
  {
    var s1, b1, s2;
    s1, b1, shared := NewGlobalZero(s, b);
    s2, b', frame := NewGlobalZero(s1, b1);
    s' := Store(s2, shared, 0, Entry(frame, PAGE_FLAGS));
    StoreOutsideKeeps(s2, b', shared, 0, Entry(frame, PAGE_FLAGS));
  }

  /** The table for the APIC pages. */
  lemma ApicTableBuilds(s: Phys, b: Book, c: Config) returns (s': Phys, b': Book, apic: int)
    requires Settled(s, b) && AllocFrame(s).Some? && forall f :: !Owns(b, f, Dir)
    ensures AllocFrame(s).value.1 == apic && |s'.mem| == |s.mem|
    ensures s' == Store(Store(AllocFrame(s).value.0, apic, c.localApic % WORDS, Entry(c.localApic, APIC_PAGE)),
                        apic, c.ioApic % WORDS, Entry(c.ioApic, APIC_PAGE))
    ensures Settled(s', b') && Owns(b', apic, Global) && (forall f :: !Owns(b', f, Dir))
    ensures forall g :: Owns(b, g, Global) ==> Owns(b', g, Global) && SameWords(s, s', g)
    ensures forall j :: 0 <= j < WORDS ==> Load(s', apic, j) == ApicWord(c, j)
  {
    var s1;
    s1, b', apic := NewGlobalZero(s, b);
    var s2 := Store(s1, apic, c.localApic % WORDS, Entry(c.localApic, APIC_PAGE));
    StoreOutsideKeeps(s1, b', apic, c.localApic % WORDS, Entry(c.localApic, APIC_PAGE));
    s' := Store(s2, apic, c.ioApic % WORDS, Entry(c.ioApic, APIC_PAGE));
    StoreOutsideKeeps(s2, b', apic, c.ioApic % WORDS, Entry(c.ioApic, APIC_PAGE));
  }

  lemma NewGlobalZero(s: Phys, b: Book) returns (s': Phys, b': Book, f: int)
    requires Settled(s, b) && AllocFrame(s).Some?
    ensures AllocFrame(s) == Some((s', f))
    ensures Settled(s', b') && Owns(b', f, Global) && |s'.mem| == |s.mem|
    ensures Unused(b, f) && forall g, o :: g != f ==> (Owns(b', g, o) <==> Owns(b, g, o))
    ensures forall j :: 0 <= j < WORDS ==> Load(s', f, j) == 0
    ensures forall g, j :: g != f ==> Load(s', g, j) == Load(s, g, j)
  {
    AllocKeeps(s, b);
    s', b', f := NewGlobal(s, b, Zeros());
    assert AllocFrame(s).value.0 == s';
  }

  lemma {:induction false} KernelEntriesKeep(s: Phys, b: Book, s1: Phys, b1: Book, pd: int, kernelPt: seq<int>, i: int)
      returns (s': Phys)
    requires Inv(s, b) && Inv(s1, b1) && Grows(s, b, s1, b1, iset{})
    requires Unused(b, pd) && Owns(b1, pd, Dir) && 0 <= i <= |kernelPt| <= FIRST_PDI
    ensures s' == KernelEntries(s1, pd, kernelPt, i)
    ensures Inv(s', b1) && Grows(s, b, s', b1, iset{})
    ensures forall k :: i <= k < |kernelPt| ==> Load(s', pd, k) == Entry(kernelPt[k], KERNEL_TABLE)
    ensures forall k :: !(i <= k < |kernelPt|) ==> Load(s', pd, k) == Load(s1, pd, k)
    decreases |kernelPt| - i
  {
    if i == |kernelPt| {
      s' := s1;
    } else {
      var s2 := Store(s1, pd, i, Entry(kernelPt[i], KERNEL_TABLE));
      StoreNewDir(s, b, s1, b1, pd, i, Entry(kernelPt[i], KERNEL_TABLE));
      s' := KernelEntriesKeep(s, b, s2, b1, pd, kernelPt, i + 1);
      assert Load(s', pd, i) == Load(s2, pd, i);
    }
  }

  lemma NewDirGuarded(s: Phys, g: Globals, c: Config, pd: int)
    requires Sane(c) && |g.kernelPt| == KERNEL_TABLES
    requires Load(s, pd, LAST_PDI) == Entry(g.sharedPt, TABLE_FLAGS)
    requires Load(s, pd, c.ApicPdi()) == Entry(g.apicPt, APIC_TABLE)
    requires forall k :: k != LAST_PDI && k != c.ApicPdi() ==>
               Load(s, pd, k) == if 0 <= k < |g.kernelPt| then Entry(g.kernelPt[k], KERNEL_TABLE) else 0
    ensures Guarded(s, g, pd)
  {
    forall k | !Private(k) && k != LAST_PDI ensures !UserBit(Load(s, pd, k)) {
      EntryUserBit(g.apicPt, APIC_TABLE);
      if 0 <= k < |g.kernelPt| { EntryUserBit(g.kernelPt[k], KERNEL_TABLE); }
    }
  }

  /** A new address space maps all kernel tables, and nothing private. */
  lemma CoreInitBuilds(s: Phys, b: Book, g: Globals, c: Config) returns (s': Phys, b': Book, pd: int)
    requires Settled(s, b) && KernelInv(s, b, g, c) && Sane(c) && CoreInit(s, g, c).Some?
    ensures CoreInit(s, g, c) == Some((s', pd))
    ensures Settled(s', b') && Grows(s, b, s', b', iset{}) && KernelInv(s', b', g, c)
    ensures Unused(b, pd) && Owns(b', pd, Dir) && KernelMapped(s', g, pd, KERNEL_TABLES)
    ensures forall k :: Private(k) ==> !HasTable(s', pd, k)
    ensures forall p :: Owns(b', p, Dir) ==> p == pd || Owns(b, p, Dir)
  {
    var s1;
    s1, b', pd := NewDir(s, b);
    var s2 := KernelEntriesKeep(s, b, s1, b', pd, g.kernelPt, 0);
    var s3 := Store(s2, pd, c.ApicPdi(), Entry(g.apicPt, APIC_TABLE));
    StoreNewDir(s, b, s2, b', pd, c.ApicPdi(), Entry(g.apicPt, APIC_TABLE));
    s' := Store(s3, pd, LAST_PDI, Entry(g.sharedPt, TABLE_FLAGS));
    StoreNewDir(s, b, s3, b', pd, LAST_PDI, Entry(g.sharedPt, TABLE_FLAGS));
    assert forall k :: k != c.ApicPdi() && k != LAST_PDI ==> Load(s', pd, k) == Load(s2, pd, k);
    assert Guarded(s', g, pd) && ApicMapped(s', g, c, pd) by { NewDirGuarded(s', g, c, pd); }
    KernelInvGrows(s, b, s', b', iset{}, g, c, pd);
  }

  // ---- What every operation keeps ----

  lemma KernelInvGrows(s: Phys, b: Book, s': Phys, b': Book, more: iset<Owner>, g: Globals, c: Config, pd: int)
    requires Sane(c) && KernelInv(s, b, g, c) && Grows(s, b, s', b', more)
    requires forall p :: Owns(b', p, Dir) ==> p == pd || Owns(b, p, Dir)
    requires KernelMapped(s', g, pd, MemPdes(c)) && Guarded(s', g, pd) && ApicMapped(s', g, c, pd)
    ensures KernelInv(s', b', g, c)
  {
    forall i | 0 <= i < KERNEL_TABLES ensures KernelTable(s', b', g.kernelPt[i], i) {
      assert KernelTable(s, b, g.kernelPt[i], i);
      assert SameWords(s, s', g.kernelPt[i]);
    }
    forall p | Owns(b', p, Dir)
      ensures KernelMapped(s', g, p, MemPdes(c)) && Guarded(s', g, p) && ApicMapped(s', g, c, p)
    {
      if p != pd {
        assert KernelMapped(s, g, p, MemPdes(c)) && Guarded(s, g, p) && ApicMapped(s, g, c, p);
      }
    }
    assert SameWords(s, s', g.sharedPt) && SameWords(s, s', g.apicPt);
  }

  lemma KernelInvFrees(s: Phys, b: Book, s': Phys, b': Book, gone: iset<Owner>, g: Globals, c: Config)
    requires Sane(c) && KernelInv(s, b, g, c) && Frees(s, b, s', b', gone)
    requires Global !in gone
    ensures KernelInv(s', b', g, c)
  {
    forall i | 0 <= i < KERNEL_TABLES ensures KernelTable(s', b', g.kernelPt[i], i) {
      assert KernelTable(s, b, g.kernelPt[i], i);
      assert SameWords(s, s', g.kernelPt[i]);
    }
    forall p | Owns(b', p, Dir)
      ensures KernelMapped(s', g, p, MemPdes(c)) && Guarded(s', g, p) && ApicMapped(s', g, c, p)
    {
      assert KernelMapped(s, g, p, MemPdes(c)) && Guarded(s, g, p) && ApicMapped(s, g, c, p);
    }
    assert SameWords(s, s', g.sharedPt) && SameWords(s, s', g.apicPt);
  }

  /** The kernel's part of every address space is the identity, except that page 0 is not mapped. */
  lemma KernelIdentity(s: Phys, b: Book, g: Globals, c: Config, pd: int, n: int, va: int)
    requires KernelInv(s, b, g, c) && KernelMapped(s, g, pd, n)
    requires 0 <= va && Pdi(va) < n && Pdi(va) < KERNEL_TABLES
    ensures Translate(s, pd, va) == if va < FRAME_SIZE then None else Some(va)
  {
    var i, j := Pdi(va), Pti(va);
    PageNumber(va);
    assert KernelTable(s, b, g.kernelPt[i], i);
    EntryFrame(g.kernelPt[i], KERNEL_TABLE);
    EntryFrame(i * WORDS + j, KERNEL_PAGE);
  }
}

/** The kernel's operations on address spaces, as functions of physical memory: lazy mapping on a
    page fault, unmapping a region, freeing an address space, forking one and creating one.
    `None` is the panic on running out of frames.
 */
module Paging {
  import opened Wrappers
  import opened PhysMem
  import opened Ownership

  const PAGE_TABLE_SPAN := 0x40_0000
  const PRIVATE_START := 0x8000_0000
  const PRIVATE_END := 0xF000_0000
  const TABLE_FLAGS := 0x7
  const PAGE_FLAGS := 0x107

  /** Top ten and middle ten bits of a 32-bit virtual address. */
  function Pdi(va: int): int {
    va / PAGE_TABLE_SPAN
  }

  function Pti(va: int): int {
    va / FRAME_SIZE % WORDS
  }

  /** The machine's translation of a virtual address, as a physical address. */
  function Translate(s: Phys, pd: int, va: int): Option<int> {
    if HasPage(s, pd, Pdi(va), Pti(va))
    then Some(PageAt(s, pd, Pdi(va), Pti(va)) * FRAME_SIZE + va % FRAME_SIZE)
    else None
  }

  /** The word that the address space `pd` sees at `va`, when `va` translates. */
  function ReadWord(s: Phys, pd: int, va: int): int {
    Load(s, PageAt(s, pd, Pdi(va), Pti(va)), va % FRAME_SIZE / 4)
  }

  // ---- Page fault ----

  function EnsureTable(s: Phys, pd: int, i: int): Option<Phys> {
    if HasTable(s, pd, i) then Some(s) else
      var (s1, t) :- AllocFrame(s);
      Some(Store(s1, pd, i, Entry(t, TABLE_FLAGS)))
  }

  function EnsurePage(s: Phys, t: int, j: int): Option<Phys> {
    if Present(Load(s, t, j)) then Some(s) else
      var (s1, d) :- AllocFrame(s);
      Some(Store(s1, t, j, Entry(d, PAGE_FLAGS)))
  }

  function MapPage(s: Phys, pd: int, va: int): Option<Phys> {
    var s1 :- EnsureTable(s, pd, Pdi(va));
    EnsurePage(s1, TableAt(s1, pd, Pdi(va)), Pti(va))
  }

  // ---- Unmapping ----

  /** Frees the present pages in slots j..hi of table t. */
  function ReleasePages(s: Phys, t: int, j: int, hi: int): Phys
    decreases hi - j
  {
    if j >= hi then s
    else if Present(Load(s, t, j)) then
      ReleasePages(Store(DeallocFrame(s, FrameOf(Load(s, t, j))), t, j, 0), t, j + 1, hi)
    else
      ReleasePages(s, t, j + 1, hi)
  }

  /** Frees slots lo..hi of the table in directory slot i, and the table itself if that is all of it. */
  function ReleaseSlots(s: Phys, pd: int, i: int, lo: int, hi: int): Phys {
    if !HasTable(s, pd, i) then s else
      var t := TableAt(s, pd, i);
      var s1 := ReleasePages(s, t, lo, hi);
      if lo == 0 && hi == WORDS then Store(DeallocFrame(s1, t), pd, i, 0) else s1
  }

  /** First and last-plus-one table slot of the region start..end in directory slot i. */
  function LowSlot(i: int, start: int): int {
    if i == Pdi(start) then Pti(start) else 0
  }

  function HighSlot(i: int, end: int): int {
    if i == Pdi(end) then Pti(end) else WORDS
  }

  function UnmapFrom(s: Phys, pd: int, start: int, end: int, i: int): Phys
    decreases Pdi(end) - i
  {
    if i > Pdi(end) then s
    else UnmapFrom(ReleaseSlots(s, pd, i, LowSlot(i, start), HighSlot(i, end)), pd, start, end, i + 1)
  }

  function Unmap(s: Phys, pd: int, start: int, end: int): Phys {
    UnmapFrom(s, pd, start, end, Pdi(start))
  }

  function FreeFrom(s: Phys, pd: int, i: int): Phys
    decreases LAST_PDI - i
  {
    if i >= LAST_PDI then s else FreeFrom(ReleaseSlots(s, pd, i, 0, WORDS), pd, i + 1)
  }

  function FreeSpace(s: Phys, pd: int): Phys {
    FreeFrom(s, pd, FIRST_PDI)
  }

  // ---- Fork ----

  /** Copies the present pages in slots j.. of table pt into table ct. */
  function ForkPages(s: Phys, pt: int, ct: int, j: int): Option<Phys>
    decreases WORDS - j
  {
    if j >= WORDS then Some(s)
    else if Present(Load(s, pt, j)) then
      var (s1, d) :- AllocFrame(s);
      var s2 := Store(s1, ct, j, Entry(d, PAGE_FLAGS));
      ForkPages(CopyFrame(s2, FrameOf(Load(s2, pt, j)), FrameOf(Load(s2, ct, j))), pt, ct, j + 1)
    else
      ForkPages(s, pt, ct, j + 1)
  }

  function ForkSlot(s: Phys, pd: int, child: int, i: int): Option<Phys> {
    if !HasTable(s, pd, i) then Some(s) else
      var (s1, t) :- AllocFrame(s);
      var s2 := Store(s1, child, i, Entry(t, TABLE_FLAGS));
      ForkPages(s2, TableAt(s2, pd, i), TableAt(s2, child, i), 0)
  }

  function ForkFrom(s: Phys, pd: int, child: int, i: int): Option<Phys>
    decreases LAST_PDI - i
  {
    if i >= LAST_PDI then Some(s) else
      var s1 :- ForkSlot(s, pd, child, i);
      ForkFrom(s1, pd, child, i + 1)
  }

  /** Shares the present entries i.. of the kernel range with the child. */
  function ShareFrom(s: Phys, pd: int, child: int, i: int, hi: int): Phys
    decreases hi - i
  {
    if i >= hi then s
    else ShareFrom(if HasTable(s, pd, i) then Store(s, child, i, Load(s, pd, i)) else s, pd, child, i + 1, hi)
  }

  function ShareEntry(s: Phys, pd: int, child: int, i: int): Phys {
    Store(s, child, i, Load(s, pd, i))
  }

  /** The machine: its memory size in bytes, and the frames of its two interrupt controllers. */
  datatype Config = Config(memSize: int, localApic: int, ioApic: int) {
    function ApicPdi(): int {
      ioApic / WORDS
    }
  }

  predicate Sane(c: Config) {
    0 <= c.memSize <= PRIVATE_START && LAST_PDI < c.ApicPdi() < WORDS
  }

  /** Number of directory entries fork shares: `memSize >> 22`, which drops a last partial 4 MB. */
  function MemPdes(c: Config): int {
    Pdi(c.memSize)
  }

  /** Forks address space pd; yields the new memory and the child's directory. */
  function Fork(s: Phys, c: Config, pd: int): Option<(Phys, int)> {
    var (s1, child) :- AllocFrame(s);
    var s2 := ShareFrom(s1, pd, child, 0, MemPdes(c));
    var s3 :- ForkFrom(s2, pd, child, FIRST_PDI);
    Some((ShareEntry(ShareEntry(s3, pd, child, c.ApicPdi()), pd, child, LAST_PDI), child))
  }
}

/** The list of mapped regions of a process, as a function of its contents. */
module Regions {
  import opened Words
  import opened Wrappers
  import opened PhysMem
  import opened Paging

  /** The 32-bit sum of two words wraps around. */
  function Add32(x: int, y: int): int {
    if x + y < WORD_LIMIT then x + y else x + y - WORD_LIMIT
  }

  datatype Region = Region(start: int, size: int) {
    function End(): int {
      Add32(start, size)
    }
  }

  // ---- The queue's operations ----

  /** The test made before mapping at a given address. */
  predicate Intersects(rs: seq<Region>, addr: int, size: int) {
    exists k :: 0 <= k < |rs| && addr < rs[k].End() && Add32(addr, size) >= rs[k].start
  }

  /** First-fit search: the place in the list and the address it settles on. */
  function FindGap(rs: seq<Region>, k: nat, addr: int, size: int): (nat, int)
    decreases |rs| - k
  {
    if k < |rs| && rs[k].start < Add32(addr, size) then FindGap(rs, k + 1, rs[k].End(), size) else (k, addr)
  }

  /** The place in the list of a region that ends at `end`. */
  function FindPlace(rs: seq<Region>, k: nat, end: int): (r: nat)
    requires k <= |rs|
    ensures k <= r <= |rs|
    decreases |rs| - k
  {
    if k < |rs| && rs[k].start < end then FindPlace(rs, k + 1, end) else k
  }

  function Insert(rs: seq<Region>, k: nat, r: Region): seq<Region> {
    if k <= |rs| then rs[..k] + [r] + rs[k..] else rs
  }

  /** Adds a region; a start of 0 asks for a first fit.  Yields the list and the region's address, or 0. */
  function AddVme(rs: seq<Region>, start: int, size: int): (seq<Region>, int) {
    if size == 0 then (rs, 0)
    else if start == 0 then
      var (k, addr) := FindGap(rs, 0, PRIVATE_START, size);
      if Add32(addr, size) > PRIVATE_END || Add32(addr, size) < addr then (rs, 0)
      else (Insert(rs, k, Region(addr, size)), addr)
    else
      (Insert(rs, FindPlace(rs, 0, Add32(start, size)), Region(start, size)), start)
  }

  /** Index of the first region that contains addr, or the length of the list. */
  function FindRegion(rs: seq<Region>, addr: int): (k: nat)
    ensures k <= |rs|
    ensures forall l :: 0 <= l < k ==> !(rs[l].start <= addr < rs[l].End())
    ensures k < |rs| ==> rs[k].start <= addr < rs[k].End()
  {
    if rs == [] || rs[0].start <= addr < rs[0].End() then 0 else 1 + FindRegion(rs[1..], addr)
  }

  function RemoveVme(rs: seq<Region>, addr: int): Option<(seq<Region>, Region)> {
    var k := FindRegion(rs, addr);
    if k == |rs| then None else Some((rs[..k] + rs[k + 1..], rs[k]))
  }

  /** Copies the list by adding its regions to an empty one, last to first. */
  function DeepCopy(rs: seq<Region>, acc: seq<Region>): seq<Region> {
    if rs == [] then acc
    else var r := rs[|rs| - 1]; DeepCopy(rs[..|rs| - 1], AddVme(acc, r.start, r.size).0)
  }

  predicate ContainsRange(rs: seq<Region>, start: int, end: int) {
    if rs == [] then false
    else if rs[0].start <= start < rs[0].End() then
      end < rs[0].End() || ContainsRange(rs[1..], rs[0].End(), end)
    else
      ContainsRange(rs[1..], start, end)
  }

  // ---- What the kernel needs of the list ----

  /** A page-aligned, non-empty region inside the private range. */
  predicate Mappable(r: Region) {
    && PRIVATE_START <= r.start && 0 < r.size && r.start + r.size <= PRIVATE_END
    && r.start % FRAME_SIZE == 0 && r.size % FRAME_SIZE == 0
  }

  /** Mappable regions, in order of address, pairwise disjoint. */
  predicate Wf(rs: seq<Region>) {
    && (forall k :: 0 <= k < |rs| ==> Mappable(rs[k]))
    && (forall k, l :: 0 <= k < l < |rs| ==> rs[k].start + rs[k].size <= rs[l].start)
  }

  predicate Covers(r: Region, a: int) {
    r.start <= a < r.start + r.size
  }

  ghost predicate Covered(rs: seq<Region>, a: int) {
    exists k :: 0 <= k < |rs| && Covers(rs[k], a)
  }

  /** All of addr..addr+size is free. */
  predicate Apart(r: Region, addr: int, size: int) {
    r.start + r.size <= addr || addr + size <= r.start
  }

  ghost predicate Fits(rs: seq<Region>, addr: int, size: int) {
    && PRIVATE_START <= addr && addr + size <= PRIVATE_END
    && forall k :: 0 <= k < |rs| ==> Apart(rs[k], addr, size)
  }

  // ---- First fit is lowest fit ----

  lemma {:induction false} FindGapLowest(rs: seq<Region>, k: nat, addr: int, size: int)
    requires Wf(rs) && k <= |rs| && 0 < size < WORD_LIMIT
    requires addr == if k == 0 then PRIVATE_START else rs[k - 1].start + rs[k - 1].size
    requires forall a :: a < addr ==> !Fits(rs, a, size)
    ensures var (l, found) := FindGap(rs, k, addr, size);
            && k <= l <= |rs| && PRIVATE_START <= found <= PRIVATE_END
            && (forall a :: a < found ==> !Fits(rs, a, size))
            && (forall i :: 0 <= i < l ==> rs[i].start + rs[i].size <= found)
            && (found + size < WORD_LIMIT ==> forall i :: l <= i < |rs| ==> found + size <= rs[i].start)
    decreases |rs| - k
  {
    if k < |rs| && rs[k].start < Add32(addr, size) {
      assert Mappable(rs[k]) && rs[k].End() == rs[k].start + rs[k].size;
      NoRoomBefore(rs, k, addr, size);
      FindGapLowest(rs, k + 1, rs[k].start + rs[k].size, size);
    } else {
      GapAt(rs, k, addr, size);
    }
  }

  /** A gap that ends too early has no room. */
  lemma NoRoomBefore(rs: seq<Region>, k: nat, addr: int, size: int)
    requires Wf(rs) && k < |rs| && 0 < size < WORD_LIMIT && rs[k].start < Add32(addr, size)
    requires addr == if k == 0 then PRIVATE_START else rs[k - 1].start + rs[k - 1].size
    requires forall a :: a < addr ==> !Fits(rs, a, size)
    ensures forall a :: a < rs[k].start + rs[k].size ==> !Fits(rs, a, size)
  {
    assert Mappable(rs[k]);
    if k > 0 { assert Mappable(rs[k - 1]); }
    forall a | a < rs[k].start + rs[k].size ensures !Fits(rs, a, size) {
      if a >= addr { assert !Apart(rs[k], a, size); }
    }
  }

  /** The regions before and after the gap. */
  lemma GapAt(rs: seq<Region>, k: nat, addr: int, size: int)
    requires Wf(rs) && k <= |rs| && 0 < size < WORD_LIMIT && (k < |rs| ==> Add32(addr, size) <= rs[k].start)
    requires addr == if k == 0 then PRIVATE_START else rs[k - 1].start + rs[k - 1].size
    ensures PRIVATE_START <= addr <= PRIVATE_END
    ensures forall i :: 0 <= i < k ==> rs[i].start + rs[i].size <= addr
    ensures addr + size < WORD_LIMIT ==> forall i :: k <= i < |rs| ==> addr + size <= rs[i].start
  {
    if k > 0 { assert Mappable(rs[k - 1]); }
  }

  /** Asked for any address, the list yields the lowest one whose whole range is free and private,
      and yields 0 exactly when there is none; sums are 32-bit. */
  lemma FirstFitIsLowest(rs: seq<Region>, size: int)
    requires Wf(rs) && 0 < size < WORD_LIMIT
    ensures var (rs', addr) := AddVme(rs, 0, size);
            if addr == 0 then rs' == rs && forall a :: !Fits(rs, a, size)
            else Fits(rs, addr, size) && forall a :: Fits(rs, a, size) ==> addr <= a
  {
    FindGapLowest(rs, 0, PRIVATE_START, size);
  }

  // ---- Every operation keeps the list well formed ----

  lemma InsertKeeps(rs: seq<Region>, k: nat, r: Region)
    requires Wf(rs) && k <= |rs| && Mappable(r)
    requires forall i :: 0 <= i < k ==> rs[i].start + rs[i].size <= r.start
    requires forall i :: k <= i < |rs| ==> r.start + r.size <= rs[i].start
    ensures Wf(Insert(rs, k, r))
    ensures forall a :: Covered(Insert(rs, k, r), a) <==> Covered(rs, a) || Covers(r, a)
  {
    InsertCovers(rs, k, r);
    var rs' := Insert(rs, k, r);
    assert forall i :: 0 <= i < |rs'| ==> rs'[i] == if i < k then rs[i] else if i == k then r else rs[i - 1];
  }

  lemma InsertCovers(rs: seq<Region>, k: nat, r: Region)
    requires k <= |rs|
    ensures forall a :: Covered(Insert(rs, k, r), a) <==> Covered(rs, a) || Covers(r, a)
  {
    var rs' := Insert(rs, k, r);
    assert forall i :: 0 <= i < |rs'| ==> rs'[i] == if i < k then rs[i] else if i == k then r else rs[i - 1];
    forall a | Covered(rs, a) || Covers(r, a) ensures Covered(rs', a) {
      if Covered(rs, a) {
        var i :| 0 <= i < |rs| && Covers(rs[i], a);
        assert Covers(rs'[if i < k then i else i + 1], a);
      } else {
        assert Covers(rs'[k], a);
      }
    }
  }

  /** What a successful mmap adds: one mappable region, and nothing else changes. */
  ghost predicate Adds(rs: seq<Region>, rs': seq<Region>, r: Region) {
    && Wf(rs') && Mappable(r)
    && (exists k :: 0 <= k <= |rs| && rs' == Insert(rs, k, r))
    && (forall i :: 0 <= i < |rs| ==> Apart(rs[i], r.start, r.size))
    && (forall a :: Covered(rs', a) <==> Covered(rs, a) || Covers(r, a))
  }

  lemma AddAnywhereKeeps(rs: seq<Region>, size: int)
    requires Wf(rs) && 0 < size < WORD_LIMIT && size % FRAME_SIZE == 0
    requires AddVme(rs, 0, size).1 != 0
    ensures var (rs', addr) := AddVme(rs, 0, size); Adds(rs, rs', Region(addr, size))
  {
    FindGapLowest(rs, 0, PRIVATE_START, size);
    FindGapAligned(rs, 0, PRIVATE_START, size);
    var (k, addr) := FindGap(rs, 0, PRIVATE_START, size);
    InsertKeeps(rs, k, Region(addr, size));
  }

  lemma {:induction false} FindGapAligned(rs: seq<Region>, k: nat, addr: int, size: int)
    requires Wf(rs) && addr % FRAME_SIZE == 0
    ensures FindGap(rs, k, addr, size).1 % FRAME_SIZE == 0
    decreases |rs| - k
  {
    if k < |rs| && rs[k].start < Add32(addr, size) {
      assert Mappable(rs[k]);
      FindGapAligned(rs, k + 1, rs[k].End(), size);
    }
  }

  lemma {:induction false} FindPlaceIs(rs: seq<Region>, k: nat, end: int)
    requires Wf(rs) && k <= |rs|
    requires forall i :: 0 <= i < k ==> rs[i].start < end
    ensures var l := FindPlace(rs, k, end);
            && (forall i :: 0 <= i < l ==> rs[i].start < end)
            && (forall i :: l <= i < |rs| ==> end <= rs[i].start)
    decreases |rs| - k
  {
    if k < |rs| && rs[k].start < end {
      FindPlaceIs(rs, k + 1, end);
    }
  }

  /** Adding a free region at a given address. */
  lemma AddAtKeeps(rs: seq<Region>, start: int, size: int)
    requires Wf(rs) && Mappable(Region(start, size))
    requires forall k :: 0 <= k < |rs| ==> Apart(rs[k], start, size)
    ensures var (rs', addr) := AddVme(rs, start, size); addr == start && Adds(rs, rs', Region(start, size))
  {
    var r := Region(start, size);
    assert r.End() == start + size;
    FindPlaceIs(rs, 0, start + size);
    var k := FindPlace(rs, 0, start + size);
    forall i | 0 <= i < k ensures rs[i].start + rs[i].size <= r.start {
      assert Apart(rs[i], start, size);
    }
    InsertKeeps(rs, k, r);
  }

  /** The guard refuses a request that overlaps a region, and one that ends where a region starts. */
  lemma IntersectsWhen(rs: seq<Region>, addr: int, size: int)
    requires Wf(rs) && 0 <= addr && 0 < size && addr + size < WORD_LIMIT
    ensures Intersects(rs, addr, size) <==>
              exists k :: 0 <= k < |rs| && (!Apart(rs[k], addr, size) || rs[k].start == addr + size)
  {
    forall k | 0 <= k < |rs| ensures rs[k].End() == rs[k].start + rs[k].size {
      assert Mappable(rs[k]);
    }
    if Intersects(rs, addr, size) {
      var k :| 0 <= k < |rs| && addr < rs[k].End() && Add32(addr, size) >= rs[k].start;
      assert !Apart(rs[k], addr, size) || rs[k].start == addr + size;
    }
    if k :| 0 <= k < |rs| && (!Apart(rs[k], addr, size) || rs[k].start == addr + size) {
      assert Mappable(rs[k]);
      assert addr < rs[k].End() && Add32(addr, size) >= rs[k].start;
    }
  }

  ghost predicate Overlaps(rs: seq<Region>, addr: int, size: int) {
    exists k :: 0 <= k < |rs| && !Apart(rs[k], addr, size)
  }

  ghost predicate EndsAtARegion(rs: seq<Region>, addr: int, size: int) {
    exists k :: 0 <= k < |rs| && rs[k].start == addr + size
  }

  /** The documented test, "intersects an existing mapping", is the one made unless the request ends
      exactly where a region starts while overlapping none. */
  lemma GuardIsExactWhen(rs: seq<Region>, addr: int, size: int)
    requires Wf(rs) && 0 <= addr && 0 < size && addr + size < WORD_LIMIT
    ensures (Intersects(rs, addr, size) <==> Overlaps(rs, addr, size))
       <==> (EndsAtARegion(rs, addr, size) ==> Overlaps(rs, addr, size))
  {
    IntersectsWhen(rs, addr, size);
    if EndsAtARegion(rs, addr, size) {
      var k :| 0 <= k < |rs| && rs[k].start == addr + size;
      assert Intersects(rs, addr, size);
    }
    if Overlaps(rs, addr, size) {
      var k :| 0 <= k < |rs| && !Apart(rs[k], addr, size);
      assert Intersects(rs, addr, size);
    }
  }

  /** The page just below the initial stack is free, yet mapping it there is refused. */
  lemma GuardRefusesAFreePage()
    ensures var stack := [Region(0xEFF0_0000, 0x10_0000)];
            Wf(stack) && Fits(stack, 0xEFEF_F000, 0x1000) && Intersects(stack, 0xEFEF_F000, 0x1000)
  {
    var stack := [Region(0xEFF0_0000, 0x10_0000)];
    assert 0xEFEF_F000 < stack[0].End() && Add32(0xEFEF_F000, 0x1000) >= stack[0].start;
  }

  lemma RemoveAtKeeps(rs: seq<Region>, k: nat)
    requires Wf(rs) && k < |rs|
    ensures var rs' := rs[..k] + rs[k + 1..]; Wf(rs') && Adds(rs', rs, rs[k])
  {
    var rs', r := rs[..k] + rs[k + 1..], rs[k];
    RemoveAtWf(rs, k);
    assert rs == Insert(rs', k, r);
    InsertCovers(rs', k, r);
  }

  lemma RemoveAtWf(rs: seq<Region>, k: nat)
    requires Wf(rs) && k < |rs|
    ensures var rs' := rs[..k] + rs[k + 1..];
            Wf(rs') && Mappable(rs[k]) && forall i :: 0 <= i < |rs'| ==> Apart(rs'[i], rs[k].start, rs[k].size)
  {
    var rs' := rs[..k] + rs[k + 1..];
    assert forall i :: 0 <= i < |rs'| ==> rs'[i] == if i < k then rs[i] else rs[i + 1];
  }

  /** Removal takes out the one region that contains the address, if there is one. */
  lemma RemoveExact(rs: seq<Region>, addr: int)
    requires Wf(rs)
    ensures RemoveVme(rs, addr).None? <==> !Covered(rs, addr)
    ensures RemoveVme(rs, addr).Some? ==>
              var (rs', r) := RemoveVme(rs, addr).value;
              Covers(r, addr) && Wf(rs') && Adds(rs', rs, r)
  {
    forall i | 0 <= i < |rs| ensures rs[i].End() == rs[i].start + rs[i].size {
      assert Mappable(rs[i]);
    }
    var k := FindRegion(rs, addr);
    if k < |rs| {
      assert Covers(rs[k], addr);
      RemoveAtKeeps(rs, k);
    }
  }

  /** Copying reproduces the list in order. */
  lemma {:induction false} DeepCopyIs(rs: seq<Region>, acc: seq<Region>)
    requires Wf(rs + acc)
    ensures DeepCopy(rs, acc) == rs + acc
    decreases |rs|
  {
    if rs == [] {
      assert rs + acc == acc;
    } else {
      var n := |rs| - 1;
      var r := rs[n];
      assert (rs + acc)[n] == r;
      assert Mappable(r) && r.End() == r.start + r.size;
      assert acc != [] ==> (rs + acc)[n + 1] == acc[0];
      assert FindPlace(acc, 0, r.End()) == 0;
      assert Insert(acc, 0, r) == [r] + acc;
      assert rs[..n] + ([r] + acc) == rs + acc;
      DeepCopyIs(rs[..n], [r] + acc);
    }
  }

  // ---- Coverage ----

  lemma CoveredSplit(rs: seq<Region>, a: int)
    requires rs != []
    ensures Covered(rs, a) <==> Covers(rs[0], a) || Covered(rs[1..], a)
  {
    if Covered(rs, a) && !Covers(rs[0], a) {
      var k :| 0 <= k < |rs| && Covers(rs[k], a);
      assert Covers(rs[1..][k - 1], a);
    }
    if Covered(rs[1..], a) {
      var k :| 0 <= k < |rs[1..]| && Covers(rs[1..][k], a);
      assert Covers(rs[k + 1], a);
    }
  }

  /** The range test holds exactly when every address of the range lies in some region. */
  lemma {:induction false} ContainsRangeExact(rs: seq<Region>, start: int, end: int)
    requires Wf(rs) && start <= end
    ensures ContainsRange(rs, start, end) <==> forall a :: start <= a <= end ==> Covered(rs, a)
  {
    if rs == [] {
      assert !Covered(rs, start);
    } else {
      assert Mappable(rs[0]) && rs[0].End() == rs[0].start + rs[0].size;
      forall a ensures Covered(rs, a) <==> Covers(rs[0], a) || Covered(rs[1..], a) {
        CoveredSplit(rs, a);
      }
      if Covers(rs[0], start) {
        if rs[0].End() <= end {
          ContainsRangeExact(rs[1..], rs[0].End(), end);
        }
      } else {
        ContainsRangeExact(rs[1..], start, end);
        if start < rs[0].start {
          assert !Covered(rs[1..], start);
        }
      }
    }
  }
}

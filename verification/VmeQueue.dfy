/** The region list as the kernel keeps it: a doubly linked list of nodes, changed in place. */
module VmeQueue {
  import opened Regions
  import opened Wrappers
  import Paging

  class Vme {
    var next: Vme?
    var prev: Vme?
    var start: int
    var size: int
    var end: int

    constructor (addr: int, size: int)
      ensures next == null && prev == null
      ensures this.start == addr && this.size == size && end == Add32(addr, size)
    {
      next, prev := null, null;
      start, this.size, end := addr, size, Add32(addr, size);
    }
  }

  class VmeQueue {
    var first: Vme?
    var last: Vme?
    ghost var spine: seq<Vme>          // the nodes in order
    ghost var contents: seq<Region>    // the regions they hold

    ghost predicate Linked(i: int)
      requires 0 <= i < |spine|
      reads this, spine
    {
      && spine[i].next == (if i + 1 < |spine| then spine[i + 1] else null)
      && spine[i].prev == (if 0 < i then spine[i - 1] else null)
    }

    ghost predicate Holds(i: int)
      requires 0 <= i < |spine| == |contents|
      reads this, spine
    {
      && spine[i].start == contents[i].start && spine[i].size == contents[i].size
      && spine[i].end == contents[i].End()
    }

    /** The nodes are distinct, linked both ways in order, and hold the contents. */
    ghost predicate Valid()
      reads this, spine
    {
      && |contents| == |spine|
      && (forall i, j :: 0 <= i < j < |spine| ==> spine[i] != spine[j])
      && first == (if spine == [] then null else spine[0])
      && last == (if spine == [] then null else spine[|spine| - 1])
      && (forall i :: 0 <= i < |spine| ==> Linked(i) && Holds(i))
    }

    constructor ()
      ensures Valid() && contents == [] && spine == []
    {
      first, last, spine, contents := null, null, [], [];
    }

    method IntersectsQueue(addr: int, size: int) returns (r: bool)
      requires Valid()
      ensures r == Intersects(contents, addr, size)
    {
      ghost var k := 0;
      var it := first;
      while it != null
        invariant 0 <= k <= |spine| && it == (if k < |spine| then spine[k] else null)
        invariant forall i :: 0 <= i < k ==> !(addr < contents[i].End() && Add32(addr, size) >= contents[i].start)
        decreases |spine| - k
      {
        assert Linked(k) && Holds(k);
        if addr < it.end && Add32(addr, size) >= it.start {
          return true;
        }
        it := it.next;
        k := k + 1;
      }
      return false;
    }

    /** Links vme between prev and next, which are neighbours at place k. */
    method Link(vme: Vme, prev: Vme?, next: Vme?, ghost k: nat)
      requires Valid() && vme !in spine && vme.end == Add32(vme.start, vme.size)
      requires k <= |spine| && prev == (if k == 0 then null else spine[k - 1])
      requires next == (if k < |spine| then spine[k] else null)
      modifies this, spine, vme
      ensures Valid() && spine == old(spine)[..k] + [vme] + old(spine)[k..]
      ensures contents == Insert(old(contents), k, Region(vme.start, vme.size))
      ensures vme.start == old(vme.start) && vme.size == old(vme.size)
    {
      ghost var was, had := spine, contents;
      assert forall i :: 0 <= i < |was| ==> Linked(i) && Holds(i);
      vme.prev := prev;
      vme.next := next;
      if prev != null {
        prev.next := vme;
      } else {
        first := vme;
      }
      if next != null {
        next.prev := vme;
      } else {
        last := vme;
      }
      spine := was[..k] + [vme] + was[k..];
      contents := had[..k] + [Region(vme.start, vme.size)] + had[k..];
      forall j | 0 <= j < |was| ensures Beside(vme, was, had, k, j) {
        assert old(Linked(j)) && old(Holds(j));
      }
      LinkedAfter(vme, was, had, k);
    }

    /** Node j of `was` points to its old neighbours, or to vme when its place k is next to it. */
    ghost predicate Beside(vme: Vme, was: seq<Vme>, had: seq<Region>, k: nat, j: int)
      requires 0 <= j < |was| == |had|
      reads was
    {
      && was[j].next == (if j + 1 == k then vme else if j + 1 < |was| then was[j + 1] else null)
      && was[j].prev == (if j == k then vme else if 0 < j then was[j - 1] else null)
      && was[j].start == had[j].start && was[j].size == had[j].size && was[j].end == had[j].End()
    }

    lemma LinkedAfter(vme: Vme, was: seq<Vme>, had: seq<Region>, k: nat)
      requires k <= |was| == |had|
      requires spine == was[..k] + [vme] + was[k..] && contents == had[..k] + [Region(vme.start, vme.size)] + had[k..]
      requires vme.prev == (if k == 0 then null else was[k - 1]) && vme.next == (if k < |was| then was[k] else null)
      requires vme.end == Add32(vme.start, vme.size)
      requires forall j :: 0 <= j < |was| ==> Beside(vme, was, had, k, j)
      ensures |contents| == |spine| && forall i :: 0 <= i < |spine| ==> Linked(i) && Holds(i)
    {
      assert forall i :: 0 <= i < |spine| ==> spine[i] == if i < k then was[i] else if i == k then vme else was[i - 1];
      forall i | 0 <= i < |spine| ensures Linked(i) && Holds(i) {
        if i != k {
          var j := if i < k then i else i - 1;
          assert Beside(vme, was, had, k, j);
          assert spine[i] == was[j] && contents[i] == had[j];
        }
      }
    }

    method AddVme(vme: Vme) returns (addr: int)
      requires Valid() && vme !in spine && vme.end == Add32(vme.start, vme.size)
      modifies this, spine, vme
      ensures Valid()
      ensures (contents, addr) == Regions.AddVme(old(contents), old(vme.start), old(vme.size))
      ensures forall v :: v in spine ==> v == vme || v in old(spine)
    {
      if vme.size == 0 {
        return 0;
      }
      ghost var k := 0;
      var prev: Vme? := null;
      var next := first;
      if vme.start == 0 {
        var start := Paging.PRIVATE_START;
        while next != null && next.start < Add32(start, vme.size)
          invariant 0 <= k <= |spine|
          invariant prev == (if k == 0 then null else spine[k - 1]) && next == (if k < |spine| then spine[k] else null)
          invariant FindGap(contents, k, start, vme.size) == FindGap(contents, 0, Paging.PRIVATE_START, vme.size)
          decreases |spine| - k
        {
          assert Linked(k) && Holds(k);
          start := next.end;
          prev := next;
          next := next.next;
          k := k + 1;
        }
        assert k < |spine| ==> Holds(k);
        if Add32(start, vme.size) > Paging.PRIVATE_END || Add32(start, vme.size) < start {
          return 0;
        }
        vme.start := start;
        vme.end := Add32(start, vme.size);
      } else {
        while next != null && next.start < vme.end
          invariant 0 <= k <= |spine|
          invariant prev == (if k == 0 then null else spine[k - 1]) && next == (if k < |spine| then spine[k] else null)
          invariant FindPlace(contents, k, vme.end) == FindPlace(contents, 0, vme.end)
          decreases |spine| - k
        {
          assert Linked(k) && Holds(k);
          prev := next;
          next := next.next;
          k := k + 1;
        }
        assert k < |spine| ==> Holds(k);
      }
      Link(vme, prev, next, k);
      return vme.start;
    }

    /** Unlinks the node at place k. */
    method Unlink(it: Vme, ghost k: nat)
      requires Valid() && k < |spine| && it == spine[k]
      modifies this, spine
      ensures Valid() && spine == old(spine)[..k] + old(spine)[k + 1..]
      ensures contents == old(contents)[..k] + old(contents)[k + 1..]
      ensures it.start == old(it.start) && it.size == old(it.size) && it.end == old(it.end)
    {
      ghost var was, had := spine, contents;
      assert Linked(k);
      if it.prev != null {
        it.prev.next := it.next;
      } else {
        first := it.next;
      }
      if it.next != null {
        it.next.prev := it.prev;
      } else {
        last := it.prev;
      }
      spine := was[..k] + was[k + 1..];
      contents := had[..k] + had[k + 1..];
      assert forall i :: 0 <= i < |spine| ==> spine[i] == if i < k then was[i] else was[i + 1];
      forall i | 0 <= i < |spine| ensures Linked(i) && Holds(i) {
        ghost var j := if i < k then i else i + 1;
        assert old(Linked(j)) && old(Holds(j));
        assert spine[i] == was[j] && contents[i] == had[j];
      }
    }

    method Remove(addr: int) returns (r: Vme?)
      requires Valid()
      modifies this, spine
      ensures Valid()
      ensures match RemoveVme(old(contents), addr) {
                case None => r == null && contents == old(contents)
                case Some((rs, region)) =>
                  r != null && contents == rs && r.start == region.start && r.size == region.size
                  && r.end == region.End()
              }
    {
      ghost var k := 0;
      var it := first;
      while it != null
        invariant 0 <= k <= |spine| && it == (if k < |spine| then spine[k] else null)
        invariant forall i :: 0 <= i < k ==> !(contents[i].start <= addr < contents[i].End())
        decreases |spine| - k
      {
        assert Linked(k) && Holds(k);
        if addr < it.end && addr >= it.start {
          assert FindRegion(contents, addr) == k;
          Unlink(it, k);
          return it;
        }
        it := it.next;
        k := k + 1;
      }
      assert FindRegion(contents, addr) == |contents|;
      return null;
    }

    method DeepCopy() returns (q: VmeQueue)
      requires Valid()
      ensures fresh(q) && q.Valid() && q.contents == Regions.DeepCopy(contents, [])
      ensures forall v :: v in q.spine ==> fresh(v)
    {
      q := new VmeQueue();
      ghost var k := |spine|;
      assert contents[..k] == contents;
      var it := last;
      while it != null
        invariant 0 <= k <= |spine| && it == (if k > 0 then spine[k - 1] else null)
        invariant fresh(q) && q.Valid()
        invariant forall i :: 0 <= i < |q.spine| ==> fresh(q.spine[i])
        invariant Regions.DeepCopy(contents[..k], q.contents) == Regions.DeepCopy(contents, [])
        decreases k
      {
        assert Linked(k - 1) && Holds(k - 1);
        assert contents[..k][..k - 1] == contents[..k - 1];
        var v := new Vme(it.start, it.size);
        assert it !in q.spine;
        ghost var before := q.spine;
        var _ := q.AddVme(v);
        forall i | 0 <= i < |q.spine| ensures fresh(q.spine[i]) {
          assert q.spine[i] in q.spine;
          assert q.spine[i] == v || q.spine[i] in before;
        }
        assert it.prev == old(it.prev);
        it := it.prev;
        k := k - 1;
      }
    }

    method ContainsRange(start: int, end: int) returns (r: bool)
      requires Valid()
      ensures r == Regions.ContainsRange(contents, start, end)
    {
      ghost var k := 0;
      var from := start;
      var it := first;
      assert contents[k..] == contents;
      while it != null
        invariant 0 <= k <= |spine| && it == (if k < |spine| then spine[k] else null)
        invariant Regions.ContainsRange(contents[k..], from, end) == Regions.ContainsRange(contents, start, end)
        decreases |spine| - k
      {
        assert Linked(k) && Holds(k);
        assert contents[k..][1..] == contents[k + 1..];
        if from >= it.start && from < it.end {
          if end < it.end {
            return true;
          } else {
            from := it.end;
          }
        }
        it := it.next;
        k := k + 1;
      }
      return false;
    }
  }
}

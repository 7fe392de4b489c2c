/** The block cache as objects: a doubly linked list of nodes with their buffers, in front of a disk. */
module BlockCache {
  import opened Words
  import opened Blocks
  import opened BlockReads
  import opened CacheLists

  class Node {
    var next: Node?
    var prev: Node?
    var id: nat
    const buffer: array<Byte>

    constructor (id: nat, size: nat)
      ensures this.id == id && next == null && prev == null && fresh(buffer) && buffer.Length == size
    {
      this.id := id;
      next := null;
      prev := null;
      buffer := new Byte[size];
    }
  }

  class MruQueue {
    var first: Node
    var last: Node
    const size: nat
    /** The linked nodes from the front, and what they hold. */
    ghost var spine: seq<Node>
    ghost var entries: seq<Entry>

    ghost predicate LinkedAt(k: int)
      requires 0 <= k < |spine|
      reads this`spine, spine
    {
      && spine[k].next == (if k + 1 < |spine| then spine[k + 1] else null)
      && spine[k].prev == (if k > 0 then spine[k - 1] else null)
    }

    /** The list is well linked both ways. */
    ghost predicate Links()
      reads this`first, this`last, this`spine, spine
    {
      && spine != [] && first == spine[0] && last == spine[|spine| - 1]
      && (forall k :: 0 <= k < |spine| ==> LinkedAt(k))
      && (forall k, l :: 0 <= k < l < |spine| ==> spine[k] != spine[l])
    }

    ghost predicate HoldsAt(k: int)
      requires 0 <= k < |spine| && |entries| == |spine|
      reads this, spine, Buffers()
    {
      entries[k] == Entry(spine[k].id, spine[k].buffer[..]) && spine[k].buffer.Length == size
    }

    ghost predicate Valid()
      reads this, spine, Buffers()
    {
      && Links() && |entries| == |spine| && (forall k :: 0 <= k < |spine| ==> HoldsAt(k))
      && (forall k, l :: 0 <= k < l < |spine| ==> spine[k].buffer != spine[l].buffer)
    }

    ghost function Nodes(): set<Node>
      reads this`spine
    {
      set n | n in spine
    }

    ghost function Buffers(): set<array<Byte>>
      reads this`spine
    {
      set n | n in spine :: n.buffer
    }

    /** Sixteen nodes that hold no block. */
    constructor (size: nat)
      ensures Valid() && this.size == size && |spine| == ENTRIES && Ids(entries) == Fillers(ENTRIES)
      ensures forall n :: n in spine ==> fresh(n) && fresh(n.buffer)
    {
      var node := new Node(FILLER, size);
      first := node;
      last := node;
      this.size := size;
      spine := [node];
      entries := [Entry(FILLER, node.buffer[..])];
      new;
      for i := 1 to ENTRIES
        invariant Valid() && |spine| == i && Ids(entries) == Fillers(i)
        invariant forall n :: n in spine ==> fresh(n) && fresh(n.buffer)
      {
        label before:
        var cur := new Node(FILLER, size);
        ghost var was := entries;
        forall k | 0 <= k < |spine| ensures HoldsAt(k) && LinkedAt(k) {
          assert old@before(HoldsAt(k)) && old@before(LinkedAt(k));
        }
        assert forall n :: n in spine ==> n != cur && n.buffer != cur.buffer;
        Append(cur);
        assert Ids(entries) == Ids(was) + [FILLER];
        assert Fillers(i) + [FILLER] == Fillers(i + 1);
      }
    }

    method Append(cur: Node)
      requires Valid() && cur !in spine && cur.next == null && cur.buffer.Length == size
      requires forall n :: n in spine ==> n.buffer != cur.buffer
      modifies this, last, cur
      ensures Valid() && spine == old(spine) + [cur] && entries == old(entries) + [Entry(cur.id, cur.buffer[..])]
      ensures cur.id == old(cur.id)
    {
      last.next := cur;
      cur.prev := last;
      last := cur;
      spine := spine + [cur];
      entries := entries + [Entry(cur.id, cur.buffer[..])];
      forall k | 0 <= k < |spine| ensures LinkedAt(k) && HoldsAt(k) {
        if k < |spine| - 1 { assert old(LinkedAt(k)) && old(HoldsAt(k)); }
      }
    }

    /** Takes node k, which is not the first, off the list. */
    method Unlink(it: Node, ghost k: nat)
      requires Links() && 0 < k < |spine| && spine[k] == it
      modifies this`last, this`spine, spine
      ensures Links() && spine == old(spine[..k] + spine[k + 1..]) && it !in spine
      ensures forall n :: n in old(spine) ==> n.id == old(n.id)
    {
      ghost var was := spine;
      assert LinkedAt(k) && LinkedAt(k - 1) && (k + 1 < |spine| ==> LinkedAt(k + 1));
      it.prev.next := it.next;
      if it.next != null {
        it.next.prev := it.prev;
      } else {
        last := it.prev;
      }
      spine := was[..k] + was[k + 1..];
      forall j | 0 <= j < |was| && j != k ensures Beside(was, k, j) {
        assert old(LinkedAt(j));
      }
      LinkedAfter(was, k);
    }

    /** Node j of `was` points past node k. */
    ghost predicate Beside(was: seq<Node>, k: nat, j: int)
      requires 0 <= j < |was|
      reads was
    {
      && was[j].next == (if j + 1 == k then Nth(was, k + 1) else Nth(was, j + 1))
      && was[j].prev == (if j == k + 1 then Nth(was, k - 1) else Nth(was, j - 1))
    }

    ghost function Nth(nodes: seq<Node>, j: int): Node? {
      if 0 <= j < |nodes| then nodes[j] else null
    }

    lemma LinkedAfter(was: seq<Node>, k: nat)
      requires k < |was| && spine == was[..k] + was[k + 1..]
      requires forall j :: 0 <= j < |was| && j != k ==> Beside(was, k, j)
      ensures forall l :: 0 <= l < |spine| ==> LinkedAt(l)
    {
      assert forall l :: 0 <= l < |spine| ==> spine[l] == if l < k then was[l] else was[l + 1];
      forall l | 0 <= l < |spine| ensures LinkedAt(l) {
        var j := if l < k then l else l + 1;
        assert Beside(was, k, j) && spine[l] == was[j];
      }
    }

    method PushFront(it: Node)
      requires Links() && it !in spine
      modifies this`first, this`spine, first, it
      ensures Links() && spine == [it] + old(spine)
      ensures it.id == old(it.id) && old(first).id == old(first.id)
    {
      assert LinkedAt(0);
      it.prev := null;
      it.next := first;
      first.prev := it;
      first := it;
      spine := [it] + spine;
      forall l | 0 <= l < |spine| ensures LinkedAt(l) {
        if l > 0 { assert old(LinkedAt(l - 1)); }
      }
    }

    /** Node k becomes the first. */
    method MoveToFront(it: Node, ghost k: nat)
      requires Links() && 0 < k < |spine| && spine[k] == it
      modifies this`first, this`last, this`spine, spine
      ensures Links() && spine == old([spine[k]] + spine[..k] + spine[k + 1..])
      ensures forall n :: n in old(spine) ==> n.id == old(n.id)
    {
      Unlink(it, k);
      PushFront(it);
    }

    method Raise(it: Node, ghost k: nat)
      requires Valid() && 0 < k < |spine| && spine[k] == it
      modifies this`first, this`last, this`spine, this`entries, Nodes()
      ensures Valid() && spine == old([spine[k]] + spine[..k] + spine[k + 1..]) && entries == ToFront(old(entries), k)
      ensures Nodes() == old(Nodes()) && Buffers() == old(Buffers())
    {
      assert forall l :: 0 <= l < |spine| ==> HoldsAt(l);
      MoveToFront(it, k);
      entries := ToFront(entries, k);
      forall l | 0 <= l < |spine| ensures HoldsAt(l) {
        var m := if l == 0 then k else if l <= k then l - 1 else l;
        assert old(HoldsAt(m)) && spine[l] == old(spine)[m] && spine[l] in old(spine);
      }
    }

    /** Looks for the id; when found, its node moves to the front. */
    method Contains(id: nat) returns (found: bool)
      requires Valid()
      modifies this`first, this`last, this`spine, this`entries, Nodes()
      ensures Valid() && found == Hit(old(entries), id)
      ensures entries == if found then ToFront(old(entries), Find(old(entries), id)) else old(entries)
      ensures |spine| == old(|spine|) && Nodes() == old(Nodes()) && Buffers() == old(Buffers())
    {
      var it: Node? := first;
      ghost var k := 0;
      while it != null
        invariant 0 <= k <= |spine| && it == (if k < |spine| then spine[k] else null)
        invariant forall l :: 0 <= l < k ==> entries[l].id != id
        decreases |spine| - k
      {
        assert LinkedAt(k) && HoldsAt(k);
        if it.id == id {
          FoundAt(entries, id, k);
          if it.prev != null {
            Raise(it, k);
          } else {
            assert ToFront(entries, 0) == entries;
          }
          return true;
        }
        it := it.next;
        k := k + 1;
      }
      FoundAt(entries, id, k);
      return false;
    }

    /** The last node becomes the first, for a new block. */
    method Add(index: nat, bytes: array<Byte>)
      requires Valid() && |spine| >= 2 && size <= bytes.Length && bytes !in Buffers()
      modifies this`first, this`last, this`spine, this`entries, Nodes(), Buffers()
      ensures Valid() && entries == Replace(old(entries), Entry(index, bytes[..size]))
      ensures |spine| == old(|spine|) && Nodes() == old(Nodes()) && Buffers() == old(Buffers())
    {
      var cur := last;
      ghost var was := entries;
      Raise(cur, |spine| - 1);
      assert entries[1..] == was[..|was| - 1];
      Overwrite(index, bytes);
    }

    /** Gives the front node a new block. */
    method Overwrite(index: nat, bytes: array<Byte>)
      requires Valid() && size <= bytes.Length && bytes !in Buffers()
      modifies this`entries, first`id, first.buffer
      ensures spine == old(spine) && Valid() && entries == [Entry(index, bytes[..size])] + old(entries)[1..]
    {
      assert HoldsAt(0);
      first.id := index;
      var i := 0;
      while i < size
        invariant 0 <= i <= size && first.buffer[..i] == bytes[..i]
        modifies first.buffer
      {
        first.buffer[i] := bytes[i];
        i := i + 1;
      }
      assert first.buffer[..] == bytes[..size];
      entries := [Entry(index, bytes[..size])] + entries[1..];
      forall l | 0 <= l < |spine| ensures HoldsAt(l) && LinkedAt(l) {
        assert old(HoldsAt(l)) && old(LinkedAt(l));
      }
    }
  }

  lemma FoundAt(list: seq<Entry>, id: nat, k: nat)
    requires k <= |list| && (forall l :: 0 <= l < k ==> list[l].id != id) && (k < |list| ==> list[k].id == id)
    ensures Find(list, id) == k
  {
  }

  class Cache {
    const disk: Device
    const size: nat
    const mru: MruQueue
    /** How often the disk has been read. */
    ghost var misses: nat

    ghost predicate Valid()
      reads this, mru, mru.spine, mru.Buffers()
    {
      && Wf(disk) && disk.Disk? && mru.size == size && mru.Valid() && |mru.spine| == ENTRIES
      && Agrees(disk, size, mru.entries)
    }

    constructor (disk: Device, size: nat)
      requires Wf(disk) && disk.Disk?
      ensures Valid() && this.disk == disk && this.size == size && misses == 0
      ensures Ids(mru.entries) == Fillers(ENTRIES)
    {
      var queue := new MruQueue(size);
      AgreesAtFirst(disk, size, queue.entries);
      label built:
      this.disk := disk;
      this.size := size;
      misses := 0;
      mru := queue;
      new;
      forall k | 0 <= k < |mru.spine| ensures mru.HoldsAt(k) && mru.LinkedAt(k) {
        assert old@built(queue.HoldsAt(k)) && old@built(queue.LinkedAt(k));
      }
    }

    /** Reads block id of the disk into buf, from the list when it is there. */
    method ReadBlock(id: nat, buf: array<Byte>)
      requires Valid() && id != FILLER && Start(size, id) + size <= disk.size && size <= buf.Length
      requires buf !in mru.Buffers()
      modifies this`misses, mru, mru.Nodes(), mru.Buffers(), buf
      ensures Valid() && mru.entries == ReadList(disk, size, old(mru.entries), id)
      ensures buf[..] == Written(old(buf[..]), 0, BlockOf(disk, size, id))
      ensures misses == old(misses) + if Hit(old(mru.entries), id) then 0 else 1
    {
      ReadAgrees(disk, size, mru.entries, id);
      var found := mru.Contains(id);
      if found {
        CopyFront(mru, buf);
      } else {
        misses := misses + 1;
        Fetch(id, buf);
      }
    }

    /** Reads the block from the disk and keeps it in the list. */
    method Fetch(id: nat, buf: array<Byte>)
      requires Wf(disk) && disk.Disk? && mru.size == size && mru.Valid() && |mru.spine| == ENTRIES
      requires Start(size, id) + size <= disk.size && size <= buf.Length && buf !in mru.Buffers()
      modifies mru, mru.Nodes(), mru.Buffers(), buf
      ensures mru.Valid() && |mru.spine| == ENTRIES
      ensures mru.entries == Replace(old(mru.entries), Entry(id, BlockOf(disk, size, id)))
      ensures buf[..] == Written(old(buf[..]), 0, BlockOf(disk, size, id))
    {
      FetchBytes(mru, disk, size, id, buf);
      assert buf[..size] == BlockOf(disk, size, id);
      mru.Add(id, buf);
    }
  }

  /** Copies what the front node holds. */
  method CopyFront(mru: MruQueue, buf: array<Byte>)
    requires mru.Valid() && mru.size <= buf.Length && buf !in mru.Buffers()
    modifies buf
    ensures mru.Valid() && mru.HoldsAt(0) && buf[..] == Written(old(buf[..]), 0, mru.entries[0].bytes)
  {
    var node := mru.first;
    assert mru.HoldsAt(0);
    CopyOut(node.buffer, 0, mru.size, buf, 0);
    assert node.buffer[0..mru.size] == node.buffer[..];
    assert forall k :: 0 <= k < |mru.spine| ==> old(mru.HoldsAt(k)) ==> mru.HoldsAt(k);
  }

  /** Reading into another buffer leaves the list as it is. */
  method FetchBytes(mru: MruQueue, disk: Device, size: nat, id: nat, buf: array<Byte>)
    requires mru.Valid() && buf !in mru.Buffers()
    requires Wf(disk) && disk.Disk? && Start(size, id) + size <= disk.size && size <= buf.Length
    modifies buf
    ensures mru.Valid() && buf[..] == Written(old(buf[..]), 0, BlockOf(disk, size, id))
  {
    ReadFromDisk(disk, size, id, buf);
    forall k | 0 <= k < |mru.spine| ensures mru.HoldsAt(k) && mru.LinkedAt(k) {
      assert old(mru.HoldsAt(k)) && old(mru.LinkedAt(k));
    }
  }

  method ReadFromDisk(disk: Device, size: nat, id: nat, buf: array<Byte>)
    requires Wf(disk) && disk.Disk? && Start(size, id) + size <= disk.size && size <= buf.Length
    modifies buf
    ensures buf[..] == Written(old(buf[..]), 0, BlockOf(disk, size, id))
  {
    var x := Multiply(id, size);
    DiskReadable(disk, x, Available(disk, x, size));
    var ok, cnt := ReadAll(disk, x % WORD_LIMIT, size, buf, 0);
  }

  lemma AgreesAtFirst(disk: Device, size: nat, list: seq<Entry>)
    requires Ids(list) == Fillers(ENTRIES)
    ensures Agrees(disk, size, list)
  {
    assert |Ids(list)| == |list|;
    forall k | 0 <= k < |list| ensures list[k].id == FILLER {
      assert Ids(list)[k] == FILLER;
    }
  }
}

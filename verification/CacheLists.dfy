/** The block cache as a list of entries, most recently used first. */
module CacheLists {
  import opened Blocks
  import opened BlockReads

  const ENTRIES := 16
  /** The id of an entry that holds no block. */
  const FILLER := 0xFFFF_FFFF

  datatype Entry = Entry(id: nat, bytes: seq<Byte>)

  function Ids(list: seq<Entry>): seq<nat> {
    seq(|list|, k requires 0 <= k < |list| => list[k].id)
  }

  /** The place of the first entry with that id, or the length of the list. */
  function Find(list: seq<Entry>, id: nat): nat
    ensures Find(list, id) <= |list|
    ensures Find(list, id) < |list| ==> list[Find(list, id)].id == id
    ensures forall k :: 0 <= k < Find(list, id) ==> list[k].id != id
  {
    if list == [] || list[0].id == id then 0 else 1 + Find(list[1..], id)
  }

  predicate Hit(list: seq<Entry>, id: nat) {
    Find(list, id) < |list|
  }

  /** Moves entry k to the front. */
  function ToFront(list: seq<Entry>, k: nat): seq<Entry>
    requires k < |list|
  {
    [list[k]] + list[..k] + list[k + 1..]
  }

  /** Reuses the last entry for a new block, at the front. */
  function Replace(list: seq<Entry>, e: Entry): seq<Entry> {
    if list == [] then [] else [e] + list[..|list| - 1]
  }

  /** Block id of the disk in blocks of the cache's size. */
  function BlockOf(disk: Device, size: nat, id: nat): seq<Byte> {
    Slice(disk, Start(size, id), size)
  }

  /** The list after reading block id. */
  function ReadList(disk: Device, size: nat, list: seq<Entry>, id: nat): seq<Entry> {
    if Hit(list, id) then ToFront(list, Find(list, id)) else Replace(list, Entry(id, BlockOf(disk, size, id)))
  }

  function ReadLists(disk: Device, size: nat, list: seq<Entry>, ids: seq<nat>): seq<Entry> {
    if ids == [] then list
    else ReadList(disk, size, ReadLists(disk, size, list, ids[..|ids| - 1]), ids[|ids| - 1])
  }

  // ---- What the cache is for ----

  /** Every entry that holds a block holds the disk's bytes of it. */
  ghost predicate Agrees(disk: Device, size: nat, list: seq<Entry>) {
    forall k :: 0 <= k < |list| && list[k].id != FILLER ==> list[k].bytes == BlockOf(disk, size, list[k].id)
  }

  /** A read answers with the disk's bytes, and the front entry holds them. */
  lemma ReadAgrees(disk: Device, size: nat, list: seq<Entry>, id: nat)
    requires Agrees(disk, size, list) && list != [] && id != FILLER
    ensures var list' := ReadList(disk, size, list, id);
            Agrees(disk, size, list') && |list'| == |list| && list'[0] == Entry(id, BlockOf(disk, size, id))
  {
  }

  // ---- Recency ----

  function Without(ids: seq<nat>, id: nat): seq<nat> {
    if ids == [] then [] else if ids[0] == id then Without(ids[1..], id) else [ids[0]] + Without(ids[1..], id)
  }

  /** The distinct ids of a sequence of reads, the most recent first. */
  function Recent(ids: seq<nat>): seq<nat> {
    if ids == [] then [] else [ids[|ids| - 1]] + Without(Recent(ids[..|ids| - 1]), ids[|ids| - 1])
  }

  function Fillers(n: nat): seq<nat> {
    seq(n, _ => FILLER)
  }

  /** The ids that the list should hold. */
  function Expected(ids: seq<nat>): seq<nat> {
    (Recent(ids) + Fillers(ENTRIES))[..ENTRIES]
  }

  lemma {:induction false} WithoutMembers(ids: seq<nat>, id: nat, x: nat)
    ensures x in Without(ids, id) <==> x in ids && x != id
  {
    if ids != [] {
      assert ids == [ids[0]] + ids[1..];
      WithoutMembers(ids[1..], id, x);
    }
  }

  lemma {:induction false} WithoutAbsent(ids: seq<nat>, id: nat)
    requires id !in ids
    ensures Without(ids, id) == ids
  {
    if ids != [] {
      WithoutAbsent(ids[1..], id);
    }
  }

  /** Taking out the one place where the id stands. */
  lemma {:induction false} WithoutAt(ids: seq<nat>, k: nat)
    requires k < |ids| && ids[k] !in ids[..k] && ids[k] !in ids[k + 1..]
    ensures Without(ids, ids[k]) == ids[..k] + ids[k + 1..]
  {
    if k == 0 {
      WithoutAbsent(ids[1..], ids[0]);
    } else {
      assert ids[0] in ids[..k];
      assert ids[1..][..k - 1] == ids[1..k] && ids[1..][k..] == ids[k + 1..];
      forall x | x in ids[1..k] ensures x in ids[..k] {
      }
      WithoutAt(ids[1..], k - 1);
    }
  }

  ghost predicate Distinct(ids: seq<nat>) {
    forall k, l :: 0 <= k < l < |ids| ==> ids[k] != ids[l]
  }

  lemma {:induction false} RecentMembers(ids: seq<nat>, x: nat)
    ensures x in Recent(ids) <==> x in ids
  {
    if ids != [] {
      var n := |ids| - 1;
      assert ids == ids[..n] + [ids[n]];
      RecentMembers(ids[..n], x);
      WithoutMembers(Recent(ids[..n]), ids[n], x);
    }
  }

  lemma {:induction false} WithoutDistinct(ids: seq<nat>, id: nat)
    requires Distinct(ids)
    ensures Distinct(Without(ids, id))
  {
    if ids != [] {
      WithoutDistinct(ids[1..], id);
      WithoutMembers(ids[1..], id, ids[0]);
    }
  }

  lemma {:induction false} RecentDistinct(ids: seq<nat>)
    ensures Distinct(Recent(ids))
  {
    if ids != [] {
      var n := |ids| - 1;
      RecentDistinct(ids[..n]);
      WithoutDistinct(Recent(ids[..n]), ids[n]);
      WithoutMembers(Recent(ids[..n]), ids[n], ids[n]);
    }
  }

  /** A further read of id, as a change to the expected ids. */
  lemma ExpectedStep(ids: seq<nat>, id: nat)
    requires id != FILLER && FILLER !in ids
    ensures var e := Expected(ids);
            Expected(ids + [id]) == if id in e then [id] + Without(e, id) else [id] + e[..ENTRIES - 1]
  {
    var r := Recent(ids);
    var all := ids + [id];
    assert all[..|all| - 1] == ids;
    assert Recent(all) == [id] + Without(r, id);
    RecentDistinct(ids);
    RecentMembers(ids, FILLER);
    if id in r {
      var k :| 0 <= k < |r| && r[k] == id;
      WithoutAt(r, k);
      ExpectedMoves(r, k, id);
    } else {
      WithoutAbsent(r, id);
      var e := Expected(ids);
      forall k | 0 <= k < |e| ensures e[k] != id {
      }
    }
  }

  lemma ExpectedMoves(r: seq<nat>, k: nat, id: nat)
    requires Distinct(r) && k < |r| && r[k] == id && id != FILLER
    ensures var e := (r + Fillers(ENTRIES))[..ENTRIES];
            ([id] + (r[..k] + r[k + 1..]) + Fillers(ENTRIES))[..ENTRIES]
            == if id in e then [id] + Without(e, id) else [id] + e[..ENTRIES - 1]
  {
    var e := (r + Fillers(ENTRIES))[..ENTRIES];
    if k < ENTRIES {
      assert e[k] == id;
      forall l | 0 <= l < ENTRIES && l != k ensures e[l] != id {
      }
      WithoutAt(e, k);
      var u, v := ([id] + (r[..k] + r[k + 1..]) + Fillers(ENTRIES))[..ENTRIES], [id] + (e[..k] + e[k + 1..]);
      assert |u| == |v|;
      forall j | 0 <= j < ENTRIES ensures u[j] == v[j] {
        if 0 < j <= k {
          assert u[j] == r[j - 1] == e[j - 1];
        } else if k < j {
          assert v[j] == e[j];
          assert u[j] == if j < |r| then r[j] else FILLER;
        }
      }
      assert u == v;
    } else {
      forall l | 0 <= l < ENTRIES ensures e[l] != id {
      }
    }
  }

  // ---- The cache over whole runs ----

  lemma IdsToFront(list: seq<Entry>, k: nat)
    requires k < |list|
    ensures Ids(ToFront(list, k)) == [list[k].id] + (Ids(list)[..k] + Ids(list)[k + 1..])
  {
  }

  lemma IdsReplace(list: seq<Entry>, e: Entry)
    requires list != []
    ensures Ids(Replace(list, e)) == [e.id] + Ids(list)[..|list| - 1]
  {
  }

  /** The ids a read leaves: the block read, and the others in their order. */
  lemma ReadIds(disk: Device, size: nat, list: seq<Entry>, id: nat, ids: seq<nat>)
    requires |list| == ENTRIES && Ids(list) == Expected(ids) && id != FILLER && FILLER !in ids
    ensures Hit(list, id) <==> id in Expected(ids)
    ensures Ids(ReadList(disk, size, list, id)) == Expected(ids + [id])
  {
    var e := Expected(ids);
    ExpectedStep(ids, id);
    var k := Find(list, id);
    if k < |list| {
      assert e[k] == id;
      ExpectedOnce(ids, k, id);
      WithoutAt(e, k);
      IdsToFront(list, k);
    } else {
      assert id !in e;
      IdsReplace(list, Entry(id, BlockOf(disk, size, id)));
    }
  }

  lemma ExpectedOnce(ids: seq<nat>, k: nat, id: nat)
    requires k < ENTRIES && Expected(ids)[k] == id && id != FILLER
    ensures id !in Expected(ids)[..k] && id !in Expected(ids)[k + 1..]
  {
    RecentDistinct(ids);
  }

  /** After any reads: the entries are the most recently read distinct blocks, in that order, and then
      fillers; each holds the disk's bytes. */
  lemma {:induction false} EveryRun(disk: Device, size: nat, list: seq<Entry>, ids: seq<nat>)
    requires Ids(list) == Fillers(ENTRIES) && FILLER !in ids
    ensures var list' := ReadLists(disk, size, list, ids);
            |list'| == ENTRIES && Ids(list') == Expected(ids) && Agrees(disk, size, list')
  {
    if ids == [] {
      assert |Ids(list)| == |list|;
      assert Expected(ids) == Fillers(ENTRIES);
      forall k | 0 <= k < |list| ensures list[k].id == FILLER {
        assert Ids(list)[k] == FILLER;
      }
    } else {
      var n := |ids| - 1;
      EveryRun(disk, size, list, ids[..n]);
      assert ids[n] in ids && ids == ids[..n] + [ids[n]];
      ReadIds(disk, size, ReadLists(disk, size, list, ids[..n]), ids[n], ids[..n]);
      ReadAgrees(disk, size, ReadLists(disk, size, list, ids[..n]), ids[n]);
    }
  }

  /** Rereading a block does no disk read exactly when it is among the sixteen most recently read. */
  lemma HitWhen(disk: Device, size: nat, list: seq<Entry>, ids: seq<nat>, id: nat)
    requires Ids(list) == Fillers(ENTRIES) && FILLER !in ids && id != FILLER
    ensures Hit(ReadLists(disk, size, list, ids), id)
            <==> id in Recent(ids)[..if |Recent(ids)| < 16 then |Recent(ids)| else 16]
  {
    EveryRun(disk, size, list, ids);
    ReadIds(disk, size, ReadLists(disk, size, list, ids), id, ids);
    var e, r := Expected(ids), Recent(ids);
    var n := if |r| < ENTRIES then |r| else ENTRIES;
    assert e == r[..n] + Fillers(ENTRIES - n);
  }
}

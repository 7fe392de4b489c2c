/** Reading byte ranges from devices that only read whole blocks: a disk, and a file on the disk. */
module BlockReads {
  import opened Words
  import opened Blocks

  const SECTOR := 512
  const DIRECT := 12

  newtype Byte = x: int | 0 <= x < 0x100

  /** A disk, which reports a size whatever it holds, or an ext2 inode on a disk. */
  datatype Device =
    | Disk(blockSize: nat, size: nat, data: seq<Byte>)
    | Inode(disk: Device, blockSize: nat, size: nat, sectors: nat, direct: seq<nat>, indirect: nat)

  predicate Wf(d: Device) {
    && 0 < d.blockSize && d.size < WORD_LIMIT
    && (d.Inode? ==> d.disk.Disk? && Wf(d.disk) && SECTOR <= d.blockSize && |d.direct| == DIRECT)
  }

  // ---- What a device holds ----

  /** Byte x of the device.  A file's bytes lie on the disk, each block where the block map says. */
  function ByteAt(d: Device, x: nat): Byte
    decreases d, 0
  {
    match d
    case Disk(_, _, data) => if x < |data| then data[x] else 0
    case Inode(disk, blockSize, _, _, _, _) => ByteAt(disk, Address(d, BlockAt(blockSize, x)) + Within(blockSize, x))
  }

  /** The four bytes at x as a little-endian number. */
  function WordAt(d: Device, x: nat): nat
    decreases d, 1
  {
    ByteAt(d, x) as int + 0x100 * (ByteAt(d, x + 1) as int) + 0x1_0000 * (ByteAt(d, x + 2) as int)
    + 0x100_0000 * (ByteAt(d, x + 3) as int)
  }

  /** Where the block map keeps the number of block b: for the first twelve in the inode itself, for the
      others in the indirect block. */
  function IndirectEntry(d: Device, b: nat): nat
    requires d.Inode? && b >= DIRECT
  {
    (Start(d.blockSize, d.indirect) + (b - DIRECT) * 4) % WORD_LIMIT
  }

  function BlockNumber(d: Device, b: nat): nat
    requires d.Inode?
    decreases d, 0, 0
  {
    if b < |d.direct| then d.direct[b] else if b >= DIRECT then WordAt(d.disk, IndirectEntry(d, b)) else 0
  }

  /** The disk address of block b of a file, in 32-bit arithmetic. */
  function Address(d: Device, b: nat): nat
    requires d.Inode?
    decreases d, 0, 1
  {
    Start(d.blockSize, BlockNumber(d, b)) % WORD_LIMIT
  }

  function Slice(d: Device, x: nat, n: nat): seq<Byte> {
    seq(n, k requires 0 <= k < n => ByteAt(d, x + k))
  }

  /** Block b can be read: it is in the block map, and what the map names is on the disk. */
  predicate Readable(d: Device, b: nat) {
    d.Inode? ==>
      && SECTOR <= d.blockSize && b < d.sectors / (d.blockSize / SECTOR) && b < DIRECT + d.blockSize / 4
      && (b >= DIRECT ==> IndirectEntry(d, b) + 4 <= d.disk.size)
      && Address(d, b) + d.blockSize <= d.disk.size
  }

  /** How many of n bytes from x on there are. */
  function Available(d: Device, x: nat, n: nat): nat {
    if x >= d.size then 0 else if n < d.size - x then n else d.size - x
  }

  ghost predicate BlocksReadable(d: Device, first: int, last: int) {
    forall b: nat :: first <= b <= last ==> Readable(d, b)
  }

  /** The blocks that hold bytes x up to x + n can be read. */
  ghost predicate RangeReadable(d: Device, x: nat, n: nat) {
    n > 0 ==> BlocksReadable(d, BlockAt(d.blockSize, x), BlockAt(d.blockSize, x + n - 1))
  }

  // ---- Slices and blocks ----

  lemma SliceJoins(d: Device, x: nat, m: nat, n: nat)
    ensures Slice(d, x, m) + Slice(d, x + m, n) == Slice(d, x, m + n)
  {
  }

  lemma SlicePart(d: Device, x: nat, n: nat, from: nat, m: nat)
    requires from + m <= n
    ensures Slice(d, x, n)[from..from + m] == Slice(d, x + from, m)
  {
  }

  /** Block b of the device. */
  function Block(d: Device, b: nat): seq<Byte> {
    Slice(d, Start(d.blockSize, b), d.blockSize)
  }

  /** A block of a file is the block of the disk that the map names. */
  lemma FileBlock(d: Device, b: nat)
    requires Wf(d) && d.Inode?
    ensures Block(d, b) == Slice(d.disk, Address(d, b), d.blockSize)
  {
    var s, t := Block(d, b), Slice(d.disk, Address(d, b), d.blockSize);
    forall k: nat | k < d.blockSize ensures s[k] == t[k] {
      SplitOf(d.blockSize, b, k);
    }
  }

  /** A range within one block is a range of that block. */
  lemma BlockHolds(d: Device, x: nat, m: nat)
    requires 0 < d.blockSize && Within(d.blockSize, x) + m <= d.blockSize
    ensures var from := Within(d.blockSize, x);
            Block(d, BlockAt(d.blockSize, x))[from..from + m] == Slice(d, x, m)
    ensures m == d.blockSize ==> Block(d, BlockAt(d.blockSize, x)) == Slice(d, x, m)
  {
    SplitIs(d.blockSize, x);
    SlicePart(d, Start(d.blockSize, BlockAt(d.blockSize, x)), d.blockSize, Within(d.blockSize, x), m);
  }

  /** One more piece, which lies in one block. */
  lemma RangeGrows(d: Device, x: nat, n: nat, m: nat)
    requires 0 < d.blockSize && 0 < m && Within(d.blockSize, x + n) + m <= d.blockSize
    ensures RangeReadable(d, x, n + m) <==> RangeReadable(d, x, n) && Readable(d, BlockAt(d.blockSize, x + n))
  {
    var s := d.blockSize;
    PieceIs(s, x + n, m);
    Monotone(s, x, x + n);
    assert x + n + m - 1 == x + (n + m) - 1;
    if n == 0 {
      assert BlocksReadable(d, BlockAt(s, x), BlockAt(s, x)) <==> Readable(d, BlockAt(s, x));
    } else {
      BlocksGrow(d, BlockAt(s, x), BlockAt(s, x + n - 1), BlockAt(s, x + n));
    }
  }

  lemma BlocksGrow(d: Device, first: nat, last: nat, next: nat)
    requires first <= next && (last == next || last == next - 1)
    ensures BlocksReadable(d, first, next) <==> BlocksReadable(d, first, last) && Readable(d, next)
  {
  }

  lemma RangeShrinks(d: Device, x: nat, m: nat, n: nat)
    requires m <= n
    ensures RangeReadable(d, x, n) ==> RangeReadable(d, x, m)
  {
    if m > 0 {
      Monotone(d.blockSize, x + m - 1, x + n - 1);
    }
  }

  // ---- The reads ----

  /** The array with the bytes written at place `at`. */
  ghost function Written(old': seq<Byte>, at: nat, bytes: seq<Byte>): seq<Byte>
    requires at + |bytes| <= |old'|
  {
    old'[..at] + bytes + old'[at + |bytes|..]
  }

  lemma WrittenNext(old': seq<Byte>, at: nat, s: seq<Byte>, v: Byte)
    requires at + |s| < |old'|
    ensures Written(old', at, s)[at + |s| := v] == Written(old', at, s + [v])
  {
  }

  /** One more byte of a sector. */
  lemma SectorStep(old': seq<Byte>, at: nat, d: Device, start: nat, k: nat)
    requires at + k < |old'|
    ensures Written(old', at, Slice(d, start, k))[at + k := ByteAt(d, start + k)]
              == Written(old', at, Slice(d, start, k + 1))
  {
    WrittenNext(old', at, Slice(d, start, k), ByteAt(d, start + k));
    assert Slice(d, start, k) + [ByteAt(d, start + k)] == Slice(d, start, k + 1);
  }

  /** The hardware's read of one sector. */
  method ReadSector(d: Device, b: nat, buf: array<Byte>, at: nat)
    requires d.Disk? && at + d.blockSize <= buf.Length
    modifies buf
    ensures buf[..] == Written(old(buf[..]), at, Block(d, b))
  {
    ghost var before := buf[..];
    var k := 0;
    var start := Multiply(b, d.blockSize);
    while k < d.blockSize
      invariant 0 <= k <= d.blockSize
      invariant buf[..] == Written(before, at, Slice(d, start, k))
    {
      SectorStep(before, at, d, start, k);
      buf[at + k] := ByteAt(d, start + k);
      k := k + 1;
    }
  }

  /** The number of block b of a file; not ok when it panics. */
  method FindBlock(d: Device, b: nat) returns (ok: bool, index: nat)
    requires Wf(d) && d.Inode?
    ensures ok <==> && b < d.sectors / (d.blockSize / SECTOR) && b < DIRECT + d.blockSize / 4
                    && (b >= DIRECT ==> IndirectEntry(d, b) + 4 <= d.disk.size)
    ensures ok ==> index == BlockNumber(d, b)
    decreases d, 0, 0
  {
    index := 0;
    if b >= d.sectors / (d.blockSize / SECTOR) {
      return false, 0;
    }
    if b < DIRECT {
      return true, d.direct[b];
    } else if b < DIRECT + d.blockSize / 4 {
      var start := Multiply(d.indirect, d.blockSize);
      ok, index := ReadWord(d.disk, (start + (b - DIRECT) * 4) % WORD_LIMIT);
    } else {
      return false, 0;
    }
  }

  /** Reads one block; not ok when it panics. */
  method ReadBlock(d: Device, b: nat, buf: array<Byte>, at: nat) returns (ok: bool)
    requires Wf(d) && at + d.blockSize <= buf.Length
    modifies buf
    ensures ok <==> Readable(d, b)
    ensures ok ==> buf[..] == Written(old(buf[..]), at, Block(d, b))
    decreases d, 0, 1
  {
    if d.Disk? {
      ReadSector(d, b, buf, at);
      return true;
    }
    var index, cnt;
    ok, index := FindBlock(d, b);
    if ok {
      var start := Multiply(index, d.blockSize);
      ok, cnt := ReadAll(d.disk, start % WORD_LIMIT, d.blockSize, buf, at);
      DiskReadable(d.disk, Address(d, b), Available(d.disk, Address(d, b), d.blockSize));
      ok := ok && cnt == d.blockSize;
      FileBlock(d, b);
    }
  }

  lemma DiskReadable(d: Device, x: nat, n: nat)
    requires d.Disk?
    ensures RangeReadable(d, x, n)
  {
  }

  /** Reads the four bytes of a number; not ok when they are not there. */
  method ReadWord(d: Device, x: nat) returns (ok: bool, w: nat)
    requires Wf(d) && d.Disk?
    ensures ok <==> x + 4 <= d.size
    ensures ok ==> w == WordAt(d, x)
    decreases d, 5
  {
    var bytes := new Byte[4];
    var cnt;
    ok, cnt := ReadAll(d, x, 4, bytes, 0);
    DiskReadable(d, x, Available(d, x, 4));
    if !ok || cnt != 4 {
      return false, 0;
    }
    assert bytes[..] == Slice(d, x, 4);
    w := bytes[0] as int + 0x100 * (bytes[1] as int) + 0x1_0000 * (bytes[2] as int) + 0x100_0000 * (bytes[3] as int);
    assert bytes[0] == Slice(d, x, 4)[0] && bytes[1] == Slice(d, x, 4)[1] && bytes[2] == Slice(d, x, 4)[2]
           && bytes[3] == Slice(d, x, 4)[3];
  }

  /** How many bytes one read gives: those up to the end of the block, of the request, and of the device. */
  function Piece(d: Device, x: nat, n: nat): int {
    var left := d.blockSize - Within(d.blockSize, x);
    if left < Available(d, x, n) then left else Available(d, x, n)
  }

  /** Reads m bytes from x on, all in one block, through a temporary block unless it is the whole one. */
  method ReadWithin(d: Device, b: nat, from: nat, m: nat, buf: array<Byte>, at: nat, ghost x: nat) returns (ok: bool)
    requires Wf(d) && b == BlockAt(d.blockSize, x) && from == Within(d.blockSize, x) && from + m <= d.blockSize
    requires at + m <= buf.Length
    modifies buf
    ensures ok <==> Readable(d, b)
    ensures ok ==> buf[..] == Written(old(buf[..]), at, Slice(d, x, m))
    decreases d, 1
  {
    BlockHolds(d, x, m);
    if m == d.blockSize {
      ok := ReadBlock(d, b, buf, at);
    } else {
      var temp := new Byte[d.blockSize];
      ok := ReadBlock(d, b, temp, 0);
      if ok {
        assert temp[..] == Block(d, b);
        CopyOut(temp, from, m, buf, at);
      }
    }
  }

  method Read(d: Device, x: nat, n: nat, buf: array<Byte>, at: nat) returns (ok: bool, cnt: int)
    requires Wf(d) && at + Available(d, x, n) <= buf.Length
    modifies buf
    ensures x >= d.size ==> ok && cnt == (if x == d.size then 0 else -1) && buf[..] == old(buf[..])
    ensures x < d.size ==> (ok <==> Readable(d, BlockAt(d.blockSize, x)))
    ensures x < d.size && ok ==> cnt == Piece(d, x, n) >= 0 && buf[..] == Written(old(buf[..]), at, Slice(d, x, cnt))
    decreases d, 2
  {
    if x > d.size {
      return true, -1;
    }
    if x == d.size {
      return true, 0;
    }
    var m := if n < d.size - x then n else d.size - x;
    var b, from := Split(x, d.blockSize);
    SplitIs(d.blockSize, x);
    if d.blockSize - from < m {
      m := d.blockSize - from;
    }
    cnt := m;
    ok := ReadWithin(d, b, from, m, buf, at, x);
  }

  method CopyOut(temp: array<Byte>, from: nat, m: nat, buf: array<Byte>, at: nat)
    requires temp != buf && from + m <= temp.Length && at + m <= buf.Length
    modifies buf
    ensures buf[..] == Written(old(buf[..]), at, temp[from..from + m])
  {
    var k := 0;
    while k < m
      invariant 0 <= k <= m
      invariant buf[..] == Written(old(buf[..]), at, temp[from..from + k])
    {
      WrittenNext(old(buf[..]), at, temp[from..from + k], temp[from + k]);
      assert temp[from..from + (k + 1)] == temp[from..from + k] + [temp[from + k]];
      buf[at + k] := temp[from + k];
      k := k + 1;
    }
  }

  lemma WriteMore(old': seq<Byte>, at: nat, d: Device, x: nat, m: nat, n: nat)
    requires at + m + n <= |old'|
    ensures Written(Written(old', at, Slice(d, x, m)), at + m, Slice(d, x + m, n))
              == Written(old', at, Slice(d, x, m + n))
  {
    SliceJoins(d, x, m, n);
  }

  /** After cnt of the n bytes from x on. */
  ghost predicate Progress(d: Device, x: nat, n: nat, cnt: nat) {
    && cnt <= n && (cnt > 0 ==> x + cnt <= d.size)
    && cnt + Available(d, x + cnt, n - cnt) == Available(d, x, n)
    && RangeReadable(d, x, cnt)
  }

  /** One more piece gets on, unless its block cannot be read. */
  lemma Advance(d: Device, x: nat, n: nat, cnt: nat, c: int)
    requires 0 < d.blockSize && Progress(d, x, n, cnt) && cnt < n && x + cnt < d.size && c == Piece(d, x + cnt, n - cnt)
    ensures 0 < c && Readable(d, BlockAt(d.blockSize, x + cnt)) ==> Progress(d, x, n, cnt + c)
    ensures 0 < c
    ensures !Readable(d, BlockAt(d.blockSize, x + cnt)) ==> !RangeReadable(d, x, Available(d, x, n))
  {
    SplitIs(d.blockSize, x + cnt);
    RangeGrows(d, x, cnt, c);
    RangeShrinks(d, x, cnt + c, Available(d, x, n));
  }

  lemma Arrived(d: Device, x: nat, n: nat, cnt: nat)
    requires Progress(d, x, n, cnt) && x <= d.size && (cnt == n || x + cnt >= d.size)
    ensures cnt == Available(d, x, n) && RangeReadable(d, x, Available(d, x, n))
  {
  }

  /** The next piece after cnt of the n bytes from x on. */
  method ReadPiece(d: Device, x: nat, n: nat, cnt: nat, buf: array<Byte>, at: nat) returns (ok: bool, c: int)
    requires Wf(d) && Progress(d, x, n, cnt) && cnt < n && at + Available(d, x, n) <= buf.Length
    modifies buf
    ensures !ok ==> x <= d.size && !RangeReadable(d, x, Available(d, x, n))
    ensures ok && c <= 0 ==> buf[..] == old(buf[..]) && if c < 0 then x > d.size && c == -1 else x + cnt == d.size
    ensures ok && c > 0 ==> && Progress(d, x, n, cnt + c) && at + cnt + c <= buf.Length
                            && buf[..] == Written(old(buf[..]), at + cnt, Slice(d, x + cnt, c))
    decreases d, 3, 0
  {
    if x + cnt < d.size { Advance(d, x, n, cnt, Piece(d, x + cnt, n - cnt)); }
    ok, c := Read(d, x + cnt, n - cnt, buf, at + cnt);
  }

  /** The buffer holds the first cnt of the bytes from x on, and what it held `before` elsewhere. */
  ghost predicate Filled(before: seq<Byte>, at: nat, d: Device, x: nat, cnt: nat, now: seq<Byte>) {
    at + cnt <= |before| && now == Written(before, at, Slice(d, x, cnt))
  }

  lemma FilledNothing(before: seq<Byte>, at: nat, d: Device, x: nat)
    requires at <= |before|
    ensures Filled(before, at, d, x, 0, before)
  {
  }

  /** What all of a read leaves behind. */
  ghost predicate Finished(d: Device, x: nat, n: nat, ok: bool, cnt: int, before: seq<Byte>, at: nat, now: seq<Byte>) {
    && (x > d.size ==> ok && cnt == (if n == 0 then 0 else -1) && now == before)
    && (x <= d.size ==> (ok <==> RangeReadable(d, x, Available(d, x, n))))
    && (x <= d.size && ok ==> cnt == Available(d, x, n) && Filled(before, at, d, x, cnt, now))
  }

  /** Nothing has been read beyond the end. */
  lemma FinishedBeyond(d: Device, x: nat, n: nat, cnt: nat, before: seq<Byte>, at: nat, now: seq<Byte>)
    requires Progress(d, x, n, cnt) && Filled(before, at, d, x, cnt, now) && x > d.size
    ensures now == before && cnt == 0
  {
  }

  /** All has been read, or the end has been reached. */
  lemma FinishedHere(d: Device, x: nat, n: nat, cnt: nat, before: seq<Byte>, at: nat, now: seq<Byte>)
    requires Progress(d, x, n, cnt) && Filled(before, at, d, x, cnt, now) && (cnt == n || x + cnt == d.size)
    ensures Finished(d, x, n, true, cnt, before, at, now)
  {
    if x <= d.size {
      Arrived(d, x, n, cnt);
    } else {
      FinishedBeyond(d, x, n, cnt, before, at, now);
    }
  }

  /** One piece more, or the end of it all. */
  method ReadMore(d: Device, x: nat, n: nat, cnt: nat, buf: array<Byte>, at: nat, ghost before: seq<Byte>)
    returns (done: bool, ok: bool, cnt': int)
    requires Wf(d) && Progress(d, x, n, cnt) && cnt < n && at + Available(d, x, n) <= buf.Length
    requires Filled(before, at, d, x, cnt, buf[..])
    modifies buf
    ensures done ==> Finished(d, x, n, ok, cnt', before, at, buf[..])
    ensures !done ==> cnt < cnt' <= n && Progress(d, x, n, cnt') && Filled(before, at, d, x, cnt', buf[..])
    decreases d, 3, 1
  {
    var c;
    ok, c := ReadPiece(d, x, n, cnt, buf, at);
    if !ok {
      return true, false, cnt;
    }
    if c < 0 {
      FinishedBeyond(d, x, n, cnt, before, at, buf[..]);
      return true, true, c;
    }
    if c == 0 {
      FinishedHere(d, x, n, cnt, before, at, buf[..]);
      return true, true, cnt;
    }
    WriteMore(before, at, d, x, cnt, c);
    return false, true, cnt + c;
  }

  /** Reads all of n bytes from x that the device has. */
  method ReadAll(d: Device, x: nat, n: nat, buf: array<Byte>, at: nat) returns (ok: bool, cnt: int)
    requires Wf(d) && at + Available(d, x, n) <= buf.Length
    modifies buf
    ensures x > d.size ==> ok && cnt == (if n == 0 then 0 else -1) && buf[..] == old(buf[..])
    ensures x <= d.size ==> (ok <==> RangeReadable(d, x, Available(d, x, n)))
    ensures x <= d.size && ok ==> cnt == Available(d, x, n) && buf[..] == Written(old(buf[..]), at, Slice(d, x, cnt))
    decreases d, 4
  {
    ghost var before := buf[..];
    cnt := 0;
    FilledNothing(before, at, d, x);
    while cnt < n
      invariant 0 <= cnt <= n && Progress(d, x, n, cnt) && Filled(before, at, d, x, cnt, buf[..])
      decreases n - cnt
    {
      var done;
      done, ok, cnt := ReadMore(d, x, n, cnt, buf, at, before);
      if done {
        return;
      }
    }
    ok := true;
    FinishedHere(d, x, n, cnt, before, at, buf[..]);
  }
}

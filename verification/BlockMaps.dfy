/** Files as lists of disk blocks: the first twelve in the inode, the others in the indirect block. */
module BlockMaps {
  import opened Words
  import opened Blocks
  import opened BlockReads

  /** The four bytes of a number, least significant first. */
  function Little(n: nat): seq<Byte> {
    [(n % 0x100) as Byte, (n / 0x100 % 0x100) as Byte, (n / 0x1_0000 % 0x100) as Byte, (n / 0x100_0000 % 0x100) as Byte]
  }

  /** The inode d is that of a file whose blocks are those of the disk that `blocks` lists. */
  ghost predicate Maps(d: Device, blocks: seq<nat>) {
    && Wf(d) && d.Inode?
    && |blocks| <= 12 + d.blockSize / 4 && |blocks| <= d.sectors / (d.blockSize / 512)
    && (|blocks| > 12 ==> (d.indirect + 1) * d.blockSize <= d.disk.size)
    && (forall b :: 0 <= b < |blocks| ==> (blocks[b] + 1) * d.blockSize <= d.disk.size)
    && (forall b :: 0 <= b < |blocks| && b < 12 ==> d.direct[b] == blocks[b])
    && (forall b :: 12 <= b < |blocks| ==> Slice(d.disk, Place(d, b), 4) == Little(blocks[b]))
  }

  /** Where the indirect block keeps the number of block b. */
  function Place(d: Device, b: nat): nat
    requires d.Inode? && b >= 12
  {
    d.indirect * d.blockSize + 4 * (b - 12)
  }

  lemma LittleIs(d: Device, x: nat, n: nat)
    requires n < WORD_LIMIT && Slice(d, x, 4) == Little(n)
    ensures WordAt(d, x) == n
  {
    var s := Slice(d, x, 4);
    assert s[0] == ByteAt(d, x) && s[1] == ByteAt(d, x + 1) && s[2] == ByteAt(d, x + 2) && s[3] == ByteAt(d, x + 3);
    assert n / 0x100 == 0x100 * (n / 0x1_0000) + n / 0x100 % 0x100;
    assert n / 0x1_0000 == 0x100 * (n / 0x100_0000) + n / 0x1_0000 % 0x100;
    assert n / 0x100_0000 < 0x100;
  }

  lemma Inside(d: Device, blocks: seq<nat>, b: nat)
    requires Maps(d, blocks) && 12 <= b < |blocks|
    ensures IndirectEntry(d, b) == Place(d, b) && Place(d, b) + 4 <= d.disk.size
  {
    assert Wf(d.disk);
    StartIsProduct(d.blockSize, d.indirect);
    Small(d.blockSize, d.indirect, d.disk.size);
    Entry(d.blockSize, b);
    NoWrap(d.indirect * d.blockSize, 4 * (b - 12), d.blockSize, d.disk.size);
  }

  lemma Entry(s: nat, b: nat)
    requires 12 <= b < 12 + s / 4
    ensures 4 * (b - 12) + 4 <= s
  {
  }

  lemma NoWrap(x: nat, y: nat, s: nat, size: nat)
    requires x + s <= size < WORD_LIMIT && y + 4 <= s
    ensures (x + y) % WORD_LIMIT == x + y && x + y + 4 <= size
  {
  }

  lemma NumberIs(d: Device, blocks: seq<nat>, b: nat)
    requires Maps(d, blocks) && b < |blocks|
    ensures BlockNumber(d, b) == blocks[b]
  {
    if b >= 12 {
      assert Wf(d.disk);
      Inside(d, blocks, b);
      Small(d.blockSize, blocks[b], d.disk.size);
      LittleIs(d.disk, Place(d, b), blocks[b]);
    }
  }

  lemma Small(s: nat, n: nat, size: nat)
    requires 0 < s && (n + 1) * s <= size < WORD_LIMIT
    ensures n * s < size && n < WORD_LIMIT && n * s + s <= size
  {
    assert (n + 1) * s == n * s + s;
    assert n * s >= n * 1;
  }

  /** Every block of the file can be read, and is the block of the disk that the list names. */
  lemma BlocksAre(d: Device, blocks: seq<nat>, b: nat)
    requires Maps(d, blocks) && b < |blocks|
    ensures Readable(d, b) && Block(d, b) == Slice(d.disk, blocks[b] * d.blockSize, d.blockSize)
  {
    assert Wf(d.disk);
    NumberIs(d, blocks, b);
    Small(d.blockSize, blocks[b], d.disk.size);
    StartIsProduct(d.blockSize, blocks[b]);
    assert Address(d, b) == blocks[b] * d.blockSize;
    FileBlock(d, b);
    if b >= 12 { Inside(d, blocks, b); }
  }

  /** Beyond the list's room a file has no block: with blocks of a kilobyte, from 268 on. */
  lemma LastBlock(d: Device, b: nat)
    requires Wf(d) && d.Inode? && d.blockSize == 1024
    ensures Readable(d, b) ==> b < 268 && b < d.sectors / 2
  {
  }
}

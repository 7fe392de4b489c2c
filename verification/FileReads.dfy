/** The read call on an open file: descriptors that share an offset read consecutive pieces. */
module FileReads {
  import opened Words
  import opened BlockReads

  /** How many bytes a call for `count` gets with the shared offset at `off`. */
  function Count(d: Device, off: nat, count: nat): nat {
    var left := (d.size - off) % WORD_LIMIT;
    if count > left then left else count
  }

  /** The bytes that each of a sequence of calls gets, by whichever descriptor it is made. */
  function Calls(d: Device, off: nat, counts: seq<nat>): seq<seq<Byte>>
    decreases |counts|
  {
    if counts == [] then []
    else [Slice(d, off, Count(d, off, counts[0]))] + Calls(d, off + Count(d, off, counts[0]), counts[1..])
  }

  /** The shared offset after them. */
  function OffsetAfter(d: Device, off: nat, counts: seq<nat>): nat
    decreases |counts|
  {
    if counts == [] then off else OffsetAfter(d, off + Count(d, off, counts[0]), counts[1..])
  }

  function Joined(pieces: seq<seq<Byte>>): seq<Byte> {
    if pieces == [] then [] else pieces[0] + Joined(pieces[1..])
  }

  /** A call gets the bytes asked for or those up to the end of the file: none exactly when none were
      asked for or the end has been reached. */
  lemma CountIs(d: Device, off: nat, count: nat)
    requires off <= d.size < WORD_LIMIT
    ensures Count(d, off, count) == Available(d, off, count) && off + Count(d, off, count) <= d.size
    ensures Count(d, off, count) == 0 <==> count == 0 || off == d.size
  {
  }

  /** Joined together, what successive calls get is one slice of the file: nothing is read twice and
      nothing is skipped. */
  lemma {:induction false} Consecutive(d: Device, off: nat, counts: seq<nat>)
    requires off <= d.size < WORD_LIMIT
    ensures off <= OffsetAfter(d, off, counts) <= d.size
    ensures Joined(Calls(d, off, counts)) == Slice(d, off, OffsetAfter(d, off, counts) - off)
    decreases |counts|
  {
    if counts == [] {
    } else {
      var c, rest := Count(d, off, counts[0]), counts[1..];
      CountIs(d, off, counts[0]);
      Consecutive(d, off + c, rest);
      CallsFirst(d, off, counts);
      JoinSlices(d, off, c, OffsetAfter(d, off + c, rest), Calls(d, off + c, rest));
    }
  }

  /** A first call, and then the others. */
  lemma CallsFirst(d: Device, off: nat, counts: seq<nat>)
    requires counts != []
    ensures var c, rest := Count(d, off, counts[0]), counts[1..];
            && Calls(d, off, counts) == [Slice(d, off, c)] + Calls(d, off + c, rest)
            && OffsetAfter(d, off, counts) == OffsetAfter(d, off + c, rest)
  {
  }

  lemma JoinSlices(d: Device, off: nat, c: nat, end: nat, pieces: seq<seq<Byte>>)
    requires off + c <= end && Joined(pieces) == Slice(d, off + c, end - (off + c))
    ensures Joined([Slice(d, off, c)] + pieces) == Slice(d, off, end - off)
  {
    JoinFirst(Slice(d, off, c), pieces);
    SliceJoins(d, off, c, end - (off + c));
  }

  lemma JoinFirst(piece: seq<Byte>, pieces: seq<seq<Byte>>)
    ensures Joined([piece] + pieces) == piece + Joined(pieces)
  {
    assert ([piece] + pieces)[1..] == pieces;
  }

  /** The end of the file is reached exactly when the calls ask for enough. */
  lemma {:induction false} ReachesEnd(d: Device, off: nat, counts: seq<nat>)
    requires off <= d.size < WORD_LIMIT
    ensures OffsetAfter(d, off, counts) == if off + Total(counts) < d.size then off + Total(counts) else d.size
    decreases |counts|
  {
    if counts != [] {
      CountIs(d, off, counts[0]);
      ReachesEnd(d, off + Count(d, off, counts[0]), counts[1..]);
    }
  }

  function Total(counts: seq<nat>): nat {
    if counts == [] then 0 else counts[0] + Total(counts[1..])
  }

  /** A file with the offset that all descriptors made from one open share. */
  class OpenFile {
    const file: Device
    var offset: nat

    ghost predicate Valid()
      reads this
    {
      Wf(file) && offset <= file.size
    }

    constructor (file: Device)
      requires Wf(file)
      ensures Valid() && this.file == file && offset == 0
    {
      this.file := file;
      offset := 0;
    }

    /** Not ok when a block of the range cannot be read, which panics. */
    method Read(count: nat, buf: array<Byte>) returns (ok: bool, n: int)
      requires Valid() && count < WORD_LIMIT && Count(file, offset, count) <= buf.Length
      modifies this`offset, buf
      ensures Valid() && offset == old(offset) + Count(file, old(offset), count)
      ensures ok <==> RangeReadable(file, old(offset), Count(file, old(offset), count))
      ensures ok ==> n == Count(file, old(offset), count)
      ensures ok ==> buf[..] == Written(old(buf[..]), 0, Slice(file, old(offset), n))
    {
      if count == 0 {
        return true, 0;
      }
      CountIs(file, offset, count);
      var left := (file.size - offset) % WORD_LIMIT;
      var c := if count > left then left else count;
      var at := offset;
      offset := offset + c;
      assert Available(file, at, c) == c;
      ok, n := ReadAll(file, at, c, buf, 0);
      if n == -1 {
        n := 0;
      }
    }
  }
}
